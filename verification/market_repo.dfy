/**
 * The markets table. Rows are never deleted and ids are handed out in
 * insertion order, so the market with id `k` is row `k - 1`.
 */
module MarketRepo {
  import opened Wrappers
  import opened Sides
  import opened Markets
  import opened RepoErrors
  import Pricing
  import Seqs

  /** The row after a close at `now`: only an unset `closedAt` on an unresolved market is set. */
  function CloseRow(m: Market, now: int): (r: Market)
    ensures m.closedAt.None? && !m.resolved ==> r == m.(closedAt := Some(now))
    ensures m.closedAt.Some? || m.resolved ==> r == m
    ensures forall later :: r.Status(later) != Active
  {
    if m.closedAt.None? && !m.resolved then m.(closedAt := Some(now)) else m
  }

  /** A second close changes nothing, whenever it happens. */
  lemma CloseIdempotent(m: Market, now: int, later: int)
    ensures CloseRow(CloseRow(m, now), later) == CloseRow(m, now)
  {
  }

  /** Closing an open market turns it from Active to Closed and changes nothing else. */
  lemma CloseEndsTrading(m: Market, now: int, t: int)
    requires m.Status(t) == Active
    ensures CloseRow(m, now).Status(t) == Closed
    ensures CloseRow(m, now).(closedAt := None) == m
  {
  }

  /** The row after the store's resolve: it checks only `resolved`, not whether the market has closed. */
  function ResolveRow(m: Market, o: bool): (r: Result<Market, RepositoryError>)
    ensures m.resolved ==> r == Failure(ConstraintViolation("Market already resolved or not found"))
    ensures !m.resolved ==> r == Success(m.(resolved := true, outcome := Some(o)))
  {
    if m.resolved then Failure(ConstraintViolation("Market already resolved or not found"))
    else Success(m.(resolved := true, outcome := Some(o)))
  }

  /**
   * The store's resolve agrees with the market's own rule whenever that rule
   * lets the resolution through, and also accepts a market still open.
   */
  lemma ResolveRowAgrees(m: Market, o: bool, now: int)
    ensures m.Resolve(o, now).Success? ==> ResolveRow(m, o) == Success(m.Resolve(o, now).value)
    ensures !m.resolved && m.Status(now) == Active ==> ResolveRow(m, o).Success? && m.Resolve(o, now).Failure?
  {
  }

  /** The table with the outstanding counts of market `id` replaced (no change if absent). */
  function SetOutstanding(ms: seq<Market>, id: int, q: (real, real)): (r: seq<Market>)
    ensures |r| == |ms|
    ensures forall i :: 0 <= i < |ms| && i != id - 1 ==> r[i] == ms[i]
    ensures 1 <= id <= |ms| ==> r[id - 1] == ms[id - 1].WithOutstanding(q)
  {
    if 1 <= id <= |ms| then ms[id - 1 := ms[id - 1].WithOutstanding(q)] else ms
  }

  /** The table with the legacy pools of market `id` replaced (no change if absent). */
  function SetPools(ms: seq<Market>, id: int, pools: (real, real)): (r: seq<Market>)
    ensures |r| == |ms|
    ensures forall i :: 0 <= i < |ms| && i != id - 1 ==> r[i] == ms[i]
    ensures 1 <= id <= |ms| ==> r[id - 1] == ms[id - 1].(yesPool := pools.0, noPool := pools.1)
  {
    if 1 <= id <= |ms| then ms[id - 1 := ms[id - 1].(yesPool := pools.0, noPool := pools.1)] else ms
  }

  /**
   * Writing back the pools a legacy buy leaves keeps their product, and
   * touches neither the LMSR counts nor any other market.
   */
  lemma PoolsAfterBuyKeepProduct(ms: seq<Market>, id: int, shares: real, side: MarketSide)
    requires 1 <= id <= |ms|
    requires Pricing.AmmBuyCost(ms[id - 1].yesPool, ms[id - 1].noPool, shares, side).Success?
    ensures var m := ms[id - 1];
      var cost := Pricing.AmmBuyCost(m.yesPool, m.noPool, shares, side).value;
      var after := Pricing.Traded(m.yesPool, m.noPool, side, -shares);
      var pools := Pricing.Traded(after.0, after.1, side.Opposite(), cost);
      var r := SetPools(ms, id, pools);
      && r[id - 1].yesPool * r[id - 1].noPool == m.yesPool * m.noPool
      && r[id - 1].qYes == m.qYes && r[id - 1].qNo == m.qNo
      && (forall i :: 0 <= i < |ms| && i != id - 1 ==> r[i] == ms[i])
  {
    var m := ms[id - 1];
    var cost := Pricing.AmmBuyCost(m.yesPool, m.noPool, shares, side).value;
    var after := Pricing.Traded(m.yesPool, m.noPool, side, -shares);
    var pools := Pricing.Traded(after.0, after.1, side.Opposite(), cost);
    match side {
      case Yes =>
        assert pools == (m.yesPool - shares, m.noPool + cost);
        assert pools.0 * pools.1 == m.yesPool * m.noPool;
      case No =>
        assert pools == (m.yesPool + cost, m.noPool - shares);
        assert pools.0 * pools.1 == m.yesPool * m.noPool;
    }
    var r := SetPools(ms, id, pools);
    assert r[id - 1].yesPool == pools.0 && r[id - 1].noPool == pools.1;
  }

  /** Whether the ids of `rows` are 1, 2, 3, ... in order. */
  ghost predicate IdsAreRowNumbers(rows: seq<Market>) {
    forall i :: 0 <= i < |rows| ==> rows[i].id == i + 1
  }

  /** The markets not yet resolved, in the order given. */
  function Unresolved(ms: seq<Market>): (r: seq<Market>)
    ensures forall m :: m in r <==> m in ms && !m.resolved
    ensures |r| <= |ms|
  {
    if |ms| == 0 then []
    else if ms[0].resolved then Unresolved(ms[1..])
    else [ms[0]] + Unresolved(ms[1..])
  }

  /** Ids strictly decreasing along the sequence: newest first. */
  ghost predicate NewestFirst(ms: seq<Market>) {
    forall i, j :: 0 <= i < j < |ms| ==> ms[i].id > ms[j].id
  }

  /** Putting a market in front of older ones keeps the sequence newest first. */
  lemma PrependNewest(m: Market, ms: seq<Market>)
    requires NewestFirst(ms)
    requires forall x :: x in ms ==> x.id < m.id
    ensures NewestFirst([m] + ms)
  {
    var r := [m] + ms;
    forall i, j | 0 <= i < j < |r| ensures r[i].id > r[j].id {
      assert r[j] == ms[j - 1];
      if i > 0 {
        assert r[i] == ms[i - 1];
      }
    }
  }

  /** Keeping the unresolved markets keeps the relative order. */
  lemma {:induction false} UnresolvedKeepsOrder(ms: seq<Market>)
    requires NewestFirst(ms)
    ensures NewestFirst(Unresolved(ms))
  {
    if |ms| > 0 {
      assert NewestFirst(ms[1..]) by {
        forall i, j | 0 <= i < j < |ms[1..]| ensures ms[1..][i].id > ms[1..][j].id {
          assert ms[1..][i] == ms[i + 1] && ms[1..][j] == ms[j + 1];
        }
      }
      UnresolvedKeepsOrder(ms[1..]);
      if !ms[0].resolved {
        forall x | x in Unresolved(ms[1..]) ensures x.id < ms[0].id {
          var k :| 0 <= k < |ms[1..]| && ms[1..][k] == x;
          assert ms[k + 1] == x;
        }
        PrependNewest(ms[0], Unresolved(ms[1..]));
      }
    }
  }

  class MarketTable {
    var rows: seq<Market>

    ghost predicate Valid()
      reads this
    {
      IdsAreRowNumbers(rows)
    }

    constructor ()
      ensures Valid() && rows == []
    {
      rows := [];
    }

    predicate Has(id: int)
      reads this
    {
      1 <= id <= |rows|
    }

    /** Inserts a fresh LMSR market with nothing outstanding and empty legacy pools. */
    method Create(question: string, description: Option<string>, creatorId: int, oracleId: Option<int>,
                  endDate: int, initialLiquidity: real, now: int) returns (m: Market)
      requires Valid()
      modifies this
      ensures Valid()
      ensures rows == old(rows) + [m]
      ensures m == NewLmsr(|old(rows)| + 1, question, description, creatorId, oracleId, endDate, initialLiquidity, now)
    {
      m := NewLmsr(|rows| + 1, question, description, creatorId, oracleId, endDate, initialLiquidity, now);
      rows := rows + [m];
    }

    /** The market with this id, or NotFound. */
    function FindById(id: int): (r: Result<Market, RepositoryError>)
      reads this
      requires Valid()
      ensures r.Success? <==> exists i :: 0 <= i < |rows| && rows[i].id == id
      ensures r.Success? ==> r.value.id == id && r.value in rows
      ensures r.Failure? ==> r.error == NotFound
    {
      if 1 <= id <= |rows| then Success(rows[id - 1]) else Failure(NotFound)
    }

    /** Every market, newest first. */
    function ListAll(): (r: seq<Market>)
      reads this
      requires Valid()
      ensures |r| == |rows|
      ensures forall m :: m in r <==> m in rows
      ensures NewestFirst(r)
    {
      Seqs.ReverseMembers(rows);
      Seqs.Reverse(rows)
    }

    /** The unresolved markets, newest first. */
    function ListActive(): (r: seq<Market>)
      reads this
      requires Valid()
      ensures forall m :: m in r <==> m in rows && !m.resolved
      ensures NewestFirst(r)
    {
      var all := ListAll();
      UnresolvedKeepsOrder(all);
      Unresolved(all)
    }

    /** Sets `closedAt` only on an open, unresolved market; otherwise a no-op. Never fails. */
    method Close(id: int, now: int)
      requires Valid()
      modifies this
      ensures Valid()
      ensures old(Has(id)) ==> rows == old(rows)[id - 1 := CloseRow(old(rows)[id - 1], now)]
      ensures !old(Has(id)) ==> rows == old(rows)
    {
      if 1 <= id <= |rows| {
        rows := rows[id - 1 := CloseRow(rows[id - 1], now)];
      }
    }

    /** Overwrites exactly the two outstanding counts of one market. */
    method UpdateOutstandingShares(id: int, qYes: real, qNo: real) returns (r: Result<(), RepositoryError>)
      requires Valid()
      modifies this
      ensures Valid()
      ensures r.Success? <==> old(Has(id))
      ensures rows == SetOutstanding(old(rows), id, (qYes, qNo))
      ensures r.Failure? ==> r.error == NotFound
    {
      if 1 <= id <= |rows| {
        rows := SetOutstanding(rows, id, (qYes, qNo));
        r := Success(());
      } else {
        r := Failure(NotFound);
      }
    }

    /** Overwrites exactly the two legacy pool sizes of one market. */
    method UpdatePools(id: int, yesPool: real, noPool: real) returns (r: Result<(), RepositoryError>)
      requires Valid()
      modifies this
      ensures Valid()
      ensures r.Success? <==> old(Has(id))
      ensures rows == SetPools(old(rows), id, (yesPool, noPool))
      ensures r.Failure? ==> r.error == NotFound
    {
      if 1 <= id <= |rows| {
        rows := SetPools(rows, id, (yesPool, noPool));
        r := Success(());
      } else {
        r := Failure(NotFound);
      }
    }

    /** Marks an unresolved market resolved with `outcome`; refuses a resolved or missing one. */
    method Resolve(id: int, outcome: bool) returns (r: Result<(), RepositoryError>)
      requires Valid()
      modifies this
      ensures Valid()
      ensures r.Success? <==> old(Has(id)) && !old(rows)[id - 1].resolved
      ensures r.Success? ==> rows == old(rows)[id - 1 := ResolveRow(old(rows)[id - 1], outcome).value]
      ensures r.Failure? ==> r == Failure(ConstraintViolation("Market already resolved or not found")) && rows == old(rows)
    {
      if 1 <= id <= |rows| && !rows[id - 1].resolved {
        rows := rows[id - 1 := ResolveRow(rows[id - 1], outcome).value];
        r := Success(());
      } else {
        r := Failure(ConstraintViolation("Market already resolved or not found"));
      }
    }
  }
}
