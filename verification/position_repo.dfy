/**
 * The positions table: at most one position per (user, market, side). Ids
 * are handed out in insertion order (position `k` is row `k - 1`).
 */
module PositionRepo {
  import opened Wrappers
  import opened Sides
  import opened Positions
  import opened RepoErrors

  predicate HasKey(p: Position, userId: int, marketId: int, side: MarketSide) {
    p.userId == userId && p.marketId == marketId && p.side == side
  }

  /** Where the position of (user, market, side) sits in `ps`, if anywhere. */
  function IndexOfKey(ps: seq<Position>, userId: int, marketId: int, side: MarketSide): (r: Option<nat>)
    ensures r.Some? ==> r.value < |ps| && HasKey(ps[r.value], userId, marketId, side)
    ensures r.None? <==> forall i :: 0 <= i < |ps| ==> !HasKey(ps[i], userId, marketId, side)
  {
    if |ps| == 0 then None
    else if HasKey(ps[|ps| - 1], userId, marketId, side) then Some(|ps| - 1)
    else IndexOfKey(ps[..|ps| - 1], userId, marketId, side)
  }

  /** The positions of `userId` that still hold shares, in the order given. */
  function HeldBy(ps: seq<Position>, userId: int): (r: seq<Position>)
    ensures forall p :: p in r <==> p in ps && p.userId == userId && p.shares > 0.0
    ensures |r| <= |ps|
  {
    if |ps| == 0 then []
    else if ps[0].userId == userId && ps[0].shares > 0.0 then [ps[0]] + HeldBy(ps[1..], userId)
    else HeldBy(ps[1..], userId)
  }

  /** The positions on `marketId` that still hold shares, in the order given. */
  function HeldIn(ps: seq<Position>, marketId: int): (r: seq<Position>)
    ensures forall p :: p in r <==> p in ps && p.marketId == marketId && p.shares > 0.0
    ensures |r| <= |ps|
  {
    if |ps| == 0 then []
    else if ps[0].marketId == marketId && ps[0].shares > 0.0 then [ps[0]] + HeldIn(ps[1..], marketId)
    else HeldIn(ps[1..], marketId)
  }

  /** Ids are row numbers and no two rows share a (user, market, side) key. */
  ghost predicate ValidRows(ps: seq<Position>) {
    && (forall i :: 0 <= i < |ps| ==> ps[i].id == i + 1)
    && (forall i, j :: 0 <= i < j < |ps| ==> !HasKey(ps[j], ps[i].userId, ps[i].marketId, ps[i].side))
  }

  /** The table and the position after a find-or-create of (user, market, side). */
  function FoundOrCreated(ps: seq<Position>, userId: int, marketId: int, side: MarketSide): (r: (seq<Position>, Position))
    ensures HasKey(r.1, userId, marketId, side)
    ensures IndexOfKey(ps, userId, marketId, side).Some? ==> r.0 == ps && r.1 in ps
    ensures IndexOfKey(ps, userId, marketId, side).None? ==>
      r.0 == ps + [r.1] && r.1 == Position(|ps| + 1, userId, marketId, side, 0.0, 0.0)
    ensures ValidRows(ps) ==> ValidRows(r.0) && 1 <= r.1.id <= |r.0| && r.0[r.1.id - 1] == r.1
  {
    match IndexOfKey(ps, userId, marketId, side)
    case Some(i) => (ps, ps[i])
    case None => (ps + [Position(|ps| + 1, userId, marketId, side, 0.0, 0.0)], Position(|ps| + 1, userId, marketId, side, 0.0, 0.0))
  }

  /** The table with the share count and average price of position `id` overwritten (no change if absent). */
  function SetHolding(ps: seq<Position>, id: int, shares: real, avgPrice: real): (r: seq<Position>)
    ensures |r| == |ps|
    ensures forall i :: 0 <= i < |ps| && i != id - 1 ==> r[i] == ps[i]
    ensures 1 <= id <= |ps| ==> r[id - 1] == ps[id - 1].(shares := shares, avgPrice := avgPrice)
    ensures ValidRows(ps) ==> ValidRows(r)
  {
    if 1 <= id <= |ps| then ps[id - 1 := ps[id - 1].(shares := shares, avgPrice := avgPrice)] else ps
  }

  /** In a valid table a key is found exactly at its row. */
  lemma KeyAtRow(ps: seq<Position>, i: nat)
    requires ValidRows(ps) && i < |ps|
    ensures IndexOfKey(ps, ps[i].userId, ps[i].marketId, ps[i].side) == Some(i)
  {
  }

  class PositionTable {
    var rows: seq<Position>

    ghost predicate Valid()
      reads this
    {
      ValidRows(rows)
    }

    constructor ()
      ensures Valid() && rows == []
    {
      rows := [];
    }

    predicate Has(id: int)
      reads this
    {
      1 <= id <= |rows|
    }

    /** The position of (user, market, side), or NotFound. */
    function FindByUserMarketSide(userId: int, marketId: int, side: MarketSide): (r: Result<Position, RepositoryError>)
      reads this
      requires Valid()
      ensures r.Success? <==> exists i :: 0 <= i < |rows| && HasKey(rows[i], userId, marketId, side)
      ensures r.Success? ==> r.value in rows && HasKey(r.value, userId, marketId, side)
      ensures r.Failure? ==> r.error == NotFound
    {
      match IndexOfKey(rows, userId, marketId, side)
      case Some(i) => Success(rows[i])
      case None => Failure(NotFound)
    }

    /**
     * Returns the existing position of (user, market, side) unchanged, or
     * inserts an empty one (no shares, average price 0).
     */
    method FindOrCreate(userId: int, marketId: int, side: MarketSide) returns (p: Position)
      requires Valid()
      modifies this
      ensures Valid()
      ensures (rows, p) == FoundOrCreated(old(rows), userId, marketId, side)
      ensures old(FindByUserMarketSide(userId, marketId, side)).Success? ==>
        p == old(FindByUserMarketSide(userId, marketId, side)).value && rows == old(rows)
      ensures old(FindByUserMarketSide(userId, marketId, side)).Failure? ==> p.shares == 0.0 && p.avgPrice == 0.0
      ensures FindByUserMarketSide(userId, marketId, side) == Success(p)
    {
      var found := IndexOfKey(rows, userId, marketId, side);
      if found.Some? {
        p := rows[found.value];
      } else {
        p := Position(|rows| + 1, userId, marketId, side, 0.0, 0.0);
        rows := rows + [p];
        assert IndexOfKey(rows, userId, marketId, side) == Some(|rows| - 1);
      }
    }

    /** The positions of `userId` that hold shares. */
    function FindByUser(userId: int): (r: seq<Position>)
      reads this
      ensures forall p :: p in r <==> p in rows && p.userId == userId && p.shares > 0.0
    {
      HeldBy(rows, userId)
    }

    /** The positions on `marketId` that hold shares. */
    function FindByMarket(marketId: int): (r: seq<Position>)
      reads this
      ensures forall p :: p in r <==> p in rows && p.marketId == marketId && p.shares > 0.0
    {
      HeldIn(rows, marketId)
    }

    /** Overwrites exactly the share count and average price of one position. */
    method Update(id: int, shares: real, avgPrice: real) returns (r: Result<(), RepositoryError>)
      requires Valid()
      modifies this
      ensures Valid()
      ensures r.Success? <==> old(Has(id))
      ensures rows == SetHolding(old(rows), id, shares, avgPrice)
      ensures r.Failure? ==> r.error == NotFound
    {
      if 1 <= id <= |rows| {
        rows := SetHolding(rows, id, shares, avgPrice);
        r := Success(());
      } else {
        r := Failure(NotFound);
      }
    }
  }

  /** A second find-or-create of the same key finds what the first returned and adds no row. */
  lemma FoundOrCreatedIdempotent(ps: seq<Position>, userId: int, marketId: int, side: MarketSide)
    requires ValidRows(ps)
    ensures var first := FoundOrCreated(ps, userId, marketId, side);
      FoundOrCreated(first.0, userId, marketId, side) == first
  {
    var first := FoundOrCreated(ps, userId, marketId, side);
    KeyAtRow(first.0, first.1.id - 1);
  }
}
