/**
 * The market procedures: creating a market, the viewer's part of a market
 * page, and resolution followed by settlement, which pays 1 per winning
 * share, one position at a time, stopping at the first credit that fails.
 */
module MarketHandlers {
  import opened Wrappers
  import opened Sides
  import opened Markets
  import opened Positions
  import opened Users
  import MarketRepo
  import UserRepo
  import PositionRepo

  /** Seconds in a day: end dates are `now` plus whole days. */
  const SecondsPerDay: int := 86400

  /** Every market created from the web form starts with this liquidity. */
  const DefaultLiquidity: real := 100.0

  // ---------------------------------------------------------------- creation

  datatype CreateError =
    | QuestionRequired                  // "Question is required"
    | TooShort                          // "Market must be open for at least 1 day"
    | OracleNotFound(username: string)  // "Oracle user '...' not found"
    | StoreFailed                       // "Error creating market: ..."

  /** An empty description is stored as none. */
  function DescriptionOf(text: string): (r: Option<string>)
    ensures r.None? <==> text == []
    ensures r.Some? ==> r.value == text
  {
    if text == [] then None else Some(text)
  }

  /** Whether the form names an oracle: a present, non-empty username. */
  predicate OracleNamed(oracleUsername: Option<string>) {
    oracleUsername.Some? && oracleUsername.value != []
  }

  /**
   * Validates the form (question first, then duration, then the oracle's
   * username) and stores a fresh market ending `daysUntilEnd` days after
   * `now`, with the default liquidity. `oracleReadFails` stands for a
   * database error on looking up the oracle, reported like an unknown
   * username, and `storeFails` for one on the insert.
   */
  method CreateMarket(markets: MarketRepo.MarketTable, users: UserRepo.UserTable, creatorId: int,
                      question: string, description: string, daysUntilEnd: int,
                      oracleUsername: Option<string>, now: int, oracleReadFails: bool, storeFails: bool)
    returns (r: Result<Market, CreateError>)
    requires markets.Valid() && users.Valid()
    modifies markets
    ensures markets.Valid()
    ensures question == [] ==> r == Failure(QuestionRequired)
    ensures question != [] && daysUntilEnd < 1 ==> r == Failure(TooShort)
    ensures question != [] && daysUntilEnd >= 1 && OracleNamed(oracleUsername)
            && (oracleReadFails || !users.UsernameTaken(oracleUsername.value))
      ==> r == Failure(OracleNotFound(oracleUsername.value))
    ensures question != [] && daysUntilEnd >= 1 && storeFails
            && (OracleNamed(oracleUsername) ==> !oracleReadFails && users.UsernameTaken(oracleUsername.value))
      ==> r == Failure(StoreFailed)
    ensures r.Success? <==>
      question != [] && daysUntilEnd >= 1 && !storeFails
      && (OracleNamed(oracleUsername) ==> !oracleReadFails && users.UsernameTaken(oracleUsername.value))
    ensures r.Failure? ==> markets.rows == old(markets.rows)
    ensures r.Success? ==>
      && markets.rows == old(markets.rows) + [r.value]
      && r.value == NewLmsr(|old(markets.rows)| + 1, question, DescriptionOf(description), creatorId,
                            if OracleNamed(oracleUsername) then Some(users.FindByUsername(oracleUsername.value).value.id)
                            else None,
                            now + daysUntilEnd * SecondsPerDay, DefaultLiquidity, now)
      && r.value.CanTrade(now)
  {
    if question == [] {
      return Failure(QuestionRequired);
    }
    if daysUntilEnd < 1 {
      return Failure(TooShort);
    }
    var endDate := now + daysUntilEnd * SecondsPerDay;
    var oracleId: Option<int> := None;
    if OracleNamed(oracleUsername) {
      var found := users.FindByUsername(oracleUsername.value);
      if oracleReadFails || found.Failure? {
        return Failure(OracleNotFound(oracleUsername.value));
      }
      oracleId := Some(found.value.id);
    }
    if storeFails {
      return Failure(StoreFailed);
    }
    var m := markets.Create(question, DescriptionOf(description), creatorId, oracleId, endDate, DefaultLiquidity, now);
    return Success(m);
  }

  // ------------------------------------------------------------ market page

  /** One of the viewer's holdings as shown on a market page. */
  datatype HoldingLine = HoldingLine(side: string, shares: real, avgPrice: real)

  function LineOf(p: Position): HoldingLine {
    HoldingLine(p.side.ToString(), p.shares, p.avgPrice)
  }

  /** The lines for the holdings in `held` on `marketId` that still hold shares, in order. */
  function HoldingsIn(held: seq<Position>, marketId: int): (r: seq<HoldingLine>)
    ensures |r| <= |held|
    ensures forall p :: p in held && p.marketId == marketId && p.shares > 0.0 ==> LineOf(p) in r
    ensures forall d :: d in r ==> exists p :: p in held && p.marketId == marketId && p.shares > 0.0 && d == LineOf(p)
  {
    if |held| == 0 then []
    else
      var rest := HoldingsIn(held[1..], marketId);
      assert forall p :: p in held ==> p == held[0] || p in held[1..];
      if held[0].marketId == marketId && held[0].shares > 0.0 then [LineOf(held[0])] + rest else rest
  }

  /** What a market page shows the viewer besides the market itself. */
  datatype ViewerPart = ViewerPart(canResolve: bool, holdings: seq<HoldingLine>)

  /**
   * The viewer's part of the page of market `m`: whether the viewer may
   * resolve it, and the viewer's holdings in it that still hold shares.
   * An anonymous viewer may not resolve and holds nothing.
   */
  function ViewerOf(positions: PositionRepo.PositionTable, m: Market, viewer: Option<int>, now: int): (r: ViewerPart)
    reads positions
    ensures r.canResolve <==> viewer.Some? && m.CanResolveBy(viewer.value, now)
    ensures viewer.None? ==> r.holdings == []
    ensures viewer.Some? ==> forall d :: d in r.holdings <==>
      exists p :: p in positions.rows && p.userId == viewer.value && p.marketId == m.id && p.shares > 0.0 && d == LineOf(p)
  {
    match viewer
    case None => ViewerPart(false, [])
    case Some(u) => ViewerPart(m.CanResolveBy(u, now), HoldingsIn(positions.FindByUser(u), m.id))
  }

  // ------------------------------------------------------------- settlement

  /** The outcome as the resolution form spells it: exactly "yes" or "no". */
  function ParseOutcome(s: string): (r: Option<bool>)
    ensures r == Some(true) <==> s == "yes"
    ensures r == Some(false) <==> s == "no"
    ensures r.None? <==> s != "yes" && s != "no"
  {
    if s == "yes" then Some(true) else if s == "no" then Some(false) else None
  }

  /** The side whose shares pay out under `outcome`. */
  function WinningSide(outcome: bool): (s: MarketSide)
    ensures outcome <==> s == Yes
  {
    if outcome then Yes else No
  }

  /** Where the outcome parser accepts, it agrees with the side parser. */
  lemma OutcomeAgreesWithSide(s: string)
    requires ParseOutcome(s).Some?
    ensures Parse(s) == Some(WinningSide(ParseOutcome(s).value))
  {
    if s == "yes" {
      assert ToLower(s) == Yes.ToString();
    } else {
      assert ToLower(s) == No.ToString();
    }
  }

  /** Unlike the side parser, the outcome parser does not ignore case. */
  lemma OutcomeIsCaseSensitive()
    ensures ParseOutcome("YES") == None
    ensures Parse("YES") == Some(Yes)
  {
    ParseUpperCase();
  }

  /** The store calls of a resolution that can report an error. */
  datatype SettleStep = FetchMarket | ResolveWrite | FetchPositions | CreditOf(userId: int)

  /** Whether paying `p` credits anyone. */
  predicate Pays(p: Position, winning: MarketSide) {
    p.side == winning && p.shares > 0.0
  }

  /** What settlement pays for holding `p`: its shares if on the winning side and positive, else nothing. */
  function Payout(p: Position, winning: MarketSide): (r: real)
    ensures r >= 0.0
    ensures r > 0.0 <==> p.side == winning && p.shares > 0.0
    ensures r > 0.0 ==> r == p.shares
  {
    if Pays(p, winning) then p.PayoutIfWins() else 0.0
  }

  /** Whether the credit for `p` fails: a store error, or a holder not in the table. */
  predicate CreditFails(us: seq<User>, p: Position, failing: set<SettleStep>) {
    CreditOf(p.userId) in failing || !(1 <= p.userId <= |us|)
  }

  /**
   * Settlement of `ps` in order against the users `us`: each paying holding
   * credits its holder; the first credit that fails stops it, leaving the
   * credits already made and naming the holder whose credit failed.
   */
  function Settle(us: seq<User>, ps: seq<Position>, winning: MarketSide, failing: set<SettleStep>)
    : (r: (seq<User>, Option<int>))
    ensures |r.0| == |us|
    ensures forall i :: 0 <= i < |us| ==> r.0[i].(balance := us[i].balance) == us[i]
    ensures forall i :: 0 <= i < |us| ==> r.0[i].balance >= us[i].balance
    ensures UserRepo.ValidRows(us) ==> UserRepo.ValidRows(r.0)
    decreases |ps|
  {
    if |ps| == 0 then (us, None)
    else if !Pays(ps[0], winning) then Settle(us, ps[1..], winning, failing)
    else if CreditFails(us, ps[0], failing) then (us, Some(ps[0].userId))
    else Settle(UserRepo.Credited(us, ps[0].userId, Payout(ps[0], winning)), ps[1..], winning, failing)
  }

  /** The sum of what settlement owes over `ps`. */
  function TotalPayout(ps: seq<Position>, winning: MarketSide): real {
    if |ps| == 0 then 0.0 else Payout(ps[0], winning) + TotalPayout(ps[1..], winning)
  }

  /** The sum of what settlement owes user `userId` over `ps`. */
  function PayoutTo(ps: seq<Position>, winning: MarketSide, userId: int): real {
    if |ps| == 0 then 0.0
    else (if ps[0].userId == userId then Payout(ps[0], winning) else 0.0) + PayoutTo(ps[1..], winning, userId)
  }

  /** When no credit fails, the balances rise in total by exactly the winning shares. */
  lemma {:induction false} SettleTotal(us: seq<User>, ps: seq<Position>, winning: MarketSide, failing: set<SettleStep>)
    requires Settle(us, ps, winning, failing).1.None?
    ensures UserRepo.TotalBalance(Settle(us, ps, winning, failing).0) == UserRepo.TotalBalance(us) + TotalPayout(ps, winning)
    decreases |ps|
  {
    if |ps| > 0 {
      if Pays(ps[0], winning) {
        var credited := UserRepo.Credited(us, ps[0].userId, Payout(ps[0], winning));
        UserRepo.CreditedTotal(us, ps[0].userId, Payout(ps[0], winning));
        SettleTotal(credited, ps[1..], winning, failing);
      } else {
        SettleTotal(us, ps[1..], winning, failing);
      }
    }
  }

  /** When no credit fails, each user gains exactly what their own winning holdings pay. */
  lemma {:induction false} SettleCreditsEach(us: seq<User>, ps: seq<Position>, winning: MarketSide,
                                            failing: set<SettleStep>, i: nat)
    requires Settle(us, ps, winning, failing).1.None? && i < |us|
    ensures Settle(us, ps, winning, failing).0[i].balance == us[i].balance + PayoutTo(ps, winning, i + 1)
    decreases |ps|
  {
    if |ps| > 0 {
      if Pays(ps[0], winning) {
        var credited := UserRepo.Credited(us, ps[0].userId, Payout(ps[0], winning));
        SettleCreditsEach(credited, ps[1..], winning, failing, i);
      } else {
        SettleCreditsEach(us, ps[1..], winning, failing, i);
      }
    }
  }

  /** A user holding no paying position in `ps` is never credited, whether or not settlement stops early. */
  lemma {:induction false} SettleSkipsLosers(us: seq<User>, ps: seq<Position>, winning: MarketSide,
                                            failing: set<SettleStep>, i: nat)
    requires i < |us|
    requires forall p :: p in ps && p.userId == i + 1 ==> !Pays(p, winning)
    ensures Settle(us, ps, winning, failing).0[i] == us[i]
    decreases |ps|
  {
    if |ps| > 0 {
      assert forall p :: p in ps[1..] ==> p in ps;
      if Pays(ps[0], winning) && !CreditFails(us, ps[0], failing) {
        var credited := UserRepo.Credited(us, ps[0].userId, Payout(ps[0], winning));
        SettleSkipsLosers(credited, ps[1..], winning, failing, i);
      } else if !Pays(ps[0], winning) {
        SettleSkipsLosers(us, ps[1..], winning, failing, i);
      }
    }
  }

  /** Settling `a + b` settles `a`, then, unless that stopped, settles `b` from there. */
  lemma {:induction false} SettleAppend(us: seq<User>, a: seq<Position>, b: seq<Position>, winning: MarketSide,
                                       failing: set<SettleStep>)
    ensures var first := Settle(us, a, winning, failing);
      Settle(us, a + b, winning, failing) == if first.1.Some? then first else Settle(first.0, b, winning, failing)
    decreases |a|
  {
    if |a| > 0 {
      assert (a + b)[1..] == a[1..] + b;
      if Pays(a[0], winning) && !CreditFails(us, a[0], failing) {
        SettleAppend(UserRepo.Credited(us, a[0].userId, Payout(a[0], winning)), a[1..], b, winning, failing);
      } else if !Pays(a[0], winning) {
        SettleAppend(us, a[1..], b, winning, failing);
      }
    } else {
      assert a + b == b;
    }
  }

  /**
   * A credit that fails stops settlement there: what was credited for the
   * holdings before it stays, and no holding after it is paid.
   */
  lemma SettleStopsAtFailure(us: seq<User>, before: seq<Position>, p: Position, after: seq<Position>,
                             winning: MarketSide, failing: set<SettleStep>)
    requires Settle(us, before, winning, failing).1.None?
    requires Pays(p, winning) && CreditFails(Settle(us, before, winning, failing).0, p, failing)
    ensures Settle(us, before + [p] + after, winning, failing) == (Settle(us, before, winning, failing).0, Some(p.userId))
  {
    SettleAppend(us, before, [p] + after, winning, failing);
    assert before + [p] + after == before + ([p] + after);
  }

  datatype PayoutError =
    | FetchFailed          // "Error fetching positions: ..."
    | CreditFailed(userId: int)   // "Error adding payout to user ...: ..."

  /**
   * Pays out market `marketId` resolved to `outcome`: fetches its holdings
   * that hold shares and credits each winning holder 1 per share, in order,
   * stopping at the first credit that fails. Positions are not touched.
   */
  method ProcessPayouts(users: UserRepo.UserTable, positions: PositionRepo.PositionTable, marketId: int,
                        outcome: bool, failing: set<SettleStep>) returns (r: Result<(), PayoutError>)
    requires users.Valid()
    modifies users
    ensures users.Valid()
    ensures FetchPositions in failing ==> r == Failure(FetchFailed) && users.rows == old(users.rows)
    ensures FetchPositions !in failing ==>
      var settled := Settle(old(users.rows), positions.FindByMarket(marketId), WinningSide(outcome), failing);
      && users.rows == settled.0
      && (r.Success? <==> settled.1.None?)
      && (settled.1.Some? ==> r == Failure(CreditFailed(settled.1.value)))
  {
    if FetchPositions in failing {
      return Failure(FetchFailed);
    }
    var held := positions.FindByMarket(marketId);
    var winning := WinningSide(outcome);
    for i := 0 to |held|
      invariant users.Valid()
      invariant Settle(users.rows, held[i..], winning, failing) == Settle(old(users.rows), held, winning, failing)
    {
      ghost var before := users.rows;
      var p := held[i];
      assert held[i..][0] == p && held[i..][1..] == held[i + 1..];
      if Pays(p, winning) {
        if CreditOf(p.userId) in failing {
          return Failure(CreditFailed(p.userId));
        }
        var credited := users.AddBalance(p.userId, p.PayoutIfWins());
        if credited.Failure? {
          return Failure(CreditFailed(p.userId));
        }
        assert users.rows == UserRepo.Credited(before, p.userId, Payout(p, winning));
      }
    }
    return Success(());
  }

  datatype ResolveError =
    | InvalidOutcome                  // "Invalid outcome"
    | MarketNotFound                  // "Market not found"
    | NotOracle                       // "Only the designated oracle can resolve this market"
    | ResolveFailed                   // "Error resolving market: ..."
    | PayoutsFailed(cause: PayoutError)

  /**
   * The checks of a resolution, in order, each with its own error; on
   * success the parsed outcome and the market as read. A failing read of the
   * market is reported as "Market not found".
   */
  function ResolveChecks(markets: MarketRepo.MarketTable, requester: int, marketId: int, outcomeText: string, now: int,
                         failing: set<SettleStep>)
    : (r: Result<(bool, Market), ResolveError>)
    reads markets
    requires markets.Valid()
    ensures ParseOutcome(outcomeText).None? ==> r == Failure(InvalidOutcome)
    ensures ParseOutcome(outcomeText).Some? && (FetchMarket in failing || !markets.Has(marketId)) ==>
      r == Failure(MarketNotFound)
    ensures ParseOutcome(outcomeText).Some? && FetchMarket !in failing && markets.Has(marketId)
            && !markets.rows[marketId - 1].CanResolveBy(requester, now) ==>
      r == Failure(NotOracle)
    ensures r.Success? <==>
      && ParseOutcome(outcomeText).Some? && FetchMarket !in failing && markets.Has(marketId)
      && markets.rows[marketId - 1].CanResolveBy(requester, now)
    ensures r.Success? ==>
      && ParseOutcome(outcomeText) == Some(r.value.0)
      && r.value.1 == markets.rows[marketId - 1]
  {
    match ParseOutcome(outcomeText)
    case None => Failure(InvalidOutcome)
    case Some(outcome) =>
      if FetchMarket in failing then Failure(MarketNotFound)
      else match markets.FindById(marketId)
        case Failure(_) => Failure(MarketNotFound)
        case Success(market) =>
          if !market.CanResolveBy(requester, now) then Failure(NotOracle)
          else Success((outcome, market))
  }

  /**
   * Resolves market `marketId` to the outcome spelled by `outcomeText` on
   * behalf of `requester`, then settles it. The checks come before any
   * write; the market stays resolved even when settlement stops early.
   */
  method ResolveMarket(markets: MarketRepo.MarketTable, users: UserRepo.UserTable, positions: PositionRepo.PositionTable,
                       requester: int, marketId: int, outcomeText: string, now: int, failing: set<SettleStep>)
    returns (r: Result<(), ResolveError>)
    requires markets.Valid() && users.Valid()
    modifies markets, users
    ensures markets.Valid() && users.Valid()
    ensures old(ResolveChecks(markets, requester, marketId, outcomeText, now, failing)).Failure? ==>
      && r == Failure(old(ResolveChecks(markets, requester, marketId, outcomeText, now, failing)).error)
      && unchanged(markets, users)
    ensures old(ResolveChecks(markets, requester, marketId, outcomeText, now, failing)).Success? ==>
      var outcome := old(ResolveChecks(markets, requester, marketId, outcomeText, now, failing)).value.0;
      var settled := Settle(old(users.rows), positions.FindByMarket(marketId), WinningSide(outcome), failing);
      && (ResolveWrite in failing ==> r == Failure(ResolveFailed) && unchanged(markets, users))
      && (ResolveWrite !in failing ==>
          && markets.rows == old(markets.rows)[marketId - 1 := old(markets.rows)[marketId - 1].(resolved := true, outcome := Some(outcome))]
          && markets.rows[marketId - 1].Status(now) == Resolved
          && (FetchPositions in failing ==> r == Failure(PayoutsFailed(FetchFailed)) && users.rows == old(users.rows))
          && (FetchPositions !in failing ==>
              && users.rows == settled.0
              && (r.Success? <==> settled.1.None?)
              && (settled.1.Some? ==> r == Failure(PayoutsFailed(CreditFailed(settled.1.value))))))
  {
    var parsed := ParseOutcome(outcomeText);
    if parsed.None? {
      return Failure(InvalidOutcome);
    }
    var outcome := parsed.value;
    var found := markets.FindById(marketId);
    if FetchMarket in failing || found.Failure? {
      return Failure(MarketNotFound);
    }
    if !found.value.CanResolveBy(requester, now) {
      return Failure(NotOracle);
    }
    if ResolveWrite in failing {
      return Failure(ResolveFailed);
    }
    // The store cannot refuse here: a market the requester may resolve is unresolved.
    var resolved := markets.Resolve(marketId, outcome);
    var paid := ProcessPayouts(users, positions, marketId, outcome, failing);
    if paid.Failure? {
      return Failure(PayoutsFailed(paid.error));
    }
    return Success(());
  }
}
