/**
 * A binary prediction market: its record, its three-state life cycle
 * (Active, Closed, Resolved) and the rules for trading and resolution.
 * The wall clock is an explicit `now` parameter (seconds since the epoch).
 */
module Markets {
  import opened Wrappers
  import opened Sides
  import Pricing

  datatype MarketStatus = Active | Closed | Resolved

  datatype MarketError =
    | AlreadyResolved    // "Market already resolved"
    | NotYetResolvable   // "Market cannot be resolved yet"

  /**
   * The market record. `yesPool`/`noPool` belong to the legacy
   * constant-product maker; `qYes`/`qNo`/`liquidityParam` are the LMSR state.
   */
  datatype Market = Market(
    id: int,
    question: string,
    description: Option<string>,
    creatorId: int,
    oracleId: Option<int>,
    endDate: int,
    closedAt: Option<int>,
    resolved: bool,
    outcome: Option<bool>,
    yesPool: real,
    noPool: real,
    qYes: real,
    qNo: real,
    liquidityParam: real,
    createdAt: int)
  {
    /** The user entitled to resolve: the designated oracle, or else the creator. */
    function Oracle(): (u: int)
      ensures oracleId.Some? ==> u == oracleId.value
      ensures oracleId.None? ==> u == creatorId
    {
      match oracleId
      case Some(o) => o
      case None => creatorId
    }

    /** Closed explicitly, or past the end date. */
    predicate IsClosed(now: int) {
      closedAt.Some? || now > endDate
    }

    function Status(now: int): (s: MarketStatus)
      ensures s == Resolved <==> resolved
      ensures s == Closed <==> !resolved && (closedAt.Some? || now > endDate)
      ensures s == Active <==> !resolved && closedAt.None? && now <= endDate
    {
      if resolved then Resolved
      else if IsClosed(now) then Closed
      else Active
    }

    predicate CanTrade(now: int): (r: bool)
      ensures r <==> Status(now) == Active
    {
      !IsClosed(now) && !resolved
    }

    predicate CanResolve(now: int): (r: bool)
      ensures r <==> Status(now) == Closed
    {
      !resolved && IsClosed(now)
    }

    /**
     * Whether `user` may resolve the market at `now`: only the oracle, only
     * once, and only after the end date — an explicit close alone is not
     * enough.
     */
    predicate CanResolveBy(user: int, now: int): (r: bool)
      ensures r <==> CanResolve(now) && now > endDate && user == Oracle()
    {
      !resolved && now > endDate && Oracle() == user
    }

    /** Records the outcome; refuses a resolved market, then one still open. */
    function Resolve(o: bool, now: int): (r: Result<Market, MarketError>)
      ensures resolved ==> r == Failure(AlreadyResolved)
      ensures !resolved && !IsClosed(now) ==> r == Failure(NotYetResolvable)
      ensures r.Success? <==> Status(now) == Closed
      ensures r.Success? ==> r.value == this.(resolved := true, outcome := Some(o))
      ensures r.Success? ==> r.value.Status(now) == Resolved
    {
      if resolved then Failure(AlreadyResolved)
      else if !CanResolve(now) then Failure(NotYetResolvable)
      else Success(this.(resolved := true, outcome := Some(o)))
    }

    /** The LMSR liquidity parameter when positive, else the legacy pools' sum. */
    function TotalLiquidity(): (r: real)
      ensures liquidityParam > 0.0 ==> r == liquidityParam
      ensures liquidityParam <= 0.0 ==> r == yesPool + noPool
      ensures liquidityParam > 0.0 || (yesPool > 0.0 && noPool > 0.0) ==> r > 0.0
    {
      if liquidityParam > 0.0 then liquidityParam else yesPool + noPool
    }

    function TotalOutstandingShares(): real {
      qYes + qNo
    }

    /** The market with its outstanding counts replaced. */
    function WithOutstanding(q: (real, real)): Market {
      this.(qYes := q.0, qNo := q.1)
    }
  }

  /** A fresh LMSR market: nothing outstanding, open, unresolved, legacy pools empty. */
  function NewLmsr(id: int, question: string, description: Option<string>, creatorId: int,
                   oracleId: Option<int>, endDate: int, liquidityParam: real, createdAt: int): (m: Market)
    ensures m.id == id && m.question == question && m.description == description
    ensures m.creatorId == creatorId && m.oracleId == oracleId && m.endDate == endDate
    ensures m.qYes == 0.0 && m.qNo == 0.0 && m.yesPool == 0.0 && m.noPool == 0.0
    ensures !m.resolved && m.outcome.None? && m.closedAt.None?
    ensures m.liquidityParam == liquidityParam && m.createdAt == createdAt
    ensures forall now :: now <= endDate ==> m.Status(now) == Active
  {
    Market(id, question, description, creatorId, oracleId, endDate, None, false, None,
           0.0, 0.0, 0.0, 0.0, liquidityParam, createdAt)
  }

  /** A fresh market quotes even odds. */
  lemma NewLmsrEvenOdds(id: int, question: string, description: Option<string>, creatorId: int,
                        oracleId: Option<int>, endDate: int, b: real, createdAt: int)
    requires b != 0.0
    ensures var m := NewLmsr(id, question, description, creatorId, oracleId, endDate, b, createdAt);
      Pricing.LmsrImpliedProbability(m.qYes, m.qNo, m.liquidityParam) == 0.5
  {
  }

  /** Once closed, a market stays closed as time goes on. */
  lemma ClosedStaysClosed(m: Market, now: int, later: int)
    requires now <= later && m.IsClosed(now)
    ensures m.IsClosed(later)
    ensures m.Status(later) != Active
  {
  }

  /** A market closed early by `closedAt` cannot be resolved before its end date. */
  lemma EarlyCloseDoesNotAuthorise(m: Market, user: int, now: int)
    requires !m.resolved && m.closedAt.Some? && now <= m.endDate
    ensures m.CanResolve(now)
    ensures !m.CanResolveBy(user, now)
  {
  }

  /** Only the oracle can resolve, and an authorised resolution succeeds. */
  lemma AuthorisedResolveSucceeds(m: Market, user: int, o: bool, now: int)
    requires m.CanResolveBy(user, now)
    ensures user == m.Oracle()
    ensures m.Resolve(o, now) == Success(m.(resolved := true, outcome := Some(o)))
  {
  }

  /** A resolved market cannot be resolved a second time, whatever the outcome or time. */
  lemma ResolveOnlyOnce(m: Market, o: bool, o': bool, now: int, later: int)
    requires m.Resolve(o, now).Success?
    ensures m.Resolve(o, now).value.Resolve(o', later) == Failure(AlreadyResolved)
    ensures m.Resolve(o, now).value.Status(later) == Resolved
  {
  }

  /** Adding `delta` shares of `side` moves the total outstanding by exactly `delta`. */
  lemma TradeShiftsOutstanding(m: Market, side: MarketSide, delta: real)
    ensures var q := Pricing.Traded(m.qYes, m.qNo, side, delta);
      m.WithOutstanding(q).TotalOutstandingShares() == m.TotalOutstandingShares() + delta
  {
    var q := Pricing.Traded(m.qYes, m.qNo, side, delta);
    assert q.0 + q.1 == Pricing.SideCount(q.0, q.1, side) + Pricing.SideCount(q.0, q.1, side.Opposite()) by {
      match side {
        case Yes =>
        case No =>
      }
    }
    assert m.qYes + m.qNo == Pricing.SideCount(m.qYes, m.qNo, side) + Pricing.SideCount(m.qYes, m.qNo, side.Opposite()) by {
      match side {
        case Yes =>
        case No =>
      }
    }
  }
}
