/**
 * The trade procedures: buying and selling LMSR shares, and the per-position
 * figures of a trader's portfolio page.
 *
 * A trade runs a fixed sequence of store writes with no transaction: the
 * balance, the market's outstanding counts, a price snapshot, the position.
 * A store write may fail for reasons outside this model (a database error);
 * `failing` names the writes that do. A failed write changes nothing and
 * ends the trade, except the snapshot, whose failure is ignored. Writes
 * already made stay made.
 */
module Trading {
  import opened Wrappers
  import opened Sides
  import Pricing
  import opened Markets
  import opened Positions
  import opened Users
  import MarketRepo
  import UserRepo
  import PositionRepo
  import SnapshotRepo

  /**
   * The store calls of a trade that can report an error: the reads its
   * checks make, then its writes in the order they happen.
   */
  datatype Step =
    | FindMarket | FindUser | FindPosition
    | Debit | Credit | OutstandingShares | Snapshot | PositionLookup | PositionUpdate

  datatype TradeError =
    | SharesNotPositive                      // "Shares must be positive"
    | InvalidSide                            // "Invalid side: ..."
    | MarketNotFound                         // "Market not found"
    | MarketNotOpen                          // "Market is not open for trading"
    | PricingFailed(cause: Pricing.PricingError)
    | UserNotFound                           // "User not found"
    | InsufficientBalance                    // "Insufficient balance"
    | PositionNotFound                       // "Position not found"
    | InsufficientShares                     // "Insufficient shares to sell"
    | StepFailed(step: Step)                 // a store write reported an error

  /** What a trade has established before its first write. */
  datatype TradePlan = TradePlan(side: MarketSide, market: Market, amount: real)

  /**
   * The market row `marketId` as a trade reads it: none when there is no such
   * row or the read fails, both reported as "Market not found".
   */
  function MarketAsRead(markets: MarketRepo.MarketTable, marketId: int, failing: set<Step>): Option<Market>
    reads markets
  {
    if FindMarket !in failing && markets.Has(marketId) then Some(markets.rows[marketId - 1]) else None
  }

  /** The user row `userId` as a buy reads it: none when there is no such row or the read fails. */
  function UserAsRead(users: UserRepo.UserTable, userId: int, failing: set<Step>): Option<User>
    reads users
  {
    if FindUser !in failing && users.Has(userId) then Some(users.rows[userId - 1]) else None
  }

  /** The seller's holding as a sell reads it: none when there is no such row or the read fails. */
  function PositionAsRead(positions: PositionRepo.PositionTable, userId: int, marketId: int, side: MarketSide,
                          failing: set<Step>): Option<Position>
    reads positions
    requires positions.Valid()
  {
    if FindPosition in failing then None
    else match positions.FindByUserMarketSide(userId, marketId, side) {
      case Success(p) => Some(p)
      case Failure(_) => None
    }
  }

  /**
   * The checks of a buy, in the order the procedure makes them, each with
   * its own error; on success, the side, the market as read, and the cost.
   */
  function BuyChecks(markets: MarketRepo.MarketTable, users: UserRepo.UserTable, userId: int, marketId: int,
                     shares: real, sideText: string, now: int, failing: set<Step>): (r: Result<TradePlan, TradeError>)
    reads markets, users
    requires markets.Valid() && users.Valid()
    ensures shares <= 0.0 ==> r == Failure(SharesNotPositive)
    ensures shares > 0.0 && Parse(sideText).None? ==> r == Failure(InvalidSide)
    ensures shares > 0.0 && Parse(sideText).Some? && MarketAsRead(markets, marketId, failing).None? ==>
      r == Failure(MarketNotFound)
    ensures shares > 0.0 && Parse(sideText).Some? && MarketAsRead(markets, marketId, failing).Some? ==>
      var m := MarketAsRead(markets, marketId, failing).value;
      var cost := Pricing.LmsrBuyCost(m.qYes, m.qNo, shares, Parse(sideText).value, m.liquidityParam);
      var user := UserAsRead(users, userId, failing);
      && (!m.CanTrade(now) ==> r == Failure(MarketNotOpen))
      && (m.CanTrade(now) && cost.Failure? ==> r == Failure(PricingFailed(cost.error)))
      && (m.CanTrade(now) && cost.Success? && user.None? ==> r == Failure(UserNotFound))
      && (m.CanTrade(now) && cost.Success? && user.Some? && !user.value.CanAfford(cost.value) ==>
            r == Failure(TradeError.InsufficientBalance))
    ensures r.Success? <==>
      && shares > 0.0 && Parse(sideText).Some? && MarketAsRead(markets, marketId, failing).Some?
      && var m := MarketAsRead(markets, marketId, failing).value;
         var cost := Pricing.LmsrBuyCost(m.qYes, m.qNo, shares, Parse(sideText).value, m.liquidityParam);
         var user := UserAsRead(users, userId, failing);
         m.CanTrade(now) && cost.Success? && user.Some? && user.value.CanAfford(cost.value)
    ensures r.Success? ==>
      && shares > 0.0
      && Parse(sideText) == Some(r.value.side)
      && FindMarket !in failing && FindUser !in failing
      && markets.Has(marketId) && r.value.market == markets.rows[marketId - 1]
      && r.value.market.CanTrade(now)
      && Pricing.LmsrBuyCost(r.value.market.qYes, r.value.market.qNo, shares, r.value.side,
                             r.value.market.liquidityParam) == Success(r.value.amount)
      && r.value.amount > 0.0
      && users.Has(userId) && users.rows[userId - 1].CanAfford(r.value.amount)
  {
    if shares <= 0.0 then Failure(SharesNotPositive)
    else match Parse(sideText) {
      case None => Failure(InvalidSide)
      case Some(side) =>
        match MarketAsRead(markets, marketId, failing) {
          case None => Failure(MarketNotFound)
          case Some(market) =>
            if !market.CanTrade(now) then Failure(MarketNotOpen)
            else match Pricing.LmsrBuyCost(market.qYes, market.qNo, shares, side, market.liquidityParam) {
              case Failure(e) => Failure(PricingFailed(e))
              case Success(cost) =>
                match UserAsRead(users, userId, failing) {
                  case None => Failure(UserNotFound)
                  case Some(user) =>
                    if !user.CanAfford(cost) then Failure(TradeError.InsufficientBalance)
                    else Success(TradePlan(side, market, cost))
                }
            }
        }
    }
  }

  /**
   * The checks of a sell, in the order the procedure makes them, each with
   * its own error; on success, the side, the market as read, and the
   * proceeds.
   */
  function SellChecks(markets: MarketRepo.MarketTable, positions: PositionRepo.PositionTable, userId: int,
                      marketId: int, shares: real, sideText: string, now: int, failing: set<Step>)
    : (r: Result<TradePlan, TradeError>)
    reads markets, positions
    requires markets.Valid() && positions.Valid()
    ensures shares <= 0.0 ==> r == Failure(SharesNotPositive)
    ensures shares > 0.0 && Parse(sideText).None? ==> r == Failure(InvalidSide)
    ensures shares > 0.0 && Parse(sideText).Some? && MarketAsRead(markets, marketId, failing).None? ==>
      r == Failure(MarketNotFound)
    ensures shares > 0.0 && Parse(sideText).Some? && MarketAsRead(markets, marketId, failing).Some? ==>
      var side := Parse(sideText).value;
      var m := MarketAsRead(markets, marketId, failing).value;
      var held := PositionAsRead(positions, userId, marketId, side, failing);
      var proceeds := Pricing.LmsrSellProceeds(m.qYes, m.qNo, shares, side, m.liquidityParam);
      && (!m.CanTrade(now) ==> r == Failure(MarketNotOpen))
      && (m.CanTrade(now) && held.None? ==> r == Failure(PositionNotFound))
      && (m.CanTrade(now) && held.Some? && held.value.shares < shares ==> r == Failure(InsufficientShares))
      && (m.CanTrade(now) && held.Some? && held.value.shares >= shares && proceeds.Failure? ==>
            r == Failure(PricingFailed(proceeds.error)))
    ensures r.Success? <==>
      && shares > 0.0 && Parse(sideText).Some? && MarketAsRead(markets, marketId, failing).Some?
      && var side := Parse(sideText).value;
         var m := MarketAsRead(markets, marketId, failing).value;
         var held := PositionAsRead(positions, userId, marketId, side, failing);
         && m.CanTrade(now) && held.Some? && held.value.shares >= shares
         && Pricing.LmsrSellProceeds(m.qYes, m.qNo, shares, side, m.liquidityParam).Success?
    ensures r.Success? ==>
      && shares > 0.0
      && Parse(sideText) == Some(r.value.side)
      && FindMarket !in failing && FindPosition !in failing
      && markets.Has(marketId) && r.value.market == markets.rows[marketId - 1]
      && r.value.market.CanTrade(now)
      && positions.FindByUserMarketSide(userId, marketId, r.value.side).Success?
      && positions.FindByUserMarketSide(userId, marketId, r.value.side).value.shares >= shares
      && Pricing.LmsrSellProceeds(r.value.market.qYes, r.value.market.qNo, shares, r.value.side,
                                  r.value.market.liquidityParam) == Success(r.value.amount)
      && r.value.amount > 0.0
  {
    if shares <= 0.0 then Failure(SharesNotPositive)
    else match Parse(sideText) {
      case None => Failure(InvalidSide)
      case Some(side) =>
        match MarketAsRead(markets, marketId, failing) {
          case None => Failure(MarketNotFound)
          case Some(market) =>
            if !market.CanTrade(now) then Failure(MarketNotOpen)
            else match PositionAsRead(positions, userId, marketId, side, failing) {
              case None => Failure(PositionNotFound)
              case Some(position) =>
                if position.shares < shares then Failure(InsufficientShares)
                else match Pricing.LmsrSellProceeds(market.qYes, market.qNo, shares, side, market.liquidityParam) {
                  case Failure(e) => Failure(PricingFailed(e))
                  case Success(proceeds) => Success(TradePlan(side, market, proceeds))
                }
            }
        }
    }
  }

  /** The snapshot a trade appends once the outstanding counts are `q`. */
  function TradeSnapshot(id: int, marketId: int, q: (real, real), b: real, now: int): (s: SnapshotRepo.PriceSnapshot)
    requires b != 0.0
    ensures s.yesProbability == Pricing.LmsrImpliedProbability(q.0, q.1, b)
    ensures s.yesProbability + s.noProbability == 1.0
    ensures 0.0 < s.noProbability < 1.0
  {
    var p := Pricing.LmsrImpliedProbability(q.0, q.1, b);
    SnapshotRepo.PriceSnapshot(id, marketId, p, 1.0 - p, q.0, q.1, now)
  }

  /** The rows of the four tables a trade writes to. */
  datatype Tables = Tables(
    markets: seq<Market>,
    users: seq<User>,
    log: seq<SnapshotRepo.PriceSnapshot>,
    positions: seq<Position>)

  /**
   * The two writes every trade makes after the balance: the market's new
   * outstanding counts, then the snapshot of the new price, unless that
   * write fails, which is ignored.
   */
  method RecordTrade(markets: MarketRepo.MarketTable, snapshots: SnapshotRepo.SnapshotLog, marketId: int,
                     q: (real, real), b: real, now: int, snapshotFails: bool)
    requires markets.Valid() && snapshots.Valid() && b != 0.0
    modifies markets, snapshots
    ensures markets.Valid() && snapshots.Valid()
    ensures markets.rows == MarketRepo.SetOutstanding(old(markets.rows), marketId, q)
    ensures snapshots.log == if snapshotFails then old(snapshots.log)
                             else old(snapshots.log) + [TradeSnapshot(|old(snapshots.log)| + 1, marketId, q, b, now)]
  {
    var moved := markets.UpdateOutstandingShares(marketId, q.0, q.1);
    if !snapshotFails {
      var p := Pricing.LmsrImpliedProbability(q.0, q.1, b);
      var snapshot := snapshots.Create(marketId, p, 1.0 - p, q.0, q.1, now);
    }
  }

  /**
   * The tables and the result after the writes of a buy that passed its
   * checks with `plan`, given which writes fail: debit, outstanding counts,
   * snapshot, position lookup, position update, in that order. A failing
   * write ends the trade and leaves the earlier writes in place; a failing
   * snapshot write is passed over.
   */
  function BuyOutcome(t: Tables, userId: int, marketId: int, shares: real, plan: TradePlan, now: int,
                      failing: set<Step>): (r: (Tables, Result<(), TradeError>))
    requires plan.market.liquidityParam != 0.0 && shares != 0.0
  {
    if Debit in failing then (t, Failure(StepFailed(Debit)))
    else
      var users := UserRepo.Debited(t.users, userId, plan.amount);
      if OutstandingShares in failing then (t.(users := users), Failure(StepFailed(OutstandingShares)))
      else
        var q := Pricing.Traded(plan.market.qYes, plan.market.qNo, plan.side, shares);
        var markets := MarketRepo.SetOutstanding(t.markets, marketId, q);
        var log := if Snapshot in failing then t.log
                   else t.log + [TradeSnapshot(|t.log| + 1, marketId, q, plan.market.liquidityParam, now)];
        var written := Tables(markets, users, log, t.positions);
        if PositionLookup in failing then (written, Failure(StepFailed(PositionLookup)))
        else
          var found := PositionRepo.FoundOrCreated(t.positions, userId, marketId, plan.side);
          if PositionUpdate in failing then (written.(positions := found.0), Failure(StepFailed(PositionUpdate)))
          else
            var bought := found.1.AddShares(shares, plan.amount / shares);
            (written.(positions := PositionRepo.SetHolding(found.0, found.1.id, bought.shares, bought.avgPrice)),
             Success(()))
  }

  /** The four tables' rows as they stand. */
  function RowsOf(markets: MarketRepo.MarketTable, users: UserRepo.UserTable, snapshots: SnapshotRepo.SnapshotLog,
                  positions: PositionRepo.PositionTable): Tables
    reads markets, users, snapshots, positions
  {
    Tables(markets.rows, users.rows, snapshots.log, positions.rows)
  }

  /**
   * Buys `shares` of the side named by `sideText` on market `marketId` for
   * user `userId`: validates, prices, debits, moves the outstanding count,
   * records the new price, and updates the position.
   */
  method BuyShares(markets: MarketRepo.MarketTable, users: UserRepo.UserTable, positions: PositionRepo.PositionTable,
                   snapshots: SnapshotRepo.SnapshotLog, userId: int, marketId: int, shares: real, sideText: string,
                   now: int, failing: set<Step>) returns (r: Result<(), TradeError>)
    requires markets.Valid() && users.Valid() && positions.Valid() && snapshots.Valid()
    modifies markets, users, positions, snapshots
    ensures markets.Valid() && users.Valid() && positions.Valid() && snapshots.Valid()
    ensures old(BuyChecks(markets, users, userId, marketId, shares, sideText, now, failing)).Failure? ==>
      && r == Failure(old(BuyChecks(markets, users, userId, marketId, shares, sideText, now, failing)).error)
      && unchanged(markets, users, positions, snapshots)
    ensures old(BuyChecks(markets, users, userId, marketId, shares, sideText, now, failing)).Success? ==>
      (RowsOf(markets, users, snapshots, positions), r)
      == BuyOutcome(old(RowsOf(markets, users, snapshots, positions)), userId, marketId, shares,
                    old(BuyChecks(markets, users, userId, marketId, shares, sideText, now, failing)).value, now, failing)
  {
    if shares <= 0.0 {
      return Failure(SharesNotPositive);
    }
    var parsed := Parse(sideText);
    if parsed.None? {
      return Failure(InvalidSide);
    }
    var side := parsed.value;
    var found := markets.FindById(marketId);
    if FindMarket in failing || found.Failure? {
      return Failure(MarketNotFound);
    }
    var market := found.value;
    if !market.CanTrade(now) {
      return Failure(MarketNotOpen);
    }
    var priced := Pricing.LmsrBuyCost(market.qYes, market.qNo, shares, side, market.liquidityParam);
    if priced.Failure? {
      return Failure(PricingFailed(priced.error));
    }
    var cost := priced.value;
    var user := users.FindById(userId);
    if FindUser in failing || user.Failure? {
      return Failure(UserNotFound);
    }
    if !user.value.CanAfford(cost) {
      return Failure(TradeError.InsufficientBalance);
    }
    r := BuyWrites(markets, users, positions, snapshots, userId, marketId, shares,
                   TradePlan(side, market, cost), now, failing);
  }

  /** The writes of a buy whose checks passed with `plan`. */
  method BuyWrites(markets: MarketRepo.MarketTable, users: UserRepo.UserTable, positions: PositionRepo.PositionTable,
                   snapshots: SnapshotRepo.SnapshotLog, userId: int, marketId: int, shares: real,
                   plan: TradePlan, now: int, failing: set<Step>) returns (r: Result<(), TradeError>)
    requires markets.Valid() && users.Valid() && positions.Valid() && snapshots.Valid()
    requires plan.market.liquidityParam > 0.0 && shares > 0.0
    requires users.Has(userId) && users.rows[userId - 1].CanAfford(plan.amount)
    modifies markets, users, positions, snapshots
    ensures markets.Valid() && users.Valid() && positions.Valid() && snapshots.Valid()
    ensures (RowsOf(markets, users, snapshots, positions), r)
      == BuyOutcome(old(RowsOf(markets, users, snapshots, positions)), userId, marketId, shares, plan, now, failing)
  {
    // The debit cannot be refused here: the balance was just checked.
    if Debit in failing {
      return Failure(StepFailed(Debit));
    }
    var debited := users.DeductBalance(userId, plan.amount);

    var q := Pricing.Traded(plan.market.qYes, plan.market.qNo, plan.side, shares);
    if OutstandingShares in failing {
      return Failure(StepFailed(OutstandingShares));
    }
    RecordTrade(markets, snapshots, marketId, q, plan.market.liquidityParam, now, Snapshot in failing);
    if PositionLookup in failing {
      return Failure(StepFailed(PositionLookup));
    }
    var position := positions.FindOrCreate(userId, marketId, plan.side);
    var bought := position.AddShares(shares, plan.amount / shares);
    if PositionUpdate in failing {
      return Failure(StepFailed(PositionUpdate));
    }
    var updated := positions.Update(position.id, bought.shares, bought.avgPrice);
    r := Success(());
  }

  /**
   * The tables and the result after the writes of a sell that passed its
   * checks with `plan`, `held` being the position as read, given which
   * writes fail: credit, outstanding counts, snapshot, position update. A
   * credit to a user who is not in the table fails like a failing write.
   */
  function SellOutcome(t: Tables, userId: int, marketId: int, shares: real, plan: TradePlan, held: Position,
                       now: int, failing: set<Step>): (r: (Tables, Result<(), TradeError>))
    requires plan.market.liquidityParam != 0.0
  {
    if Credit in failing then (t, Failure(StepFailed(Credit)))
    else
      var users := UserRepo.Credited(t.users, userId, plan.amount);
      if !(1 <= userId <= |t.users|) then (t.(users := users), Failure(StepFailed(Credit)))
      else SoldOutcome(t.(users := users), marketId, shares, plan, held, now, failing)
  }

  /** The part of `SellOutcome` after the seller has been credited. */
  function SoldOutcome(t: Tables, marketId: int, shares: real, plan: TradePlan, held: Position,
                       now: int, failing: set<Step>): (r: (Tables, Result<(), TradeError>))
    requires plan.market.liquidityParam != 0.0
  {
    if OutstandingShares in failing then (t, Failure(StepFailed(OutstandingShares)))
    else
      var q := Pricing.Traded(plan.market.qYes, plan.market.qNo, plan.side, -shares);
      var markets := MarketRepo.SetOutstanding(t.markets, marketId, q);
      var log := if Snapshot in failing then t.log
                 else t.log + [TradeSnapshot(|t.log| + 1, marketId, q, plan.market.liquidityParam, now)];
      var written := Tables(markets, t.users, log, t.positions);
      if PositionUpdate in failing then (written, Failure(StepFailed(PositionUpdate)))
      else (written.(positions := PositionRepo.SetHolding(t.positions, held.id, held.shares - shares, held.avgPrice)),
            Success(()))
  }

  /**
   * Sells `shares` of the side named by `sideText` on market `marketId` for
   * user `userId`: validates against the holding, prices, credits, moves the
   * outstanding count, records the new price, and shrinks the position.
   */
  method SellShares(markets: MarketRepo.MarketTable, users: UserRepo.UserTable, positions: PositionRepo.PositionTable,
                    snapshots: SnapshotRepo.SnapshotLog, userId: int, marketId: int, shares: real, sideText: string,
                    now: int, failing: set<Step>) returns (r: Result<(), TradeError>)
    requires markets.Valid() && users.Valid() && positions.Valid() && snapshots.Valid()
    modifies markets, users, positions, snapshots
    ensures markets.Valid() && users.Valid() && positions.Valid() && snapshots.Valid()
    ensures old(SellChecks(markets, positions, userId, marketId, shares, sideText, now, failing)).Failure? ==>
      && r == Failure(old(SellChecks(markets, positions, userId, marketId, shares, sideText, now, failing)).error)
      && unchanged(markets, users, positions, snapshots)
    ensures old(SellChecks(markets, positions, userId, marketId, shares, sideText, now, failing)).Success? ==>
      var plan := old(SellChecks(markets, positions, userId, marketId, shares, sideText, now, failing)).value;
      (RowsOf(markets, users, snapshots, positions), r)
      == SellOutcome(old(RowsOf(markets, users, snapshots, positions)), userId, marketId, shares, plan,
                     old(positions.FindByUserMarketSide(userId, marketId, plan.side)).value, now, failing)
  {
    if shares <= 0.0 {
      return Failure(SharesNotPositive);
    }
    var parsed := Parse(sideText);
    if parsed.None? {
      return Failure(InvalidSide);
    }
    var side := parsed.value;
    var found := markets.FindById(marketId);
    if FindMarket in failing || found.Failure? {
      return Failure(MarketNotFound);
    }
    var market := found.value;
    if !market.CanTrade(now) {
      return Failure(MarketNotOpen);
    }
    var holding := positions.FindByUserMarketSide(userId, marketId, side);
    if FindPosition in failing || holding.Failure? {
      return Failure(PositionNotFound);
    }
    var position := holding.value;
    if position.shares < shares {
      return Failure(InsufficientShares);
    }
    var priced := Pricing.LmsrSellProceeds(market.qYes, market.qNo, shares, side, market.liquidityParam);
    if priced.Failure? {
      return Failure(PricingFailed(priced.error));
    }
    var proceeds := priced.value;
    r := SellWrites(markets, users, positions, snapshots, userId, marketId, shares,
                    TradePlan(side, market, proceeds), position, now, failing);
  }

  /**
   * The writes of a sell whose checks passed with `plan`, `held` being the
   * seller's position as read.
   */
  method SellWrites(markets: MarketRepo.MarketTable, users: UserRepo.UserTable, positions: PositionRepo.PositionTable,
                    snapshots: SnapshotRepo.SnapshotLog, userId: int, marketId: int, shares: real,
                    plan: TradePlan, held: Position, now: int, failing: set<Step>) returns (r: Result<(), TradeError>)
    requires markets.Valid() && users.Valid() && positions.Valid() && snapshots.Valid()
    requires plan.market.liquidityParam > 0.0 && held.shares >= shares
    requires 1 <= held.id <= |positions.rows| && positions.rows[held.id - 1] == held
    modifies markets, users, positions, snapshots
    ensures markets.Valid() && users.Valid() && positions.Valid() && snapshots.Valid()
    ensures (RowsOf(markets, users, snapshots, positions), r)
      == SellOutcome(old(RowsOf(markets, users, snapshots, positions)), userId, marketId, shares, plan, held, now, failing)
  {
    if Credit in failing {
      return Failure(StepFailed(Credit));
    }
    var credited := users.AddBalance(userId, plan.amount);
    if credited.Failure? {
      return Failure(StepFailed(Credit));
    }
    r := SoldWrites(markets, users, positions, snapshots, marketId, shares, plan, held, now, failing);
  }

  /** The writes of a sell after the seller has been credited. */
  method SoldWrites(markets: MarketRepo.MarketTable, users: UserRepo.UserTable, positions: PositionRepo.PositionTable,
                    snapshots: SnapshotRepo.SnapshotLog, marketId: int, shares: real,
                    plan: TradePlan, held: Position, now: int, failing: set<Step>) returns (r: Result<(), TradeError>)
    requires markets.Valid() && positions.Valid() && snapshots.Valid()
    requires plan.market.liquidityParam > 0.0 && held.shares >= shares
    requires 1 <= held.id <= |positions.rows|
    modifies markets, positions, snapshots
    ensures markets.Valid() && positions.Valid() && snapshots.Valid()
    ensures (RowsOf(markets, users, snapshots, positions), r)
      == SoldOutcome(old(RowsOf(markets, users, snapshots, positions)), marketId, shares, plan, held, now, failing)
  {
    var q := Pricing.Traded(plan.market.qYes, plan.market.qNo, plan.side, -shares);
    if OutstandingShares in failing {
      return Failure(StepFailed(OutstandingShares));
    }
    RecordTrade(markets, snapshots, marketId, q, plan.market.liquidityParam, now, Snapshot in failing);
    r := ShrinkHolding(positions, held, shares, PositionUpdate in failing);
  }

  /**
   * The last write of a sell: `held` loses `shares` and keeps its average
   * price; `updateFails` stands for a failing position update.
   */
  method ShrinkHolding(positions: PositionRepo.PositionTable, held: Position, shares: real, updateFails: bool)
    returns (r: Result<(), TradeError>)
    requires positions.Valid() && held.shares >= shares
    requires 1 <= held.id <= |positions.rows|
    modifies positions
    ensures positions.Valid()
    ensures updateFails ==> r == Failure(StepFailed(PositionUpdate)) && positions.rows == old(positions.rows)
    ensures !updateFails ==>
      && r == Success(())
      && positions.rows == PositionRepo.SetHolding(old(positions.rows), held.id, held.shares - shares, held.avgPrice)
  {
    // The removal cannot be refused here: the holding was just checked.
    var sold := held.RemoveShares(shares).value;
    if updateFails {
      return Failure(StepFailed(PositionUpdate));
    }
    var updated := positions.Update(held.id, sold.shares, sold.avgPrice);
    r := Success(());
  }

  /**
   * There is no rollback: whichever later write fails, a debit that was made
   * stays made and a count that was moved stays moved. The trade reports
   * success exactly when none of its writes fail, the snapshot aside.
   */
  lemma BuyWritesStay(t: Tables, userId: int, marketId: int, shares: real, plan: TradePlan, now: int,
                      failing: set<Step>)
    requires plan.market.liquidityParam != 0.0 && shares != 0.0
    ensures var out := BuyOutcome(t, userId, marketId, shares, plan, now, failing);
      && (Debit !in failing ==> out.0.users == UserRepo.Debited(t.users, userId, plan.amount))
      && (Debit in failing ==> out.0 == t)
      && (Debit !in failing && OutstandingShares !in failing ==>
            out.0.markets == MarketRepo.SetOutstanding(t.markets, marketId,
                               Pricing.Traded(plan.market.qYes, plan.market.qNo, plan.side, shares)))
      && (out.1.Success? <==> Debit !in failing && OutstandingShares !in failing
                              && PositionLookup !in failing && PositionUpdate !in failing)
      && (Snapshot in failing ==> out.0.log == t.log)
      && (Snapshot !in failing && Debit !in failing && OutstandingShares !in failing ==> |out.0.log| == |t.log| + 1)
  {
  }

  /**
   * A buy whose writes succeed, the snapshot aside, takes exactly the cost
   * from the buyer and nothing from anyone else.
   */
  lemma BuyChargesBuyer(t: Tables, userId: int, marketId: int, shares: real, plan: TradePlan, now: int,
                        failing: set<Step>)
    requires shares > 0.0 && plan.market.liquidityParam > 0.0 && 1 <= userId <= |t.users|
    requires failing <= {Snapshot}
    ensures var out := BuyOutcome(t, userId, marketId, shares, plan, now, failing).0;
      && out.users[userId - 1].balance == t.users[userId - 1].balance - plan.amount
      && (forall i :: 0 <= i < |t.users| && i != userId - 1 ==> out.users[i] == t.users[i])
  {
  }

  /**
   * A buy with no failing write adds the shares to the bought side's
   * outstanding count only, and the price it logs for that side is higher
   * than before.
   */
  lemma BuyMovesMarket(t: Tables, userId: int, marketId: int, shares: real, plan: TradePlan, now: int)
    requires shares > 0.0 && plan.market.liquidityParam > 0.0
    requires 1 <= marketId <= |t.markets| && plan.market == t.markets[marketId - 1]
    ensures var out := BuyOutcome(t, userId, marketId, shares, plan, now, {}).0;
      && Pricing.SideCount(out.markets[marketId - 1].qYes, out.markets[marketId - 1].qNo, plan.side)
         == Pricing.SideCount(plan.market.qYes, plan.market.qNo, plan.side) + shares
      && Pricing.SideCount(out.markets[marketId - 1].qYes, out.markets[marketId - 1].qNo, plan.side.Opposite())
         == Pricing.SideCount(plan.market.qYes, plan.market.qNo, plan.side.Opposite())
    ensures var out := BuyOutcome(t, userId, marketId, shares, plan, now, {}).0;
      var before := Pricing.LmsrImpliedProbability(plan.market.qYes, plan.market.qNo, plan.market.liquidityParam);
      && |out.log| == |t.log| + 1
      && (plan.side == Yes ==> out.log[|t.log|].yesProbability > before)
      && (plan.side == No ==> out.log[|t.log|].yesProbability < before)
  {
    Pricing.LmsrBuyMovesProbability(plan.market.qYes, plan.market.qNo, shares, plan.side, plan.market.liquidityParam);
  }

  /**
   * A buy whose writes succeed, the snapshot aside, grows the buyer's
   * holding on that side by the shares and its cost basis by the cost.
   */
  lemma BuyGrowsHolding(t: Tables, userId: int, marketId: int, shares: real, plan: TradePlan, now: int,
                        failing: set<Step>)
    requires shares > 0.0 && plan.market.liquidityParam > 0.0
    requires PositionRepo.ValidRows(t.positions)
    requires failing <= {Snapshot}
    ensures var out := BuyOutcome(t, userId, marketId, shares, plan, now, failing).0;
      var held := PositionRepo.FoundOrCreated(t.positions, userId, marketId, plan.side).1;
      && 1 <= held.id <= |out.positions|
      && out.positions[held.id - 1].shares == held.shares + shares
      && (out.positions[held.id - 1].shares > 0.0 ==>
            out.positions[held.id - 1].TotalCost() == held.TotalCost() + plan.amount)
  {
    Pricing.DivideCancels(plan.amount, shares);
  }

  /**
   * There is no rollback for a sell either: a credit that was made stays
   * made whichever later write fails, and counts that were moved stay moved
   * when the position update fails. The sell reports success exactly when
   * the seller is in the table and none of its writes fail, the snapshot
   * aside.
   */
  lemma SellWritesStay(t: Tables, userId: int, marketId: int, shares: real, plan: TradePlan, held: Position,
                       now: int, failing: set<Step>)
    requires plan.market.liquidityParam != 0.0
    ensures var out := SellOutcome(t, userId, marketId, shares, plan, held, now, failing);
      var credited := Credit !in failing && 1 <= userId <= |t.users|;
      var moved := credited && OutstandingShares !in failing;
      && (Credit in failing ==> out.0 == t)
      && (Credit !in failing ==> out.0.users == UserRepo.Credited(t.users, userId, plan.amount))
      && (!moved ==> out.0.markets == t.markets && out.0.log == t.log && out.0.positions == t.positions)
      && (moved ==>
            out.0.markets == MarketRepo.SetOutstanding(t.markets, marketId,
                               Pricing.Traded(plan.market.qYes, plan.market.qNo, plan.side, -shares)))
      && (moved && Snapshot !in failing ==> |out.0.log| == |t.log| + 1)
      && (Snapshot in failing ==> out.0.log == t.log)
      && (PositionUpdate in failing ==> out.0.positions == t.positions)
      && (out.1.Success? <==> moved && PositionUpdate !in failing)
      && (out.1.Failure? ==> out.1.error.StepFailed? && out.1.error.step in {Credit, OutstandingShares, PositionUpdate})
  {
  }

  /**
   * A sell with no failing write pays exactly the proceeds to the seller and
   * to no one else, takes the shares off the sold side's outstanding count
   * only, and shrinks the holding by the shares at an unchanged average price.
   */
  lemma SellEffects(t: Tables, userId: int, marketId: int, shares: real, plan: TradePlan, held: Position, now: int)
    requires plan.market.liquidityParam > 0.0
    requires 1 <= userId <= |t.users| && 1 <= marketId <= |t.markets| && plan.market == t.markets[marketId - 1]
    requires 1 <= held.id <= |t.positions|
    ensures SellOutcome(t, userId, marketId, shares, plan, held, now, {}).1 == Success(())
    ensures var out := SellOutcome(t, userId, marketId, shares, plan, held, now, {}).0;
      && out.users[userId - 1].balance == t.users[userId - 1].balance + plan.amount
      && (forall i :: 0 <= i < |t.users| && i != userId - 1 ==> out.users[i] == t.users[i])
      && Pricing.SideCount(out.markets[marketId - 1].qYes, out.markets[marketId - 1].qNo, plan.side)
         == Pricing.SideCount(plan.market.qYes, plan.market.qNo, plan.side) - shares
      && Pricing.SideCount(out.markets[marketId - 1].qYes, out.markets[marketId - 1].qNo, plan.side.Opposite())
         == Pricing.SideCount(plan.market.qYes, plan.market.qNo, plan.side.Opposite())
      && out.positions[held.id - 1].shares == held.shares - shares
      && out.positions[held.id - 1].avgPrice == held.avgPrice
  {
  }

  /**
   * Selling straight back what was just bought, before anyone else trades,
   * pays back exactly the cost and returns both the buyer's balance and the
   * market's outstanding counts to where they were.
   */
  lemma BuyThenSellRestores(ms: seq<Market>, us: seq<User>, userId: int, marketId: int, shares: real,
                            side: MarketSide, cost: real)
    requires 1 <= marketId <= |ms| && 1 <= userId <= |us|
    requires var m := ms[marketId - 1];
      && Pricing.SideCount(m.qYes, m.qNo, side) >= 0.0
      && Pricing.LmsrBuyCost(m.qYes, m.qNo, shares, side, m.liquidityParam) == Success(cost)
    ensures var m := ms[marketId - 1];
      var ms1 := MarketRepo.SetOutstanding(ms, marketId, Pricing.Traded(m.qYes, m.qNo, side, shares));
      var m1 := ms1[marketId - 1];
      && Pricing.LmsrSellProceeds(m1.qYes, m1.qNo, shares, side, m1.liquidityParam) == Success(cost)
      && MarketRepo.SetOutstanding(ms1, marketId, Pricing.Traded(m1.qYes, m1.qNo, side, -shares)) == ms
      && UserRepo.Credited(UserRepo.Debited(us, userId, cost), userId, cost) == us
  {
    var m := ms[marketId - 1];
    Pricing.LmsrRoundTrip(m.qYes, m.qNo, shares, side, m.liquidityParam);
    var q := Pricing.Traded(m.qYes, m.qNo, side, shares);
    var ms1 := MarketRepo.SetOutstanding(ms, marketId, q);
    var back := Pricing.Traded(q.0, q.1, side, -shares);
    assert back == (m.qYes, m.qNo) by {
      match side {
        case Yes =>
        case No =>
      }
    }
    assert ms1[marketId - 1].WithOutstanding(back) == m;
    var ms2 := MarketRepo.SetOutstanding(ms1, marketId, back);
    assert forall i :: 0 <= i < |ms| ==> ms2[i] == ms[i];
    var us2 := UserRepo.Credited(UserRepo.Debited(us, userId, cost), userId, cost);
    assert forall i :: 0 <= i < |us| ==> us2[i] == us[i];
  }

  /** Whether a holding of `side` in `m` has won: only once `m` is resolved with that outcome. */
  predicate Won(m: Market, side: MarketSide) {
    m.resolved && m.outcome.Some? && (if m.outcome.value then side == Yes else side == No)
  }

  /** Of the two sides of a resolved market with an outcome, exactly one has won. */
  lemma ExactlyOneSideWins(m: Market)
    requires m.resolved && m.outcome.Some?
    ensures Won(m, Yes) != Won(m, No)
    ensures Won(m, Yes) <==> m.outcome == Some(true)
  {
  }

  /** One line of the portfolio page. */
  datatype PositionDisplay = PositionDisplay(
    marketId: int,
    marketQuestion: string,
    side: string,
    shares: real,
    avgPrice: real,
    totalCost: real,
    payoutIfWin: real,
    profitIfWin: real,
    lossIfLose: real,
    marketResolved: bool,
    won: bool)

  /** The page: its lines, the holder's balance and name. */
  datatype PositionsPage = PositionsPage(lines: seq<PositionDisplay>, balance: real, username: string)

  /**
   * The line for holding `p` in market `m`: a winning share pays 1, so the
   * profit if it wins is the profit at price 1, and what is lost if it loses
   * is the cost basis.
   */
  function DisplayOf(p: Position, m: Market): (d: PositionDisplay)
    ensures d.totalCost == p.TotalCost() && d.lossIfLose == d.totalCost
    ensures d.payoutIfWin == p.PayoutIfWins()
    ensures d.profitIfWin == p.ProfitLoss(1.0)
    ensures d.marketResolved == m.resolved
    ensures d.won <==> m.resolved && m.outcome.Some? && m.outcome.value == (p.side == Yes)
    ensures d.won ==> Won(m, p.side) && !Won(m, p.side.Opposite())
    ensures d.side == p.side.ToString() && d.marketId == m.id && d.marketQuestion == m.question
    ensures d.shares == p.shares && d.avgPrice == p.avgPrice
  {
    var totalCost := p.shares * p.avgPrice;
    var payout := p.shares;
    PositionDisplay(m.id, m.question, p.side.ToString(), p.shares, p.avgPrice, totalCost,
                    payout, payout - totalCost, totalCost, m.resolved, Won(m, p.side))
  }

  /**
   * The lines for `held`, in order, skipping a holding whose market is not in
   * `ms`: each line is the display of one holding in its own market.
   */
  function DisplayLines(ms: seq<Market>, held: seq<Position>): (r: seq<PositionDisplay>)
    ensures |r| <= |held|
  {
    if |held| == 0 then []
    else
      var p := held[|held| - 1];
      var rest := DisplayLines(ms, held[..|held| - 1]);
      if 1 <= p.marketId <= |ms| then rest + [DisplayOf(p, ms[p.marketId - 1])] else rest
  }

  /**
   * Every line shows one of the holdings in its own market, and when every
   * holding's market exists there is one line per holding.
   */
  lemma {:induction false} DisplayLinesShowHoldings(ms: seq<Market>, held: seq<Position>)
    ensures (forall p :: p in held ==> 1 <= p.marketId <= |ms|) ==> |DisplayLines(ms, held)| == |held|
    ensures forall d :: d in DisplayLines(ms, held) ==>
      exists p :: p in held && 1 <= p.marketId <= |ms| && d == DisplayOf(p, ms[p.marketId - 1])
  {
    if |held| > 0 {
      var init := held[..|held| - 1];
      assert forall q :: q in init ==> q in held;
      DisplayLinesShowHoldings(ms, init);
    }
  }

  /**
   * The portfolio page of `userId`: one line per holding with shares whose
   * market exists. A missing user has no page (the procedure aborts).
   */
  method ViewPositions(markets: MarketRepo.MarketTable, users: UserRepo.UserTable,
                       positions: PositionRepo.PositionTable, userId: int) returns (page: Option<PositionsPage>)
    requires markets.Valid() && users.Valid()
    ensures page.None? <==> !users.Has(userId)
    ensures page.Some? ==>
      && page.value.lines == DisplayLines(markets.rows, positions.FindByUser(userId))
      && page.value.balance == users.rows[userId - 1].balance
      && page.value.username == users.rows[userId - 1].username
  {
    var held := positions.FindByUser(userId);
    var user := users.FindById(userId);
    if user.Failure? {
      return None;
    }
    var lines: seq<PositionDisplay> := [];
    for i := 0 to |held|
      invariant lines == DisplayLines(markets.rows, held[..i])
    {
      var p := held[i];
      assert held[..i + 1] == held[..i] + [p];
      var market := markets.FindById(p.marketId);
      if market.Success? {
        assert market.value == markets.rows[p.marketId - 1];
        lines := lines + [DisplayOf(p, market.value)];
      }
    }
    assert held[..|held|] == held;
    return Some(PositionsPage(lines, user.value.balance, user.value.username));
  }
}
