/**
 * The JSON endpoints: a buy quote for a market, and a market's price history.
 * Both only read the tables.
 */
module Api {
  import opened Wrappers
  import opened Sides
  import Pricing
  import opened Markets
  import MarketRepo
  import UserRepo
  import SnapshotRepo
  import Trading

  /** The HTTP statuses the endpoints answer with on failure. */
  datatype Status = NotFound | BadRequest | InternalServerError

  /** What buying would cost, and what it would pay and earn if the side wins. */
  datatype CostQuote = CostQuote(cost: real, potentialPayout: real, potentialProfit: real, avgPrice: real)

  /**
   * The quote for buying `shares` of the side named by `sideText` on market
   * `marketId`; `readFails` stands for a database error on reading the
   * market, answered like an unknown market. An unknown market is reported
   * before the side is looked at.
   */
  function Quote(markets: MarketRepo.MarketTable, marketId: int, shares: real, sideText: string, readFails: bool)
    : (r: Result<CostQuote, Status>)
    reads markets
    requires markets.Valid()
    ensures readFails || !markets.Has(marketId) ==> r == Failure(NotFound)
    ensures !readFails && markets.Has(marketId) && Parse(sideText).None? ==> r == Failure(BadRequest)
    ensures r.Success? <==>
      && !readFails && markets.Has(marketId) && Parse(sideText).Some? && shares > 0.0
      && markets.rows[marketId - 1].liquidityParam > 0.0
    ensures r.Failure? && !readFails && markets.Has(marketId) ==> r == Failure(BadRequest)
    ensures r.Success? ==>
      var m := markets.rows[marketId - 1];
      && Pricing.LmsrBuyCost(m.qYes, m.qNo, shares, Parse(sideText).value, m.liquidityParam) == Success(r.value.cost)
      && r.value.cost > 0.0
      && r.value.potentialPayout == shares
      && r.value.potentialProfit == shares - r.value.cost
      && r.value.avgPrice * shares == r.value.cost
  {
    if readFails then Failure(NotFound)
    else match markets.FindById(marketId)
      case Failure(_) => Failure(NotFound)
      case Success(market) =>
        match Parse(sideText)
        case None => Failure(BadRequest)
        case Some(side) =>
          match Pricing.LmsrBuyCost(market.qYes, market.qNo, shares, side, market.liquidityParam)
          case Failure(_) => Failure(BadRequest)
          case Success(cost) =>
            Pricing.DivideCancels(cost, shares);
            Success(CostQuote(cost, shares, shares - cost, cost / shares))
  }

  /**
   * A buy that passes its checks is charged exactly the quoted cost for
   * the same market, shares and side.
   */
  lemma QuoteIsWhatBuyCharges(markets: MarketRepo.MarketTable, users: UserRepo.UserTable, userId: int,
                              marketId: int, shares: real, sideText: string, now: int, failing: set<Trading.Step>)
    requires markets.Valid() && users.Valid()
    requires Trading.BuyChecks(markets, users, userId, marketId, shares, sideText, now, failing).Success?
    ensures Quote(markets, marketId, shares, sideText, false).Success?
    ensures Quote(markets, marketId, shares, sideText, false).value.cost
            == Trading.BuyChecks(markets, users, userId, marketId, shares, sideText, now, failing).value.amount
  {
  }

  /** One point of a price chart. */
  datatype PricePoint = PricePoint(timestamp: int, yesProbability: real, noProbability: real)

  function PointOf(s: SnapshotRepo.PriceSnapshot): PricePoint {
    PricePoint(s.createdAt, s.yesProbability, s.noProbability)
  }

  /** The chart points for `h`, one per snapshot, in the same order. */
  function Points(h: seq<SnapshotRepo.PriceSnapshot>): (r: seq<PricePoint>)
    ensures |r| == |h|
    ensures forall i :: 0 <= i < |h| ==> r[i] == PointOf(h[i])
  {
    if |h| == 0 then [] else Points(h[..|h| - 1]) + [PointOf(h[|h| - 1])]
  }

  /** The price chart of `marketId`, oldest first; `readFails` stands for a database error. */
  function PriceHistory(log: SnapshotRepo.SnapshotLog, marketId: int, readFails: bool)
    : (r: Result<seq<PricePoint>, Status>)
    reads log
    ensures readFails <==> r == Failure(InternalServerError)
    ensures r.Success? ==> |r.value| == |log.GetHistory(marketId)|
    ensures r.Success? ==> forall i :: 0 <= i < |r.value| ==>
      var s := log.GetHistory(marketId)[i];
      && s.marketId == marketId
      && r.value[i] == PricePoint(s.createdAt, s.yesProbability, s.noProbability)
  {
    if readFails then Failure(InternalServerError) else Success(Points(log.GetHistory(marketId)))
  }

  /** A snapshot written for a market adds exactly its point to the end of that market's chart. */
  lemma {:induction false} ChartGrowsByOnePoint(h: seq<SnapshotRepo.PriceSnapshot>, s: SnapshotRepo.PriceSnapshot)
    ensures Points(h + [s]) == Points(h) + [PointOf(s)]
  {
    assert (h + [s])[..|h|] == h;
  }
}
