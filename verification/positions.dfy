/**
 * A holder's position on one side of one market: a share count and the
 * weighted-average price paid per share (the cost basis).
 */
module Positions {
  import opened Wrappers
  import opened Sides

  datatype PositionError = MoreThanHeld   // "Cannot remove more shares than held"

  datatype Position = Position(
    id: int,
    userId: int,
    marketId: int,
    side: MarketSide,
    shares: real,
    avgPrice: real)
  {
    /** What the holding cost in total: shares times the average price. */
    function TotalCost(): real {
      shares * avgPrice
    }

    /**
     * Buys `n` more shares at `price` each. A non-positive `n` is ignored;
     * otherwise the share count grows by `n` and the cost basis absorbs
     * `n * price`, so the new average is the weighted mean of old and new.
     */
    function AddShares(n: real, price: real): (p: Position)
      ensures n <= 0.0 ==> p == this
      ensures n > 0.0 ==> p == this.(shares := shares + n, avgPrice := p.avgPrice)
      ensures n > 0.0 && p.shares > 0.0 ==> p.TotalCost() == TotalCost() + n * price
      ensures n > 0.0 && p.shares <= 0.0 ==> p.avgPrice == 0.0
    {
      if n <= 0.0 then this
      else
        var totalCost := TotalCost() + n * price;
        var newShares := shares + n;
        var avg := if newShares > 0.0 then totalCost / newShares else 0.0;
        assert newShares > 0.0 ==> newShares * avg == totalCost;
        this.(shares := newShares, avgPrice := avg)
    }

    /**
     * Sells `n` shares. Fails, leaving the position as it was, when `n`
     * exceeds the holding; otherwise only the share count changes.
     */
    function RemoveShares(n: real): (r: Result<Position, PositionError>)
      ensures r.Failure? <==> n > shares
      ensures r.Success? ==> r.value == this.(shares := shares - n)
      ensures r.Success? ==> r.value.shares >= 0.0
    {
      if n > shares then Failure(MoreThanHeld)
      else Success(this.(shares := shares - n))
    }

    function ValueAtPrice(price: real): real {
      shares * price
    }

    /** Gain over the cost basis if the shares were valued at `price`. */
    function ProfitLoss(price: real): (r: real)
      ensures r == ValueAtPrice(price) - TotalCost()
    {
      shares * (price - avgPrice)
    }

    /** Each share pays 1 if its side wins. */
    function PayoutIfWins(): (r: real)
      ensures r == ValueAtPrice(1.0)
    {
      shares
    }
  }

  /** Buying 10 shares at 0.6 on top of 10 bought at 0.5 gives 20 at 0.55. */
  lemma AddSharesWeightedMean(p: Position)
    requires p.shares == 10.0 && p.avgPrice == 0.5
    ensures p.AddShares(10.0, 0.6).shares == 20.0
    ensures p.AddShares(10.0, 0.6).avgPrice == 0.55
  {
    var q := p.AddShares(10.0, 0.6);
    assert q.shares * q.avgPrice == 11.0;
  }

  /** At its own average price a holding shows neither profit nor loss. */
  lemma NoProfitAtCostBasis(p: Position)
    ensures p.ProfitLoss(p.avgPrice) == 0.0
  {
  }

  /** Winning pays the cost back plus the profit at a price of 1. */
  lemma PayoutIsCostPlusProfit(p: Position)
    ensures p.PayoutIfWins() == p.TotalCost() + p.ProfitLoss(1.0)
  {
  }

  /** Removing the whole holding is allowed and leaves nothing. */
  lemma RemoveAll(p: Position)
    ensures p.RemoveShares(p.shares) == Success(p.(shares := 0.0))
  {
  }

  /** Buying then selling the same shares restores the count; the average keeps the blended price. */
  lemma AddThenRemove(p: Position, n: real, price: real)
    requires n > 0.0 && p.shares >= 0.0
    ensures p.AddShares(n, price).RemoveShares(n) == Success(p.AddShares(n, price).(shares := p.shares))
  {
  }

  /** A single change to a position, as the trade procedures apply them. */
  datatype PositionOp = Add(n: real, price: real) | Remove(n: real)

  /** The position after `op`; a refused removal leaves it as it was. */
  function Apply(p: Position, op: PositionOp): Position {
    match op
    case Add(n, price) => p.AddShares(n, price)
    case Remove(n) =>
      match p.RemoveShares(n)
      case Success(q) => q
      case Failure(_) => p
  }

  function ApplyAll(p: Position, ops: seq<PositionOp>): Position
    decreases |ops|
  {
    if |ops| == 0 then p else ApplyAll(Apply(p, ops[0]), ops[1..])
  }

  /** No sequence of buys and sells drives a non-negative holding below zero. */
  lemma {:induction false} SharesStayNonNegative(p: Position, ops: seq<PositionOp>)
    requires p.shares >= 0.0
    ensures ApplyAll(p, ops).shares >= 0.0
    decreases |ops|
  {
    if |ops| > 0 {
      SharesStayNonNegative(Apply(p, ops[0]), ops[1..]);
    }
  }

  /** Only the share count and average price ever change. */
  lemma {:induction false} OpsKeepIdentity(p: Position, ops: seq<PositionOp>)
    ensures var q := ApplyAll(p, ops);
      q.id == p.id && q.userId == p.userId && q.marketId == p.marketId && q.side == p.side
    decreases |ops|
  {
    if |ops| > 0 {
      OpsKeepIdentity(Apply(p, ops[0]), ops[1..]);
    }
  }
}
