/**
 * The pricing engine: the Logarithmic Market Scoring Rule (LMSR) market maker,
 * C(q) = b * ln(e^(q_yes / b) + e^(q_no / b)), and the legacy constant-product
 * market maker kept beside it. All prices are over `real`.
 */
module Pricing {
  import opened Wrappers
  import opened Sides

  // ---------------------------------------------------------------------------
  // exp and ln
  //
  // The model does not define the transcendental functions. `exp` and `ln` are
  // arbitrary functions of which only these laws are known: exp is positive and
  // strictly increasing, ln is strictly increasing on the positive reals. The
  // witnesses show that the laws can be met together.
  // ---------------------------------------------------------------------------

  ghost predicate ExpLaws(f: real -> real) {
    && (forall x :: f(x) > 0.0)
    && (forall x, y :: x < y ==> f(x) < f(y))
  }

  ghost predicate LnLaws(f: real -> real) {
    forall x, y :: 0.0 < x < y ==> f(x) < f(y)
  }

  /** A positive, strictly increasing rational function: the witness for ExpFn. */
  function RationalExp(x: real): real {
    if x < 0.0 then 1.0 / (1.0 - x) else 1.0 + x
  }

  lemma ReciprocalDecreasing(a: real, c: real)
    requires 0.0 < a < c
    ensures 1.0 / c < 1.0 / a
  {
    assert (1.0 / a - 1.0 / c) * (a * c) == c - a;
  }

  /** The quotient of a positive part by a larger positive whole lies in (0, 1). */
  lemma ProperFraction(a: real, t: real)
    requires 0.0 < a < t
    ensures 0.0 < a / t < 1.0
  {
    assert a / t == a * (1.0 / t);
    assert 1.0 - a / t == (t - a) * (1.0 / t);
  }

  /** Multiplying back by a non-zero divisor cancels the division. */
  lemma DivideCancels(k: real, x: real)
    requires x != 0.0
    ensures x * (k / x) == k
  {
  }

  /** Any non-zero amount is half of twice itself. */
  lemma HalfOfDouble(a: real)
    requires a != 0.0
    ensures a / (a + a) == 0.5
  {
    assert 0.5 * (a + a) == a;
  }

  /** A strict inequality survives multiplication by a positive factor. */
  lemma ScaleStrict(x: real, y: real, z: real)
    requires x < y && z > 0.0
    ensures x * z < y * z
  {
    assert y * z - x * z == (y - x) * z;
  }

  /** What is known of no / (yes + no) for a non-zero total. */
  lemma PoolShareFacts(yes: real, no: real)
    requires yes + no != 0.0
    ensures yes > 0.0 && no > 0.0 ==> 0.0 < no / (yes + no) < 1.0
    ensures yes == no ==> no / (yes + no) == 0.5
  {
    if yes > 0.0 && no > 0.0 {
      ProperFraction(no, yes + no);
    }
    if yes == no {
      HalfOfDouble(no);
    }
  }

  /** Dividing a product by one of its non-zero factors gives the other. */
  lemma ProductDivides(a: real, b: real)
    requires a != 0.0
    ensures (a * b) / a == b
  {
    DivideCancels(a * b, a);
    assert a * ((a * b) / a) == a * b;
  }

  lemma RationalExpLawful()
    ensures ExpLaws(RationalExp)
  {
    forall x, y | x < y ensures RationalExp(x) < RationalExp(y) {
      if y < 0.0 {
        ReciprocalDecreasing(1.0 - y, 1.0 - x);
      } else if x < 0.0 {
        ReciprocalDecreasing(1.0, 1.0 - x);
      }
    }
  }

  type ExpFn = f: real -> real | ExpLaws(f) witness (RationalExpLawful(); RationalExp)
  type LnFn = f: real -> real | LnLaws(f) witness (x: real) => x

  const exp: ExpFn
  const ln: LnFn

  // ---------------------------------------------------------------------------
  // Shared shapes
  // ---------------------------------------------------------------------------

  datatype PricingError =
    | NonPositiveShares       // "Shares must be positive"
    | NonPositiveLiquidity    // "Liquidity parameter must be positive"
    | InsufficientSupply      // "Not enough shares to sell"
    | NegativeResult          // "Invalid calculation resulted in negative cost/proceeds"
    | NonPositivePools        // "Pools must be positive"
    | InsufficientLiquidity   // "Not enough liquidity in YES/NO pool"

  /** The count (outstanding shares or pool) of `side`. */
  function SideCount(qYes: real, qNo: real, side: MarketSide): real {
    match side
    case Yes => qYes
    case No => qNo
  }

  /** The pair of counts after `delta` is added to `side` (a negative delta removes). */
  function Traded(qYes: real, qNo: real, side: MarketSide, delta: real): (q: (real, real))
    ensures SideCount(q.0, q.1, side) == SideCount(qYes, qNo, side) + delta
    ensures SideCount(q.0, q.1, side.Opposite()) == SideCount(qYes, qNo, side.Opposite())
  {
    match side
    case Yes => (qYes + delta, qNo)
    case No => (qYes, qNo + delta)
  }

  // ---------------------------------------------------------------------------
  // LMSR
  // ---------------------------------------------------------------------------

  /** C(q_yes, q_no) = b * ln(e^(q_yes / b) + e^(q_no / b)). */
  function LmsrCost(qYes: real, qNo: real, b: real): real
    requires b > 0.0
  {
    b * ln(exp(qYes / b) + exp(qNo / b))
  }

  lemma DivideIncreasing(x: real, y: real, b: real)
    requires b > 0.0 && x < y
    ensures x / b < y / b
  {
    assert (y / b - x / b) * b == y - x;
  }

  /** exp(x / b) is increasing in x, strictly where x grows. */
  lemma ScaledExpIncreasing(x: real, y: real, b: real)
    requires b > 0.0 && x <= y
    ensures exp(x / b) <= exp(y / b)
    ensures x < y ==> exp(x / b) < exp(y / b)
  {
    if x < y {
      DivideIncreasing(x, y, b);
    }
  }

  /** The cost function grows strictly when either count grows and neither shrinks. */
  lemma {:induction false} LmsrCostIncreasing(qYes: real, qNo: real, qYes': real, qNo': real, b: real)
    requires b > 0.0
    requires qYes <= qYes' && qNo <= qNo' && (qYes < qYes' || qNo < qNo')
    ensures LmsrCost(qYes, qNo, b) < LmsrCost(qYes', qNo', b)
  {
    ScaledExpIncreasing(qYes, qYes', b);
    ScaledExpIncreasing(qNo, qNo', b);
    var s := exp(qYes / b) + exp(qNo / b);
    var s' := exp(qYes' / b) + exp(qNo' / b);
    assert 0.0 < s < s';
    assert ln(s) < ln(s');
    assert b * ln(s) < b * ln(s') by {
      assert b * ln(s') - b * ln(s) == b * (ln(s') - ln(s));
    }
  }

  /**
   * The cost of buying `shares` of `side`: C(after) - C(before). Rejects
   * non-positive shares first, then a non-positive liquidity parameter; for
   * valid input the cost is always positive, so the negative-cost rejection
   * never fires.
   */
  function LmsrBuyCost(qYes: real, qNo: real, shares: real, side: MarketSide, b: real): (r: Result<real, PricingError>)
    ensures shares <= 0.0 ==> r == Failure(NonPositiveShares)
    ensures shares > 0.0 && b <= 0.0 ==> r == Failure(NonPositiveLiquidity)
    ensures shares > 0.0 && b > 0.0 ==> r.Success? && r.value > 0.0
  {
    if shares <= 0.0 then Failure(NonPositiveShares)
    else if b <= 0.0 then Failure(NonPositiveLiquidity)
    else
      var before := LmsrCost(qYes, qNo, b);
      var q := Traded(qYes, qNo, side, shares);
      var after := LmsrCost(q.0, q.1, b);
      var cost := after - before;
      LmsrCostIncreasing(qYes, qNo, q.0, q.1, b);
      if cost < 0.0 then Failure(NegativeResult) else Success(cost)
  }

  /**
   * The proceeds of selling `shares` of `side`: C(before) - C(after). Rejects
   * non-positive shares, then a non-positive liquidity parameter, then more
   * shares than the side has outstanding in the whole market.
   */
  function LmsrSellProceeds(qYes: real, qNo: real, shares: real, side: MarketSide, b: real): (r: Result<real, PricingError>)
    ensures shares <= 0.0 ==> r == Failure(NonPositiveShares)
    ensures shares > 0.0 && b <= 0.0 ==> r == Failure(NonPositiveLiquidity)
    ensures shares > 0.0 && b > 0.0 && shares > SideCount(qYes, qNo, side) ==> r == Failure(InsufficientSupply)
    ensures shares > 0.0 && b > 0.0 && shares <= SideCount(qYes, qNo, side) ==> r.Success? && r.value > 0.0
  {
    if shares <= 0.0 then Failure(NonPositiveShares)
    else if b <= 0.0 then Failure(NonPositiveLiquidity)
    else if shares > SideCount(qYes, qNo, side) then Failure(InsufficientSupply)
    else
      var before := LmsrCost(qYes, qNo, b);
      var q := Traded(qYes, qNo, side, -shares);
      var after := LmsrCost(q.0, q.1, b);
      var proceeds := before - after;
      LmsrCostIncreasing(q.0, q.1, qYes, qNo, b);
      if proceeds < 0.0 then Failure(NegativeResult) else Success(proceeds)
  }

  /**
   * Buying and at once selling the same shares is exact: there is no spread.
   * Holds for every input (including the rejected ones) as long as the side's
   * outstanding count is not negative.
   */
  lemma {:induction false} LmsrRoundTrip(qYes: real, qNo: real, shares: real, side: MarketSide, b: real)
    requires SideCount(qYes, qNo, side) >= 0.0
    ensures var q := Traded(qYes, qNo, side, shares);
      LmsrSellProceeds(q.0, q.1, shares, side, b) == LmsrBuyCost(qYes, qNo, shares, side, b)
  {
    var q := Traded(qYes, qNo, side, shares);
    var back := Traded(q.0, q.1, side, -shares);
    assert back == (qYes, qNo) by {
      match side
      case Yes =>
      case No =>
    }
  }

  /** The implied probability of YES: e^(q_yes / b) / (e^(q_yes / b) + e^(q_no / b)). */
  function LmsrImpliedProbability(qYes: real, qNo: real, b: real): (p: real)
    requires b != 0.0
    ensures 0.0 < p < 1.0
    ensures qYes == qNo ==> p == 0.5
  {
    var expYes := exp(qYes / b);
    var expNo := exp(qNo / b);
    PoolShareFacts(expNo, expYes);
    expYes / (expYes + expNo)
  }

  /** The marginal price of one more share of `side`. */
  function LmsrInstantaneousPrice(qYes: real, qNo: real, side: MarketSide, b: real): (r: real)
    requires b != 0.0
    ensures side == Yes ==> r == LmsrImpliedProbability(qYes, qNo, b)
    ensures side == No ==> r == 1.0 - LmsrImpliedProbability(qYes, qNo, b)
  {
    LmsrImpliedProbability(qYes, qNo, b) * (match side case Yes => 1.0 case No => 0.0)
    + (1.0 - LmsrImpliedProbability(qYes, qNo, b)) * (match side case Yes => 0.0 case No => 1.0)
  }

  lemma LmsrPricesSumToOne(qYes: real, qNo: real, b: real)
    requires b != 0.0
    ensures LmsrInstantaneousPrice(qYes, qNo, Yes, b) + LmsrInstantaneousPrice(qYes, qNo, No, b) == 1.0
  {
  }

  /** A non-strict inequality survives multiplication by a positive factor. */
  lemma ScaleWeak(x: real, y: real, z: real)
    requires x <= y && z > 0.0
    ensures x * z <= y * z
  {
    if x < y {
      ScaleStrict(x, y, z);
    }
  }

  /** Cross-multiplied form of ShareIncreasing. */
  lemma CrossProductLess(a: real, c: real, a': real, c': real)
    requires 0.0 < a <= a' && 0.0 < c' <= c && (a < a' || c' < c)
    ensures a * c' < a' * c
  {
    if a < a' {
      ScaleStrict(a, a', c');
      ScaleWeak(c', c, a');
      assert c' * a' == a' * c' && c * a' == a' * c;
    } else {
      ScaleStrict(c', c, a);
      assert c' * a == a * c' && c * a == a' * c;
    }
  }

  /** a / t < a' / t' follows from a * t' < a' * t for positive t, t'. */
  lemma FractionLess(a: real, t: real, a': real, t': real)
    requires t > 0.0 && t' > 0.0 && a * t' < a' * t
    ensures a / t < a' / t'
  {
    var p, p' := a / t, a' / t';
    DivideCancels(a, t);
    DivideCancels(a', t');
    var tt := t * t';
    assert tt > 0.0;
    assert p * tt == a * t';
    assert p' * tt == a' * t;
    if p' <= p {
      ScaleWeak(p', p, tt);
      assert false;
    }
  }

  /** a / (a + c) grows when a grows or c shrinks (all positive). */
  lemma ShareIncreasing(a: real, c: real, a': real, c': real)
    requires 0.0 < a <= a' && 0.0 < c' <= c && (a < a' || c' < c)
    ensures a / (a + c) < a' / (a' + c')
  {
    CrossProductLess(a, c, a', c');
    assert a * (a' + c') < a' * (a + c) by {
      assert a * (a' + c') == a * a' + a * c';
      assert a' * (a + c) == a * a' + a' * c;
    }
    FractionLess(a, a + c, a', a' + c');
  }

  /**
   * The implied probability of YES rises strictly when q_yes grows or q_no
   * shrinks (and neither moves the other way).
   */
  lemma {:induction false} LmsrProbabilityMonotone(qYes: real, qNo: real, qYes': real, qNo': real, b: real)
    requires b > 0.0
    requires qYes <= qYes' && qNo' <= qNo && (qYes < qYes' || qNo' < qNo)
    ensures LmsrImpliedProbability(qYes, qNo, b) < LmsrImpliedProbability(qYes', qNo', b)
  {
    ScaledExpIncreasing(qYes, qYes', b);
    ScaledExpIncreasing(qNo', qNo, b);
    ShareIncreasing(exp(qYes / b), exp(qNo / b), exp(qYes' / b), exp(qNo' / b));
  }

  /** Buying YES raises the probability of YES; buying NO lowers it. */
  lemma {:induction false} LmsrBuyMovesProbability(qYes: real, qNo: real, shares: real, side: MarketSide, b: real)
    requires b > 0.0 && shares > 0.0
    ensures var q := Traded(qYes, qNo, side, shares);
      && (side == Yes ==> LmsrImpliedProbability(q.0, q.1, b) > LmsrImpliedProbability(qYes, qNo, b))
      && (side == No ==> LmsrImpliedProbability(q.0, q.1, b) < LmsrImpliedProbability(qYes, qNo, b))
  {
    var q := Traded(qYes, qNo, side, shares);
    match side
    case Yes => LmsrProbabilityMonotone(qYes, qNo, q.0, q.1, b);
    case No => LmsrProbabilityMonotone(q.0, q.1, qYes, qNo, b);
  }

  // ---------------------------------------------------------------------------
  // Legacy constant-product market maker
  // ---------------------------------------------------------------------------

  /**
   * The cost of buying `shares` of `side` from two pools whose product is kept
   * constant: the bought side's pool shrinks by `shares` and the other grows by
   * the cost.
   */
  function AmmBuyCost(yesPool: real, noPool: real, shares: real, side: MarketSide): (r: Result<real, PricingError>)
    ensures shares <= 0.0 ==> r == Failure(NonPositiveShares)
    ensures shares > 0.0 && (yesPool <= 0.0 || noPool <= 0.0) ==> r == Failure(NonPositivePools)
    ensures shares > 0.0 && yesPool > 0.0 && noPool > 0.0 && shares >= SideCount(yesPool, noPool, side)
      ==> r == Failure(InsufficientLiquidity)
    ensures shares > 0.0 && yesPool > 0.0 && noPool > 0.0 && shares < SideCount(yesPool, noPool, side)
      ==> r.Success? && r.value > 0.0
    ensures r.Success? && side == Yes ==> (yesPool - shares) * (noPool + r.value) == yesPool * noPool
    ensures r.Success? && side == No ==> (yesPool + r.value) * (noPool - shares) == yesPool * noPool
  {
    if shares <= 0.0 then Failure(NonPositiveShares)
    else if yesPool <= 0.0 || noPool <= 0.0 then Failure(NonPositivePools)
    else
      match side
      case Yes => BuyFromPool(yesPool, noPool, shares)
      case No => BuyFromPool(noPool, yesPool, shares)
  }

  /**
   * One side of a pool buy: `pool` is the bought side's pool and `other` the
   * opposite one.
   */
  function BuyFromPool(pool: real, other: real, shares: real): (r: Result<real, PricingError>)
    requires pool > 0.0 && other > 0.0 && shares > 0.0
    ensures shares >= pool ==> r == Failure(InsufficientLiquidity)
    ensures shares < pool ==> r.Success? && r.value > 0.0
    ensures r.Success? ==> (pool - shares) * (other + r.value) == pool * other
    ensures r.Success? ==> (other + r.value) * (pool - shares) == other * pool
  {
    var k := pool * other;
    var newPool := pool - shares;
    if newPool <= 0.0 then Failure(InsufficientLiquidity)
    else
      var cost := k / newPool - other;
      BoughtPoolKeepsProduct(k, pool, other, shares);
      if cost < 0.0 then Failure(NegativeResult) else Success(cost)
  }

  /**
   * Taking `shares` out of `pool` and topping `other` up to keep the product
   * `k` costs a positive amount, and the product is kept.
   */
  lemma BoughtPoolKeepsProduct(k: real, pool: real, other: real, shares: real)
    requires k == pool * other && other > 0.0 && 0.0 < shares < pool
    ensures var cost := k / (pool - shares) - other;
      && cost > 0.0
      && (pool - shares) * (other + cost) == k
      && (other + cost) * (pool - shares) == k
  {
    ReciprocalScaling(k, pool - shares, pool);
    ProductDivides(pool, other);
    DivideCancels(k, pool - shares);
  }

  /** k / x is above k / y when 0 < x < y and k > 0. */
  lemma ReciprocalScaling(k: real, x: real, y: real)
    requires k > 0.0 && 0.0 < x < y
    ensures k / x > k / y
  {
    ReciprocalDecreasing(x, y);
    assert k / x == k * (1.0 / x) && k / y == k * (1.0 / y);
  }

  /**
   * The proceeds of selling `shares` of `side` back into the pools: the sold
   * side's pool grows by `shares`, the other shrinks by the proceeds, and the
   * product is kept.
   */
  function AmmSellProceeds(yesPool: real, noPool: real, shares: real, side: MarketSide): (r: Result<real, PricingError>)
    ensures shares <= 0.0 ==> r == Failure(NonPositiveShares)
    ensures shares > 0.0 && (yesPool <= 0.0 || noPool <= 0.0) ==> r == Failure(NonPositivePools)
    ensures shares > 0.0 && yesPool > 0.0 && noPool > 0.0 ==> r.Success? && r.value > 0.0
    ensures r.Success? && side == Yes ==> (yesPool + shares) * (noPool - r.value) == yesPool * noPool
    ensures r.Success? && side == No ==> (yesPool - r.value) * (noPool + shares) == yesPool * noPool
  {
    if shares <= 0.0 then Failure(NonPositiveShares)
    else if yesPool <= 0.0 || noPool <= 0.0 then Failure(NonPositivePools)
    else
      var k := yesPool * noPool;
      var proceeds := match side {
        case Yes =>
          var newYesPool := yesPool + shares;
          var newNoPool := k / newYesPool;
          ReciprocalScaling(k, yesPool, newYesPool);
          ProductDivides(yesPool, noPool);
          DivideCancels(k, newYesPool);
          noPool - newNoPool
        case No =>
          var newNoPool := noPool + shares;
          var newYesPool := k / newNoPool;
          ReciprocalScaling(k, noPool, newNoPool);
          ProductDivides(noPool, yesPool);
          assert k == noPool * yesPool;
          DivideCancels(k, newNoPool);
          yesPool - newYesPool
      };
      if proceeds < 0.0 then Failure(NegativeResult) else Success(proceeds)
  }

  /** A non-zero factor cancels from both sides of an equation. */
  lemma CancelFactor(p: real, x: real, y: real)
    requires p != 0.0 && p * x == p * y
    ensures x == y
  {
    assert p * (x - y) == 0.0;
  }

  /**
   * With the product kept by a buy and then by a sell of the same shares, the
   * sell's proceeds equal the buy's cost.
   */
  lemma KeptProductRoundTrip(pool: real, other: real, shares: real, cost: real, proceeds: real)
    requires pool > 0.0
    requires (pool - shares) * (other + cost) == pool * other
    requires ((pool - shares) + shares) * ((other + cost) - proceeds) == (pool - shares) * (other + cost)
    ensures proceeds == cost
  {
    assert pool * ((other + cost) - proceeds) == pool * other;
    CancelFactor(pool, (other + cost) - proceeds, other);
  }

  lemma AmmRoundTripYes(yesPool: real, noPool: real, shares: real)
    requires AmmBuyCost(yesPool, noPool, shares, Yes).Success?
    ensures var cost := AmmBuyCost(yesPool, noPool, shares, Yes).value;
      AmmSellProceeds(yesPool - shares, noPool + cost, shares, Yes) == Success(cost)
  {
    var cost := AmmBuyCost(yesPool, noPool, shares, Yes).value;
    var r := AmmSellProceeds(yesPool - shares, noPool + cost, shares, Yes);
    assert (yesPool - shares) * (noPool + cost) == yesPool * noPool;
    assert ((yesPool - shares) + shares) * ((noPool + cost) - r.value) == (yesPool - shares) * (noPool + cost);
    KeptProductRoundTrip(yesPool, noPool, shares, cost, r.value);
  }

  lemma AmmRoundTripNo(yesPool: real, noPool: real, shares: real)
    requires AmmBuyCost(yesPool, noPool, shares, No).Success?
    ensures var cost := AmmBuyCost(yesPool, noPool, shares, No).value;
      AmmSellProceeds(yesPool + cost, noPool - shares, shares, No) == Success(cost)
  {
    var cost := AmmBuyCost(yesPool, noPool, shares, No).value;
    var r := AmmSellProceeds(yesPool + cost, noPool - shares, shares, No);
    assert (noPool - shares) * (yesPool + cost) == noPool * yesPool;
    assert ((noPool - shares) + shares) * ((yesPool + cost) - r.value) == (noPool - shares) * (yesPool + cost);
    KeptProductRoundTrip(noPool, yesPool, shares, cost, r.value);
  }

  /** Selling what was just bought from the pools returns exactly the cost. */
  lemma {:induction false} AmmRoundTrip(yesPool: real, noPool: real, shares: real, side: MarketSide)
    requires AmmBuyCost(yesPool, noPool, shares, side).Success?
    ensures var cost := AmmBuyCost(yesPool, noPool, shares, side).value;
      var after := Traded(yesPool, noPool, side, -shares);
      var pools := Traded(after.0, after.1, side.Opposite(), cost);
      AmmSellProceeds(pools.0, pools.1, shares, side) == Success(cost)
  {
    match side {
    case Yes => AmmRoundTripYes(yesPool, noPool, shares);
    case No => AmmRoundTripNo(yesPool, noPool, shares);
    }
  }

  /** The implied probability of YES under the pools: no_pool / (yes_pool + no_pool), or 1/2 when both are empty. */
  function AmmImpliedProbability(yesPool: real, noPool: real): (p: real)
    ensures yesPool > 0.0 && noPool > 0.0 ==> 0.0 < p < 1.0
    ensures yesPool == noPool ==> p == 0.5
  {
    var total := yesPool + noPool;
    if total == 0.0 then 0.5
    else
      PoolShareFacts(yesPool, noPool);
      noPool / total
  }

  /** The marginal price of `side` under the pools. */
  function AmmCurrentPrice(yesPool: real, noPool: real, side: MarketSide): (r: real)
    ensures side == Yes ==> r == AmmImpliedProbability(yesPool, noPool)
    ensures side == No ==> r == 1.0 - AmmImpliedProbability(yesPool, noPool)
  {
    AmmImpliedProbability(yesPool, noPool) * (match side case Yes => 1.0 case No => 0.0)
    + (1.0 - AmmImpliedProbability(yesPool, noPool)) * (match side case Yes => 0.0 case No => 1.0)
  }

  /** Buying YES from the pools raises the implied probability of YES. */
  lemma {:induction false} AmmBuyYesRaisesProbability(yesPool: real, noPool: real, shares: real)
    requires AmmBuyCost(yesPool, noPool, shares, Yes).Success?
    ensures var cost := AmmBuyCost(yesPool, noPool, shares, Yes).value;
      AmmImpliedProbability(yesPool - shares, noPool + cost) > AmmImpliedProbability(yesPool, noPool)
  {
    var cost := AmmBuyCost(yesPool, noPool, shares, Yes).value;
    ShareIncreasing(noPool, yesPool, noPool + cost, yesPool - shares);
    assert noPool / (noPool + yesPool) == noPool / (yesPool + noPool);
    assert (noPool + cost) / ((noPool + cost) + (yesPool - shares)) == (noPool + cost) / ((yesPool - shares) + (noPool + cost));
  }
}
