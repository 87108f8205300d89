/** The bonding curve: integer constant-product quotes and runs of trades on one curve. */
module Curve {
  import opened Common
  import opened Arithmetic

  const VIRTUAL_SOL: nat := 30_000_000_000
  const VIRTUAL_TOKENS: nat := 1_073_000_000_000_000_000
  const K: nat := VIRTUAL_SOL * VIRTUAL_TOKENS
  const GRADUATION_THRESHOLD_SOL: nat := 85_000_000_000
  const FEE_BPS: nat := 100
  const BPS_DENOM: nat := 10_000

  datatype CurveError = ZeroInput | ZeroOutput | InsufficientReserves | SlippageExceeded | Overflow | Graduated

  datatype Reserves = Reserves(sol: u64, tokens: u64)

  datatype BuyQuote =
    BuyQuote(tokensOut: nat, solFee: nat, solIntoCurve: nat, newReserves: Reserves, graduates: bool)

  datatype SellQuote = SellQuote(solOutGross: nat, solFee: nat, solToSeller: nat, newReserves: Reserves)

  function InitialReserves(): Reserves {
    Reserves(0, VIRTUAL_TOKENS)
  }

  function FeeOn(amount: u64): (fee: nat)
    ensures fee * 100 <= amount < fee * 100 + 100
  {
    amount * FEE_BPS / BPS_DENOM
  }

  /** Every exit of the source is kept, reachable or not. */
  function QuoteBuy(r: Reserves, solIn: int, minTokensOut: int, graduated: bool): Result<BuyQuote, CurveError> {
    if graduated then Err(Graduated)
    else if solIn == 0 then Err(ZeroInput)
    else if solIn < 0 || solIn > U64_MAX then Err(Overflow)
    else
      var solFee := FeeOn(solIn);
      var solIntoCurve := solIn - solFee;
      var newEffSol := VIRTUAL_SOL + r.sol + solIntoCurve;
      if solIntoCurve == 0 then Err(ZeroInput)
      else if newEffSol == 0 then Err(Overflow)
      else
        var newTokenReserves := K / newEffSol;
        var tokensOut := r.tokens - newTokenReserves;
        if newTokenReserves > r.tokens then Err(InsufficientReserves)
        else if tokensOut == 0 then Err(ZeroOutput)
        else if tokensOut > U64_MAX then Err(Overflow)
        else if tokensOut < minTokensOut then Err(SlippageExceeded)
        else
          var newRealSol := r.sol + solIntoCurve;
          var newRealTokens := r.tokens - tokensOut;
          if newRealSol > U64_MAX then Err(Overflow)
          else if newRealTokens < 0 then Err(InsufficientReserves)
          else
            Ok(BuyQuote(tokensOut, solFee, solIntoCurve, Reserves(newRealSol, newRealTokens),
                        newRealSol >= GRADUATION_THRESHOLD_SOL))
  }

  function QuoteSell(r: Reserves, tokensIn: int, minSolOut: int, graduated: bool): Result<SellQuote, CurveError> {
    if graduated then Err(Graduated)
    else if tokensIn == 0 then Err(ZeroInput)
    else if tokensIn < 0 || tokensIn > U64_MAX then Err(Overflow)
    else
      var newTokenReserves := r.tokens + tokensIn;
      if newTokenReserves > VIRTUAL_TOKENS then Err(InsufficientReserves)
      else if newTokenReserves == 0 then Err(Overflow)
      else
        var newEffSol := K / newTokenReserves;
        var vPlusS := VIRTUAL_SOL + r.sol;
        var solOutGross := vPlusS - newEffSol;
        if newEffSol > vPlusS then Err(Overflow)
        else if solOutGross == 0 then Err(ZeroOutput)
        else if solOutGross > r.sol then Err(InsufficientReserves)
        else
          var solFee := FeeOn(solOutGross);
          var solToSeller := solOutGross - solFee;
          var newRealTokens := r.tokens + tokensIn;
          if solToSeller < minSolOut then Err(SlippageExceeded)
          else if newRealTokens > U64_MAX then Err(Overflow)
          else Ok(SellQuote(solOutGross, solFee, solToSeller, Reserves(r.sol - solOutGross, newRealTokens)))
  }

  function SpotPriceQ64(r: Reserves): nat {
    if r.tokens == 0 then 0 else (VIRTUAL_SOL + r.sol) * U64_SIZE / r.tokens
  }

  /** The spot price is the largest whose value of all tokens does not exceed the SOL, real and
      virtual, both with 64 fractional bits. */
  lemma SpotIsRatio(r: Reserves)
    ensures r.tokens == 0 ==> SpotPriceQ64(r) == 0
    ensures r.tokens > 0 ==>
      SpotPriceQ64(r) * r.tokens <= (30_000_000_000 + r.sol) * 0x1_0000_0000_0000_0000 < (SpotPriceQ64(r) + 1) * r.tokens
  {
    if r.tokens > 0 {
      DivisionBounds((VIRTUAL_SOL + r.sol) * U64_SIZE, r.tokens);
    }
  }

  // ---------- which error, for any reserves ----------

  /** The SOL of a buy after its fee, and the tokens that then stay on the curve. */
  function NetOf(solIn: u64): nat {
    solIn - FeeOn(solIn)
  }

  function TokensLeft(r: Reserves, solIn: u64): nat {
    DivNat(30_000_000_000 * 1_073_000_000_000_000_000, 30_000_000_000 + r.sol + NetOf(solIn));
    30_000_000_000 * 1_073_000_000_000_000_000 / (30_000_000_000 + r.sol + NetOf(solIn))
  }

  /** Exactly when a buy fails, and how, whatever the reserves: a graduated curve sells nothing; then the
      input must be positive and fit 64 bits; the curve must hold more tokens than it keeps, and enough
      for the caller's minimum; and its SOL must fit 64 bits afterwards. */
  lemma BuyErrors(r: Reserves, solIn: int, minTokensOut: int, graduated: bool)
    ensures var q := QuoteBuy(r, solIn, minTokensOut, graduated);
      && (q == Err(Graduated) <==> graduated)
      && (q == Err(ZeroInput) <==> !graduated && solIn == 0)
      && (!graduated && (solIn < 0 || solIn > U64_MAX) ==> q == Err(Overflow))
      && (!graduated && 0 < solIn <= U64_MAX ==>
            var left := TokensLeft(r, solIn);
            && (q == Err(InsufficientReserves) <==> left > r.tokens)
            && (q == Err(ZeroOutput) <==> left == r.tokens)
            && (q == Err(SlippageExceeded) <==> left < r.tokens && r.tokens - left < minTokensOut)
            && (q == Err(Overflow) <==>
                  left < r.tokens && r.tokens - left >= minTokensOut && r.sol + NetOf(solIn) > U64_MAX)
            && (q.Ok? ==> q.value == BuyQuote(r.tokens - left, FeeOn(solIn), NetOf(solIn), Reserves(r.sol + NetOf(solIn), left),
                                              r.sol + NetOf(solIn) >= 85_000_000_000)))
  {
  }

  /** The effective SOL that the curve needs for the tokens it holds after a sell. */
  function SolNeeded(tokens: nat): nat
    requires tokens > 0
  {
    DivNat(30_000_000_000 * 1_073_000_000_000_000_000, tokens);
    30_000_000_000 * 1_073_000_000_000_000_000 / tokens
  }

  /** Exactly when a sell fails, and how, whatever the reserves. */
  lemma SellErrors(r: Reserves, tokensIn: int, minSolOut: int, graduated: bool)
    ensures var q := QuoteSell(r, tokensIn, minSolOut, graduated);
      && (q == Err(Graduated) <==> graduated)
      && (q == Err(ZeroInput) <==> !graduated && tokensIn == 0)
      && (!graduated && (tokensIn < 0 || tokensIn > U64_MAX) ==> q == Err(Overflow))
      && (!graduated && 0 < tokensIn <= U64_MAX ==>
            if r.tokens + tokensIn > 1_073_000_000_000_000_000 then q == Err(InsufficientReserves)
            else
              var gross := 30_000_000_000 + r.sol - SolNeeded(r.tokens + tokensIn);
              && (q == Err(Overflow) <==> gross < 0)
              && (q == Err(ZeroOutput) <==> gross == 0)
              && (q == Err(InsufficientReserves) <==> gross > r.sol)
              && (q == Err(SlippageExceeded) <==> 0 < gross <= r.sol && gross - FeeOn(gross) < minSolOut)
              && (q.Ok? ==> q.value == SellQuote(gross, FeeOn(gross), gross - FeeOn(gross),
                                                 Reserves(r.sol - gross, r.tokens + tokensIn))))
  {
  }

  // ---------- runs ----------

  datatype Trade = Buy(solIn: int, minTokensOut: int) | Sell(tokensIn: int, minSolOut: int)

  /** One curve with everything that has flowed through it so far. */
  datatype Market = Market(
    reserves: Reserves, graduated: bool,
    solPaid: nat, solReceived: nat, fees: nat, bought: nat, sold: nat)

  function Opening(): Market {
    Market(InitialReserves(), false, 0, 0, 0, 0, 0)
  }

  /** A trade that is quoted without error is executed at its quote; any other changes nothing. */
  function Apply(m: Market, t: Trade): Market {
    match t
    case Buy(solIn, minTokensOut) =>
      (match QuoteBuy(m.reserves, solIn, minTokensOut, m.graduated)
       case Ok(q) => Market(q.newReserves, q.graduates, m.solPaid + solIn, m.solReceived,
                            m.fees + q.solFee, m.bought + q.tokensOut, m.sold)
       case Err(_) => m)
    case Sell(tokensIn, minSolOut) =>
      (match QuoteSell(m.reserves, tokensIn, minSolOut, m.graduated)
       case Ok(q) => Market(q.newReserves, m.graduated, m.solPaid, m.solReceived + q.solToSeller,
                            m.fees + q.solFee, m.bought, m.sold + tokensIn)
       case Err(_) => m)
  }

  function Run(m: Market, trades: seq<Trade>): Market
    decreases |trades|
  {
    if trades == [] then m else Run(Apply(m, trades[0]), trades[1..])
  }

  // ---------- the curve is a function of the tokens left ----------

  /** A state on the curve before graduation. */
  ghost predicate OnCurve(r: Reserves) {
    && 0 < r.tokens <= VIRTUAL_TOKENS
    && r.sol < GRADUATION_THRESHOLD_SOL
    && VIRTUAL_SOL + r.sol == K / r.tokens
  }

  /** Flooring twice is exact while the divisor is at most the square root. */
  lemma FloorInverse(n: nat, e: nat)
    requires 0 < e && e * e <= n
    ensures 0 < n / e && n / (n / e) == e
  {
    DivisionBounds(n, e);
    var t := n / e;
    if t < e {
      MulMonotone(e, t + 1, e);
      assert false;
    }
    assert n == t * e + n % e;
    UniqueRemainder(n, t, e, n % e);
  }

  lemma BelowGraduation(e: nat)
    requires 0 < e < VIRTUAL_SOL + GRADUATION_THRESHOLD_SOL
    ensures e * e <= K
  {
    MulMonotone(e, e, VIRTUAL_SOL + GRADUATION_THRESHOLD_SOL);
    MulMonotone(VIRTUAL_SOL + GRADUATION_THRESHOLD_SOL, e, VIRTUAL_SOL + GRADUATION_THRESHOLD_SOL);
  }

  /** Any more SOL on the curve means strictly fewer tokens. */
  lemma FewerTokens(r: Reserves, n: nat)
    requires OnCurve(r) && 0 < n
    ensures K / (VIRTUAL_SOL + r.sol + n) < r.tokens
  {
    var e := VIRTUAL_SOL + r.sol;
    DivisionBounds(K, r.tokens);
    DivisionBounds(K, e + n);
    var t := K / (e + n);
    if t >= r.tokens {
      MulMonotone(e + 1, r.tokens, t);
      MulMonotone(t, e + 1, e + n);
      assert false;
    }
  }

  /** The exact outcome of a buy from a state on the curve: it fails only when the caller's own
      minimum is not met. */
  lemma BuyOutcome(r: Reserves, solIn: int, minTokensOut: int)
    requires OnCurve(r) && 0 < solIn <= U64_MAX
    ensures var net := solIn - FeeOn(solIn);
      var left := K / (VIRTUAL_SOL + r.sol + net);
      && 0 < net && 0 < left < r.tokens && r.sol + net <= U64_MAX
      && QuoteBuy(r, solIn, minTokensOut, false)
         == if r.tokens - left < minTokensOut then Err(SlippageExceeded)
            else Ok(BuyQuote(r.tokens - left, FeeOn(solIn), net, Reserves(r.sol + net, left),
                             r.sol + net >= GRADUATION_THRESHOLD_SOL))
  {
    var net := solIn - FeeOn(solIn);
    FewerTokens(r, net);
    DivisionBounds(K, VIRTUAL_SOL + r.sol + net);
    assert 0 < K / (VIRTUAL_SOL + r.sol + net);
  }

  lemma BuyStaysOnCurve(r: Reserves, solIn: int, minTokensOut: int)
    requires OnCurve(r) && QuoteBuy(r, solIn, minTokensOut, false).Ok?
    requires !QuoteBuy(r, solIn, minTokensOut, false).value.graduates
    ensures OnCurve(QuoteBuy(r, solIn, minTokensOut, false).value.newReserves)
  {
    BuyOutcome(r, solIn, minTokensOut);
    var e := VIRTUAL_SOL + r.sol + (solIn - FeeOn(solIn));
    BelowGraduation(e);
    FloorInverse(K, e);
  }

  /** The exact outcome of selling tokens the curve has dispensed: no reserve or overflow error
      can occur, whatever the minimum. */
  lemma SellOutcome(r: Reserves, tokensIn: int, minSolOut: int)
    requires OnCurve(r) && 0 < tokensIn <= VIRTUAL_TOKENS - r.tokens
    ensures var gross := K / r.tokens - K / (r.tokens + tokensIn);
      && 0 <= gross <= r.sol
      && QuoteSell(r, tokensIn, minSolOut, false)
         == if gross == 0 then Err(ZeroOutput)
            else if gross - FeeOn(gross) < minSolOut then Err(SlippageExceeded)
            else Ok(SellQuote(gross, FeeOn(gross), gross - FeeOn(gross),
                              Reserves(r.sol - gross, r.tokens + tokensIn)))
  {
    DivAntitone(K, r.tokens, r.tokens + tokensIn);
    DivAntitone(K, r.tokens + tokensIn, VIRTUAL_TOKENS);
    UniqueRemainder(K, VIRTUAL_TOKENS, VIRTUAL_SOL, 0);
  }

  lemma SellStaysOnCurve(r: Reserves, tokensIn: int, minSolOut: int)
    requires OnCurve(r) && QuoteSell(r, tokensIn, minSolOut, false).Ok?
    ensures OnCurve(QuoteSell(r, tokensIn, minSolOut, false).value.newReserves)
  {
    SellOutcome(r, tokensIn, minSolOut);
  }

  // ---------- every run ----------

  /** What holds after any trades: the books balance, and before graduation the state is on the
      curve. */
  ghost predicate Sound(m: Market) {
    && (!m.graduated ==> OnCurve(m.reserves))
    && m.solPaid == m.solReceived + m.fees + m.reserves.sol
    && m.bought + m.reserves.tokens == m.sold + VIRTUAL_TOKENS
  }

  lemma ApplySound(m: Market, t: Trade)
    requires Sound(m)
    ensures Sound(Apply(m, t))
    ensures m.graduated ==> Apply(m, t) == m
  {
    if !m.graduated {
      match t
      case Buy(solIn, minTokensOut) =>
        var q := QuoteBuy(m.reserves, solIn, minTokensOut, false);
        if q.Ok? {
          BuyOutcome(m.reserves, solIn, minTokensOut);
          if !q.value.graduates {
            BuyStaysOnCurve(m.reserves, solIn, minTokensOut);
          }
        }
      case Sell(tokensIn, minSolOut) =>
        if QuoteSell(m.reserves, tokensIn, minSolOut, false).Ok? {
          SellOutcome(m.reserves, tokensIn, minSolOut);
          SellStaysOnCurve(m.reserves, tokensIn, minSolOut);
        }
    }
  }

  lemma {:induction false} RunSound(m: Market, trades: seq<Trade>)
    requires Sound(m)
    ensures Sound(Run(m, trades))
    ensures m.graduated ==> Run(m, trades) == m
    decreases |trades|
  {
    if trades != [] {
      ApplySound(m, trades[0]);
      RunSound(Apply(m, trades[0]), trades[1..]);
    }
  }

  /** Whatever the trade history, the SOL on an ungraduated curve is a function of the tokens left
      on it, and every lamport and token is accounted for. */
  lemma PathIndependence(trades: seq<Trade>)
    ensures Sound(Run(Opening(), trades))
  {
    UniqueRemainder(K, VIRTUAL_TOKENS, VIRTUAL_SOL, 0);
    RunSound(Opening(), trades);
  }

  /** No closed cycle profits: over any stretch of any history between ungraduated states, traders
      together that hand back exactly the tokens they bought are down exactly the fees. */
  lemma ClosedCycleCostsFees(before: seq<Trade>, cycle: seq<Trade>)
    requires var m := Run(Opening(), before); var n := Run(m, cycle);
      !m.graduated && !n.graduated && n.bought - m.bought == n.sold - m.sold
    ensures var m := Run(Opening(), before); var n := Run(m, cycle);
      && n.reserves == m.reserves
      && (n.solPaid - m.solPaid) - (n.solReceived - m.solReceived) == n.fees - m.fees
  {
    PathIndependence(before);
    RunSound(Run(Opening(), before), cycle);
  }

  // ---------- buys and sells undo each other, and do not profit from splitting ----------

  /** Selling back what a buy dispensed restores the reserves exactly and pays out, before its
      own fee, exactly what the buy put in after its fee. */
  lemma SellUndoesBuy(r: Reserves, solIn: int)
    requires OnCurve(r) && 0 < solIn <= U64_MAX
    requires QuoteBuy(r, solIn, 0, false).Ok? && !QuoteBuy(r, solIn, 0, false).value.graduates
    ensures var q := QuoteBuy(r, solIn, 0, false).value;
      var net := q.solIntoCurve;
      QuoteSell(q.newReserves, q.tokensOut, 0, false) == Ok(SellQuote(net, FeeOn(net), net - FeeOn(net), r))
  {
    BuyOutcome(r, solIn, 0);
    var q := QuoteBuy(r, solIn, 0, false).value;
    BuyStaysOnCurve(r, solIn, 0);
    SellOutcome(q.newReserves, q.tokensOut, 0);
  }

  /** Splitting one buy into two never yields fewer tokens while the first part does not graduate
      the curve, and the second part cannot fail. */
  lemma SplittingBuys(r: Reserves, a: int, b: int)
    requires OnCurve(r) && 0 < a && 0 < b && a + b <= U64_MAX
    requires QuoteBuy(r, a, 0, false).Ok? && !QuoteBuy(r, a, 0, false).value.graduates
    ensures var first, whole := QuoteBuy(r, a, 0, false).value, QuoteBuy(r, a + b, 0, false);
      var second := QuoteBuy(first.newReserves, b, 0, false);
      && whole.Ok? && second.Ok?
      && first.tokensOut + second.value.tokensOut >= whole.value.tokensOut
      && first.solFee + second.value.solFee <= whole.value.solFee
  {
    BuyOutcome(r, a, 0);
    BuyOutcome(r, a + b, 0);
    BuyStaysOnCurve(r, a, 0);
    var first := QuoteBuy(r, a, 0, false).value;
    BuyOutcome(first.newReserves, b, 0);
    assert FeeOn(a) + FeeOn(b) <= FeeOn(a + b);
    DivAntitone(K, VIRTUAL_SOL + r.sol + (a + b - FeeOn(a + b)),
                VIRTUAL_SOL + r.sol + (a - FeeOn(a)) + (b - FeeOn(b)));
  }

  lemma SpotMonotone(r: Reserves, s: Reserves)
    requires r.sol <= s.sol && 0 < s.tokens <= r.tokens
    ensures SpotPriceQ64(r) <= SpotPriceQ64(s)
  {
    var x, y := (VIRTUAL_SOL + r.sol) * U64_SIZE, (VIRTUAL_SOL + s.sol) * U64_SIZE;
    DivisionBounds(x, r.tokens);
    DivisionBounds(y, s.tokens);
    if x / r.tokens > y / s.tokens {
      MulMonotone(s.tokens, y / s.tokens + 1, x / r.tokens);
      MulMonotone(x / r.tokens, s.tokens, r.tokens);
      assert false;
    }
  }

  /** A buy never lowers the spot price and a sell never raises it. */
  lemma SpotFollowsTrades(r: Reserves, t: Trade)
    requires OnCurve(r)
    ensures t.Buy? && QuoteBuy(r, t.solIn, t.minTokensOut, false).Ok? ==>
      SpotPriceQ64(r) <= SpotPriceQ64(QuoteBuy(r, t.solIn, t.minTokensOut, false).value.newReserves)
    ensures t.Sell? && QuoteSell(r, t.tokensIn, t.minSolOut, false).Ok? ==>
      SpotPriceQ64(QuoteSell(r, t.tokensIn, t.minSolOut, false).value.newReserves) <= SpotPriceQ64(r)
  {
    match t
    case Buy(solIn, minTokensOut) =>
      if QuoteBuy(r, solIn, minTokensOut, false).Ok? {
        BuyOutcome(r, solIn, minTokensOut);
        SpotMonotone(r, QuoteBuy(r, solIn, minTokensOut, false).value.newReserves);
      }
    case Sell(tokensIn, minSolOut) =>
      if QuoteSell(r, tokensIn, minSolOut, false).Ok? {
        SellOutcome(r, tokensIn, minSolOut);
        SpotMonotone(QuoteSell(r, tokensIn, minSolOut, false).value.newReserves, r);
      }
  }
}
