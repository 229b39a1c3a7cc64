/**
 * The buy-side price preview of the pump-token factory client: the
 * constant-product bonding-curve quote `calculateExpectedTokens`. Amounts are
 * wei, i.e. ether amounts already scaled by 10^18; the decimal-string
 * conversions around the formula are not part of this model.
 */
module PumpFactoryClient {
  import opened Wrappers
  import opened BigIntDivision

  /** Number of wei in one ether (18 decimals). */
  const WeiPerEther: nat := 1_000_000_000_000_000_000

  /** Powers of two up to 2^256 and 2^255, the bounds of the ABI's `uint256` and `int256`. */
  const TwoTo32: nat := 0x1_0000_0000
  const TwoTo64: nat := TwoTo32 * TwoTo32
  const TwoTo128: nat := TwoTo64 * TwoTo64
  const TwoTo256: nat := TwoTo128 * TwoTo128
  const TwoTo255: nat := TwoTo256 / 2

  type Uint256 = x: int | 0 <= x < TwoTo256
  type Int256 = x: int | -(TwoTo255 as int) <= x < TwoTo255
  type Address = s: seq<bv8> | |s| == 20 witness seq(20, _ => 0 as bv8)

  /** The tuple returned by the factory contract's `tokens(address)` view. */
  datatype TokenInfo = TokenInfo(
    creator: Address,
    tokenAddress: Address,
    vReserveEth: Uint256,
    vReserveToken: Uint256,
    rReserveEth: Uint256,
    rReserveToken: Int256,
    liquidityMigrated: bool)

  /** The tuple returned by the factory contract's `getFactoryConfig()` view. */
  datatype FactoryConfig = FactoryConfig(
    uniswapRouter: Address,
    weth: Address,
    vEthReserve: Uint256,
    vTokenReserve: Uint256,
    rTokenReserve: Uint256,
    tradeFeeBps: Uint256,
    bpsDenominator: Uint256,
    liquidityMigrationFee: Uint256)

  /** `bigint` division by zero throws a RangeError. */
  datatype QuoteError = DivisionByZero

  /**
   * Virtual ETH reserve after the buy. A non-negative amount against a
   * positive reserve keeps it positive, so the division that follows is
   * defined, and never shrinks it.
   */
  function NewReserveEth(ethIn: int, vEth: int): (d: int)
    ensures 0 <= ethIn && 0 < vEth ==> 0 < vEth <= d
  {
    ethIn + vEth
  }

  /**
   * Virtual token reserve after the buy: the old product over the new ETH
   * reserve, truncated. When both are non-negative the truncation never lets
   * the post-trade product exceed the pre-trade one, and loses less than one
   * unit of the new ETH reserve.
   */
  function NewReserveToken(ethIn: int, vEth: int, vToken: int): (t: int)
    requires NewReserveEth(ethIn, vEth) != 0
    ensures NewReserveEth(ethIn, vEth) > 0 && vEth * vToken >= 0 ==>
      NewReserveEth(ethIn, vEth) * t <= vEth * vToken < NewReserveEth(ethIn, vEth) * (t + 1)
  {
    var d := NewReserveEth(ethIn, vEth);
    var t := TruncDiv(vEth * vToken, d);
    assert d * (t + 1) == t * d + d;
    t
  }

  /**
   * Tokens released by the curve: what leaves the virtual token reserve. For a
   * non-negative amount against a positive ETH reserve it is never negative and
   * never exceeds the virtual token reserve.
   */
  function TokensOut(ethIn: int, vEth: int, vToken: int): (r: int)
    requires NewReserveEth(ethIn, vEth) != 0
    ensures 0 <= ethIn && 0 < vEth && 0 <= vToken ==> 0 <= r <= vToken
  {
    NewReserveTokenWithinReserve(ethIn, vEth, vToken);
    vToken - NewReserveToken(ethIn, vEth, vToken)
  }

  /** For a non-negative amount and positive ETH reserve the new token reserve is in `[0, vToken]`. */
  lemma NewReserveTokenWithinReserve(ethIn: int, vEth: int, vToken: int)
    requires NewReserveEth(ethIn, vEth) != 0
    ensures 0 <= ethIn && 0 < vEth && 0 <= vToken ==> 0 <= NewReserveToken(ethIn, vEth, vToken) <= vToken
  {
    if 0 <= ethIn && 0 < vEth && 0 <= vToken {
      var d, t := NewReserveEth(ethIn, vEth), NewReserveToken(ethIn, vEth, vToken);
      var p := vEth * vToken;
      assert 0 <= p && d * t <= p < d * (t + 1);
      MulLeMono(vEth, d, vToken);
      assert t * d < (vToken + 1) * d by {
        assert (vToken + 1) * d == vToken * d + d;
      }
      MulLtCancel(t, vToken + 1, d);
      MulLtCancel(-1, t, d);
    }
  }

  /**
   * `calculateExpectedTokens` on wei amounts: fails exactly when the new ETH
   * reserve is zero (the division throws), and otherwise returns the tokens
   * the curve releases.
   */
  function CalculateExpectedTokens(ethIn: int, vEth: int, vToken: int): (r: Result<int, QuoteError>)
    ensures r.Failure? <==> ethIn + vEth == 0
    ensures r.Success? ==> r.value + NewReserveToken(ethIn, vEth, vToken) == vToken
  {
    if NewReserveEth(ethIn, vEth) == 0 then Failure(DivisionByZero)
    else Success(TokensOut(ethIn, vEth, vToken))
  }

  /**
   * Reference definition: the quote is the exact curve share
   * `vToken * ethIn / (ethIn + vEth)` rounded UP, i.e. the least integer whose
   * multiple of the new ETH reserve reaches `ethIn * vToken`.
   */
  lemma QuoteIsCeilingOfCurveShare(ethIn: int, vEth: int, vToken: int)
    requires NewReserveEth(ethIn, vEth) > 0 && vEth * vToken >= 0
    ensures var d, r := NewReserveEth(ethIn, vEth), TokensOut(ethIn, vEth, vToken);
      (r - 1) * d < ethIn * vToken <= r * d
  {
    var d, t, r := NewReserveEth(ethIn, vEth), NewReserveToken(ethIn, vEth, vToken), TokensOut(ethIn, vEth, vToken);
    assert r * d == vToken * d - t * d;
    assert (r - 1) * d == vToken * d - (t + 1) * d;
    assert vToken * d - vEth * vToken == ethIn * vToken;
  }

  /** Spending nothing buys nothing, for any non-zero virtual ETH reserve. */
  lemma ZeroInZeroOut(vEth: int, vToken: int)
    requires vEth != 0
    ensures TokensOut(0, vEth, vToken) == 0
  {
    TruncDivUnique(vEth * vToken, vEth, vToken);
  }

  /**
   * With positive reserves, the quote is zero exactly when nothing is spent:
   * any positive amount buys at least one wei of tokens.
   */
  lemma QuotePositiveIff(ethIn: int, vEth: int, vToken: int)
    requires 0 <= ethIn && 0 < vEth && 0 < vToken
    ensures TokensOut(ethIn, vEth, vToken) >= 1 <==> ethIn > 0
  {
    if ethIn == 0 {
      ZeroInZeroOut(vEth, vToken);
    } else {
      var d, r := NewReserveEth(ethIn, vEth), TokensOut(ethIn, vEth, vToken);
      QuoteIsCeilingOfCurveShare(ethIn, vEth, vToken);
      MulLeMono(1, ethIn, vToken);
      assert 0 * d < r * d;
      MulLtCancel(0, r, d);
    }
  }

  /**
   * The quote takes the whole virtual token reserve exactly when the old
   * product is smaller than the new ETH reserve (the new token reserve
   * truncates to zero).
   */
  lemma DrainsReserveIff(ethIn: int, vEth: int, vToken: int)
    requires 0 <= ethIn && 0 < vEth && 0 <= vToken
    ensures TokensOut(ethIn, vEth, vToken) == vToken <==> vEth * vToken < NewReserveEth(ethIn, vEth)
  {
    var d, t := NewReserveEth(ethIn, vEth), NewReserveToken(ethIn, vEth, vToken);
    if t != 0 {
      MulLeMono(1, t, d);
    }
  }

  /** With the reserves fixed, spending more never buys fewer tokens. */
  lemma QuoteMonotonic(ethIn1: int, ethIn2: int, vEth: int, vToken: int)
    requires ethIn1 <= ethIn2
    requires NewReserveEth(ethIn1, vEth) > 0 && vEth * vToken >= 0
    ensures TokensOut(ethIn1, vEth, vToken) <= TokensOut(ethIn2, vEth, vToken)
  {
    var d1, t1 := NewReserveEth(ethIn1, vEth), NewReserveToken(ethIn1, vEth, vToken);
    var d2, t2 := NewReserveEth(ethIn2, vEth), NewReserveToken(ethIn2, vEth, vToken);
    if t2 < 0 {
      MulLeMono(t2, -1, d2);
    }
    MulLeMono(d1, d2, t2);
    assert t2 * d1 < (t1 + 1) * d1;
    MulLtCancel(t2, t1 + 1, d1);
  }

  /**
   * Quoting a buy of `a + b` in one step, or quoting `a` and then quoting `b`
   * against the reserves the first quote leaves behind: the two steps release
   * at least as many tokens, and at most one wei more.
   */
  lemma SplitBuyBounds(a: int, b: int, vEth: int, vToken: int)
    requires 0 <= a && 0 <= b && 0 < vEth && 0 <= vToken
    ensures var vEth1, vToken1 := NewReserveEth(a, vEth), NewReserveToken(a, vEth, vToken);
      var single := TokensOut(a + b, vEth, vToken);
      var split := TokensOut(a, vEth, vToken) + TokensOut(b, vEth1, vToken1);
      single <= split <= single + 1
  {
    var vEth1, vToken1 := NewReserveEth(a, vEth), NewReserveToken(a, vEth, vToken);
    var d := NewReserveEth(a + b, vEth);
    assert NewReserveEth(b, vEth1) == d;
    QuotientsOfCloseDividends(vEth1 * vToken1, vEth * vToken, vEth1, d,
      NewReserveToken(b, vEth1, vToken1), NewReserveToken(a + b, vEth, vToken));
  }

  /** Total of a sequence of ETH amounts. */
  function Sum(amounts: seq<nat>): nat
  {
    if amounts == [] then 0 else amounts[0] + Sum(amounts[1..])
  }

  /**
   * Tokens released by a sequence of buys, each quoted against the virtual
   * reserves the previous quote leaves behind: together they never take more
   * than the virtual token reserve.
   */
  function SequentialQuote(amounts: seq<nat>, vEth: int, vToken: int): (total: int)
    requires 0 < vEth && 0 <= vToken
    ensures 0 <= total <= vToken
    decreases |amounts|
  {
    if amounts == [] then 0
    else
      var a := amounts[0];
      TokensOut(a, vEth, vToken)
      + SequentialQuote(amounts[1..], NewReserveEth(a, vEth), NewReserveToken(a, vEth, vToken))
  }

  /**
   * Splitting a buy of `Sum(amounts)` into consecutive quoted buys releases at
   * least the one-step quote, and at most one wei more per extra step.
   */
  lemma {:induction false} SequentialQuoteVersusSingle(amounts: seq<nat>, vEth: int, vToken: int)
    requires 0 < vEth && 0 <= vToken
    ensures var single := TokensOut(Sum(amounts), vEth, vToken);
      var total := SequentialQuote(amounts, vEth, vToken);
      single <= total <= single + (if amounts == [] then 0 else |amounts| - 1)
    decreases |amounts|
  {
    if amounts == [] {
      ZeroInZeroOut(vEth, vToken);
    } else {
      var a, rest := amounts[0], amounts[1..];
      var vEth1, vToken1 := NewReserveEth(a, vEth), NewReserveToken(a, vEth, vToken);
      assert Sum(amounts) == a + Sum(rest);
      if rest == [] {
        ZeroInZeroOut(vEth1, vToken1);
      } else {
        SequentialQuoteVersusSingle(rest, vEth1, vToken1);
        SplitBuyBounds(a, Sum(rest), vEth, vToken);
      }
    }
  }

  /** 0.1 ether spent against reserves of 0.1 ether and 1,073,000,000 tokens buys exactly 536,500,000 tokens. */
  lemma HalfOfReserveExample()
    ensures CalculateExpectedTokens(WeiPerEther / 10, WeiPerEther / 10, 1_073_000_000 * WeiPerEther)
      == Success(536_500_000 * WeiPerEther)
  {
    var p := (WeiPerEther / 10) * (1_073_000_000 * WeiPerEther);
    TruncDivUnique(p, WeiPerEther / 5, 536_500_000 * WeiPerEther);
  }

  /** The price-calculation test's inputs ("0.1", "0.015", "1073000000") give a positive quote. */
  lemma PriceCalculationTestExample()
    ensures var r := CalculateExpectedTokens(100_000_000_000_000_000, 15_000_000_000_000_000, 1_073_000_000 * WeiPerEther);
      r == Success(933_043_478_260_869_565_217_391_305) && r.value > 0
  {
    TruncDivUnique(15_000_000_000_000_000 * 1_073_000_000_000_000_000_000_000_000, 115_000_000_000_000_000,
      139_956_521_739_130_434_782_608_695);
  }
}
