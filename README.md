# Pump-token factory client: bonding-curve buy quote

This project models the one piece of computation in the pump-token factory
client library: `PumpFactoryClient.calculateExpectedTokens`, the preview of how
many tokens a buy of a given ETH amount releases from a constant-product
bonding curve with virtual reserves `vEth` and `vToken`:

- `newReserveEth = ethIn + vEth`
- `newReserveToken = (vEth * vToken) / newReserveEth`, with JavaScript `bigint`
  division, which truncates toward zero and throws a RangeError on a zero divisor
- `tokensOut = vToken - newReserveToken`

All amounts are wei (ether scaled by 10^18) and unbounded integers, as
`bigint` is. Module `BigIntDivision` defines the truncating quotient
(`TruncDiv`), because Dafny's own `/` is Euclidean. The two agree for every
non-negative dividend and on every exact division, and differ by one when the
dividend is negative and the division is not exact. The inputs stay `int`, since a decimal string such as `"-0.1"` also
becomes a negative `bigint`. Module `PumpFactoryClient` holds the formula
(`NewReserveEth`, `NewReserveToken`, `TokensOut`), the throwing entry point
(`CalculateExpectedTokens`, whose throw is a `Failure(DivisionByZero)`), and
the lemmas. It also mirrors, as plain datatypes with no operations, the tuples
that the factory contract's `tokens(address)` and `getFactoryConfig()` views
return (lib/PumpFactoryClient.ts:20-21). `TokenInfo` has two 20-byte
addresses, three `uint256` fields in `[0, 2^256)` (`vReserveEth`,
`vReserveToken`, `rReserveEth`), one `int256` field in `[-2^255, 2^255)`
(`rReserveToken`) and a flag (`liquidityMigrated`). `FactoryConfig` has two
20-byte addresses (`uniswapRouter`, `weth`) and six `uint256` fields
(`vEthReserve`, `vTokenReserve`, `rTokenReserve`, `tradeFeeBps`,
`bpsDenominator`, `liquidityMigrationFee`). These are types, not operations,
so they have no row in the table below.

Rounding direction: when the new ETH reserve `ethIn + vEth` is positive and
the old product `vEth * vToken` is non-negative (in particular for a
non-negative amount against non-negative reserves), the code rounds the new
token reserve down, so the quote is the exact curve share
`vToken * ethIn / (ethIn + vEth)` rounded UP (`QuoteIsCeilingOfCurveShare`). The rounding favours the buyer by less than one
wei, and the post-trade product never exceeds the pre-trade product
(`NewReserveToken`). A design that rounds in the pool's favour would
instead keep the product from decreasing. The model follows the code.

## Model

| member | source | states |
|---|---|---|
| BigIntDivision.TruncDiv | lib/PumpFactoryClient.ts:94 | the `bigint` quotient `q` of `a / b`: `q * b` lies between 0 and `a`, and `a - q * b` is smaller than `b` in magnitude (truncation toward zero) |
| BigIntDivision.TruncDivUnique | lib/PumpFactoryClient.ts:94 | those two properties determine the quotient: any `q` that has them equals `TruncDiv(a, b)` |
| BigIntDivision.TruncDivNonNegative | lib/PumpFactoryClient.ts:94 | for `a >= 0` and any non-zero `b` the truncating quotient equals Dafny's Euclidean `a / b` |
| BigIntDivision.TruncDivNegativeInexact | lib/PumpFactoryClient.ts:94 | for `a < 0` and `a % b != 0` the truncating quotient is one above the Euclidean `a / b` when `b > 0`, one below when `b < 0` |
| PumpFactoryClient.CalculateExpectedTokens | lib/PumpFactoryClient.ts:88-98 | the preview fails exactly when `ethIn + vEth == 0` (the division throws); otherwise the quote plus the new token reserve is `vToken` |
| PumpFactoryClient.NewReserveEth | lib/PumpFactoryClient.ts:93 | a non-negative `ethIn` against a positive `vEth` gives a new ETH reserve that is positive and at least `vEth`, so the division of line 94 is defined |
| PumpFactoryClient.NewReserveToken | lib/PumpFactoryClient.ts:93-94 | with a positive new ETH reserve and a non-negative old product: `newReserveEth * newReserveToken <= vEth * vToken < newReserveEth * (newReserveToken + 1)`, so truncation never raises the reserve product and loses less than one unit of `newReserveEth` |
| PumpFactoryClient.QuoteIsCeilingOfCurveShare | lib/PumpFactoryClient.ts:93-95 | when `ethIn + vEth > 0` and `vEth * vToken >= 0`, the quote `r` is the least integer with `r * (ethIn + vEth) >= ethIn * vToken`: the exact curve share rounded up |
| PumpFactoryClient.ZeroInZeroOut | lib/PumpFactoryClient.ts:93-95 | with `ethIn = 0` and any non-zero `vEth` the quote is exactly 0 |
| PumpFactoryClient.TokensOut | lib/PumpFactoryClient.ts:93-95 | for `ethIn >= 0`, `vEth > 0`, `vToken >= 0`: `0 <= tokensOut <= vToken` |
| PumpFactoryClient.QuotePositiveIff | lib/PumpFactoryClient.ts:93-95 | for `ethIn >= 0` and positive reserves, the quote is at least 1 wei if and only if `ethIn > 0` |
| PumpFactoryClient.DrainsReserveIff | lib/PumpFactoryClient.ts:94-95 | for `ethIn >= 0`, `vEth > 0`, `vToken >= 0`, the quote takes the whole `vToken` if and only if `vEth * vToken < ethIn + vEth` |
| PumpFactoryClient.QuoteMonotonic | lib/PumpFactoryClient.ts:93-95 | with the reserves fixed, `ethIn1 <= ethIn2`, `ethIn1 + vEth > 0` and `vEth * vToken >= 0`, the larger amount never yields fewer tokens |
| PumpFactoryClient.SplitBuyBounds | lib/PumpFactoryClient.ts:93-95 | quoting `a` and then `b` against the reserves the first quote leaves yields at least the one-step quote for `a + b`, and at most one wei more |
| PumpFactoryClient.SequentialQuote | lib/PumpFactoryClient.ts:93-95 | a sequence of buys, each quoted against the reserves the previous quote leaves, releases in total between 0 and `vToken` |
| PumpFactoryClient.SequentialQuoteVersusSingle | lib/PumpFactoryClient.ts:93-95 | that sequence releases at least the one-step quote for the summed amount, and at most one wei more per extra step |
| PumpFactoryClient.HalfOfReserveExample | lib/PumpFactoryClient.ts:93-95 | `vEth = 0.1` ether, `vToken = 1,073,000,000` ether, `ethIn = 0.1` ether gives exactly 536,500,000 ether |
| PumpFactoryClient.PriceCalculationTestExample | test/PumpFactory.test.ts:77-80 | the test's inputs ("0.1", "0.015", "1073000000") give exactly 933,043,478.260869565217391305 ether, which is positive |

## Left out

- `ethers.parseEther` and `ethers.formatEther` (lib/PumpFactoryClient.ts:89-91, 97): decimal-string conversions in the ethers library, which is not part of this model. The model takes its inputs and gives its output as wei integers.
- The constructor and the contract binding (lib/PumpFactoryClient.ts:12-25): they build a foreign `ethers.Contract` object. Only the two view tuples' shapes are mirrored, as `TokenInfo` and `FactoryConfig`.
- `launchToken`, `buyToken`, `sellToken`, `getTokenInfo`, `getFactoryConfig` (lib/PumpFactoryClient.ts:34-79): they only forward to the remote contract and await receipts over the network.
- The on-chain reserve ledger, trade fees, sell quote and liquidity migration: their logic lives in the factory contract, which is not part of this model. Only its ABI signatures are visible, so none of that behaviour is modelled. The client has no sell-side preview, so none is modelled.
- The deployment scripts, the usage example and the Hardhat test harness: network, deployment and console plumbing. The test's one price assertion is stated as `PriceCalculationTestExample`.
