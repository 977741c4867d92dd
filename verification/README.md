# Verification of the arb-cap research kernels

A Dafny model of the arithmetic kernels and state machines of the arb-cap research code, with proofs of what
they keep over whole runs. `dafny verify dfyconfig.toml` checks it.

Every algorithm that the code runs step by step is a method with the code's own loops and branches, proved equal
to a function; the laws are lemmas about those functions. An object that the code updates in place is a class.

- **DLMM quote** (`FixedPoint`, `BinPrice`, `Fees`, `Volatility`, `DlmmQuote`, `QuoteLaws`, `QuoteBooks`): limb
  arithmetic is exact, the truncated price of bin -n is within 2n units of the exact power and bounds the price of
  bin n on both sides, the multi-bin quote is monotone with a downward-closed domain and conserves its input, and
  its hops are exactly those described in plain numbers.
- **Pump kernel, overlay and replay** (`PumpKernel`, `PumpLaws`, `PumpBooks`, `PumpOverlay`, `Bisect`, `PumpReplay`):
  swaps, quotes and fee splits in plain numbers, the invariant over every run of instructions, the quote as a
  refinement of the swap, for which fee rates more input buys more, and exactly when the binary searches of the code
  find what they look for.
- **Layered limit orders** (`OrderFill`, `OrderJoin`, `OrderBook`): a swap can be split anywhere and joined within
  the step limit, succeeds exactly when a run of bins covers it, and moves exactly its amount.
- **Timer scheduler** (`TimerQueue`, `TimerFate`, `TimerReplay`, `TimerStream`, `TimerIdentity`): the queue with
  cancellation refines a declarative reading of the event stream, also when jobs are known by reusable addresses.
- **Lookup tables** (`LookupTables`, `AltPlane`): which keys are loaded in which order, quarantine is absorbing, and
  resolutions are stable exactly while no loaded table is forgotten.
- **Route counter** (`RouteCount`, `RouteIndex`): counting over an adjacency index equals the naive count.
- **Transaction framers** (`Wire`, `FrameV1`, `FrameCodec`, `FrameLegacy`, `FrameLegacyCodec`) and **base 58**
  (`Base58`): parsers and codecs as inverses for every version, and which verdicts are final.

`Rounding` holds the division facts and `Basics` the small functions that several of them share.

Where an obvious stronger claim is false of the code, the code is kept, a lemma gives an input, and another one the
exact condition:

- The trade of a Pump buy, and with it the base bought, is not monotone in the input (`PumpKernel.TradeNotMonotone`,
  `PumpLaws.DipLosesBase`). It falls exactly across a dip (`PumpKernel.TradeFallsIffDips`), and it is monotone exactly
  for fee rates with a zero (`PumpKernel.TradeMonotoneIff`, `PumpLaws.BuyMonotoneIff`).
- The binary searches can miss (`PumpOverlay.ExactOutCanMiss`, `PumpReplay.SellInversionCanMiss`); the exact
  conditions are `PumpOverlay.OneFreeExactOutIff`, `PumpOverlay.ExactOutIff` and `PumpReplay.SellInversionIff`.
- A quoted sell need not apply (`PumpLaws.OversizedIsQuoted`, `PumpLaws.QuoteRefinesSwap`).
- Two swaps in a row need not succeed as one (`OrderJoin.JoinCanFail`); they do exactly within the step limit
  (`OrderJoin.JoinIff`).
- Forgetting a table can change a resolution (`AltPlane.ForgettingChangesResolution`); it cannot exactly when nothing
  is loaded through it (`AltPlane.SafeToForgetIff`).
- A timer can be lost when a new job gets the address of a cancelled one (`TimerIdentity.ReuseLosesTimer`); the
  firings are the expected ones exactly when no sweep meets such a job (`TimerIdentity.SameFiringsIff`).
- A version 0 message cut behind its version mark is called invalid although more bytes can complete it
  (`FrameLegacy.CutExample`); all other final verdicts are final (`FrameLegacy.VerdictFinalIff`).

Conventions: integers are unbounded as in Python, and the 64- and 128-bit limits are the explicit tests of the code.
All divisors are positive, so floor division is Dafny's division. Raised exceptions and `None` results are `None`, a
`Raised` outcome or a refusal value. Clock readings, fetched answers, decoded snapshots and the partner index are
parameters. Bitwise combinations of disjoint bits are written as sums and remainders. The tag `still_exact_v0` is
named after a swap at no virtual reserve, but the code applies the swap at the recorded one
(`arb-cap/pump012/replay.py:53-59`); the model follows the code.

## Model

| member | source | states |
|---|---|---|
| FixedPoint.MulShr64Exact | arb-cap/timer_decay/dlmm_quote.py:19-35 | The four-limb multiply-shift is the exact floor or ceiling of a*b / 2^64, and it refuses exactly the products of 2^128 or more |
| FixedPoint.Shl64DivExact | arb-cap/timer_decay/dlmm_quote.py:38-47 | The shift-divide is the exact floor or ceiling of num * 2^64 / den, and it refuses exactly a zero divisor and numerators of 2^64 or more |
| FixedPoint.AmountOutExact | arb-cap/timer_decay/dlmm_quote.py:82-89 | The output conversion is the exact rounded-down rate, with its exact domain |
| FixedPoint.AmountInExact | arb-cap/timer_decay/dlmm_quote.py:92-99 | The input conversion is the exact rounded-up rate back, with its exact domain |
| FixedPoint.ConversionsAdjoint | arb-cap/timer_decay/dlmm_quote.py:82-99 | In both directions, paying x buys at least o exactly when x covers the input asked for o |
| FixedPoint.ConversionsAre | arb-cap/timer_decay/dlmm_quote.py:82-99 | With the limits as numbers: the output is the largest q with q * 2^64 <= amount * price, the input the least that covers the output, the other way round in the other direction, and both are given exactly when they fit 64 bits |
| BinPrice.Climb | arb-cap/timer_decay/dlmm_quote.py:66-76 | Nineteen bit tests with limb multiplies compute the square-and-multiply ladder; no multiply is ever refused |
| BinPrice.ComputePrice | arb-cap/timer_decay/dlmm_quote.py:50-79 | The price routine computes PriceFromId, the function the price laws are about |
| BinPrice.NegativePriceError | arb-cap/timer_decay/dlmm_quote.py:50-79 | The price of bin -n never exceeds 2^64 * (2^64/base)^n and is below it by at most 2n units in the last place |
| BinPrice.NegativePriceIs | arb-cap/timer_decay/dlmm_quote.py:50-79 | Against the rational step: the price of bin -n is at most 2n below and n above 2^64 * (10000/(10000+step))^n, bin 0 is at 2^64, and bins from 524288 on have no price |
| BinPrice.PositivePriceIs | arb-cap/timer_decay/dlmm_quote.py:50-79 | The price of bin n is defined with that of bin -n, is at least 2^64, and its product with the rational power of -n is 2^128 up to the same 2n and n units |
| BinPrice.TruePriceNear | arb-cap/timer_decay/dlmm_quote.py:57-64 | Truncating the step to 64 bits moves the exact power of -n up by at most n units |
| BinPrice.PowGap | arb-cap/timer_decay/dlmm_quote.py:66-76 | The n-th powers of two factors up to one differ by at most n times their difference |
| BinPrice.PriceContract | arb-cap/timer_decay/dlmm_quote.py:50-79 | The two signs are defined together; a negative bin lies below one, a positive bin at or above one, and their product is 2^128 up to one rounding |
| BinPrice.PositivePriceLowerBound | arb-cap/timer_decay/dlmm_quote.py:77-79 | A positive price is never more than one unit below the exact power |
| BinPrice.PositivePriceUpperBound | arb-cap/timer_decay/dlmm_quote.py:77-79 | Nor is it further above the exact power than the 2n units of the negative bin allow |
| BinPrice.LadderError | arb-cap/timer_decay/dlmm_quote.py:66-76 | Truncating every product loses one unit on top of the errors of the factors, at every bit of the exponent |
| BinPrice.LadderShrinks | arb-cap/timer_decay/dlmm_quote.py:66-76 | The ladder never grows and stays below one once the exponent is positive |
| Fees.FeeRateMonotone | arb-cap/timer_decay/dlmm_quote.py:157-169 | The fee rate never falls when the volatility accumulator rises |
| Fees.FeeRateIs | arb-cap/timer_decay/dlmm_quote.py:157-169 | The rate is the base fee plus the least integer that covers control * (accumulator * step)^2 / 10^11, and at most 10^8 billionths |
| Fees.GrossNetGalois | arb-cap/timer_decay/dlmm_quote.py:196-216 | Grossing up and netting down form a Galois connection |
| Fees.NetOfGross | arb-cap/timer_decay/dlmm_quote.py:196-216 | Netting the gross of n returns n |
| Fees.FeeInGrossExact | arb-cap/timer_decay/dlmm_quote.py:209-216 | The fee contained in a gross amount is exactly the part netting removes; it is refused exactly above 64 bits |
| Fees.FeeInGrossIs | arb-cap/timer_decay/dlmm_quote.py:209-216 | The fee contained in a gross amount is the least integer that covers amount * rate / 10^9, given exactly when it fits 64 bits |
| Fees.FeeOnNetExact | arb-cap/timer_decay/dlmm_quote.py:196-206 | The fee put on a net amount is exactly what grossing up adds, and on 64-bit amounts it is never refused |
| Fees.FeeOnNetIs | arb-cap/timer_decay/dlmm_quote.py:196-206 | The fee put on a net amount is the least integer that covers amount * rate / (10^9 - rate), given exactly when it fits 64 bits |
| Volatility.Dlmm.Clone | arb-cap/timer_decay/dlmm_quote.py:146-154 | A quote works on a clone equal to the pair it was given |
| Volatility.Dlmm.UpdateReferences | arb-cap/timer_decay/dlmm_quote.py:172-179 | The in-place update of the references is the References function |
| Volatility.Dlmm.UpdateVolatility | arb-cap/timer_decay/dlmm_quote.py:182-187 | The in-place update of the accumulator is the capped distance from the reference bin |
| Volatility.AccumulatorStep | arb-cap/timer_decay/dlmm_quote.py:182-187 | At the reference bin a hop sees the reference accumulator, and one bin further away 10000 more, up to the cap |
| Volatility.ReferencesOf | arb-cap/timer_decay/dlmm_quote.py:172-179 | Nothing moves before the filter period; then the active bin is the reference and the reference accumulator is the reduced one, or zero after the decay period |
| Volatility.ComputeFeeAfterTime | arb-cap/timer_decay/dlmm_quote.py:305-312 | Fee, accumulator and reference after time alone, computed on a clone |
| Volatility.FeeInTime | arb-cap/timer_decay/dlmm_quote.py:305-312 | The fee, accumulator and reference at a later time, in the three windows of the filter and the decay period |
| Volatility.NoBoundaryNoChange | arb-cap/timer_decay/dlmm_quote.py:305-329 | If no listed boundary lies in (now, t], the fee rate at t is the rate now |
| Volatility.ChangeHasBoundary | arb-cap/timer_decay/dlmm_quote.py:315-329 | A fee rate that changes between two times changes across a listed boundary |
| Volatility.BoundariesAreFuture | arb-cap/timer_decay/dlmm_quote.py:315-329 | Listed boundaries lie in the future and are distinct |
| Volatility.BoundariesAre | arb-cap/timer_decay/dlmm_quote.py:315-329 | A time is listed exactly when it is a future end of the filter or of the decay period, the variable fee is on, and a decay boundary differs from the filter one |
| Volatility.NeverRisesIffDecayShrinks | arb-cap/timer_decay/dlmm_quote.py:172-187 | The active-bin accumulator never rises with time exactly when the decayed reference does not exceed the accumulator seen before the decay |
| Volatility.SettledRateNeverRises | arb-cap/timer_decay/dlmm_quote.py:172-187 | When the stored accumulator is the one the last update left and the reduction factor is at most one, the fee rate never rises with time |
| Basics.FindByFirst | arb-cap/timer_decay/dlmm_quote.py:219-223 | Bin lookup returns the first bin with the id and misses none, here and in the order book |
| DlmmQuote.BuysCosts | arb-cap/timer_decay/dlmm_quote.py:82-99 | A bin charges at most x for an output exactly when x buys that output |
| DlmmQuote.OfferedTaken | arb-cap/timer_decay/dlmm_quote.py:250-299 | In both fee modes the input taken for a net amount is the least one that offers it |
| DlmmQuote.ComputeFill | arb-cap/timer_decay/dlmm_quote.py:226-238 | One bin: input used, input left and output in exact arithmetic, and the exact refusal |
| DlmmQuote.ComputeVisit | arb-cap/timer_decay/dlmm_quote.py:256-299 | The body of the quote loop with its fees is VisitBin, and the refusal of an input larger than what is left never happens |
| DlmmQuote.VisitActive | arb-cap/timer_decay/dlmm_quote.py:252-262 | One turn on the mutable clone, with price caching and accumulator update, does what Visit says of the original pair |
| DlmmQuote.WalkBins | arb-cap/timer_decay/dlmm_quote.py:250-301 | The loop over at most 256 bins computes the output of Walk |
| DlmmQuote.ComputeQuote | arb-cap/timer_decay/dlmm_quote.py:241-302 | The whole quote computes Quote on the pair, all refusals included |
| QuoteLaws.VisitBinMonotone | arb-cap/timer_decay/dlmm_quote.py:226-299 | In one bin a smaller input is accepted, buys no more, and does exactly the same if it does not end there |
| QuoteLaws.VisitBinBooks | arb-cap/timer_decay/dlmm_quote.py:226-299 | A bin never pays more than it holds nor better than its price, takes used plus fee, and is emptied unless it is the last |
| QuoteLaws.WalkMonotone | arb-cap/timer_decay/dlmm_quote.py:241-302 | Along a walk, a smaller input quotes on an initial run of the same bins and buys no more |
| QuoteLaws.QuoteMonotone | arb-cap/timer_decay/dlmm_quote.py:241-302 | The quote is monotone and its domain downward closed, in both fee modes and both directions |
| QuoteLaws.WalkIsBalanced | arb-cap/timer_decay/dlmm_quote.py:250-299 | Every visited bin balances, the bins are consecutive, all but the last are emptied, and the whole input is taken |
| QuoteLaws.QuoteConserves | arb-cap/timer_decay/dlmm_quote.py:241-302 | The input is the sum of used plus fee over at most 256 distinct bins, and the output is at most their combined inventory |
| QuoteBooks.VisitBinIs | arb-cap/timer_decay/dlmm_quote.py:226-299 | A visit is accepted exactly as the hop described in numbers: the most output its net input buys within the inventory, its fee, and the least input that empties the bin, or all that is left |
| QuoteBooks.VisitIs | arb-cap/timer_decay/dlmm_quote.py:250-299 | The hop of a pair is that of the first bin with the id, at its price, and at the rate of its distance from the reference bin |
| QuoteBooks.WalkIs | arb-cap/timer_decay/dlmm_quote.py:250-301 | A walk is exactly a run of such hops in neighbouring bins between the edges, each of which but the last leaves some input over |
| QuoteBooks.RouteIs | arb-cap/timer_decay/dlmm_quote.py:241-302 | A quote makes the given hops exactly when the pair is enabled, the input is positive, there are at most 256 of them, and they are such a run from the active bin |
| QuoteBooks.ChargedByDistance | arb-cap/timer_decay/dlmm_quote.py:182-187 | From the reference bin on, hop i is charged for an accumulator of i * 10000 above the reference, up to the cap |
| QuoteBooks.PaysEveryHop | arb-cap/timer_decay/dlmm_quote.py:290-302 | A quote pays the output of every hop once |
| QuoteBooks.SecondBinIsDearer | arb-cap/timer_decay/dlmm_quote.py:241-302 | A concrete pair at price one whose second bin charges one per cent: 1000 buys 991 |
| PumpKernel.Overshoot | arb-cap/pump012/pump_apply.py:53-60 | Before any repair the traded amount and its three ceiling fees overshoot the input by at most two |
| PumpKernel.TradeCovered | arb-cap/pump012/pump_apply.py:53-68 | The single rounding repair suffices, and it trims at most two |
| PumpKernel.TradeNotMonotone | arb-cap/pump012/pump_apply.py:54-60 | A concrete input where one more unit in trades one unit less |
| PumpKernel.TradeFallsIffDips | arb-cap/pump012/pump_apply.py:54-60 | From a smaller to a larger input the trade falls exactly where the unrepaired trade rises by one and the repair takes two off, and then by one; never when some rate is zero |
| PumpKernel.DipExists | arb-cap/pump012/pump_apply.py:54-60 | With three positive rates there are neighbouring inputs across which the trade falls |
| PumpKernel.TradeMonotoneIff | arb-cap/pump012/pump_apply.py:54-60 | The trade is monotone in the input exactly for fee rates with a zero |
| PumpBooks.TradeIs | arb-cap/pump012/pump_apply.py:53-60 | The trade is the largest amount at ten thousand plus the fee rates, less what the input lacks for it and its fees |
| PumpLaws.SwapKeeps | arb-cap/pump012/pump_apply.py:21-83 | Every successful swap keeps base and effective quote positive, leaves the virtual reserve alone, never lowers base * (quote + virtual), and pays the trader no more quote than the vault loses |
| PumpLaws.BuysLessOnlyByDip | arb-cap/pump012/pump_apply.py:53-68 | A larger buy takes out less base, or is refused, only across a dip of the trade |
| PumpLaws.BuyMonotoneIff | arb-cap/pump012/pump_apply.py:53-68 | More input never buys less, on any pool, exactly for fee rates with a zero |
| PumpLaws.DipLosesBase | arb-cap/pump012/pump_apply.py:53-68 | With three positive rates, a pool on which one more unit of quote buys one unit of base less |
| PumpLaws.SellSplits | arb-cap/pump012/pump_apply.py:38-52 | The quote vault loses exactly the trader payment plus protocol and creator fees |
| PumpBooks.BuyIs | arb-cap/pump012/pump_apply.py:21-83 | A buy is applied exactly as described in numbers: who takes which fee of the trade after the repair, the base paid out for one less, and both vaults |
| PumpBooks.SellIs | arb-cap/pump012/pump_apply.py:21-83 | A sell is applied exactly as described in numbers: the largest gross amount for the base put in, each fee the least that covers its rate, and both vaults |
| PumpBooks.BuySplits | arb-cap/pump012/pump_apply.py:53-68 | In every case what the quote vault gains plus a protocol and a creator fee of the trade after the repair is the input |
| PumpBooks.RepairSaves | arb-cap/pump012/pump_fee.py:396-434 | The vault gains more than the fee components say by the protocol and creator fees saved in the repair, at most twice what it trims |
| PumpLaws.QuoteRefinesSwap | arb-cap/timer_decay/dlmm_quote.py:344-395 | Wherever the swap applies with its direction enabled the quote succeeds with the vault figure; a quoted swap is refused exactly when it is a sell larger than the quote vault |
| PumpLaws.OversizedIsQuoted | arb-cap/timer_decay/dlmm_quote.py:344-395 | A concrete sell out of the virtual reserve that is quoted and does not apply |
| PumpBooks.QuoteIs | arb-cap/timer_decay/dlmm_quote.py:344-395 | A quote is given exactly when the pool is open, its direction is not switched off, and the amounts are positive and fit 64 bits; it is then the output described in numbers |
| PumpLaws.ComponentsConserve | arb-cap/pump012/pump_fee.py:396-434 | In all three buyback modes the spend is conserved, and the vault share covers the trade and the LP fee up to the roundings |
| PumpLaws.ComponentsMatchSwap | arb-cap/pump012/pump_fee.py:396-434 | The carve and ignore vault figures never exceed the increase of the swap, and equal it when no repair fires |
| PumpBooks.ComponentsAre | arb-cap/pump012/pump_fee.py:396-434 | In all three buyback modes the components are those described in numbers |
| PumpOverlay.FindQuoteIn | arb-cap/pump012/pump_overlay.py:34-48 | The binary search for the quote input is Search over its judgement of a probe |
| PumpOverlay.ComputeBuyExactOut | arb-cap/pump012/pump_overlay.py:27-58 | The exact-out buy, refusals included; a result takes out exactly the requested base |
| PumpOverlay.ExactOutSound | arb-cap/pump012/pump_overlay.py:27-58 | A successful exact-out buy is an ordinary buy within the quote limit that takes out exactly the requested base |
| PumpOverlay.ExactOutIff | arb-cap/pump012/pump_overlay.py:27-58 | Under any fees, an exact-out buy succeeds exactly when some amount in range buys the wanted base, every smaller probe on the way to it is accepted, and no probe lies across a dip that changes the base |
| PumpOverlay.ProbeTurnsAwayIff | arb-cap/pump012/pump_overlay.py:38-48 | The search turns away from an exact amount only at a smaller probe that is refused or at a probe across a dip that changes the base |
| PumpOverlay.OneFreeMonotone | arb-cap/pump012/pump_apply.py:53-68 | With one rate at zero, more input is never refused after less was accepted and never takes out less base |
| PumpOverlay.OneFreeExactOutIff | arb-cap/pump012/pump_overlay.py:27-58 | With one rate at zero, an exact-out buy succeeds exactly when some amount in range buys the wanted base and every smaller probe on the way to it is accepted |
| PumpOverlay.OneFreeSearchComplete | arb-cap/pump012/pump_overlay.py:34-48 | With one rate at zero, one acceptance test at half of an exact amount is enough for the search to succeed |
| PumpOverlay.ExactOutCanMiss | arb-cap/pump012/pump_overlay.py:34-48 | A concrete pool where an exact amount exists and the search misses it |
| PumpOverlay.ApplySequence | arb-cap/pump012/pump_overlay.py:107-123 | An empty list is ambiguous, an unknown instruction or a failing one yields no state, otherwise the terminal state is the fold in order |
| PumpOverlay.ComputeCpi | arb-cap/pump012/pump_overlay.py:61-72 | Dispatch of one instruction to its swap |
| PumpOverlay.CpiIs | arb-cap/pump012/pump_overlay.py:61-72 | Which instruction buys, which sells and which buys an exact output, in numbers, and that an unknown one or one without an amount does nothing |
| PumpOverlay.SearchTopIs | arb-cap/pump012/pump_overlay.py:34 | The search goes up to the limit of the caller, or to 10^18 when there is none or it is zero |
| PumpOverlay.RunConcat | arb-cap/pump012/pump_overlay.py:107-123 | Two lists of instructions in a row are the second one run from where the first one ends |
| PumpOverlay.CpiKeeps | arb-cap/pump012/pump_overlay.py:61-72 | Every instruction that applies is one ordinary swap and keeps what swaps keep |
| PumpOverlay.RunKeeps | arb-cap/pump012/pump_overlay.py:107-123 | Over every successful run base and effective quote stay positive, the virtual reserve is unchanged, the product never falls, and the trader nets only what the vault lost |
| PumpOverlay.NoFreeLunch | arb-cap/pump012/pump_overlay.py:107-123 | No run ends with base no higher and effective quote lower, so buying and selling back in either order never profits |
| PumpOverlay.UnknownYieldsNothing | arb-cap/pump012/pump_overlay.py:107-123 | A run with an unknown instruction anywhere yields no state |
| PumpOverlay.FeesLastOneStep | arb-cap/pump012/pump_apply.py:73-83 | Applied states carry no fee rates, so every later instruction runs at zero rates |
| Bisect.SearchSound | arb-cap/pump012/pump_apply.py:91-112 | A search result lies in range and is a hit |
| Bisect.SearchComplete | arb-cap/pump012/pump_apply.py:91-112 | A search finds a hit when every probe it can make points towards one |
| Bisect.FirstProbe | arb-cap/pump012/pump_overlay.py:34-48 | The probes on the way to a value are the middle of the range and those of the half that holds the value |
| Bisect.LeadsToHit | arb-cap/pump012/pump_apply.py:91-112 | A hit with no probe on the way turning away is enough for the search to succeed |
| Bisect.HitWasLedTo | arb-cap/pump012/pump_apply.py:91-112 | And it is necessary: on the way to a found hit no probe turned away |
| PumpReplay.ComputeInvertVirtual | arb-cap/pump012/pump_apply.py:86-122 | The inversion loop is Search, and a result reproduces both vaults |
| PumpReplay.ComputeInvertBase | arb-cap/pump012/replay.py:80-96 | The search for the base vault alone is Search |
| PumpReplay.BuyInversionComplete | arb-cap/pump012/pump_apply.py:86-122 | For buys a virtual reserve is found exactly when some value in range reproduces both vaults |
| PumpReplay.BaseInversionComplete | arb-cap/pump012/replay.py:80-96 | The base-only search finds a value exactly when there is one |
| PumpReplay.SellInversionIff | arb-cap/pump012/pump_apply.py:86-122 | For sells a virtual reserve is found exactly when some value in range reproduces both vaults and no smaller probe on the way there is refused as dust |
| PumpReplay.SellInversionComplete | arb-cap/pump012/pump_apply.py:86-122 | It is found when no reserve between half of an explaining value and that value makes the sell dust |
| PumpReplay.LargeSellInversionComplete | arb-cap/pump012/pump_apply.py:86-122 | When the gross at no virtual reserve is at least three units of fees, sells are inverted exactly when an explaining value exists |
| PumpReplay.SellInversionCanMiss | arb-cap/pump012/pump_apply.py:97-112 | A concrete sell that a value in range explains and the search misses |
| PumpReplay.WrongNHasNoExplanation | arb-cap/pump012/replay.py:39-77 | A sell whose base vault moved by something else than the amount has no explaining reserve |
| PumpReplay.ReplayOne | arb-cap/pump012/replay.py:39-77 | Classification of a mismatch row, missing parts included; a complete row gets a tag whose meaning holds |
| PumpReplay.ReplayComplete | arb-cap/pump012/replay.py:55-77 | The tag of a complete row states whether a virtual reserve explains both vaults, or the base vault alone; an unexplained sell has no reserve that the search can reach without a dust probe |
| PumpReplay.TagsExclusive | arb-cap/pump012/replay.py:39-77 | Meanings of different tags exclude each other, for buys and for sells large against their fees |
| OrderFill.LayersInOrder | arb-cap/dlmm_orders/inventory.py:139-167 | The split over the layers adds up to the smaller of wanted and available, and touches a layer only when the ones before it are used up |
| OrderFill.TakeTwice | arb-cap/dlmm_orders/fill_bin.py:118-136 | Taking from a bin twice is taking the sum |
| OrderFill.TakeLeaves | arb-cap/dlmm_orders/inventory.py:105-137 | After a take the available output is less by exactly what was taken |
| OrderFill.AvailableIs | arb-cap/dlmm_orders/inventory.py:95-131 | What a bin offers: its MM output, and the orders of the other side where limit orders are supported; it must stand at price 2^64 |
| OrderFill.TakeIs | arb-cap/dlmm_orders/fill_bin.py:104-136 | A take moves MM output against the same MM input, then processed orders, then open ones, and orders only of the side that can be taken |
| OrderFill.LastBinGives | arb-cap/dlmm_orders/fill_bin.py:146-175 | The bin a swap ends in gave something: a swap that exactly drains a bin stays there |
| OrderFill.SwapForeseen | arb-cap/dlmm_orders/fill_bin.py:146-175 | Whether a swap succeeds, and at what it fails, is read off the bins ahead before anything moves |
| OrderFill.SwapSplits | arb-cap/dlmm_orders/fill_bin.py:146-175 | A successful swap of a+b succeeds as a then b and reaches the identical state |
| OrderJoin.StepsNeeded | arb-cap/dlmm_orders/fill_bin.py:150-175 | A successful swap needs exactly one step more than the active bin moves |
| OrderJoin.Join | arb-cap/dlmm_orders/fill_bin.py:146-175 | Two swaps in a row are one swap of the sum, given the steps of both |
| OrderJoin.JoinIff | arb-cap/dlmm_orders/fill_bin.py:146-175 | When a and then b succeed, a+b succeeds exactly when the active bin has moved less than 256, and reaches the identical state |
| OrderJoin.SplitJoinIff | arb-cap/dlmm_orders/fill_bin.py:146-175 | A swap of a sum is its two parts in a row, within the step limit, in both directions |
| OrderJoin.JoinCanFail | arb-cap/dlmm_orders/fill_bin.py:150-175 | On more than 256 unit bins, 256 units and then one succeed and 257 at once do not |
| OrderJoin.JoinFailsAt | arb-cap/dlmm_orders/fill_bin.py:150-175 | Such states, for every number of bins above 256 |
| OrderFill.SucceedsIffCovered | arb-cap/dlmm_orders/fill_bin.py:146-175 | A swap succeeds exactly when a run of present, priced bins from the active one within the step limit holds enough |
| OrderFill.SwapMoves | arb-cap/dlmm_orders/fill_bin.py:146-175 | Reserves and available output move by the amount, each bin is the old one after a take in layer order, passed bins are drained, the others untouched |
| OrderBook.OState.Copy | arb-cap/dlmm_orders/fill_bin.py:146-149 | The copy has equal contents and bin objects of its own |
| OrderBook.FillBin | arb-cap/dlmm_orders/fill_bin.py:104-115 | The layered fill splits exactly as the inventory split, one unit in per unit out, and is refused exactly for a nonempty bin at another price |
| OrderBook.ApplyFill | arb-cap/dlmm_orders/fill_bin.py:118-136 | The in-place debit, layer by layer, with the exact condition of each complaint and the state each one leaves behind |
| OrderBook.Find | arb-cap/dlmm_orders/fill_bin.py:139-143 | The lookup loop is FindBin |
| OrderBook.FillActive | arb-cap/dlmm_orders/fill_bin.py:150-168 | One turn in place is a take at the active bin; the debit never complains |
| OrderBook.WalkBins | arb-cap/dlmm_orders/fill_bin.py:150-175 | The in-place loop over at most 256 bins is Swap |
| OrderBook.ApplySwap | arb-cap/dlmm_orders/fill_bin.py:146-175 | The swap works on a fresh copy, leaves its input alone, and gives the state and the outcome of Swap |
| TimerQueue.FireUptoEffect | arb-cap/timer_decay/replay.py:155-231 | Firing up to a time removes exactly the due jobs and records exactly the live ones among them |
| TimerQueue.FireUptoOrder | arb-cap/timer_decay/replay.py:155-231 | Firings come in queue order without repeats |
| TimerQueue.PushAllKeeps | arb-cap/timer_decay/replay.py:280-308 | Scheduling adds only fresh future jobs of the snapshot and keeps the invariant |
| TimerQueue.StepKeeps | arb-cap/timer_decay/replay.py:233-308 | Every record keeps the invariant of queue, firings and snapshots, and the clock never goes back |
| TimerQueue.RunKeeps | arb-cap/timer_decay/replay.py:233-310 | Every reachable state satisfies the invariant: future boundaries, live jobs of the latest snapshot, ordered firings |
| TimerQueue.ScheduleCoversFeeChange | arb-cap/timer_decay/replay.py:280-308 | With a known partner, every later fee change of an observed snapshot is preceded by the boundary of a job queued for it |
| TimerFate.FateIsSurvival | arb-cap/timer_decay/replay.py:152-231 | The step-by-step fate of a job agrees with the declarative reading of the stream |
| TimerFate.LiveFate | arb-cap/timer_decay/replay.py:152-310 | The queue machine gives every live job exactly its fate |
| TimerFate.TimerFires | arb-cap/timer_decay/replay.py:152-310 | A queued job fires if and only if the clock reaches its boundary and no snapshot or invalidation of its pool is processed strictly below it; the firing reports the fee at the boundary and whether a partner was published in the window |
| TimerFate.FiredOnce | arb-cap/timer_decay/replay.py:155-231 | No job fires twice |
| TimerFate.FiringsAccounted | arb-cap/timer_decay/replay.py:152-310 | Every firing is of a job that some record queued |
| TimerFate.RunFirings | arb-cap/timer_decay/replay.py:233-310 | Firings of a whole run are accounted for and in boundary order, and the last sweep finds nothing due |
| TimerIdentity.SweepCompared | arb-cap/timer_decay/replay.py:152-160 | A sweep that knows cancelled jobs by address suppresses firings exactly when a due job has the address of a cancelled one, and changes nothing else |
| TimerIdentity.SameFiringsIff | arb-cap/timer_decay/replay.py:152-310 | The replay by address, with its never purged set, fires the same jobs exactly when every sweep is free of such reuse |
| TimerIdentity.TimerFiresByAddress | arb-cap/timer_decay/replay.py:152-310 | Under that condition, or without reuse, the timer theorem holds of the replay by address |
| TimerIdentity.ReuseLosesTimer | arb-cap/timer_decay/replay.py:152-160 | A stream on which a job that was never cancelled is lost because it has the address of a cancelled one |
| TimerReplay.Replay.CancelPool | arb-cap/timer_decay/replay.py:152-153 | Cancelling marks exactly the queued jobs of the pool |
| TimerReplay.Replay.FireDue | arb-cap/timer_decay/replay.py:155-231 | The firing loop is FireUpto |
| TimerReplay.Replay.Push | arb-cap/timer_decay/replay.py:305-308 | Pushing keeps the queue in boundary and sequence order |
| TimerReplay.Replay.KnownPartners | arb-cap/timer_decay/replay.py:281-287 | The partners already published, in order |
| TimerReplay.Replay.ScheduleJobs | arb-cap/timer_decay/replay.py:280-308 | One job for each future boundary when some partner is known |
| TimerReplay.Replay.Process | arb-cap/timer_decay/replay.py:233-308 | One record processed in place is one step of the machine |
| TimerReplay.ReplayAll | arb-cap/timer_decay/replay.py:233-310 | The replay of a stream is the run of the machine and a last sweep |
| TimerStream.TimeIsLatest | arb-cap/timer_decay/replay.py:236-248 | The time of a record is the latest usable timestamp of a DLMM record up to it, between 1790300000 and 1790400000, and zero before the first |
| TimerStream.StateOfStream | arb-cap/timer_decay/replay.py:233-289 | The clock, the universe and the published partners of the machine, each read off the records before |
| TimerStream.PartnersAre | arb-cap/timer_decay/replay.py:281-287 | The partners of a queued job are the candidates of its pool, in the universe so far, that an earlier parsed Pump record published |
| TimerStream.QueuedJob | arb-cap/timer_decay/replay.py:280-308 | A queued job is of the snapshot its record observes, for a listed boundary, with the fee of that time, and with the published candidates in their order |
| TimerStream.QueuesBoundary | arb-cap/timer_decay/replay.py:280-308 | Every listed boundary of a snapshot observed while some candidate was published is queued |
| TimerStream.TimerInStream | arb-cap/timer_decay/replay.py:152-310 | A job fires exactly when a later record reaches its boundary and every later snapshot or invalidation of its pool comes at or after it, and its partner flag says whether a published candidate was published again in between |
| LookupTables.MergeExtends | arb-cap/trigger011/alt_rpc.py:104-134 | One merge extends a record or quarantines it with its contents kept |
| LookupTables.QuarantineIffConflict | arb-cap/trigger011/alt_rpc.py:104-134 | A merge quarantines exactly when the observation contradicts the known prefix or is current and inconsistent |
| LookupTables.MergeAllExtends | arb-cap/trigger011/alt_rpc.py:104-134 | Over any sequence of merges addresses grow by suffix, slots never fall, deactivation is final, authority is only given up, and quarantine is absorbing |
| LookupTables.ResolveLoaded | arb-cap/trigger011/hist_funnel011.py:315-338 | The resolver, writable descriptors before read-only ones, with every refusal |
| LookupTables.LoadPass | arb-cap/trigger011/hist_funnel011.py:320-337 | One pass over the tables of a message, appended without deduplication |
| LookupTables.ResolvedStaysOrRefused | arb-cap/trigger011/hist_funnel011.py:315-338 | A resolved transaction resolves to the same list after merges, or is refused for a quarantined table |
| LookupTables.LoadReads | arb-cap/trigger011/hist_funnel011.py:320-337 | The keys of one role are the addresses at its indices, table by table in message order, and are refused exactly when a table is not open or an index not readable |
| LookupTables.ResolvedKeys | arb-cap/trigger011/hist_funnel011.py:315-338 | The keys are the static ones, then the addresses at all writable indices, then those at all read-only ones, in message order; otherwise the static ones alone |
| LookupTables.RefusedFor | arb-cap/trigger011/hist_funnel011.py:315-338 | A message is refused for what is wrong with the first unsound table, writable places before read-only ones |
| LookupTables.FirstObservation | arb-cap/trigger011/alt_rpc.py:104-134 | A first observation, or one after a bare listing, is taken as it is |
| AltPlane.ControlPlane.File | arb-cap/trigger011/alt_plane.py:46-63 | One answer updates cache, due time and attempts as Visit says; without a change flag the cache is the same |
| AltPlane.ControlPlane.RefreshDue | arb-cap/trigger011/alt_plane.py:41-63 | A refresh files the answers for its batch in due order and counts them |
| AltPlane.RefreshIsFair | arb-cap/trigger011/alt_plane.py:41-48 | A batch holds due tables only, none twice, and passes over a due table only when it is full |
| AltPlane.RetryTimes | arb-cap/trigger011/alt_plane.py:46-53 | After a run of failures the next try is 2, 4, 8, 16, 32 and then 60 seconds away, and the cache is as before |
| AltPlane.AnswerTimes | arb-cap/trigger011/alt_plane.py:52-63 | After an answer the next one is due 30 seconds later and the failures are forgotten |
| AltPlane.QuarantineAbsorbs | arb-cap/trigger011/alt_plane.py:41-63 | No history of answers, absences included, changes a quarantined entry |
| AltPlane.HistoryMerges | arb-cap/trigger011/alt_plane.py:41-63 | While a table is never reported absent its record is only merged into |
| AltPlane.ResolutionStable | arb-cap/trigger011/hist_funnel011.py:315-338 | A transaction resolved through full records resolves to the same list after any history that forgets none of its tables, or is refused |
| AltPlane.ForgettingChangesResolution | arb-cap/trigger011/alt_plane.py:52-60 | After an absence and a new observation of a table, of at least as many addresses, a resolved transaction keeps its key list exactly when the addresses agree at every loaded index |
| AltPlane.RecreatingBreaks | arb-cap/trigger011/alt_plane.py:52-60 | Any table that loads an address has such a history that changes the key list |
| AltPlane.SafeToForgetIff | arb-cap/trigger011/hist_funnel011.py:315-338 | Every history whose absences are among given tables keeps the resolution or refuses it, if and only if the transaction loads nothing through them |
| RouteCount.Reversal | arb-cap/state005/typed_score.py:38-63 | A cycle run backwards is a cycle of the same class |
| RouteCount.CountsAreEven | arb-cap/state005/typed_score.py:38-63 | Every count is even, since reversal pairs the cycles off without a fixed point |
| RouteCount.ClassesPartition | arb-cap/state005/typed_score.py:29-63 | The two mixed classes are disjoint parts of the two-hop cycles |
| RouteCount.CountsGrow | arb-cap/state005/typed_score.py:76-79 | Appending edges never lowers a count |
| RouteCount.EdgesAppend | arb-cap/state005/typed_score.py:8-18 | The edges of appended pools are appended |
| RouteCount.EdgeOfPool | arb-cap/state005/typed_score.py:8-18 | A pool is one edge exactly when its kind, or its protocol when it has none, is DLMM or Pump and its two mints are there and differ |
| RouteCount.TwoHopsAre | arb-cap/state005/typed_score.py:38-56 | Two edges are a cycle exactly when they are different and both join SOL to one token |
| RouteCount.ThreeHopsAre | arb-cap/state005/typed_score.py:57-63 | Three edges are a cycle exactly when they are different and join SOL, a token, another token and SOL |
| RouteCount.ClassesAre | arb-cap/state005/typed_score.py:29-56 | A DLMM and a Pump edge count as route0 when both have SOL second, and as fam5 otherwise |
| RouteCount.TwoPools | arb-cap/state005/typed_score.py:29-63 | The counts of a DLMM and a Pump pool of any one token, in all four orders of their mints |
| RouteIndex.ComputeEdges | arb-cap/state005/typed_score.py:8-18 | The filter loop keeps the pools that trade two different mints |
| RouteIndex.BuildAdjacency | arb-cap/state005/typed_score.py:21-26 | The index lists the edges of every token in order |
| RouteIndex.CountThird | arb-cap/state005/typed_score.py:58-62 | The innermost loop counts the closing edges exactly |
| RouteIndex.CountFrom | arb-cap/state005/typed_score.py:45-62 | The middle loop counts everything that starts with one edge |
| RouteIndex.CountClosed | arb-cap/state005/typed_score.py:38-63 | Counting over the index gives exactly the numbers of ordered two- and three-edge cycles through SOL |
| RouteIndex.DeltaClosed | arb-cap/state005/typed_score.py:76-79 | The difference made by extra pools is exact, even and never negative |
| Wire.Cu16Canonical | arb-cap/frame_v1/parse.py:20-38 | The compact integer decoder accepts exactly the shortest encodings of 16-bit numbers and undoes them |
| Wire.Encode16Is | arb-cap/frame_v1/parse.py:20-38 | The bytes of an encoded number in base 128, all but the last marked, without a trailing zero |
| Wire.Cu16Stable | arb-cap/frame_v1/parse.py:20-38 | A verdict on a compact integer is not changed by appended bytes |
| FrameV1.ComputeParseV1 | arb-cap/frame_v1/parse.py:171-249 | The cursor parser computes ParseV1, every check in the order of the code |
| FrameV1.ReadKeys | arb-cap/frame_v1/parse.py:196-199 | The key list is cut in 32-byte steps |
| FrameV1.DistinctCount | arb-cap/frame_v1/parse.py:197-198 | Comparing the size of the key set with the key count tests for duplicates exactly |
| FrameV1.ReadHeads | arb-cap/frame_v1/parse.py:206-216 | Instruction headers and their payload size, stopping at the first program out of range |
| FrameV1.ReadBodies | arb-cap/frame_v1/parse.py:222-233 | Accounts and data of every instruction, stopping at the first account out of range |
| FrameV1.Stable | arb-cap/frame_v1/parse.py:171-249 | A framed or invalid verdict is not changed by appended bytes |
| FrameV1.PrefixIncomplete | arb-cap/frame_v1/parse.py:171-249 | Every proper prefix of a framed message is incomplete |
| FrameV1.LongIsDecided | arb-cap/frame_v1/parse.py:171-249 | With 4096 bytes at hand the verdict is never incomplete |
| FrameV1.BitsAre | arb-cap/frame_v1/parse.py:200 | A config section holds one word for each of the five mask bits that is set |
| FrameCodec.Tiles | arb-cap/frame_v1/parse.py:193-236 | The sections of a message tile it without gaps |
| FrameCodec.RoundTrip | arb-cap/frame_v1/parse.py:171-249 | Parsing undoes serializing, wherever the message stands and whatever follows |
| FrameCodec.FramedIsSerialized | arb-cap/frame_v1/parse.py:171-249 | Every framed verdict comes from the bytes of a well-formed message that stands there and ends where the verdict says |
| FrameCodec.FramedIff | arb-cap/frame_v1/parse.py:171-249 | The framer accepts exactly the bytes of well-formed messages |
| FrameCodec.RulesAgree | arb-cap/frame_v1/parse.py:171-236 | A message is well-formed, in plain numbers, exactly when it passes the checks of the code |
| FrameCodec.ExtractUnique | arb-cap/frame_v1/parse.py:171-249 | No bytes have two readings, the skipped fields included |
| FrameCodec.SizeBound | arb-cap/frame_v1/parse.py:217-219 | No framed message is longer than 4096 bytes |
| FrameLegacy.ComputeParseLegacy | arb-cap/frame_v1/parse.py:61-168 | The legacy and version 0 cursor parser computes ParseLegacy |
| FrameLegacy.ReadInstructions | arb-cap/frame_v1/parse.py:113-137 | The instruction loop of the legacy parser |
| FrameLegacy.SkipTables | arb-cap/frame_v1/parse.py:145-156 | The lookup-table loop of the legacy parser |
| FrameLegacy.ComputeParseAny | arb-cap/frame_v1/parse.py:252-255 | Dispatch on the first byte |
| FrameLegacy.VerdictFinalIff | arb-cap/frame_v1/parse.py:252-255 | A final verdict survives all appended bytes exactly when the input is not a version 0 message cut right behind its version mark |
| FrameLegacy.CutExample | arb-cap/frame_v1/parse.py:80-86 | A concrete message whose verdict goes from invalid to incomplete with one more byte |
| FrameLegacy.PrefixNotFramed | arb-cap/frame_v1/parse.py:252-255 | A proper prefix of a framed message is never framed: it is incomplete, or cut right behind the mark |
| FrameLegacy.NeverBoth | arb-cap/frame_v1/parse.py:61-71 | The legacy parser frames nothing that begins with 0x81 |
| FrameLegacy.DispatchComplete | arb-cap/frame_v1/parse.py:252-255 | An input is framed exactly when one of the two framers frames it, and then the other does not |
| FrameLegacy.AnyLongIsDecided | arb-cap/frame_v1/parse.py:252-255 | With 12587248 bytes at hand no verdict is incomplete |
| FrameLegacyCodec.OldRoundTrip | arb-cap/frame_v1/parse.py:61-168 | Parsing undoes serializing for legacy and version 0 messages, wherever the message stands and whatever follows |
| FrameLegacyCodec.OldFramedIsSerialized | arb-cap/frame_v1/parse.py:61-168 | Every framed verdict of the legacy parser comes from the bytes of a well-formed message, blockhash and tables included |
| FrameLegacyCodec.OldFramedIff | arb-cap/frame_v1/parse.py:61-168 | The legacy parser accepts exactly the bytes of well-formed legacy and version 0 messages |
| FrameLegacyCodec.AnyFramedIff | arb-cap/frame_v1/parse.py:252-255 | An input is framed exactly when the bytes of a well-formed message of some version stand there |
| Base58.RebaseInverse | arb-cap/trigger011/b58.py:5-31 | Changing the base of a digit string and changing it back, leading zeros kept, is the identity |
| Base58.DecodeEncode | arb-cap/trigger011/b58.py:5-31 | Decoding undoes encoding on every byte string |
| Base58.EncodeDecode | arb-cap/trigger011/b58.py:5-31 | Decoding is defined exactly on alphabet strings, and encoding undoes it there |
| Base58.AlphabetLetters | arb-cap/trigger011/b58.py:2 | The arithmetic letters are the alphabet, in order |
| Base58.ValIsPositional | arb-cap/trigger011/b58.py:5-31 | The value of a digit string is the sum of its digits times the powers of the base |
| Base58.EncodeIs | arb-cap/trigger011/b58.py:5-17 | An encoding is alphabet text of the same value in base 58 as the bytes have in base 256, with as many leading ones as there are leading zeros |
| Base58.ComputeEncode | arb-cap/trigger011/b58.py:5-17 | The division loop and the padding loop compute Encode |
| Base58.ComputeDecode | arb-cap/trigger011/b58.py:20-31 | The accumulation loop and the padding loop compute Decode, error included |

## Left out

- RPC, HTTP, file, gzip, mmap, process and command-line code, report renderers and one-off scripts: plumbing without a property of its own.
- The C kernels, `exec_gates`, `hops_live` and the on-chain programs are not part of this model.
- SHA-256, curve checks and program-address search are not part of this model.
- JSON and `struct` decoding: the model starts from typed records (`_decode_ix`, `walk_cpis`, `parse_dlmm`, `parse_bin_array`, `write_cache`).
- `auth_ro.latest`: one unrechecked read of a sequence number, of which no safety can be proved.
- Fee tier selection and fee schedules (`calculate_fee_tier`, `_vec_tiers`, `schedule_fees`, `resolve_creator`): the kernels take the resulting rates.
- `cycle_quote`, `classify_overlay` and `fee_overlay_state`: compositions of the modelled parts with field access.
- The economics, the watch lists and the joins of `timer_decay/replay.py`: only the queue, the clock and the snapshots are modelled.
- Aliased dictionary fields (`base_vault_amount` and `reserve_base`, `virtual_quote` and `virtual_quote_reserves`) are one field each.
- Direction values other than the two defined ones are not part of this model.
- Python's `id()` in the mutable replay: `TimerReplay` gives every job its sequence number; `TimerIdentity` says when addresses do the same.
- `heapq`: the queue is a sequence sorted by boundary and sequence number.
- Float rounding of refresh times: due times are real numbers; the order of equal due times is a parameter.
- DLMM fields that no quote reads (`protocol_share`, reserves) and order-bin fields that no fill reads (`total_processing_order_amount`, `order_age`).
- Order bins at prices other than one: the code refuses to convert them, and so does the model.
- The derived total `closed` of a route count, which is the sum of two modelled counts, and `exec_support`.
- `wire_kind` and `classify_ixs`: branch-only labels on parsed messages.
