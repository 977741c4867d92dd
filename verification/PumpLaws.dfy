/** What every Pump swap keeps, and how the quote and the fee components relate to it. */
module PumpLaws {
  import opened Rounding
  import opened PumpKernel

  /** Base times effective quote. */
  function Invariant(s: Pool): int { s.base * s.Effective() }

  /** Quote the trader receives from a swap; negative when the trader pays. */
  function TraderQuote(s: Pool, amountIn: int, d: Direction): int
    requires amountIn > 0
  {
    match d
    case BaseToQuote => var gross := GrossOut(s.base, s.Effective(), amountIn); gross - FeeSum(gross, s.fees)
    case QuoteToBase => -amountIn
  }

  lemma SellBounds(s: Pool, amountIn: nat)
    requires s.base > 0 && s.Effective() > 0 && amountIn > 0
    ensures var gross := GrossOut(s.base, s.Effective(), amountIn);
            && 0 <= gross < s.Effective()
            && (s.base + amountIn) * (s.Effective() - gross) >= Invariant(s)
            && 0 <= Fee(gross, s.fees.lp) && 0 <= Fee(gross, s.fees.protocol) && 0 <= Fee(gross, s.fees.creator)
  {
    var y, x := s.Effective(), s.base + amountIn;
    var gross := GrossOut(s.base, y, amountIn);
    FloorGalois(y * amountIn, x, gross);
    FloorGalois(y * amountIn, x, 0);
    FloorGalois(y * amountIn, x, y);
    assert y * x == y * s.base + y * amountIn;
    assert y * s.base > 0;
    assert x * (y - gross) == y * x - gross * x;
    CeilNonNeg(gross * s.fees.lp, BPS_DEN);
    CeilNonNeg(gross * s.fees.protocol, BPS_DEN);
    CeilNonNeg(gross * s.fees.creator, BPS_DEN);
  }

  lemma BuyBounds(base: nat, y: int, net: nat)
    requires base > 0 && y > 0
    ensures 0 <= BaseOut(base, y, net) < base
    ensures (base - BaseOut(base, y, net)) * (y + net) >= base * y
  {
    var out := BaseOut(base, y, net);
    FloorGalois(base * net, y + net, out);
    FloorGalois(base * net, y + net, 0);
    FloorGalois(base * net, y + net, base);
    assert base * (y + net) == base * y + base * net;
    assert base * y > 0;
    assert (base - out) * (y + net) == base * (y + net) - out * (y + net);
  }

  /** Every successful swap keeps base and effective quote positive, leaves the virtual reserve
      alone, never lowers base * (quote + virtual), moves the base vault by what the trader pays or
      receives, and never pays the trader more quote than the quote vault loses. */
  lemma SwapKeeps(s: Pool, amountIn: int, d: Direction)
    requires ApplySwap(s, amountIn, d).Some?
    ensures var t := ApplySwap(s, amountIn, d).value;
            && amountIn > 0
            && t.base > 0 && t.Effective() > 0 && t.virt == s.virt
            && Invariant(t) >= Invariant(s)
            && TraderQuote(s, amountIn, d) <= s.quote - t.quote
            && (d.BaseToQuote? ==> t.base == s.base + amountIn && t.quote <= s.quote)
            && (d.QuoteToBase? ==> t.base < s.base && t.quote >= s.quote)
  {
    hide GrossOut, BaseOut, Trade, Fee, Invariant;
    match d {
      case BaseToQuote => SellKeeps(s, amountIn);
      case QuoteToBase => BuyKeeps(s, amountIn);
    }
  }

  lemma SellKeeps(s: Pool, amountIn: int)
    requires ApplySwap(s, amountIn, BaseToQuote).Some?
    ensures var t := ApplySwap(s, amountIn, BaseToQuote).value;
            && t.Effective() > 0 && Invariant(t) >= Invariant(s)
            && TraderQuote(s, amountIn, BaseToQuote) <= s.quote - t.quote
            && t.quote <= s.quote
  {
    hide GrossOut, Fee;
    var t, y := ApplySwap(s, amountIn, BaseToQuote).value, s.Effective();
    SellBounds(s, amountIn);
    MulLe(y - GrossOut(s.base, y, amountIn), t.Effective(), s.base + amountIn);
  }

  lemma BuyKeeps(s: Pool, amountIn: int)
    requires ApplySwap(s, amountIn, QuoteToBase).Some?
    ensures var t := ApplySwap(s, amountIn, QuoteToBase).value;
            && 0 < t.base < s.base && Invariant(t) >= Invariant(s)
            && s.quote <= t.quote <= s.quote + amountIn
  {
    hide BaseOut, Trade, Fee;
    var t, y, e := ApplySwap(s, amountIn, QuoteToBase).value, s.Effective(), Trade(amountIn, s.fees);
    TradeCovered(amountIn, s.fees);
    BuyBounds(s.base, y, e - 1);
    MulLe(y + (e - 1), t.Effective(), t.base);
  }

  // ---- more input, more output? ----

  lemma BaseOutMonotone(base: nat, y: int, m: nat, n: nat)
    requires base > 0 && y > 0 && m <= n
    ensures BaseOut(base, y, m) <= BaseOut(base, y, n)
  {
    BuyBounds(base, y, m);
    var out := BaseOut(base, y, m);
    FloorGalois(base * m, y + m, out);
    FloorGalois(base * n, y + n, out);
    MulLe(out, base, n - m);
    assert out * (y + n) == out * (y + m) + out * (n - m);
    assert base * n == base * m + base * (n - m);
  }

  /** A buy that trades no less takes out no less. */
  lemma BuyFollowsTrade(s: Pool, a: nat, b: nat)
    requires ApplySwap(s, a, QuoteToBase).Some? && b > 0 && Trade(a, s.fees) <= Trade(b, s.fees)
    ensures ApplySwap(s, b, QuoteToBase).Some?
    ensures ApplySwap(s, b, QuoteToBase).value.base <= ApplySwap(s, a, QuoteToBase).value.base
  {
    hide BaseOut, Trade, Fee, ApplySell;
    var y, m, n := s.Effective(), Trade(a, s.fees) - 1, Trade(b, s.fees) - 1;
    BaseOutMonotone(s.base, y, m, n);
    BuyBounds(s.base, y, n);
  }

  /** Spending b instead of the smaller a takes out less base, or is refused where a was not. */
  ghost predicate BuysLess(s: Pool, a: nat, b: nat) {
    && ApplySwap(s, a, QuoteToBase).Some?
    && (ApplySwap(s, b, QuoteToBase).None?
        || ApplySwap(s, b, QuoteToBase).value.base > ApplySwap(s, a, QuoteToBase).value.base)
  }

  /** A larger input buys less only across a dip of the trade; never when some rate is zero. */
  lemma BuysLessOnlyByDip(s: Pool, a: nat, b: nat)
    requires a <= b && BuysLess(s, a, b)
    ensures Dips(a, b, s.fees) && !s.fees.SomeFree()
  {
    hide Trade, Dips, ApplyBuy;
    TradeFallsIffDips(a, b, s.fees);
    if Trade(a, s.fees) <= Trade(b, s.fees) {
      BuyFollowsTrade(s, a, b);
    }
  }

  ghost predicate BuysMonotonically(f: Fees) {
    forall s: Pool, a: nat, b: nat :: s.fees == f && a <= b ==> !BuysLess(s, a, b)
  }

  /** For which fee rates more input never buys less, on any pool: exactly those with a zero. */
  lemma BuyMonotoneIff(f: Fees)
    requires f.Total() < BPS_DEN
    ensures f.SomeFree() <==> BuysMonotonically(f)
  {
    hide BuysLess, Dips;
    if f.SomeFree() {
      forall s: Pool, a: nat, b: nat | s.fees == f && a <= b ensures !BuysLess(s, a, b) {
        if BuysLess(s, a, b) {
          BuysLessOnlyByDip(s, a, b);
        }
      }
    } else {
      DipLosesBase(f);
    }
  }

  /** A shallow pool on which the dip costs one unit of base. */
  lemma DipLosesBase(f: Fees)
    requires !f.SomeFree() && f.Total() < BPS_DEN
    ensures var a: nat := BPS_DEN + f.Total() + 1;
            BuysLess(Pool(99_990_000, 1, 0, f, 0), a, a + 1)
  {
    hide Trade, Fee, ApplySell;
    var t: nat := f.Total();
    var a: nat := BPS_DEN + t + 1;
    var s := Pool(99_990_000, 1, 0, f, 0);
    DipExists(f);
    assert s.Effective() == 1 && Tradable(s);
    assert BaseOut(s.base, 1, 9_999) == 99_980_001 && BaseOut(s.base, 1, 9_998) == 99_980_000;
    hide BaseOut;
  }

  /** Selling and quoting see the same swap: what the trader is paid is what the vault loses less
      the protocol and creator fees, which leave it too. */
  lemma SellSplits(s: Pool, amountIn: int)
    requires ApplySwap(s, amountIn, BaseToQuote).Some?
    ensures var gross := GrossOut(s.base, s.Effective(), amountIn);
            s.quote - ApplySwap(s, amountIn, BaseToQuote).value.quote
            == TraderQuote(s, amountIn, BaseToQuote) + Fee(gross, s.fees.protocol) + Fee(gross, s.fees.creator)
  {
  }

  // ---- the quote ----

  predicate Disabled(flags: nat, d: Direction) {
    flags / (if d.QuoteToBase? then 8 else 16) % 2 == 1
  }

  function QuotePump(s: Pool, flags: nat, amountIn: nat, d: Direction): Option<nat> {
    if s.status != 0 || amountIn == 0 || Disabled(flags, d) || s.fees.Total() >= BPS_DEN then None
    else if s.base == 0 || s.quote == 0 || s.Effective() <= 0 || s.Effective() > U64_MAX then None
    else
      match d
      case BaseToQuote =>
        var gross := GrossOut(s.base, s.Effective(), amountIn);
        var out := gross - FeeSum(gross, s.fees);
        if out <= 0 || out > U64_MAX then None else Some(out)
      case QuoteToBase =>
        var e := Trade(amountIn, s.fees);
        if e < 1 then None
        else
          var out := BaseOut(s.base, s.Effective(), e - 1);
          if out <= 0 || out > s.base || out > U64_MAX then None else Some(out)
  }

  /** The sell leaves more quote than the vault holds. */
  predicate Oversized(s: Pool, amountIn: nat, d: Direction)
    requires amountIn > 0
  {
    d.BaseToQuote?
    && var gross := GrossOut(s.base, s.Effective(), amountIn);
       gross - Fee(gross, s.fees.lp) > s.quote
  }

  /** The quote refines the swap. Wherever the swap applies, with its direction enabled and the
      effective quote in 64 bits, there is a quote; and a quoted swap is refused exactly when it is a
      sell larger than the quote vault. The answer is the base vault's decrease on a buy, and the quote
      vault's decrease less protocol and creator fees on a sell. */
  lemma QuoteRefinesSwap(s: Pool, flags: nat, amountIn: nat, d: Direction)
    requires s.base <= U64_MAX
    ensures var q, t := QuotePump(s, flags, amountIn, d), ApplySwap(s, amountIn, d);
            && (t.Some? && !Disabled(flags, d) && s.Effective() <= U64_MAX ==> q.Some?)
            && (q.Some? ==> !Disabled(flags, d) && s.Effective() <= U64_MAX && amountIn > 0)
            && (q.Some? ==> (t.None? <==> Oversized(s, amountIn, d)))
            && (q.Some? && t.Some? ==>
                  && (d.QuoteToBase? ==> q.value == s.base - t.value.base)
                  && (d.BaseToQuote? ==>
                        var gross := GrossOut(s.base, s.Effective(), amountIn);
                        q.value == s.quote - t.value.quote - Fee(gross, s.fees.protocol) - Fee(gross, s.fees.creator)))
  {
    if amountIn > 0 && s.base > 0 && s.Effective() > 0 {
      SellBounds(s, amountIn);
    }
  }

  /** One unit of base against one unit of quote in the vault and ten virtual ones, no fees. */
  predicate Shallow(s: Pool) {
    s.base == 1 && s.quote == 1 && s.virt == 10 && s.status == 0 && s.fees.Free()
  }

  /** A sell that is quoted, out of the virtual reserve, and does not apply. */
  lemma OversizedIsQuoted(s: Pool)
    requires Shallow(s)
    ensures Oversized(s, 1, BaseToQuote) && QuotePump(s, 0, 1, BaseToQuote) == Some(5)
    ensures ApplySwap(s, 1, BaseToQuote).None?
  {
    hide Fee, FeeSum, Fees.Total;
    assert s.Effective() == 11;
    assert GrossOut(1, 11, 1) == 5;
    FreeOfFees(5, s.fees);
    ZeroFee(5);
  }

  // ---- fee components of a buy ----

  datatype Mode = Add | Carve | Ignore

  datatype Components = Components(effective: int, lp: int, protocol: int, creator: int, buyback: int, vault: int)

  /** How a spend splits into fees and the vault's share, buyback being a fourth fee, a share
      carved out of the protocol fee, or unused. */
  function BuyComponents(spendable: nat, f: Fees, buyback: nat, mode: Mode): Option<Components> {
    var total := if mode.Add? then f.Total() + buyback else f.Total();
    if total >= BPS_DEN then None
    else
      var e := spendable * BPS_DEN / (BPS_DEN + total);
      var lp, protocol, creator := Fee(e, f.lp), Fee(e, f.protocol), Fee(e, f.creator);
      match mode
      case Add =>
        var bb := Fee(e, buyback);
        Some(Components(e, lp, protocol, creator, bb, spendable - protocol - creator - bb))
      case Carve =>
        var bb := if buyback != 0 then Fee(protocol, buyback) else 0;
        Some(Components(e, lp, protocol - bb, creator, bb, spendable - protocol - creator))
      case Ignore =>
        Some(Components(e, lp, protocol, creator, 0, spendable - protocol - creator))
  }

  /** In every mode the spend is conserved: what leaves plus what stays in the vault is the spend,
      and the vault keeps at least the traded amount and the LP fee, short by at most the roundings. */
  lemma ComponentsConserve(spendable: nat, f: Fees, buyback: nat, mode: Mode)
    requires BuyComponents(spendable, f, buyback, mode).Some?
    ensures var c := BuyComponents(spendable, f, buyback, mode).value;
            && c.vault + c.protocol + c.creator + c.buyback == spendable
            && c.vault >= c.effective + c.lp - (if mode.Add? then 3 else 2)
  {
    hide Fee, Fees.Total;
    if mode.Add? {
      AddOvershoot(spendable, f, buyback);
    } else {
      Overshoot(spendable, f);
    }
  }

  lemma AddOvershoot(spendable: nat, f: Fees, buyback: nat)
    ensures var e := spendable * BPS_DEN / (BPS_DEN + (f.Total() + buyback));
            e + FeeSum(e, f) + Fee(e, buyback) <= spendable + 3
  {
    hide Fee, FeeSum;
    var total: nat := f.Total() + buyback;
    hide Fees.Total;
    var e := spendable * BPS_DEN / (BPS_DEN + total);
    FloorGalois(spendable * BPS_DEN, BPS_DEN + total, e);
    FeeSumBounds(e, f);
    FeeBounds(e, buyback);
    assert e * (BPS_DEN + total) == e * BPS_DEN + e * f.Total() + e * buyback;
  }

  /** The carve and ignore vault figures never exceed the quote vault's increase of the swap itself,
      and equal it whenever no rounding repair fires. */
  lemma ComponentsMatchSwap(s: Pool, spendable: nat, buyback: nat, mode: Mode)
    requires !mode.Add? && ApplySwap(s, spendable, QuoteToBase).Some?
    ensures var c := BuyComponents(spendable, s.fees, buyback, mode);
            var increase := ApplySwap(s, spendable, QuoteToBase).value.quote - s.quote;
            && c.Some? && c.value.vault <= increase
            && (Trade(spendable, s.fees) == c.value.effective ==> c.value.vault == increase)
  {
    TradeCovered(spendable, s.fees);
    var e, e0 := Trade(spendable, s.fees), spendable * BPS_DEN / (BPS_DEN + s.fees.Total());
    FeeMonotone(e, e0, s.fees.protocol);
    FeeMonotone(e, e0, s.fees.creator);
  }
}
