/** The Pump swap, quote and fee components read in plain numbers: every fee is the least integer that
    covers its share, every output the largest that the pool's product allows. */
module PumpBooks {
  import opened Rounding
  import opened Basics
  import opened PumpKernel
  import opened PumpLaws

  /** Fees on an amount at the three rates, in parts of 10_000. */
  ghost predicate FeesOn(n: int, f: Fees, lp: int, protocol: int, creator: int) {
    Least(lp, 10_000, n * f.lp) && Least(protocol, 10_000, n * f.protocol) && Least(creator, 10_000, n * f.creator)
  }

  lemma FeesAre(n: int, f: Fees, lp: int, protocol: int, creator: int)
    ensures FeesOn(n, f, lp, protocol, creator)
            <==> lp == Fee(n, f.lp) && protocol == Fee(n, f.protocol) && creator == Fee(n, f.creator)
    ensures FeesOn(n, f, Fee(n, f.lp), Fee(n, f.protocol), Fee(n, f.creator))
  {
    LeastIsCeil(lp, 10_000, n * f.lp);
    LeastIsCeil(protocol, 10_000, n * f.protocol);
    LeastIsCeil(creator, 10_000, n * f.creator);
    LeastIsCeil(Fee(n, f.lp), 10_000, n * f.lp);
    LeastIsCeil(Fee(n, f.protocol), 10_000, n * f.protocol);
    LeastIsCeil(Fee(n, f.creator), 10_000, n * f.creator);
    hide Least, CeilDiv;
  }

  /** The pool is open, has reserves on both sides, virtual ones included, and takes less than all. */
  predicate Open(s: Pool) {
    && s.status == 0 && s.base > 0 && s.quote > 0 && s.quote + s.virt > 0
    && s.fees.lp + s.fees.protocol + s.fees.creator < 10_000
  }

  // ---- buys ----

  /** The net input e0 and its fees before any repair. */
  ghost predicate Split(amountIn: nat, f: Fees, e0: int, lp: int, protocol: int, creator: int) {
    Most(e0, 10_000 + f.lp + f.protocol + f.creator, amountIn * 10_000) && FeesOn(e0, f, lp, protocol, creator)
  }

  /** What trades is the net input, less what it and its fees are over the input. */
  ghost predicate TradeOf(amountIn: nat, f: Fees, e: int) {
    exists e0: int, lp: int, protocol: int, creator: int ::
      Split(amountIn, f, e0, lp, protocol, creator)
      && e == if e0 + lp + protocol + creator > amountIn then amountIn - lp - protocol - creator else e0
  }

  lemma SplitIs(amountIn: nat, f: Fees, e0: int, lp: int, protocol: int, creator: int)
    ensures Split(amountIn, f, e0, lp, protocol, creator) <==>
            e0 == Unrepaired(amountIn, f) && FeesOn(e0, f, lp, protocol, creator)
  {
    MostIsFloor(e0, 10_000 + f.lp + f.protocol + f.creator, amountIn * 10_000);
    hide Most, FeesOn;
  }

  lemma TradeIs(amountIn: nat, f: Fees, e: int)
    ensures TradeOf(amountIn, f, e) <==> e == Trade(amountIn, f)
  {
    hide FeesOn, Split, Unrepaired, Fee;
    var e0 := Unrepaired(amountIn, f);
    FeesAre(e0, f, Fee(e0, f.lp), Fee(e0, f.protocol), Fee(e0, f.creator));
    SplitIs(amountIn, f, e0, Fee(e0, f.lp), Fee(e0, f.protocol), Fee(e0, f.creator));
    forall a: int, lp: int, protocol: int, creator: int | Split(amountIn, f, a, lp, protocol, creator)
      ensures a == e0 && lp == Fee(e0, f.lp) && protocol == Fee(e0, f.protocol) && creator == Fee(e0, f.creator)
    {
      SplitIs(amountIn, f, a, lp, protocol, creator);
      FeesAre(a, f, lp, protocol, creator);
    }
  }

  /** The state a swap leaves: its vaults, the same virtual reserve, no fee rates and status zero. */
  ghost predicate Leaves(s: Pool, base: int, quote: int, t: Pool) {
    t.base == base && t.quote == quote && t.virt == s.virt && t.fees.Free() && t.status == 0
  }

  /** A buy trades e, pays protocol and creator their fees on e, and takes out the most base that keeps
      the product, one unit of e set aside. */
  ghost predicate BuyOf(s: Pool, amountIn: nat, t: Pool, e: int, out: int, lp: int, protocol: int, creator: int) {
    && Open(s) && amountIn > 0
    && TradeOf(amountIn, s.fees, e) && e >= 1 && FeesOn(e, s.fees, lp, protocol, creator)
    && Most(out, s.quote + s.virt + e - 1, s.base * (e - 1)) && out > 0
    && Leaves(s, s.base - out, s.quote + amountIn - protocol - creator, t)
  }

  ghost predicate Buy(s: Pool, amountIn: nat, t: Pool) {
    exists e: int, out: int, lp: int, protocol: int, creator: int ::
      BuyOf(s, amountIn, t, e, out, lp, protocol, creator)
  }

  lemma FreeIsNone(f: Fees)
    requires f.Free()
    ensures f == NO_FEES
  {
  }

  lemma OpenIs(s: Pool)
    ensures Open(s) <==> Tradable(s)
  {
  }

  lemma BuyOfIs(s: Pool, amountIn: nat, t: Pool, e: int, out: int, lp: int, protocol: int, creator: int)
    requires BuyOf(s, amountIn, t, e, out, lp, protocol, creator)
    ensures ApplySwap(s, amountIn, QuoteToBase) == Some(t)
    ensures e == Trade(amountIn, s.fees) && protocol == Fee(e, s.fees.protocol) && creator == Fee(e, s.fees.creator)
  {
    hide TradeOf, FeesOn, Most, Trade, Fee, Tradable, Open, ApplySell;
    OpenIs(s);
    TradeIs(amountIn, s.fees, e);
    FeesAre(e, s.fees, lp, protocol, creator);
    FreeIsNone(t.fees);
    OpenFields(s);
    MostIsFloor(out, s.quote + s.virt + e - 1, s.base * (e - 1));
    BuyBounds(s.base, s.Effective(), e - 1);
  }

  lemma OpenFields(s: Pool)
    requires Open(s)
    ensures s.base > 0 && s.Effective() == s.quote + s.virt > 0
  {
  }

  /** A buy applies, with the given result, exactly when it is the buy described. */
  lemma BuyIs(s: Pool, amountIn: nat, t: Pool)
    ensures ApplySwap(s, amountIn, QuoteToBase) == Some(t) <==> Buy(s, amountIn, t)
  {
    hide TradeOf, FeesOn, Most, Trade, Fee, Tradable, Open, ApplySell;
    if ApplySwap(s, amountIn, QuoteToBase) == Some(t) {
      OpenIs(s);
      OpenFields(s);
      var e := Trade(amountIn, s.fees);
      var out := BaseOut(s.base, s.Effective(), e - 1);
      TradeIs(amountIn, s.fees, e);
      FeesAre(e, s.fees, Fee(e, s.fees.lp), Fee(e, s.fees.protocol), Fee(e, s.fees.creator));
      MostIsFloor(out, s.quote + s.virt + e - 1, s.base * (e - 1));
      assert BuyOf(s, amountIn, t, e, out, Fee(e, s.fees.lp), Fee(e, s.fees.protocol), Fee(e, s.fees.creator));
    }
    if e: int, out: int, lp: int, protocol: int, creator: int :| BuyOf(s, amountIn, t, e, out, lp, protocol, creator) {
      BuyOfIs(s, amountIn, t, e, out, lp, protocol, creator);
    }
  }

  // ---- sells ----

  /** A sell takes out the most quote that keeps the product; the LP fee stays in the vault, protocol and
      creator fees leave it with the payment, which must be something. */
  ghost predicate SellOf(s: Pool, amountIn: nat, t: Pool, gross: int, lp: int, protocol: int, creator: int) {
    && Open(s) && amountIn > 0
    && Most(gross, s.base + amountIn, (s.quote + s.virt) * amountIn) && FeesOn(gross, s.fees, lp, protocol, creator)
    && gross > lp + protocol + creator && gross - lp <= s.quote
    && Leaves(s, s.base + amountIn, s.quote - (gross - lp), t)
  }

  ghost predicate Sell(s: Pool, amountIn: nat, t: Pool) {
    exists gross: int, lp: int, protocol: int, creator: int :: SellOf(s, amountIn, t, gross, lp, protocol, creator)
  }

  lemma SellOfIs(s: Pool, amountIn: nat, t: Pool, gross: int, lp: int, protocol: int, creator: int)
    requires SellOf(s, amountIn, t, gross, lp, protocol, creator)
    ensures ApplySwap(s, amountIn, BaseToQuote) == Some(t)
    ensures gross == GrossOut(s.base, s.Effective(), amountIn) && lp == Fee(gross, s.fees.lp)
  {
    hide FeesOn, Most, Fee, Tradable, Open, ApplyBuy;
    OpenIs(s);
    FeesAre(gross, s.fees, lp, protocol, creator);
    FreeIsNone(t.fees);
    OpenFields(s);
    MostIsFloor(gross, s.base + amountIn, (s.quote + s.virt) * amountIn);
  }

  /** A sell applies, with the given result, exactly when it is the sell described. */
  lemma SellIs(s: Pool, amountIn: nat, t: Pool)
    ensures ApplySwap(s, amountIn, BaseToQuote) == Some(t) <==> Sell(s, amountIn, t)
  {
    hide FeesOn, Most, Fee, Tradable, Open, ApplyBuy;
    if ApplySwap(s, amountIn, BaseToQuote) == Some(t) {
      OpenIs(s);
      OpenFields(s);
      var gross := GrossOut(s.base, s.Effective(), amountIn);
      FeesAre(gross, s.fees, Fee(gross, s.fees.lp), Fee(gross, s.fees.protocol), Fee(gross, s.fees.creator));
      MostIsFloor(gross, s.base + amountIn, (s.quote + s.virt) * amountIn);
      assert SellOf(s, amountIn, t, gross, Fee(gross, s.fees.lp), Fee(gross, s.fees.protocol),
                    Fee(gross, s.fees.creator));
    }
    if gross: int, lp: int, protocol: int, creator: int :| SellOf(s, amountIn, t, gross, lp, protocol, creator) {
      SellOfIs(s, amountIn, t, gross, lp, protocol, creator);
    }
  }

  // ---- where the input of a buy goes ----

  /** In every buy, repaired or not, the vault keeps the input less the protocol and creator fees on what
      traded. */
  lemma BuySplits(s: Pool, amountIn: nat)
    requires ApplySwap(s, amountIn, QuoteToBase).Some?
    ensures var increase := ApplySwap(s, amountIn, QuoteToBase).value.quote - s.quote;
            exists e: int, protocol: int, creator: int ::
              && TradeOf(amountIn, s.fees, e)
              && Least(protocol, 10_000, e * s.fees.protocol) && Least(creator, 10_000, e * s.fees.creator)
              && increase + protocol + creator == amountIn
  {
    hide TradeOf, Least, Most, Trade;
    var t := ApplySwap(s, amountIn, QuoteToBase).value;
    BuyIs(s, amountIn, t);
    var e: int, out: int, lp: int, protocol: int, creator: int :| BuyOf(s, amountIn, t, e, out, lp, protocol, creator);
  }

  /** When the repair fires, the vault keeps more than the components of the spend say: the fees that the
      repair saves, which are at most what it trims for each of the two. */
  lemma RepairSaves(s: Pool, amountIn: nat, buyback: nat, mode: Mode)
    requires !mode.Add? && ApplySwap(s, amountIn, QuoteToBase).Some?
    ensures var c := BuyComponents(amountIn, s.fees, buyback, mode);
            c.Some?
            && var e, trimmed := Trade(amountIn, s.fees), c.value.effective - Trade(amountIn, s.fees);
               var increase := ApplySwap(s, amountIn, QuoteToBase).value.quote - s.quote;
               && 0 <= trimmed <= 2
               && increase - c.value.vault
                  == (Fee(e + trimmed, s.fees.protocol) - Fee(e, s.fees.protocol))
                     + (Fee(e + trimmed, s.fees.creator) - Fee(e, s.fees.creator))
               && 0 <= increase - c.value.vault <= 2 * trimmed
  {
    TradeCovered(amountIn, s.fees);
    var e, e0 := Trade(amountIn, s.fees), Unrepaired(amountIn, s.fees);
    RatesSmall(s);
    FeeSlope(e, e0, s.fees.protocol);
    FeeSlope(e, e0, s.fees.creator);
    hide Fee, Trade;
  }

  lemma RatesSmall(s: Pool)
    requires Tradable(s)
    ensures s.fees.lp < 10_000 && s.fees.protocol < 10_000 && s.fees.creator < 10_000
  {
  }

  /** A fee rises by no more than its amount. */
  lemma FeeSlope(m: int, n: int, bps: nat)
    requires m <= n && bps <= 10_000
    ensures 0 <= Fee(n, bps) - Fee(m, bps) <= n - m
  {
    FeeMonotone(m, n, bps);
    FeeBounds(m, bps);
    CeilGalois(n * bps, 10_000, Fee(m, bps) + (n - m));
    MulLe(bps, 10_000, n - m);
    assert n * bps == m * bps + (n - m) * bps;
    hide CeilDiv;
  }


  // ---- the quote ----

  ghost predicate BuyQuote(s: Pool, amountIn: nat, q: int) {
    exists e: int :: TradeOf(amountIn, s.fees, e) && e >= 1 && Most(q, s.quote + s.virt + e - 1, s.base * (e - 1))
  }

  ghost predicate SellQuote(s: Pool, amountIn: nat, q: int) {
    exists gross: int, lp: int, protocol: int, creator: int ::
      && Most(gross, s.base + amountIn, (s.quote + s.virt) * amountIn) && FeesOn(gross, s.fees, lp, protocol, creator)
      && q == gross - lp - protocol - creator
  }

  /** The quote answers with the output described, when flag 8 for buys or 16 for sells is clear and
      neither the effective quote nor the output exceeds 64 bits. */
  lemma QuoteIs(s: Pool, flags: nat, amountIn: nat, d: Direction, q: nat)
    requires s.base <= 18_446_744_073_709_551_615
    ensures QuotePump(s, flags, amountIn, d) == Some(q) <==>
            && Open(s) && amountIn > 0 && s.quote + s.virt <= 18_446_744_073_709_551_615
            && 0 < q <= 18_446_744_073_709_551_615
            && match d
               case QuoteToBase => flags / 8 % 2 == 0 && BuyQuote(s, amountIn, q)
               case BaseToQuote => flags / 16 % 2 == 0 && SellQuote(s, amountIn, q)
  {
    if Open(s) && amountIn > 0 {
      OpenIs(s);
      OpenFields(s);
      match d {
        case QuoteToBase => BuyQuoteIs(s, amountIn, q);
        case BaseToQuote => SellQuoteIs(s, amountIn, q);
      }
    }
    hide BuyQuote, SellQuote, BaseOut, GrossOut, Trade, Fee;
  }

  lemma BuyQuoteIs(s: Pool, amountIn: nat, q: int)
    requires s.base > 0 && s.Effective() > 0
    ensures var e := Trade(amountIn, s.fees);
            && (BuyQuote(s, amountIn, q) <==> e >= 1 && q == BaseOut(s.base, s.Effective(), e - 1))
            && (e >= 1 ==> BaseOut(s.base, s.Effective(), e - 1) < s.base)
  {
    hide TradeOf, Most, Trade;
    var e := Trade(amountIn, s.fees);
    TradeIs(amountIn, s.fees, e);
    forall e': int ensures TradeOf(amountIn, s.fees, e') <==> e' == e {
      TradeIs(amountIn, s.fees, e');
    }
    if e >= 1 {
      MostIsFloor(q, s.quote + s.virt + e - 1, s.base * (e - 1));
      BuyBounds(s.base, s.Effective(), e - 1);
    }
  }

  lemma SellQuoteIs(s: Pool, amountIn: nat, q: int)
    requires s.base > 0 && amountIn > 0
    ensures var gross := GrossOut(s.base, s.Effective(), amountIn);
            SellQuote(s, amountIn, q) <==> q == gross - FeeSum(gross, s.fees)
  {
    hide FeesOn, Most, Fee;
    var g := GrossOut(s.base, s.Effective(), amountIn);
    MostIsFloor(g, s.base + amountIn, (s.quote + s.virt) * amountIn);
    FeesAre(g, s.fees, Fee(g, s.fees.lp), Fee(g, s.fees.protocol), Fee(g, s.fees.creator));
    if gross: int, lp: int, protocol: int, creator: int :|
      Most(gross, s.base + amountIn, (s.quote + s.virt) * amountIn) && FeesOn(gross, s.fees, lp, protocol, creator)
      && q == gross - lp - protocol - creator
    {
      MostIsFloor(gross, s.base + amountIn, (s.quote + s.virt) * amountIn);
      FeesAre(gross, s.fees, lp, protocol, creator);
    }
  }

  // ---- the components ----

  /** A spend split at the given total rate: the net amount, its fees, and the buyback as a fourth fee, as
      a share of the protocol fee, or not at all. */
  ghost predicate ComponentsOf(spendable: nat, f: Fees, buyback: nat, mode: Mode, c: Components) {
    var total := f.lp + f.protocol + f.creator + if mode.Add? then buyback else 0;
    var protocol := if mode.Carve? then c.protocol + c.buyback else c.protocol;
    && total < 10_000
    && Most(c.effective, 10_000 + total, spendable * 10_000)
    && FeesOn(c.effective, f, c.lp, protocol, c.creator)
    && (match mode
        case Add => Least(c.buyback, 10_000, c.effective * buyback)
        case Carve => Least(c.buyback, 10_000, protocol * buyback)
        case Ignore => c.buyback == 0)
    && c.vault == spendable - protocol - c.creator - if mode.Add? then c.buyback else 0
  }

  lemma ComponentsAre(spendable: nat, f: Fees, buyback: nat, mode: Mode, c: Components)
    ensures BuyComponents(spendable, f, buyback, mode) == Some(c) <==> ComponentsOf(spendable, f, buyback, mode, c)
  {
    var total := f.lp + f.protocol + f.creator + if mode.Add? then buyback else 0;
    var protocol := if mode.Carve? then c.protocol + c.buyback else c.protocol;
    MostIsFloor(c.effective, 10_000 + total, spendable * 10_000);
    FeesAre(c.effective, f, c.lp, protocol, c.creator);
    LeastIsCeil(c.buyback, 10_000, c.effective * buyback);
    LeastIsCeil(c.buyback, 10_000, protocol * buyback);
    ZeroFee(protocol);
    hide Most, Least, FeesOn, CeilDiv;
  }
}
