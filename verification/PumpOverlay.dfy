/** Transaction-local overlay: Pump instructions applied in execution order, and what no sequence
    of them can do. */
module PumpOverlay {
  import opened Rounding
  import opened PumpKernel
  import opened PumpLaws
  import opened Bisect
  import opened PumpBooks

  const MAX_AMOUNT: int := 1_000_000_000_000_000_000

  datatype Kind = Sell | BuyExactQuoteIn | BuyExactOut | Unknown

  datatype Cpi = Cpi(kind: Kind, amount: Option<int>, maxQuote: Option<int>)

  // ---- exact-out buys ----

  function JudgeQuoteIn(s: Pool, want: int): int -> Verdict {
    (m: int) =>
      match ApplySwap(s, m, QuoteToBase)
      case None => High
      case Some(t) => if t.base == want then Hit else if t.base > want then Low else High
  }

  function SearchTop(maxQuote: Option<int>): int {
    if maxQuote.None? || maxQuote.value == 0 then MAX_AMOUNT else maxQuote.value
  }

  /** Quote input whose swap takes exactly the wanted base out, as the search finds it. */
  function QuoteInFor(s: Pool, baseOut: int, maxQuote: Option<int>): Option<int> {
    if baseOut <= 0 || s.base - baseOut <= 0 then None
    else Search(JudgeQuoteIn(s, s.base - baseOut), 1, SearchTop(maxQuote))
  }

  function ApplyBuyExactOut(s: Pool, baseOut: int, maxQuote: Option<int>): Option<Pool> {
    match QuoteInFor(s, baseOut, maxQuote)
    case None => None
    case Some(amount) => ApplySwap(s, amount, QuoteToBase)
  }

  /** The binary search for the quote input. */
  method FindQuoteIn(s: Pool, want: int, top: int) returns (ans: Option<int>)
    ensures ans == Search(JudgeQuoteIn(s, want), 1, top)
  {
    hide ApplySwap;
    ghost var judge := JudgeQuoteIn(s, want);
    var lo, hi := 1, top;
    while lo <= hi
      invariant Search(judge, lo, hi) == Search(judge, 1, top)
      decreases hi - lo + 1
    {
      var mid := (lo + hi) / 2;
      var got := ApplySwap(s, mid, QuoteToBase);
      if got.None? {
        hi := mid - 1;
        continue;
      }
      if got.value.base == want {
        return Some(mid);
      }
      if got.value.base > want {
        lo := mid + 1;
      } else {
        hi := mid - 1;
      }
    }
    return None;
  }

  method ComputeBuyExactOut(s: Pool, baseOut: int, maxQuote: Option<int>) returns (r: Option<Pool>)
    ensures r == ApplyBuyExactOut(s, baseOut, maxQuote)
    ensures r.Some? ==> r.value.base == s.base - baseOut
  {
    hide ApplySwap;
    if baseOut <= 0 {
      return None;
    }
    var want := s.base - baseOut;
    if want <= 0 {
      return None;
    }
    var ans := FindQuoteIn(s, want, if maxQuote.None? || maxQuote.value == 0 then MAX_AMOUNT else maxQuote.value);
    if ans.None? {
      return None;
    }
    SearchSound(JudgeQuoteIn(s, want), 1, SearchTop(maxQuote));
    var out := ApplySwap(s, ans.value, QuoteToBase);
    if out.None? || out.value.base != want {
      return None;
    }
    return out;
  }

  /** An exact-out buy that succeeds is an ordinary buy, within the quote limit, that takes out
      exactly the requested base. */
  lemma ExactOutSound(s: Pool, baseOut: int, maxQuote: Option<int>)
    requires ApplyBuyExactOut(s, baseOut, maxQuote).Some?
    ensures var amount := QuoteInFor(s, baseOut, maxQuote).value;
            && 1 <= amount <= SearchTop(maxQuote)
            && ApplySwap(s, amount, QuoteToBase) == ApplyBuyExactOut(s, baseOut, maxQuote)
            && ApplyBuyExactOut(s, baseOut, maxQuote).value.base == s.base - baseOut
  {
    hide ApplySwap;
    SearchSound(JudgeQuoteIn(s, s.base - baseOut), 1, SearchTop(maxQuote));
  }

  /** Base a buy takes out of a fee-free pool. */
  function FeeFreeOut(s: Pool, a: nat): (out: int)
    requires Tradable(s) && a > 0
    ensures 0 <= out < s.base
  {
    BuyBounds(s.base, s.Effective(), a - 1);
    BaseOut(s.base, s.Effective(), a - 1)
  }

  lemma FeeFreeBuy(s: Pool, a: nat, out: int)
    requires s.fees.Free() && Tradable(s) && a > 0 && out == FeeFreeOut(s, a)
    ensures ApplySwap(s, a, QuoteToBase).Some? <==> out > 0
    ensures ApplySwap(s, a, QuoteToBase).Some? ==> ApplySwap(s, a, QuoteToBase).value.base == s.base - out
  {
    hide Trade, BaseOut, Fee, FeeSum, ApplySell, Fees.Total;
    FeeFreeTrade(a, s.fees);
  }

  lemma FeeFreeTrade(a: nat, f: Fees)
    requires f.Free()
    ensures Trade(a, f) == a
  {
    hide Fees.Total, FeeSum;
    FreeOfFees(a, f);
    DivUnique(a * BPS_DEN, BPS_DEN + f.Total(), a, 0);
  }

  /** The trade dips between m and a, and the larger of the two inputs takes out less base. */
  ghost predicate DipBetween(s: Pool, m: int, a: int)
    requires 0 < m && 0 < a
  {
    if m < a then Dips(m, a, s.fees) && BuysLess(s, m, a) else Dips(a, m, s.fees) && BuysLess(s, a, m)
  }

  /** The search turns away from an amount a that buys the wanted base at two kinds of probes only: a
      smaller one that is refused, and one across a dip that changes the base taken out. */
  lemma ProbeTurnsAwayIff(s: Pool, m: int, a: int)
    requires 0 < m && 0 < a && m != a && ApplySwap(s, a, QuoteToBase).Some?
    ensures var verdict := JudgeQuoteIn(s, ApplySwap(s, a, QuoteToBase).value.base)(m);
            (m < a && verdict == High) || (m > a && verdict == Low)
            <==> (m < a && ApplySwap(s, m, QuoteToBase).None?)
                 || (ApplySwap(s, m, QuoteToBase).Some? && DipBetween(s, m, a))
  {
    hide ApplySwap, Dips;
    if m < a && BuysLess(s, m, a) {
      BuysLessOnlyByDip(s, m, a);
    }
    if m > a && BuysLess(s, a, m) {
      BuysLessOnlyByDip(s, a, m);
    }
  }

  /** Spending a buys the wanted base, every smaller probe on the search's way to a is accepted, and no
      probe on the way lies across a dip that matters. */
  ghost predicate FoundByBuy(s: Pool, a: int, want: int, top: int) {
    && 1 <= a <= top
    && ApplySwap(s, a, QuoteToBase).Some? && ApplySwap(s, a, QuoteToBase).value.base == want
    && forall m :: m in Probes(1, top, a) && 0 < m ==>
         && (m < a ==> ApplySwap(s, m, QuoteToBase).Some?)
         && (ApplySwap(s, m, QuoteToBase).Some? ==> !DipBetween(s, m, a))
  }

  ghost predicate SomeFoundByBuy(s: Pool, want: int, top: int) { exists a :: FoundByBuy(s, a, want, top) }

  /** Exactly when an exact-out buy succeeds, under any fees. */
  lemma ExactOutIff(s: Pool, baseOut: int, maxQuote: Option<int>)
    ensures ApplyBuyExactOut(s, baseOut, maxQuote).Some? <==>
            0 < baseOut < s.base && SomeFoundByBuy(s, s.base - baseOut, SearchTop(maxQuote))
  {
    hide ApplySwap, Probes, DipBetween;
    var want, top := s.base - baseOut, SearchTop(maxQuote);
    var judge := JudgeQuoteIn(s, want);
    SearchSound(judge, 1, top);
    if ApplyBuyExactOut(s, baseOut, maxQuote).Some? {
      var a := QuoteInFor(s, baseOut, maxQuote).value;
      HitWasLedTo(judge, 1, top, a);
      LedIffFound(s, a, want, top);
    }
    if a :| 0 < baseOut < s.base && FoundByBuy(s, a, want, top) {
      LedIffFound(s, a, want, top);
      LeadsToHit(judge, 1, top, a);
    }
  }

  lemma LedIffFound(s: Pool, a: int, want: int, top: int)
    requires 1 <= a <= top && ApplySwap(s, a, QuoteToBase).Some? && ApplySwap(s, a, QuoteToBase).value.base == want
    ensures Leads(JudgeQuoteIn(s, want), 1, top, a) <==> FoundByBuy(s, a, want, top)
  {
    hide ApplySwap, Probes, JudgeQuoteIn;
    var judge := JudgeQuoteIn(s, want);
    NoDipHere(s, a);
    assert judge(a) == Hit by { JudgesItself(s, a); }
    forall m | m in Probes(1, top, a)
      ensures 0 < m
      ensures m != a ==>
                ((m < a ==> judge(m) != High) && (m > a ==> judge(m) != Low)
                 <==> (m < a ==> ApplySwap(s, m, QuoteToBase).Some?)
                      && (ApplySwap(s, m, QuoteToBase).Some? ==> !DipBetween(s, m, a)))
    {
      ProbesInside(1, top, a, m);
      if m != a {
        ProbeTurnsAwayIff(s, m, a);
      }
    }
    hide DipBetween;
  }

  lemma NoDipHere(s: Pool, a: int)
    requires 0 < a
    ensures !DipBetween(s, a, a)
  {
    hide BuysLess, Unrepaired, Excess;
  }

  lemma JudgesItself(s: Pool, a: int)
    requires ApplySwap(s, a, QuoteToBase).Some?
    ensures JudgeQuoteIn(s, ApplySwap(s, a, QuoteToBase).value.base)(a) == Hit
  {
    hide ApplySwap;
  }

  // ---- one rate at zero ----

  /** With one rate at zero, more input is never refused after less was accepted, and never takes out
      less base. */
  lemma OneFreeMonotone(s: Pool, a: nat, b: nat)
    requires s.fees.SomeFree() && 0 < a <= b && ApplySwap(s, a, QuoteToBase).Some?
    ensures ApplySwap(s, b, QuoteToBase).Some?
    ensures ApplySwap(s, b, QuoteToBase).value.base <= ApplySwap(s, a, QuoteToBase).value.base
  {
    hide ApplySwap;
    if BuysLess(s, a, b) {
      BuysLessOnlyByDip(s, a, b);
    }
  }

  /** Spending a buys the wanted base and no smaller probe on the search's way to a is refused. */
  ghost predicate ReachedByBuy(s: Pool, a: int, want: int, top: int) {
    && 1 <= a <= top
    && ApplySwap(s, a, QuoteToBase).Some? && ApplySwap(s, a, QuoteToBase).value.base == want
    && forall m :: m in Probes(1, top, a) && m < a ==> ApplySwap(s, m, QuoteToBase).Some?
  }

  ghost predicate SomeReachedByBuy(s: Pool, want: int, top: int) { exists a :: ReachedByBuy(s, a, want, top) }

  lemma FoundIffReached(s: Pool, a: int, want: int, top: int)
    requires s.fees.SomeFree()
    ensures FoundByBuy(s, a, want, top) <==> ReachedByBuy(s, a, want, top)
  {
    hide ApplySwap, Probes, Dips;
    if 1 <= a <= top {
      forall m | m in Probes(1, top, a) ensures 0 < m && !DipBetween(s, m, a) {
        ProbesInside(1, top, a, m);
        if m < a {
          TradeFallsIffDips(m, a, s.fees);
        } else {
          TradeFallsIffDips(a, m, s.fees);
        }
      }
    }
  }

  /** With one rate at zero an exact-out buy succeeds exactly when some amount in range buys the wanted
      base and every smaller probe on the way to it is accepted. */
  lemma OneFreeExactOutIff(s: Pool, baseOut: int, maxQuote: Option<int>)
    requires s.fees.SomeFree()
    ensures ApplyBuyExactOut(s, baseOut, maxQuote).Some? <==>
            0 < baseOut < s.base && SomeReachedByBuy(s, s.base - baseOut, SearchTop(maxQuote))
  {
    hide ApplyBuyExactOut, FoundByBuy, ReachedByBuy;
    ExactOutIff(s, baseOut, maxQuote);
    var want, top := s.base - baseOut, SearchTop(maxQuote);
    forall a: int ensures FoundByBuy(s, a, want, top) <==> ReachedByBuy(s, a, want, top) {
      FoundIffReached(s, a, want, top);
    }
  }

  /** One test in place of the path: half of an exact amount is accepted. */
  lemma OneFreeSearchComplete(s: Pool, baseOut: int, maxQuote: Option<int>, a: nat)
    requires s.fees.SomeFree() && 0 < baseOut && 1 <= a <= SearchTop(maxQuote)
    requires ApplySwap(s, a, QuoteToBase).Some? && ApplySwap(s, a, QuoteToBase).value.base == s.base - baseOut
    requires ApplySwap(s, (1 + a) / 2, QuoteToBase).Some?
    ensures ApplyBuyExactOut(s, baseOut, maxQuote).Some?
  {
    hide ApplySwap;
    var want, top := s.base - baseOut, SearchTop(maxQuote);
    var judge := JudgeQuoteIn(s, want);
    SwapKeeps(s, a, QuoteToBase);
    forall m: int | (1 + a) / 2 <= m < a ensures judge(m) != High {
      OneFreeMonotone(s, (1 + a) / 2, m);
      OneFreeMonotone(s, m, a);
    }
    forall m: int | a < m <= top ensures judge(m) != Low {
      OneFreeMonotone(s, a, m);
    }
    SearchComplete(judge, 1, top, a);
    SearchSound(judge, 1, top);
  }

  lemma FeeFreeOutIs(s: Pool, a: nat, out: int)
    requires Tradable(s) && a > 0
    requires out * (s.Effective() + (a - 1)) <= s.base * (a - 1) < (out + 1) * (s.Effective() + (a - 1))
    ensures FeeFreeOut(s, a) == out
  {
    FloorGalois(s.base * (a - 1), s.Effective() + (a - 1), out);
    FloorGalois(s.base * (a - 1), s.Effective() + (a - 1), out + 1);
  }

  lemma ThreeHighs(judge: int -> Verdict)
    requires judge(4) == High && judge(2) == High && judge(1) == High
    ensures Search(judge, 1, 7).None?
  {
    assert Search(judge, 1, 1).None?;
    assert Search(judge, 1, 3).None?;
  }

  /** Two base against six quote, no fees: nothing below seven buys anything. */
  predicate Tiny(s: Pool) {
    s.base == 2 && s.quote == 6 && s.virt == 0 && s.status == 0 && s.fees.Free()
  }

  lemma TinyBuys(s: Pool, a: nat)
    requires Tiny(s) && 1 <= a <= 7
    ensures ApplySwap(s, a, QuoteToBase).Some? <==> a == 7
    ensures a == 7 ==> ApplySwap(s, a, QuoteToBase).value.base == s.base - 1
  {
    assert Tradable(s) && s.Effective() == 6;
    hide ApplyBuy, ApplySell, FeeFreeOut, BaseOut, Fees.Total, Tradable;
    var out := if a == 7 then 1 else 0;
    FeeFreeOutIs(s, a, out);
    FeeFreeBuy(s, a, out);
  }

  /** The condition on smaller probes matters: here 7 buys exactly one base, but the search gives up at smaller
      amounts that buy nothing. */
  lemma ExactOutCanMiss(s: Pool)
    requires Tiny(s)
    ensures ApplySwap(s, 7, QuoteToBase).Some? && ApplySwap(s, 7, QuoteToBase).value.base == s.base - 1
    ensures ApplyBuyExactOut(s, 1, Some(7)).None?
  {
    hide ApplySwap, Search;
    TinyBuys(s, 7);
    TinyBuys(s, 4);
    TinyBuys(s, 2);
    TinyBuys(s, 1);
    ThreeHighs(JudgeQuoteIn(s, 1));
  }

  // ---- sequences ----

  function ApplyCpi(s: Pool, c: Cpi): Option<Pool> {
    if c.amount.None? then None
    else
      match c.kind
      case Sell => ApplySwap(s, c.amount.value, BaseToQuote)
      case BuyExactQuoteIn => ApplySwap(s, c.amount.value, QuoteToBase)
      case BuyExactOut => ApplyBuyExactOut(s, c.amount.value, c.maxQuote)
      case Unknown => None
  }

  datatype Outcome = Terminal(state: Pool) | AssociationAmbiguity | UnsupportedCpi

  /** The state after a list of instructions, each applied to its predecessor's result. */
  function Run(s: Pool, cpis: seq<Cpi>): Option<Pool>
    decreases |cpis|
  {
    hide ApplyCpi;
    if cpis == [] then Some(s)
    else match ApplyCpi(s, cpis[0]) case None => None case Some(t) => Run(t, cpis[1..])
  }

  /** An empty list is ambiguous, an unknown instruction anywhere rejects the whole list. */
  method ApplySequence(s0: Pool, cpis: seq<Cpi>) returns (r: Outcome)
    ensures r.Terminal? <==> cpis != [] && (forall c :: c in cpis ==> !c.kind.Unknown?) && Run(s0, cpis).Some?
    ensures r.Terminal? ==> Some(r.state) == Run(s0, cpis)
    ensures r.AssociationAmbiguity? <==> cpis == []
  {
    var s := s0;
    if cpis == [] {
      return AssociationAmbiguity;
    }
    if exists i :: 0 <= i < |cpis| && cpis[i].kind.Unknown? {
      return UnsupportedCpi;
    }
    hide ApplyCpi;
    var i := 0;
    while i < |cpis|
      invariant 0 <= i <= |cpis|
      invariant Run(s, cpis[i..]) == Run(s0, cpis)
    {
      assert cpis[i..][1..] == cpis[i + 1..];
      if cpis[i].kind.Unknown? {
        return UnsupportedCpi;
      }
      var next := ComputeCpi(s, cpis[i]);
      if next.None? {
        return UnsupportedCpi;
      }
      s := next.value;
      i := i + 1;
    }
    return Terminal(s);
  }

  method ComputeCpi(s: Pool, c: Cpi) returns (r: Option<Pool>)
    ensures r == ApplyCpi(s, c)
  {
    if c.amount.None? {
      return None;
    }
    match c.kind {
      case Sell => return ApplySwap(s, c.amount.value, BaseToQuote);
      case BuyExactQuoteIn => return ApplySwap(s, c.amount.value, QuoteToBase);
      case BuyExactOut => r := ComputeBuyExactOut(s, c.amount.value, c.maxQuote);
      case Unknown => return None;
    }
  }

  /** The swap an instruction amounts to. */
  function SwapOf(s: Pool, c: Cpi): (int, Direction)
    requires ApplyCpi(s, c).Some?
  {
    match c.kind
    case Sell => (c.amount.value, BaseToQuote)
    case BuyExactQuoteIn => (c.amount.value, QuoteToBase)
    case BuyExactOut => (QuoteInFor(s, c.amount.value, c.maxQuote).value, QuoteToBase)
  }

  lemma CpiKeeps(s: Pool, c: Cpi)
    requires ApplyCpi(s, c).Some?
    ensures var t, (amount, d) := ApplyCpi(s, c).value, SwapOf(s, c);
            && ApplySwap(s, amount, d) == Some(t) && amount > 0
            && t.base > 0 && t.Effective() > 0 && t.virt == s.virt
            && Invariant(t) >= Invariant(s)
            && TraderQuote(s, amount, d) <= s.quote - t.quote
  {
    hide ApplySwap, TraderQuote;
    var (amount, d) := SwapOf(s, c);
    if c.kind.BuyExactOut? {
      ExactOutSound(s, c.amount.value, c.maxQuote);
    }
    SwapKeeps(s, amount, d);
  }

  /** Net quote the trader has received over a run. */
  function TraderNet(s: Pool, cpis: seq<Cpi>): int
    requires Run(s, cpis).Some?
    decreases |cpis|
  {
    hide ApplyCpi, SwapOf, TraderQuote;
    if cpis == [] then 0
    else
      CpiKeeps(s, cpis[0]);
      var (amount, d) := SwapOf(s, cpis[0]);
      TraderQuote(s, amount, d) + TraderNet(ApplyCpi(s, cpis[0]).value, cpis[1..])
  }

  /** Over every successful run: base and effective quote stay positive, the virtual reserve is
      unchanged, base * (quote + virtual) never decreases, and whatever quote the trader nets is
      quote the vault has lost. */
  lemma {:induction false} RunKeeps(s: Pool, cpis: seq<Cpi>)
    requires Run(s, cpis).Some? && cpis != []
    ensures var t := Run(s, cpis).value;
            && t.base > 0 && t.Effective() > 0 && t.virt == s.virt
            && Invariant(t) >= Invariant(s)
            && TraderNet(s, cpis) <= s.quote - t.quote
    decreases |cpis|
  {
    hide ApplyCpi, SwapOf, Invariant, TraderQuote;
    CpiKeeps(s, cpis[0]);
    if |cpis| == 1 {
    } else {
      RunKeeps(ApplyCpi(s, cpis[0]).value, cpis[1..]);
    }
  }

  /** No free lunch: a run that does not leave more base in the pool leaves at least as much
      effective quote, so the trader has netted no quote; and a run that does not leave more effective
      quote leaves at least as much base. Selling and buying back, in either order, are instances. */
  lemma NoFreeLunch(s: Pool, cpis: seq<Cpi>)
    requires Run(s, cpis).Some? && s.base > 0 && s.Effective() > 0
    ensures var t := Run(s, cpis).value;
            && (t.base <= s.base ==> t.Effective() >= s.Effective() && TraderNet(s, cpis) <= 0)
            && (t.Effective() <= s.Effective() ==> t.base >= s.base)
  {
    if cpis != [] {
      RunKeeps(s, cpis);
      var t := Run(s, cpis).value;
      if t.base <= s.base && t.Effective() < s.Effective() {
        MulLe(t.base, s.base, t.Effective());
        MulLt(t.Effective(), s.Effective(), s.base);
        assert false;
      }
      if t.Effective() <= s.Effective() && t.base < s.base {
        MulLe(t.Effective(), s.Effective(), t.base);
        MulLt(t.base, s.base, s.Effective());
        assert false;
      }
    }
  }

  /** A run with an unknown instruction in it yields no state, wherever it stands. */
  lemma {:induction false} UnknownYieldsNothing(s: Pool, cpis: seq<Cpi>, i: nat)
    requires i < |cpis| && cpis[i].kind.Unknown?
    ensures Run(s, cpis).None?
    decreases i
  {
    if i == 0 {
    } else if ApplyCpi(s, cpis[0]).Some? {
      UnknownYieldsNothing(ApplyCpi(s, cpis[0]).value, cpis[1..], i - 1);
    }
  }

  /** Fees are dropped by the first instruction: every later one runs at zero rates. */
  lemma FeesLastOneStep(s: Pool, c: Cpi)
    requires ApplyCpi(s, c).Some?
    ensures ApplyCpi(s, c).value.fees == NO_FEES && ApplyCpi(s, c).value.status == 0
  {
    CpiKeeps(s, c);
  }


  // ---- instructions in plain numbers ----

  /** The quote limit of an exact-out buy; none, or zero, stands for 10^18. */
  lemma SearchTopIs(maxQuote: Option<int>)
    ensures SearchTop(None) == 1_000_000_000_000_000_000 && SearchTop(Some(0)) == 1_000_000_000_000_000_000
    ensures maxQuote.Some? && maxQuote.value != 0 ==> SearchTop(maxQuote) == maxQuote.value
  {
  }

  /** Which swap each instruction is: a sell and an exact-quote buy of their amounts, and for an exact-out
      buy some buy within the limit that takes its amount of base out. */
  lemma CpiIs(s: Pool, c: Cpi, t: Pool)
    ensures c.amount.None? || c.kind.Unknown? ==> ApplyCpi(s, c).None?
    ensures c.kind.Sell? && c.amount.Some? ==>
              (ApplyCpi(s, c) == Some(t) <==> c.amount.value > 0 && PumpBooks.Sell(s, c.amount.value, t))
    ensures c.kind.BuyExactQuoteIn? && c.amount.Some? ==>
              (ApplyCpi(s, c) == Some(t) <==> c.amount.value > 0 && Buy(s, c.amount.value, t))
    ensures c.kind.BuyExactOut? && c.amount.Some? && ApplyCpi(s, c) == Some(t) ==>
              && t.base == s.base - c.amount.value
              && exists a :: 1 <= a <= SearchTop(c.maxQuote) && Buy(s, a, t)
  {
    hide ApplySwap, PumpBooks.Sell, Buy, SearchTop, QuoteInFor;
    if c.amount.Some? && c.amount.value <= 0 {
      NothingSwaps(s, c.amount);
    }
    if c.amount.Some? && c.amount.value > 0 {
      SellIs(s, c.amount.value, t);
      BuyIs(s, c.amount.value, t);
    }
    if c.kind.BuyExactOut? && ApplyCpi(s, c) == Some(t) {
      ExactOutSound(s, c.amount.value, c.maxQuote);
      BuyIs(s, QuoteInFor(s, c.amount.value, c.maxQuote).value, t);
    }
  }

  lemma NothingSwaps(s: Pool, amount: Option<int>)
    requires amount.Some? ==> amount.value <= 0
    ensures amount.Some? ==> forall d :: ApplySwap(s, amount.value, d).None?
  {
  }

  /** Instructions apply in order, each to what the ones before it left. */
  lemma {:induction false} RunConcat(s: Pool, before: seq<Cpi>, after: seq<Cpi>)
    ensures Run(s, before + after) == match Run(s, before) case None => None case Some(t) => Run(t, after)
    decreases |before|
  {
    hide ApplyCpi;
    if before == [] {
      assert before + after == after;
    } else {
      assert (before + after)[1..] == before[1..] + after;
      if ApplyCpi(s, before[0]).Some? {
        RunConcat(ApplyCpi(s, before[0]).value, before[1..], after);
      }
    }
  }

  lemma RunOne(s: Pool, c: Cpi)
    ensures Run(s, []) == Some(s) && Run(s, [c]) == ApplyCpi(s, c)
  {
    hide ApplyCpi;
    assert [c][1..] == [];
  }
}
