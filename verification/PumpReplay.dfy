/** Explaining a published pair of vaults by a virtual quote reserve, and the classification of
    mismatches built on it. */
module PumpReplay {
  import opened Rounding
  import opened PumpKernel
  import opened PumpLaws
  import opened Bisect

  const MAX_VIRTUAL: int := 1_000_000_000_000_000_000

  datatype Vaults = Vaults(base: int, quote: int)

  function VaultsAfter(s: Pool, v: int, amountIn: int, d: Direction): Option<Vaults> {
    match ApplySwap(s.(virt := v), amountIn, d)
    case None => None
    case Some(t) => Some(Vaults(t.base, t.quote))
  }

  /** The virtual reserve v reproduces both published vaults. */
  predicate Explains(s: Pool, v: int, amountIn: int, d: Direction, published: Vaults) {
    VaultsAfter(s, v, amountIn, d) == Some(published)
  }

  function JudgeVirtual(s: Pool, amountIn: int, d: Direction, published: Vaults): int -> Verdict {
    (v: int) =>
      match VaultsAfter(s, v, amountIn, d)
      case None => High
      case Some(got) =>
        if got == published then Hit
        else if (if d.BaseToQuote? then got.quote > published.quote else got.base < published.base) then Low
        else High
  }

  function InvertVirtual(s: Pool, amountIn: int, d: Direction, published: Vaults): Option<int> {
    Search(JudgeVirtual(s, amountIn, d, published), 0, MAX_VIRTUAL)
  }

  method ComputeInvertVirtual(s: Pool, amountIn: int, d: Direction, published: Vaults) returns (ans: Option<int>)
    ensures ans == InvertVirtual(s, amountIn, d, published)
    ensures ans.Some? ==> Explains(s, ans.value, amountIn, d, published)
  {
    hide VaultsAfter;
    ghost var judge := JudgeVirtual(s, amountIn, d, published);
    SearchSound(judge, 0, MAX_VIRTUAL);
    var lo, hi := 0, MAX_VIRTUAL;
    while lo <= hi
      invariant Search(judge, lo, hi) == Search(judge, 0, MAX_VIRTUAL)
      decreases hi - lo + 1
    {
      var mid := (lo + hi) / 2;
      var got := VaultsAfter(s, mid, amountIn, d);
      if got.None? {
        hi := mid - 1;
        continue;
      }
      if got.value == published {
        return Some(mid);
      }
      if d.BaseToQuote? {
        if got.value.quote > published.quote {
          lo := mid + 1;
        } else {
          hi := mid - 1;
        }
      } else {
        if got.value.base < published.base {
          lo := mid + 1;
        } else {
          hi := mid - 1;
        }
      }
    }
    return None;
  }

  function JudgeBase(s: Pool, amountIn: int, wantBase: int): int -> Verdict {
    (v: int) =>
      match VaultsAfter(s, v, amountIn, QuoteToBase)
      case None => High
      case Some(got) => if got.base == wantBase then Hit else if got.base < wantBase then Low else High
  }

  function InvertBase(s: Pool, amountIn: int, wantBase: int): Option<int> {
    Search(JudgeBase(s, amountIn, wantBase), 0, MAX_VIRTUAL)
  }

  method ComputeInvertBase(s: Pool, amountIn: int, wantBase: int) returns (ans: Option<int>)
    ensures ans == InvertBase(s, amountIn, wantBase)
  {
    hide VaultsAfter;
    ghost var judge := JudgeBase(s, amountIn, wantBase);
    var lo, hi := 0, MAX_VIRTUAL;
    while lo <= hi
      invariant Search(judge, lo, hi) == Search(judge, 0, MAX_VIRTUAL)
      decreases hi - lo + 1
    {
      var mid := (lo + hi) / 2;
      var got := VaultsAfter(s, mid, amountIn, QuoteToBase);
      if got.None? {
        hi := mid - 1;
        continue;
      }
      if got.value.base == wantBase {
        return Some(mid);
      }
      if got.value.base < wantBase {
        lo := mid + 1;
      } else {
        hi := mid - 1;
      }
    }
    return None;
  }

  lemma InversionSound(s: Pool, amountIn: int, d: Direction, published: Vaults)
    ensures var v := InvertVirtual(s, amountIn, d, published);
            v.Some? ==> 0 <= v.value <= 1_000_000_000_000_000_000 && Explains(s, v.value, amountIn, d, published)
  {
    hide VaultsAfter;
    SearchSound(JudgeVirtual(s, amountIn, d, published), 0, MAX_VIRTUAL);
  }

  // ---- completeness for buys ----

  /** A larger virtual reserve makes a buy take out less base, until it takes out nothing; the quote
      vault does not depend on it. */
  lemma BuyMonotoneInVirtual(s: Pool, v: nat, u: nat, amountIn: int)
    requires v <= u && VaultsAfter(s, u, amountIn, QuoteToBase).Some?
    ensures VaultsAfter(s, v, amountIn, QuoteToBase).Some?
    ensures var a, b := VaultsAfter(s, v, amountIn, QuoteToBase).value, VaultsAfter(s, u, amountIn, QuoteToBase).value;
            a.base <= b.base && a.quote == b.quote
  {
    hide BaseOut, Trade, Fee;
    var e, y, z := Trade(amountIn, s.fees), s.quote + v, s.quote + u;
    assert 0 <= BaseOut(s.base, z, e - 1) <= BaseOut(s.base, y, e - 1) < s.base by {
      BaseOutAntitone(s.base, y, z, e - 1);
    }
  }

  lemma BaseOutAntitone(base: nat, y: int, z: int, net: nat)
    requires base > 0 && 0 < y <= z
    ensures 0 <= BaseOut(base, z, net) <= BaseOut(base, y, net) < base
  {
    BuyBounds(base, y, net);
    BuyBounds(base, z, net);
    var out := BaseOut(base, z, net);
    FloorGalois(base * net, z + net, out);
    FloorGalois(base * net, y + net, out);
    MulLe(0, out, z - y);
    assert out * (z + net) == out * (y + net) + out * (z - y);
  }

  /** The inversion of a buy is complete: it finds a virtual reserve exactly when some value in the
      searched range reproduces both vaults. */
  lemma BuyInversionComplete(s: Pool, amountIn: int, published: Vaults)
    ensures InvertVirtual(s, amountIn, QuoteToBase, published).Some? <==>
            exists v :: 0 <= v <= 1_000_000_000_000_000_000 && Explains(s, v, amountIn, QuoteToBase, published)
  {
    hide VaultsAfter;
    var judge := JudgeVirtual(s, amountIn, QuoteToBase, published);
    InversionSound(s, amountIn, QuoteToBase, published);
    if v :| 0 <= v <= 1_000_000_000_000_000_000 && Explains(s, v, amountIn, QuoteToBase, published) {
      forall m: int | v / 2 <= m < v ensures judge(m) != High {
        BuyMonotoneInVirtual(s, m, v, amountIn);
      }
      forall m: int | v < m <= MAX_VIRTUAL ensures judge(m) != Low {
        if VaultsAfter(s, m, amountIn, QuoteToBase).Some? {
          BuyMonotoneInVirtual(s, v, m, amountIn);
        }
      }
      SearchComplete(judge, 0, MAX_VIRTUAL, v);
    }
  }

  /** So is the search for the base vault alone. */
  lemma BaseInversionComplete(s: Pool, amountIn: int, wantBase: int)
    ensures InvertBase(s, amountIn, wantBase).Some? <==>
            exists v :: 0 <= v <= 1_000_000_000_000_000_000 && HitsBase(s, v, amountIn, wantBase)
  {
    hide VaultsAfter;
    var judge := JudgeBase(s, amountIn, wantBase);
    SearchSound(judge, 0, MAX_VIRTUAL);
    var found := InvertBase(s, amountIn, wantBase);
    assert found.Some? ==> HitsBase(s, found.value, amountIn, wantBase);
    if v :| 0 <= v <= 1_000_000_000_000_000_000 && HitsBase(s, v, amountIn, wantBase) {
      forall m: int | v / 2 <= m < v ensures judge(m) != High {
        BuyMonotoneInVirtual(s, m, v, amountIn);
      }
      forall m: int | v < m <= MAX_VIRTUAL ensures judge(m) != Low {
        if VaultsAfter(s, m, amountIn, QuoteToBase).Some? {
          BuyMonotoneInVirtual(s, v, m, amountIn);
        }
      }
      SearchComplete(judge, 0, MAX_VIRTUAL, v);
    }
  }

  predicate HitsBase(s: Pool, v: int, amountIn: int, wantBase: int) {
    VaultsAfter(s, v, amountIn, QuoteToBase).Some? && VaultsAfter(s, v, amountIn, QuoteToBase).value.base == wantBase
  }

  // ---- completeness for sells ----

  /** The sell at virtual reserve v pays the trader nothing after fees. */
  predicate Dust(s: Pool, v: int, amountIn: int)
    requires amountIn > 0
  {
    var gross := GrossOut(s.base, s.quote + v, amountIn);
    gross <= FeeSum(gross, s.fees)
  }

  lemma GrossMonotone(base: nat, y: int, z: int, amountIn: nat)
    requires amountIn > 0 && y <= z
    ensures GrossOut(base, y, amountIn) <= GrossOut(base, z, amountIn)
  {
    MulLe(y, z, amountIn);
    FloorMono(y * amountIn, z * amountIn, base + amountIn);
  }

  /** What leaves the vault grows with the gross. */
  lemma LeaveMonotone(g: int, h: int, bps: nat)
    requires g <= h && bps <= BPS_DEN
    ensures g - Fee(g, bps) <= h - Fee(h, bps)
  {
    var k := Fee(g, bps) + (h - g);
    CeilGalois(g * bps, BPS_DEN, Fee(g, bps));
    CeilGalois(h * bps, BPS_DEN, k);
    MulLe(bps, BPS_DEN, h - g);
    assert h * bps == g * bps + (h - g) * bps;
    assert k * BPS_DEN == Fee(g, bps) * BPS_DEN + (h - g) * BPS_DEN;
  }

  /** A larger virtual reserve makes a sell leave no more quote, whenever both apply; and a sell that
      is not dust applies below every reserve at which one applies. */
  lemma SellMonotoneInVirtual(s: Pool, v: nat, u: nat, amountIn: int)
    requires v <= u && VaultsAfter(s, u, amountIn, BaseToQuote).Some?
    ensures amountIn > 0
    ensures VaultsAfter(s, v, amountIn, BaseToQuote).Some? <==> !Dust(s, v, amountIn)
    ensures VaultsAfter(s, v, amountIn, BaseToQuote).Some? ==>
              VaultsAfter(s, v, amountIn, BaseToQuote).value.quote
              >= VaultsAfter(s, u, amountIn, BaseToQuote).value.quote
    ensures VaultsAfter(s, u, amountIn, BaseToQuote).value.base == s.base + amountIn
  {
    hide GrossOut, Fee;
    var g, h := GrossOut(s.base, s.quote + v, amountIn), GrossOut(s.base, s.quote + u, amountIn);
    assert s.(virt := v).Effective() == s.quote + v;
    assert s.(virt := u).Effective() == s.quote + u;
    GrossMonotone(s.base, s.quote + v, s.quote + u, amountIn);
    LeaveMonotone(g, h, s.fees.lp);
  }

  /** The inversion of a sell finds a virtual reserve whenever some value v in the searched range
      reproduces both vaults and no reserve between v/2 and v makes the sell dust. */
  lemma SellInversionComplete(s: Pool, amountIn: int, published: Vaults, v: int)
    requires 0 <= v <= 1_000_000_000_000_000_000 && Explains(s, v, amountIn, BaseToQuote, published)
    requires amountIn > 0 && forall m :: v / 2 <= m < v ==> !Dust(s, m, amountIn)
    ensures InvertVirtual(s, amountIn, BaseToQuote, published).Some?
  {
    hide VaultsAfter, Dust;
    var judge := JudgeVirtual(s, amountIn, BaseToQuote, published);
    forall m: int | v / 2 <= m < v ensures judge(m) != High {
      SellProbe(s, v, m, amountIn, published);
    }
    forall m: int | v < m <= MAX_VIRTUAL ensures judge(m) != Low {
      SellProbe(s, v, m, amountIn, published);
    }
    SearchComplete(judge, 0, MAX_VIRTUAL, v);
  }

  /** No probe below v on the search's way to v makes the sell dust. */
  ghost predicate NoDustOnTheWay(s: Pool, v: int, amountIn: int)
    requires amountIn > 0 && 0 <= v <= 1_000_000_000_000_000_000
  {
    forall m :: m in Probes(0, 1_000_000_000_000_000_000, v) && m < v ==> !Dust(s, m, amountIn)
  }

  ghost predicate FoundBySell(s: Pool, v: int, amountIn: int, published: Vaults) {
    0 <= v <= 1_000_000_000_000_000_000 && amountIn > 0
    && Explains(s, v, amountIn, BaseToQuote, published) && NoDustOnTheWay(s, v, amountIn)
  }

  /** Some virtual reserve explains a sell and the search is not stopped by dust before it. */
  ghost predicate SellFindable(s: Pool, amountIn: int, published: Vaults) {
    exists v :: FoundBySell(s, v, amountIn, published)
  }

  /** Exactly when the inversion of a sell finds a virtual reserve: some value in range reproduces both
      vaults and no probe below it on the way there is refused as dust. */
  lemma SellInversionIff(s: Pool, amountIn: int, published: Vaults)
    ensures InvertVirtual(s, amountIn, BaseToQuote, published).Some? <==> SellFindable(s, amountIn, published)
  {
    hide VaultsAfter, Dust, Probes;
    var judge := JudgeVirtual(s, amountIn, BaseToQuote, published);
    if InvertVirtual(s, amountIn, BaseToQuote, published).Some? {
      var v := InvertVirtual(s, amountIn, BaseToQuote, published).value;
      InversionSound(s, amountIn, BaseToQuote, published);
      SellMonotoneInVirtual(s, v, v, amountIn);
      HitWasLedTo(judge, 0, MAX_VIRTUAL, v);
      forall m | m in Probes(0, MAX_VIRTUAL, v) && m < v ensures !Dust(s, m, amountIn) {
        ProbesInside(0, MAX_VIRTUAL, v, m);
        SellMonotoneInVirtual(s, m, v, amountIn);
      }
      assert FoundBySell(s, v, amountIn, published);
    }
    if v :| FoundBySell(s, v, amountIn, published) {
      forall m | m in Probes(0, MAX_VIRTUAL, v)
        ensures (m < v ==> judge(m) != High) && (m > v ==> judge(m) != Low)
      {
        ProbesInside(0, MAX_VIRTUAL, v, m);
        SellProbe(s, v, m, amountIn, published);
      }
      LeadsToHit(judge, 0, MAX_VIRTUAL, v);
    }
  }

  /** How the search judges a probe beside an explaining reserve. */
  lemma SellProbe(s: Pool, v: nat, m: nat, amountIn: int, published: Vaults)
    requires amountIn > 0 && Explains(s, v, amountIn, BaseToQuote, published) && (m < v ==> !Dust(s, m, amountIn))
    ensures var verdict := JudgeVirtual(s, amountIn, BaseToQuote, published)(m);
            (m < v ==> verdict != High) && (m > v ==> verdict != Low)
  {
    hide VaultsAfter, Dust;
    SellMonotoneInVirtual(s, v, v, amountIn);
    if m < v {
      SellMonotoneInVirtual(s, m, v, amountIn);
      SellBase(s, m, amountIn);
    } else if VaultsAfter(s, m, amountIn, BaseToQuote).Some? {
      SellMonotoneInVirtual(s, v, m, amountIn);
    }
  }

  lemma SellBase(s: Pool, v: int, amountIn: int)
    ensures VaultsAfter(s, v, amountIn, BaseToQuote).Some? ==>
              VaultsAfter(s, v, amountIn, BaseToQuote).value.base == s.base + amountIn
  {
  }

  /** When the gross without a virtual reserve is large enough against the fees, no reserve makes
      the sell dust, and the inversion finds one exactly when some value in range explains. */
  lemma LargeSellInversionComplete(s: Pool, amountIn: int, published: Vaults)
    requires amountIn > 0 && s.fees.Total() < BPS_DEN
    requires GrossOut(s.base, s.quote, amountIn) * (BPS_DEN - s.fees.Total()) >= 3 * BPS_DEN
    ensures InvertVirtual(s, amountIn, BaseToQuote, published).Some? <==>
            exists v :: 0 <= v <= 1_000_000_000_000_000_000 && Explains(s, v, amountIn, BaseToQuote, published)
  {
    hide VaultsAfter, Dust, InvertVirtual, Explains, GrossOut;
    InversionSound(s, amountIn, BaseToQuote, published);
    if v :| 0 <= v <= 1_000_000_000_000_000_000 && Explains(s, v, amountIn, BaseToQuote, published) {
      forall m: int | v / 2 <= m < v ensures !Dust(s, m, amountIn) {
        LargeIsNotDust(s, m, amountIn);
      }
      SellInversionComplete(s, amountIn, published, v);
    }
  }

  lemma LargeIsNotDust(s: Pool, v: nat, amountIn: nat)
    requires amountIn > 0 && s.fees.Total() < BPS_DEN
    requires GrossOut(s.base, s.quote, amountIn) * (BPS_DEN - s.fees.Total()) >= 3 * BPS_DEN
    ensures !Dust(s, v, amountIn)
  {
    hide GrossOut, FeeSum;
    var g, h := GrossOut(s.base, s.quote, amountIn), GrossOut(s.base, s.quote + v, amountIn);
    var k := BPS_DEN - s.fees.Total();
    GrossMonotone(s.base, s.quote, s.quote + v, amountIn);
    MulLe(g, h, k);
    FeeSumBounds(h, s.fees);
    assert h * k == h * BPS_DEN - h * s.fees.Total();
  }

  /** A deep pool and a sale of one unit: only the largest reserve in range pays anything. */
  predicate Deep(s: Pool) {
    s.base == MAX_VIRTUAL && s.quote == 1 && s.status == 0 && s.fees.Free()
  }

  lemma FeeFreeSell(s: Pool, v: nat, amountIn: nat, gross: int)
    requires s.base > 0 && s.quote > 0 && s.status == 0 && s.fees.Free() && amountIn > 0
    requires gross == GrossOut(s.base, s.quote + v, amountIn) && gross <= s.quote
    ensures VaultsAfter(s, v, amountIn, BaseToQuote)
            == if gross <= 0 then None else Some(Vaults(s.base + amountIn, s.quote - gross))
  {
    hide GrossOut, Fee, ApplyBuy;
    var t := s.(virt := v);
    assert Tradable(t) && t.Effective() == s.quote + v;
    ZeroFee(gross);
    hide Tradable, Fees.Total;
  }

  lemma DeepSell(s: Pool, v: nat)
    requires Deep(s) && v <= MAX_VIRTUAL
    ensures v < MAX_VIRTUAL ==> VaultsAfter(s, v, 1, BaseToQuote).None?
    ensures v == MAX_VIRTUAL ==> VaultsAfter(s, v, 1, BaseToQuote) == Some(Vaults(s.base + 1, 0))
  {
    hide VaultsAfter, FeeSum;
    var gross := if v == MAX_VIRTUAL then 1 else 0;
    DivUnique(1 + v, MAX_VIRTUAL + 1, gross, if v == MAX_VIRTUAL then 0 else 1 + v);
    FeeFreeSell(s, v, 1, gross);
  }

  /** The dust condition of SellInversionComplete matters: a reserve in range explains this sale, yet
      the search's first probe is dust and it never looks above it again. */
  lemma SellInversionCanMiss(s: Pool)
    requires Deep(s)
    ensures Explains(s, MAX_VIRTUAL, 1, BaseToQuote, Vaults(s.base + 1, 0))
    ensures InvertVirtual(s, 1, BaseToQuote, Vaults(s.base + 1, 0)).None?
  {
    hide VaultsAfter;
    var judge := JudgeVirtual(s, 1, BaseToQuote, Vaults(s.base + 1, 0));
    DeepSell(s, MAX_VIRTUAL);
    forall v: int | 0 <= v < MAX_VIRTUAL ensures judge(v) == High {
      DeepSell(s, v);
    }
    SearchSound(judge, 0, MAX_VIRTUAL / 2 - 1);
  }

  // ---- classification of a mismatch ----

  /** A mismatch row after decoding: parts of it may be missing. */
  datatype Row = Row(isPump: bool, wrongAssociation: bool, before: Option<Pool>, published: Option<Vaults>,
                     swap: Option<(Direction, int)>)

  datatype Tag = Skip | WrongAssociation | NoBefore | NoPublished | NoN | StillExact | ExplainedVirtual | WrongN
               | ExplainedVirtualFeeResidual | Unexplained

  /** Some virtual reserve in the searched range reproduces both vaults; or the base vault alone. */
  ghost predicate Explainable(s: Pool, amountIn: int, d: Direction, published: Vaults) {
    exists v :: 0 <= v <= 1_000_000_000_000_000_000 && Explains(s, v, amountIn, d, published)
  }

  ghost predicate BaseExplainable(s: Pool, amountIn: int, wantBase: int) {
    exists v :: 0 <= v <= 1_000_000_000_000_000_000 && HitsBase(s, v, amountIn, wantBase)
  }

  predicate Complete(b: Row) {
    b.isPump && !b.wrongAssociation && b.before.Some? && b.published.Some? && b.swap.Some?
  }

  /** What each tag of a complete row claims, in terms of the reserves that explain it. */
  ghost predicate TagMeans(tag: Tag, s: Pool, published: Vaults, d: Direction, amountIn: int) {
    var recorded := Explains(s, s.virt, amountIn, d, published);
    match tag
    case StillExact => recorded
    case ExplainedVirtual => !recorded && Explainable(s, amountIn, d, published)
    case WrongN => d.BaseToQuote? && published.base != s.base + amountIn
    case ExplainedVirtualFeeResidual =>
      d.QuoteToBase? && !recorded && !Explainable(s, amountIn, d, published)
      && BaseExplainable(s, amountIn, published.base)
    case Unexplained =>
      && !recorded
      && (d.QuoteToBase? ==> !BaseExplainable(s, amountIn, published.base))
      && (d.BaseToQuote? ==> published.base == s.base + amountIn && !SellFindable(s, amountIn, published))
    case _ => false
  }

  /** The base vault of a sell moves by the amount sold, whatever the virtual reserve. */
  lemma WrongNHasNoExplanation(s: Pool, amountIn: int, published: Vaults, v: int)
    requires published.base != s.base + amountIn
    ensures !Explains(s, v, amountIn, BaseToQuote, published)
  {
    SellBase(s, v, amountIn);
  }

  /** A complete buy row has exactly one tag with a true meaning, and so has a complete sell row whose
      gross is large against its fees; the tag says whether any virtual reserve explains the row. */
  lemma TagsExclusive(s: Pool, published: Vaults, d: Direction, amountIn: int, t: Tag, u: Tag)
    requires TagMeans(t, s, published, d, amountIn) && TagMeans(u, s, published, d, amountIn)
    requires d.BaseToQuote? ==>
               amountIn > 0 && s.fees.Total() < BPS_DEN
               && GrossOut(s.base, s.quote, amountIn) * (BPS_DEN - s.fees.Total()) >= 3 * BPS_DEN
    ensures t == u
    ensures t.Unexplained? ==> !Explainable(s, amountIn, d, published)
  {
    hide VaultsAfter, InvertVirtual, GrossOut, FoundBySell;
    ExplainableHitsBase(s, amountIn, published);
    if d.BaseToQuote? {
      LargeSellInversionComplete(s, amountIn, published);
      SellInversionIff(s, amountIn, published);
      forall v | published.base != s.base + amountIn ensures !Explains(s, v, amountIn, d, published) {
        WrongNHasNoExplanation(s, amountIn, published, v);
      }
    }
  }

  lemma ExplainableHitsBase(s: Pool, amountIn: int, published: Vaults)
    ensures Explainable(s, amountIn, QuoteToBase, published) ==> BaseExplainable(s, amountIn, published.base)
  {
    hide VaultsAfter;
    if v :| 0 <= v <= 1_000_000_000_000_000_000 && Explains(s, v, amountIn, QuoteToBase, published) {
      assert HitsBase(s, v, amountIn, published.base);
    }
  }

  method ReplayOne(b: Row) returns (tag: Tag)
    ensures Complete(b) ==> TagMeans(tag, b.before.value, b.published.value, b.swap.value.0, b.swap.value.1)
    ensures !Complete(b) ==>
              tag == if !b.isPump then Skip else if b.wrongAssociation then WrongAssociation
                     else if b.before.None? then NoBefore else if b.published.None? then NoPublished else NoN
  {
    if !b.isPump {
      return Skip;
    }
    if b.wrongAssociation {
      return WrongAssociation;
    }
    if b.before.None? {
      return NoBefore;
    }
    if b.published.None? {
      return NoPublished;
    }
    if b.swap.None? {
      return NoN;
    }
    tag := ReplayComplete(b.before.value, b.published.value, b.swap.value.0, b.swap.value.1);
  }

  method ReplayComplete(s: Pool, published: Vaults, d: Direction, amountIn: int) returns (tag: Tag)
    ensures TagMeans(tag, s, published, d, amountIn)
  {
    hide VaultsAfter, InvertVirtual, InvertBase, FoundBySell;
    if VaultsAfter(s, s.virt, amountIn, d) == Some(published) {
      return StillExact;
    }
    var v := ComputeInvertVirtual(s, amountIn, d, published);
    InversionSound(s, amountIn, d, published);
    if v.Some? {
      if VaultsAfter(s, v.value, amountIn, d) == Some(published) {
        return ExplainedVirtual;
      }
    }
    if d.BaseToQuote? && published.base != s.base + amountIn {
      return WrongN;
    }
    if d.BaseToQuote? {
      SellInversionIff(s, amountIn, published);
    }
    if d.QuoteToBase? {
      BuyInversionComplete(s, amountIn, published);
      BaseInversionComplete(s, amountIn, published.base);
      var v2 := ComputeInvertBase(s, amountIn, published.base);
      if v2.Some? {
        return ExplainedVirtualFeeResidual;
      }
    }
    return Unexplained;
  }
}
