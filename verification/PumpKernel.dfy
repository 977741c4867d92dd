/** The Pump constant-product kernel with a virtual quote reserve and three ceiling fees:
    applying a swap to the vaults, quoting one, and the buy's fee components. */
module PumpKernel {
  import opened Rounding

  const BPS_DEN: nat := 10_000
  const U64_MAX: nat := 0xFFFF_FFFF_FFFF_FFFF

  datatype Direction = QuoteToBase | BaseToQuote

  function Sum(a: int, b: int, c: int): int { a + b + c }

  datatype Fees = Fees(lp: nat, protocol: nat, creator: nat) {
    function Total(): int { Sum(lp, protocol, creator) }
    predicate Free() { lp == 0 && protocol == 0 && creator == 0 }
    predicate SomeFree() { lp == 0 || protocol == 0 || creator == 0 }
  }

  const NO_FEES: Fees := Fees(0, 0, 0)

  /** Vault amounts, the virtual quote reserve (it may be negative), fee rates and status. */
  datatype Pool = Pool(base: nat, quote: nat, virt: int, fees: Fees, status: nat) {
    function Effective(): int { quote + virt }
  }

  /** Fee on an amount in basis points, rounded up. */
  function Fee(n: int, bps: nat): int { CeilDiv(n * bps, BPS_DEN) }

  function FeeSum(n: int, f: Fees): int { Fee(n, f.lp) + Fee(n, f.protocol) + Fee(n, f.creator) }

  /** The input net of fees before any repair, and by how much it then overshoots the input. */
  function Unrepaired(amountIn: nat, f: Fees): int { amountIn * BPS_DEN / (BPS_DEN + f.Total()) }

  function Excess(amountIn: nat, f: Fees): int {
    Unrepaired(amountIn, f) + FeeSum(Unrepaired(amountIn, f), f) - amountIn
  }

  /** Quote that trades in a buy: the input net of fees, trimmed once when the three roundings
      overshoot the input. */
  function Trade(amountIn: nat, f: Fees): int {
    var e, excess := Unrepaired(amountIn, f), Excess(amountIn, f);
    if excess > 0 then e - excess else e
  }

  function BaseOut(base: nat, effective: int, net: int): int
    requires effective + net > 0
  {
    base * net / (effective + net)
  }

  function GrossOut(base: nat, effective: int, amountIn: nat): int
    requires amountIn > 0
  {
    effective * amountIn / (base + amountIn)
  }

  /** What both directions ask of a pool. */
  predicate Tradable(s: Pool) {
    s.status == 0 && s.base != 0 && s.quote != 0 && s.Effective() > 0 && s.fees.Total() < BPS_DEN
  }

  function ApplySell(s: Pool, amountIn: nat): Option<Pool>
    requires Tradable(s) && amountIn > 0
  {
    var gross := GrossOut(s.base, s.Effective(), amountIn);
    var leave := gross - Fee(gross, s.fees.lp);
    if gross < FeeSum(gross, s.fees) || leave > s.quote || gross - FeeSum(gross, s.fees) <= 0 then None
    else
      LeaveNonNegative(gross, s.fees);
      Some(Pool(s.base + amountIn, s.quote - leave, s.virt, NO_FEES, 0))
  }

  function ApplyBuy(s: Pool, amountIn: nat): Option<Pool>
    requires Tradable(s)
  {
    var e := Trade(amountIn, s.fees);
    if e < 1 then None
    else
      var out := BaseOut(s.base, s.Effective(), e - 1);
      if out <= 0 || out > s.base then None
      else
        TradeCovered(amountIn, s.fees);
        Some(Pool(s.base - out, s.quote + amountIn - Fee(e, s.fees.protocol) - Fee(e, s.fees.creator),
                  s.virt, NO_FEES, 0))
  }

  /** Applying a swap. The result carries the vaults and the virtual reserve only: fee rates and
      status are not part of it, so they read as zero afterwards. */
  function ApplySwap(s: Pool, amountIn: int, d: Direction): Option<Pool> {
    if amountIn <= 0 || !Tradable(s) then None
    else match d case BaseToQuote => ApplySell(s, amountIn) case QuoteToBase => ApplyBuy(s, amountIn)
  }

  lemma LeaveNonNegative(gross: int, f: Fees)
    requires gross >= FeeSum(gross, f) && gross >= 0
    ensures gross - Fee(gross, f.lp) >= 0
  {
    CeilNonNeg(gross * f.protocol, BPS_DEN);
    CeilNonNeg(gross * f.creator, BPS_DEN);
  }

  // ---- fees ----

  lemma FeeMonotone(m: int, n: int, bps: nat)
    requires m <= n
    ensures Fee(m, bps) <= Fee(n, bps)
  {
    MulLe(m, n, bps);
    CeilMono(m * bps, n * bps, BPS_DEN);
  }

  lemma ZeroFee(n: int)
    ensures Fee(n, 0) == 0
  {
  }

  lemma FreeOfFees(n: int, f: Fees)
    requires f.Free()
    ensures f.Total() == 0 && FeeSum(n, f) == 0
  {
    hide Fee;
    ZeroFee(n);
  }

  lemma FeeSumMonotone(m: int, n: int, f: Fees)
    requires m <= n
    ensures FeeSum(m, f) <= FeeSum(n, f)
  {
    FeeMonotone(m, n, f.lp);
    FeeMonotone(m, n, f.protocol);
    FeeMonotone(m, n, f.creator);
  }

  lemma FeeBounds(n: int, bps: nat)
    ensures n * bps <= Fee(n, bps) * BPS_DEN < n * bps + BPS_DEN
  {
    CeilGalois(n * bps, BPS_DEN, Fee(n, bps));
    CeilGalois(n * bps, BPS_DEN, Fee(n, bps) - 1);
  }

  lemma FeeSumBounds(n: int, f: Fees)
    ensures n * f.Total() <= FeeSum(n, f) * BPS_DEN < n * f.Total() + 3 * BPS_DEN
  {
    FeeBounds(n, f.lp);
    FeeBounds(n, f.protocol);
    FeeBounds(n, f.creator);
    assert n * f.Total() == n * f.lp + n * f.protocol + n * f.creator;
  }

  /** Before any repair the trade and its fees overshoot the input by at most two. */
  lemma Overshoot(amountIn: nat, f: Fees)
    ensures 0 <= Unrepaired(amountIn, f) && Excess(amountIn, f) <= 2
    ensures f.SomeFree() ==> Excess(amountIn, f) <= 1
  {
    var den := BPS_DEN + f.Total();
    var e := amountIn * BPS_DEN / den;
    FloorGalois(amountIn * BPS_DEN, den, e);
    FloorGalois(amountIn * BPS_DEN, den, 0);
    FeeSumBounds(e, f);
    assert e * den == e * BPS_DEN + e * f.Total();
    if f.SomeFree() {
      FeeSumOfTwo(e, f);
    }
  }

  /** With one rate at zero only two fees are rounded up. */
  lemma FeeSumOfTwo(n: int, f: Fees)
    requires f.SomeFree()
    ensures FeeSum(n, f) * BPS_DEN < n * f.Total() + 2 * BPS_DEN
  {
    hide Fee;
    FeeBounds(n, f.lp);
    FeeBounds(n, f.protocol);
    FeeBounds(n, f.creator);
    ZeroFee(n);
    assert n * f.Total() == n * f.lp + n * f.protocol + n * f.creator;
  }

  /** One repair suffices and trims at most two: the trade with its fees never exceeds the input,
      and the trade is at most two below the unrepaired one. */
  lemma TradeCovered(amountIn: nat, f: Fees)
    ensures var e := Trade(amountIn, f);
            && e + FeeSum(e, f) <= amountIn
            && Unrepaired(amountIn, f) - 2 <= e <= Unrepaired(amountIn, f)
    ensures Trade(amountIn, f) >= 0 ==>
              var e := Trade(amountIn, f);
              0 <= Fee(e, f.lp) && 0 <= Fee(e, f.protocol) && 0 <= Fee(e, f.creator)
  {
    hide Unrepaired, FeeSum;
    Overshoot(amountIn, f);
    var e0, e := Unrepaired(amountIn, f), Trade(amountIn, f);
    FeeSumMonotone(e, e0, f);
    if e >= 0 {
      CeilNonNeg(e * f.lp, BPS_DEN);
      CeilNonNeg(e * f.protocol, BPS_DEN);
      CeilNonNeg(e * f.creator, BPS_DEN);
    }
  }

  // ---- how the trade moves with the input ----

  /** The traded amount is not monotone in the input: one more unit in can trade one unit less. */
  lemma TradeNotMonotone()
    ensures Trade(2007, Fees(20, 5, 5)) == 2000 && Trade(2008, Fees(20, 5, 5)) == 1999
  {
  }

  /** From a to b the unrepaired trade rises by one, and the repair at b takes two off where none was
      needed at a. */
  predicate Dips(a: nat, b: nat, f: Fees) {
    Unrepaired(b, f) == Unrepaired(a, f) + 1 && Excess(b, f) == 2 && Excess(a, f) <= 0
  }

  /** From a smaller to a larger input the traded amount falls exactly across a dip, by one, and it
      never dips when some rate is zero. */
  lemma TradeFallsIffDips(a: nat, b: nat, f: Fees)
    requires a <= b
    ensures Trade(b, f) < Trade(a, f) <==> Dips(a, b, f)
    ensures Trade(b, f) >= Trade(a, f) - 1
    ensures f.SomeFree() ==> !Dips(a, b, f)
  {
    hide Unrepaired, Excess;
    UnrepairedMonotone(a, b, f);
    Overshoot(a, f);
    Overshoot(b, f);
    if Unrepaired(a, f) == Unrepaired(b, f) {
      SameExcess(a, b, f);
    }
  }

  lemma UnrepairedMonotone(a: nat, b: nat, f: Fees)
    requires a <= b
    ensures Unrepaired(a, f) <= Unrepaired(b, f)
  {
    FloorMono(a * BPS_DEN, b * BPS_DEN, BPS_DEN + f.Total());
  }

  lemma SameExcess(a: nat, b: nat, f: Fees)
    requires a <= b && Unrepaired(a, f) == Unrepaired(b, f)
    ensures Excess(b, f) == Excess(a, f) - (b - a)
  {
    hide Unrepaired, FeeSum;
  }

  /** Two neighbouring inputs between which the trade dips, whenever all three rates are positive. */
  lemma DipExists(f: Fees)
    requires !f.SomeFree() && f.Total() < BPS_DEN
    ensures var a: nat := BPS_DEN + f.Total() + 1;
            Trade(a, f) == BPS_DEN && Trade(a + 1, f) == BPS_DEN - 1
  {
    var t: int := f.Total();
    var a: nat := BPS_DEN + t + 1;
    DivUnique(a * BPS_DEN, BPS_DEN + t, BPS_DEN, BPS_DEN);
    DivUnique((a + 1) * BPS_DEN, BPS_DEN + t, BPS_DEN + 1, BPS_DEN - t);
    RoundFee(f.lp);
    RoundFee(f.protocol);
    RoundFee(f.creator);
    hide Fee;
  }

  lemma RoundFee(bps: nat)
    requires 0 < bps < BPS_DEN
    ensures Fee(BPS_DEN, bps) == bps && Fee(BPS_DEN + 1, bps) == bps + 1
  {
    DivUnique(BPS_DEN * bps, BPS_DEN, bps, 0);
    DivUnique((BPS_DEN + 1) * bps, BPS_DEN, bps, bps);
  }

  /** For which fee rates the traded amount is monotone in the input: exactly those with a zero. */
  lemma TradeMonotoneIff(f: Fees)
    requires f.Total() < BPS_DEN
    ensures f.SomeFree() <==> forall a: nat, b: nat :: a <= b ==> Trade(a, f) <= Trade(b, f)
  {
    hide Trade, Dips;
    if f.SomeFree() {
      forall a: nat, b: nat | a <= b ensures Trade(a, f) <= Trade(b, f) {
        TradeFallsIffDips(a, b, f);
      }
    } else {
      DipExists(f);
    }
  }
}
