/** The DLMM fee: rate from the volatility accumulator, fee of a gross amount, fee on top of a
    net amount, and why the two undo each other. */
module Fees {
  import opened Rounding
  import opened Basics
  import opened FixedPoint

  const FEE_PREC: nat := 1_000_000_000
  const MAX_FEE: nat := 100_000_000
  const VARIABLE_SCALE: nat := 100_000_000_000

  function Pow10(n: nat): nat { if n == 0 then 1 else 10 * Pow10(n - 1) }

  datatype FeeParams = FeeParams(binStep: nat, baseFactor: nat, baseFeePower: nat, variableFeeControl: nat)

  function VariableFee(f: FeeParams, volAcc: nat): nat {
    if f.variableFeeControl > 0 then
      var vfa := volAcc * f.binStep;
      var vFee := f.variableFeeControl * vfa * vfa;
      UpDiv(vFee, VARIABLE_SCALE)
    else 0
  }

  function TotalFeeRate(f: FeeParams, volAcc: nat): (rate: nat)
    ensures rate <= MAX_FEE
  {
    var total := f.baseFactor * f.binStep * 10 * Pow10(f.baseFeePower) + VariableFee(f, volAcc);
    if total > MAX_FEE then MAX_FEE else total
  }

  lemma FeeRateMonotone(f: FeeParams, acc1: nat, acc2: nat)
    requires acc1 <= acc2
    ensures TotalFeeRate(f, acc1) <= TotalFeeRate(f, acc2)
  {
    var v1, v2 := acc1 * f.binStep, acc2 * f.binStep;
    MulLe(acc1, acc2, f.binStep);
    MulLe(v1, v2, v1);
    MulLe(v1, v2, v2);
    assert v1 * v1 <= v2 * v2;
    MulLe(v1 * v1, v2 * v2, f.variableFeeControl);
    assert f.variableFeeControl * v1 * v1 == v1 * v1 * f.variableFeeControl;
    assert f.variableFeeControl * v2 * v2 == v2 * v2 * f.variableFeeControl;
    CeilMono(f.variableFeeControl * v1 * v1, f.variableFeeControl * v2 * v2, VARIABLE_SCALE);
  }

  /** Fee on top of a net amount, so that the fee is the rate's share of the sum. */
  function FeeOnNet(rate: nat, amount: nat): Option<nat>
    requires rate <= MAX_FEE
  {
    var f := UpDiv(amount * rate, FEE_PREC - rate);
    if f > U64_MAX then None else Some(f)
  }

  /** Fee contained in an amount that already includes it. */
  function FeeInGross(rate: nat, amountWithFees: nat): Option<nat>
    requires rate <= MAX_FEE
  {
    var f := UpDiv(amountWithFees * rate, FEE_PREC);
    if f > U64_MAX then None else Some(f)
  }

  /** What is left of a gross amount, and the smallest gross amount that leaves n. */
  function Net(rate: nat, g: nat): nat
    requires rate <= MAX_FEE
  {
    g * (FEE_PREC - rate) / FEE_PREC
  }

  function Gross(rate: nat, n: nat): nat
    requires rate <= MAX_FEE
  {
    CeilNonNeg(n * FEE_PREC, FEE_PREC - rate);
    CeilDiv(n * FEE_PREC, FEE_PREC - rate)
  }

  /** Gross and net form a Galois connection. */
  lemma GrossNetGalois(rate: nat, g: nat, n: nat)
    requires rate <= MAX_FEE
    ensures Gross(rate, n) <= g <==> n <= Net(rate, g)
  {
    Adjoint(g, n, FEE_PREC - rate, FEE_PREC);
  }

  /** Grossing up and netting down returns the net amount unchanged. */
  lemma NetOfGross(rate: nat, n: nat)
    requires rate <= MAX_FEE
    ensures Net(rate, Gross(rate, n)) == n
  {
    var g: int, d: int := Gross(rate, n), FEE_PREC - rate;
    GrossNetGalois(rate, g, n);
    GrossNetGalois(rate, g, n + 1);
    // one more net unit costs at least one more gross unit
    CeilGalois((n + 1) * FEE_PREC, d, g);
    CeilGalois(n * FEE_PREC, d, g - 1);
    assert (g - 1) * d == g * d - d;
  }

  lemma NetMonotone(rate: nat, g1: nat, g2: nat)
    requires rate <= MAX_FEE && g1 <= g2
    ensures Net(rate, g1) <= Net(rate, g2) <= g2
  {
    MulLe(g1, g2, FEE_PREC - rate);
    FloorMono(g1 * (FEE_PREC - rate), g2 * (FEE_PREC - rate), FEE_PREC);
    FloorGalois(g2 * (FEE_PREC - rate), FEE_PREC, g2 + 1);
    assert g2 * (FEE_PREC - rate) == g2 * FEE_PREC - g2 * rate;
    assert 0 <= g2 * rate;
  }

  /** FeeInGross is exactly the part of the gross amount that Net removes. */
  lemma FeeInGrossExact(rate: nat, g: nat)
    requires rate <= MAX_FEE
    ensures FeeInGross(rate, g) == if g - Net(rate, g) > U64_MAX then None else Some(g - Net(rate, g))
    ensures Net(rate, g) <= g
  {
    var f := CeilDiv(g * rate, FEE_PREC);
    var net := Net(rate, g);
    NetMonotone(rate, g, g);
    GapExact(rate, g, g - f);
    GapExact(rate, g, net);
    CeilGalois(g * rate, FEE_PREC, f);
  }

  lemma GapExact(rate: nat, g: nat, k: int)
    requires rate <= MAX_FEE
    ensures k <= g - CeilDiv(g * rate, FEE_PREC) <==> k <= Net(rate, g)
  {
    CeilGalois(g * rate, FEE_PREC, g - k);
    FloorGalois(g * (FEE_PREC - rate), FEE_PREC, k);
    assert (g - k) * FEE_PREC == g * FEE_PREC - k * FEE_PREC;
    assert g * (FEE_PREC - rate) == g * FEE_PREC - g * rate;
  }

  /** FeeOnNet is exactly what grossing up adds; on 64-bit amounts it never overflows. */
  lemma FeeOnNetExact(rate: nat, n: nat)
    requires rate <= MAX_FEE && n <= U64_MAX
    ensures n <= Gross(rate, n)
    ensures FeeOnNet(rate, n) == Some(Gross(rate, n) - n)
  {
    hide Gross;
    var f := CeilDiv(n * rate, FEE_PREC - rate);
    SurchargeBounds(rate, n);
    SurchargeExact(rate, n, Gross(rate, n) - n);
    SurchargeExact(rate, n, f);
  }

  lemma SurchargeBounds(rate: nat, n: nat)
    requires rate <= MAX_FEE
    ensures 0 <= CeilDiv(n * rate, FEE_PREC - rate) <= n
  {
    var d := FEE_PREC - rate;
    MulLe(rate, d, n);
    CeilGalois(n * rate, d, n);
    CeilNonNeg(n * rate, d);
  }

  lemma SurchargeExact(rate: nat, n: nat, k: int)
    requires rate <= MAX_FEE
    ensures CeilDiv(n * rate, FEE_PREC - rate) <= k <==> Gross(rate, n) <= n + k
  {
    hide CeilDiv;
    var d := FEE_PREC - rate;
    CeilGalois(n * rate, d, k);
    CeilGalois(n * FEE_PREC, d, n + k);
    assert (n + k) * d == n * d + k * d;
    assert n * d == n * FEE_PREC - n * rate;
  }


  // ---- in plain numbers ----

  lemma Pow10Is(n: nat)
    ensures Pow10(0) == 1 && Pow10(n + 1) == 10 * Pow10(n)
  {
  }

  /** The rate in billionths that an accumulator asks for: the base fee plus the least integer covering
      the variable fee, at most 100_000_000. */
  ghost predicate RateIs(f: FeeParams, acc: nat, rate: nat) {
    exists variable: nat ::
      Least(variable, 100_000_000_000, f.variableFeeControl * (acc * f.binStep) * (acc * f.binStep))
      && rate == Min(f.baseFactor * f.binStep * 10 * Pow10(f.baseFeePower) + variable, 100_000_000)
  }

  lemma FeeRateIs(f: FeeParams, acc: nat)
    ensures RateIs(f, acc, TotalFeeRate(f, acc))
  {
    var need := f.variableFeeControl * (acc * f.binStep) * (acc * f.binStep);
    LeastIsCeil(VariableFee(f, acc), 100_000_000_000, need);
    hide Least, CeilDiv;
    assert f.variableFeeControl == 0 ==> need == 0;
    assert f.variableFeeControl == 0 ==> CeilDiv(0, 100_000_000_000) == 0 by {
      LeastIsCeil(0, 100_000_000_000, 0);
      Zero();
    }
    assert Least(VariableFee(f, acc), 100_000_000_000, need);
  }

  lemma RateIsUnique(f: FeeParams, acc: nat, rate: nat)
    requires RateIs(f, acc, rate)
    ensures rate == TotalFeeRate(f, acc)
  {
    var need := f.variableFeeControl * (acc * f.binStep) * (acc * f.binStep);
    FeeRateIs(f, acc);
    forall v: nat, w: nat | Least(v, 100_000_000_000, need) && Least(w, 100_000_000_000, need) ensures v == w {
      LeastIsCeil(v, 100_000_000_000, need);
      LeastIsCeil(w, 100_000_000_000, need);
    }
    hide Least, TotalFeeRate;
  }

  lemma Zero()
    ensures Least(0, 100_000_000_000, 0)
  {
  }

  /** The fee contained in a gross amount is the least integer covering its share of the amount; it is
      refused when it exceeds 64 bits. */
  lemma FeeInGrossIs(rate: nat, g: nat, fee: nat)
    requires rate <= 100_000_000
    ensures FeeInGross(rate, g) == Some(fee) <==>
            Least(fee, 1_000_000_000, g * rate) && fee <= 18_446_744_073_709_551_615
  {
    LeastIsCeil(fee, 1_000_000_000, g * rate);
    hide Least, CeilDiv;
  }

  /** The fee put on a net amount is the least integer covering the share of the sum that is not net. */
  lemma FeeOnNetIs(rate: nat, n: nat, fee: nat)
    requires rate <= 100_000_000
    ensures FeeOnNet(rate, n) == Some(fee) <==>
            Least(fee, 1_000_000_000 - rate, n * rate) && fee <= 18_446_744_073_709_551_615
  {
    LeastIsCeil(fee, 1_000_000_000 - rate, n * rate);
    hide Least, CeilDiv;
  }
}
