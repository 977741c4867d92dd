/** The mutable part of a DLMM pair during a quote: volatility references, the accumulator,
    and how the fee rate moves with time alone. */
module Volatility {
  import opened Rounding
  import opened Basics
  import opened FixedPoint
  import opened Fees

  const BPS: nat := 10_000

  datatype Bin = Bin(id: int, x: u64, y: u64, price: nat)

  datatype Config = Config(fees: FeeParams, status: nat, filterPeriod: nat, decayPeriod: nat,
                           reductionFactor: nat, maxVolAcc: nat, collectFeeMode: nat, lastUpd: int)

  datatype Pair = Pair(cfg: Config, activeId: int, volAcc: nat, volRef: nat, idxRef: int, nowTs: int, bins: seq<Bin>)

  function Distance(i: int, j: int): nat { if i < j then j - i else i - j }

  function References(s: Pair): Pair {
    var elapsed := s.nowTs - s.cfg.lastUpd;
    if elapsed >= s.cfg.filterPeriod then
      s.(idxRef := s.activeId,
         volRef := if elapsed < s.cfg.decayPeriod then s.volAcc * s.cfg.reductionFactor / BPS else 0)
    else s
  }

  /** The accumulator a hop in the given bin sees. */
  function Accumulator(s: Pair, id: int): nat {
    var acc := s.volRef + Distance(s.idxRef, id) * BPS;
    if acc > s.cfg.maxVolAcc then s.cfg.maxVolAcc else acc
  }

  function RateAt(s: Pair, id: int): (rate: nat)
    ensures rate <= MAX_FEE
  {
    TotalFeeRate(s.cfg.fees, Accumulator(s, id))
  }

  class Dlmm {
    const cfg: Config
    var activeId: int
    var volAcc: nat
    var volRef: nat
    var idxRef: int
    var nowTs: int
    var bins: seq<Bin>

    function State(): Pair
      reads this
    {
      Pair(cfg, activeId, volAcc, volRef, idxRef, nowTs, bins)
    }

    constructor Clone(s: Pair)
      ensures State() == s
    {
      cfg := s.cfg;
      activeId, volAcc, volRef, idxRef, nowTs, bins := s.activeId, s.volAcc, s.volRef, s.idxRef, s.nowTs, s.bins;
    }

    method UpdateReferences()
      modifies this
      ensures State() == References(old(State()))
    {
      var elapsed := nowTs - cfg.lastUpd;
      if elapsed >= cfg.filterPeriod {
        idxRef := activeId;
        if elapsed < cfg.decayPeriod {
          volRef := volAcc * cfg.reductionFactor / BPS;
        } else {
          volRef := 0;
        }
      }
    }

    method UpdateVolatility()
      modifies `volAcc
      ensures volAcc == Accumulator(old(State()), activeId)
    {
      var delta := idxRef - activeId;
      if delta < 0 {
        delta := -delta;
      }
      var acc := volRef + delta * BPS;
      if acc > cfg.maxVolAcc {
        acc := cfg.maxVolAcc;
      }
      volAcc := acc;
    }
  }

  datatype FeeView = FeeView(rate: nat, volAcc: nat, volRef: nat)

  /** Fee rate, accumulator and reference a quote at the given time would see in the active bin. */
  function FeeAfterTime(s: Pair, now: int): FeeView {
    var r := References(s.(nowTs := now));
    FeeView(RateAt(r, r.activeId), Accumulator(r, r.activeId), r.volRef)
  }

  method ComputeFeeAfterTime(s: Pair, now: int) returns (v: FeeView)
    ensures v == FeeAfterTime(s, now)
  {
    var d := new Dlmm.Clone(s);
    d.nowTs := now;
    d.UpdateReferences();
    d.UpdateVolatility();
    v := FeeView(TotalFeeRate(d.cfg.fees, d.volAcc), d.volAcc, d.volRef);
  }

  datatype Crossing = Filter | Decay

  /** Future times at which UpdateReferences changes its answer. */
  function NextBoundaries(s: Pair, now: int): seq<(Crossing, int)> {
    if s.cfg.fees.variableFeeControl == 0 then []
    else
      var tf, td := s.cfg.lastUpd + s.cfg.filterPeriod, s.cfg.lastUpd + s.cfg.decayPeriod;
      (if now < tf then [(Filter, tf)] else [])
      + (if now < td && td != tf then [(Decay, td)] else [])
  }

  /** Every boundary lies in the future, and no time is listed twice. */
  lemma BoundariesAreFuture(s: Pair, now: int)
    ensures forall b :: b in NextBoundaries(s, now) ==> b.1 > now
    ensures var bs := NextBoundaries(s, now); forall i, j :: 0 <= i < j < |bs| ==> bs[i].1 != bs[j].1
  {
  }

  /** No fee change is missed: with no listed time in (now, t], the rate at t is the rate now. */
  lemma NoBoundaryNoChange(s: Pair, now: int, t: int)
    requires now <= t
    requires forall b :: b in NextBoundaries(s, now) ==> !(now < b.1 <= t)
    ensures FeeAfterTime(s, t).rate == FeeAfterTime(s, now).rate
    ensures s.cfg.fees.variableFeeControl > 0 ==> FeeAfterTime(s, t) == FeeAfterTime(s, now)
  {
    var tf, td := s.cfg.lastUpd + s.cfg.filterPeriod, s.cfg.lastUpd + s.cfg.decayPeriod;
    if s.cfg.fees.variableFeeControl > 0 {
      assert now < tf ==> (Filter, tf) in NextBoundaries(s, now);
      assert now < td && td != tf ==> (Decay, td) in NextBoundaries(s, now);
    }
  }

  /** The converse reading: a rate that changes between now and t changes at a listed time. */
  lemma ChangeHasBoundary(s: Pair, now: int, t: int)
    requires now <= t && FeeAfterTime(s, t).rate != FeeAfterTime(s, now).rate
    ensures exists b :: b in NextBoundaries(s, now) && now < b.1 <= t
  {
    if !exists b :: b in NextBoundaries(s, now) && now < b.1 <= t {
      NoBoundaryNoChange(s, now, t);
    }
  }

  /** The decayed reference does not exceed what a quote in the active bin sees before decay. */
  predicate DecayShrinks(s: Pair) {
    s.cfg.filterPeriod < s.cfg.decayPeriod ==>
      var decayed := s.volAcc * s.cfg.reductionFactor / BPS;
      (if decayed > s.cfg.maxVolAcc then s.cfg.maxVolAcc else decayed) <= Accumulator(s, s.activeId)
  }

  /** The accumulator never rises with time exactly for the states whose decay shrinks. */
  lemma NeverRisesIffDecayShrinks(s: Pair)
    ensures DecayShrinks(s) <==>
            forall t1, t2 :: t1 <= t2 ==> FeeAfterTime(s, t2).volAcc <= FeeAfterTime(s, t1).volAcc
  {
    var tf := s.cfg.lastUpd + s.cfg.filterPeriod;
    FloorMono(0, s.volAcc * s.cfg.reductionFactor, BPS);
    assert FeeAfterTime(s, tf - 1).volAcc == Accumulator(s, s.activeId);
    if !DecayShrinks(s) {
      assert FeeAfterTime(s, tf).volAcc > FeeAfterTime(s, tf - 1).volAcc;
    }
  }

  /** A state whose stored accumulator is the one the last update left behind, with a reduction
      factor of at most one, decays; so the fee rate of its active bin never rises with time alone. */
  lemma SettledRateNeverRises(s: Pair, t1: int, t2: int)
    requires s.volAcc == Accumulator(s, s.activeId) && s.cfg.reductionFactor <= BPS && t1 <= t2
    ensures FeeAfterTime(s, t2).rate <= FeeAfterTime(s, t1).rate
  {
    var v, k := s.volAcc, s.cfg.reductionFactor;
    MulLe(k, BPS, v);
    FloorMono(v * k, v * BPS, BPS);
    assert v * BPS / BPS == v;
    NeverRisesIffDecayShrinks(s);
    FeeRateMonotone(s.cfg.fees, FeeAfterTime(s, t2).volAcc, FeeAfterTime(s, t1).volAcc);
  }


  // ---- in plain numbers ----

  /** The accumulator of a hop: 10_000 for every bin between it and the reference bin on top of the
      reference, up to the cap. */
  ghost predicate AccumulatorIs(s: Pair, id: int, acc: nat) {
    var between := if id < s.idxRef then s.idxRef - id else id - s.idxRef;
    acc == Min(s.volRef + 10_000 * between, s.cfg.maxVolAcc)
  }

  lemma AccumulatorOfHop(s: Pair, id: int)
    ensures AccumulatorIs(s, id, Accumulator(s, id))
  {
  }

  /** One bin further from the reference bin, the accumulator is 10_000 larger, below the cap. */
  lemma AccumulatorStep(s: Pair, id: int)
    ensures Accumulator(s, s.idxRef) == Min(s.volRef, s.cfg.maxVolAcc)
    ensures id >= s.idxRef ==> Accumulator(s, id + 1) == Min(Accumulator(s, id) + 10_000, s.cfg.maxVolAcc)
    ensures id <= s.idxRef ==> Accumulator(s, id - 1) == Min(Accumulator(s, id) + 10_000, s.cfg.maxVolAcc)
  {
  }

  /** What time alone does to the active bin: nothing before the filter period has passed; the reference
      is then the reduced accumulator, in parts of 10_000, and nothing after the decay period. */
  lemma FeeInTime(s: Pair, now: int)
    ensures var v := FeeAfterTime(s, now); var elapsed := now - s.cfg.lastUpd;
            && RateIs(s.cfg.fees, v.volAcc, v.rate)
            && (elapsed < s.cfg.filterPeriod ==> v.volRef == s.volRef && AccumulatorIs(s, s.activeId, v.volAcc))
            && (elapsed >= s.cfg.filterPeriod ==>
                  && v.volAcc == Min(v.volRef, s.cfg.maxVolAcc)
                  && (elapsed < s.cfg.decayPeriod ==> Most(v.volRef, 10_000, s.volAcc * s.cfg.reductionFactor))
                  && (elapsed >= s.cfg.decayPeriod ==> v.volRef == 0))
  {
    hide RateIs;
    var r := References(s.(nowTs := now));
    FeeRateIs(s.cfg.fees, Accumulator(r, r.activeId));
    MostIsFloor(s.volAcc * s.cfg.reductionFactor / 10_000, 10_000, s.volAcc * s.cfg.reductionFactor);
    hide TotalFeeRate, Most;
  }

  /** The times listed: the end of the filter period and the end of the decay period, when they lie
      ahead and the variable fee is on; one entry when they coincide. */
  lemma BoundariesAre(s: Pair, now: int, t: int)
    ensures (Filter, t) in NextBoundaries(s, now) <==>
            s.cfg.fees.variableFeeControl > 0 && now < t == s.cfg.lastUpd + s.cfg.filterPeriod
    ensures (Decay, t) in NextBoundaries(s, now) <==>
            && s.cfg.fees.variableFeeControl > 0 && now < t == s.cfg.lastUpd + s.cfg.decayPeriod
            && s.cfg.filterPeriod != s.cfg.decayPeriod
  {
  }


  /** What a quote sees of the volatility: the stored reference before the filter period has passed, and
      afterwards the active bin with the reduced accumulator, in parts of 10_000, or with nothing. */
  ghost predicate ReferencesAre(s: Pair, r: Pair) {
    var elapsed := s.nowTs - s.cfg.lastUpd;
    if elapsed < s.cfg.filterPeriod then r == s
    else
      && r == s.(idxRef := s.activeId, volRef := r.volRef)
      && (elapsed < s.cfg.decayPeriod ==> Most(r.volRef, 10_000, s.volAcc * s.cfg.reductionFactor))
      && (elapsed >= s.cfg.decayPeriod ==> r.volRef == 0)
  }

  lemma ReferencesOf(s: Pair)
    ensures ReferencesAre(s, References(s))
  {
    MostIsFloor(s.volAcc * s.cfg.reductionFactor / 10_000, 10_000, s.volAcc * s.cfg.reductionFactor);
    hide Most;
  }
}
