/** Laws of the DLMM quote over whole walks: monotone with a downward-closed domain,
    conservation of the input, and what bounds the output. */
module QuoteLaws {
  import opened Rounding
  import opened Basics
  import opened FixedPoint
  import opened Fees
  import opened Volatility
  import opened DlmmQuote

  // ---- one bin ----

  lemma BuysMonotone(price: nat, a: nat, b: nat, y: bool)
    requires price > 0 && a <= b
    ensures Buys(price, a, y) <= Buys(price, b, y)
  {
    MulLe(a, b, Num(price, y));
    FloorMono(a * Num(price, y), b * Num(price, y), Den(price, y));
  }

  lemma OfferedMonotone(rate: nat, onInput: bool, a: nat, b: nat)
    requires rate <= MAX_FEE && a <= b
    ensures Offered(rate, onInput, a) <= Offered(rate, onInput, b)
    ensures a - Offered(rate, onInput, a) <= b - Offered(rate, onInput, b)
  {
    if onInput {
      NetMonotone(rate, a, b);
      GapMonotone(rate, a, b);
    }
  }

  lemma GapMonotone(rate: nat, a: nat, b: nat)
    requires rate <= MAX_FEE && a <= b
    ensures a - Net(rate, a) <= b - Net(rate, b)
  {
    MulLe(a, b, rate);
    CeilMono(a * rate, b * rate, FEE_PREC);
    GapExact(rate, a, Net(rate, a));
    GapExact(rate, a, a - CeilDiv(a * rate, FEE_PREC));
    GapExact(rate, b, Net(rate, b));
    GapExact(rate, b, b - CeilDiv(b * rate, FEE_PREC));
  }

  /** A smaller input is accepted by every bin that accepts a larger one; it buys no more, and if
      it does not end in this bin then it does here exactly what the larger input does. */
  lemma VisitBinMonotone(rate: nat, onInput: bool, bin: Bin, price: nat, a: nat, b: nat, y: bool)
    requires rate <= MAX_FEE && price > 0 && 0 < a <= b
    requires VisitBin(rate, onInput, bin, price, b, y).Some?
    ensures VisitBin(rate, onInput, bin, price, a, y).Some?
    ensures var ha := VisitBin(rate, onInput, bin, price, a, y).value;
            var hb := VisitBin(rate, onInput, bin, price, b, y).value;
            && ha.id == hb.id && ha.out <= hb.out && ha.gross <= hb.gross && ha.taken <= a
            && (ha.taken < a ==> ha == hb)
  {
    OfferedMonotone(rate, onInput, a, b);
    var inventory := Inventory(bin, y);
    var cost := Costs(price, inventory, y);
    var oa, ob := Offered(rate, onInput, a), Offered(rate, onInput, b);
    BuysMonotone(price, oa, ob, y);
    BuysCosts(price, oa, inventory, y);
    BuysCosts(price, ob, inventory, y);
    OfferedTaken(rate, onInput, a, cost);
    var ga, gb := Min(Buys(price, oa, y), inventory), Min(Buys(price, ob, y), inventory);
    NetMonotone(rate, ga, gb);
  }

  /** The books of one bin: what is taken is what is used plus the input fee, the last bin takes
      everything, the bin never pays out more than it holds nor better than its price. */
  lemma VisitBinBooks(rate: nat, onInput: bool, bin: Bin, price: nat, left: nat, y: bool)
    requires rate <= MAX_FEE && price > 0 && left > 0
    requires VisitBin(rate, onInput, bin, price, left, y).Some?
    ensures var h := VisitBin(rate, onInput, bin, price, left, y).value;
            && h.used <= h.taken <= left
            && h.used == Offered(rate, onInput, h.taken)
            && h.out <= h.gross <= Inventory(bin, y)
            && h.gross * Den(price, y) <= h.used * Num(price, y)
            && (h.taken < left ==> h.gross == Inventory(bin, y) && h.used == Costs(price, Inventory(bin, y), y))
            && h.out == (if onInput then h.gross else Net(rate, h.gross))
  {
    var inventory := Inventory(bin, y);
    var cost, offered := Costs(price, inventory, y), Offered(rate, onInput, left);
    OfferedTaken(rate, onInput, left, cost);
    BuysCosts(price, offered, inventory, y);
    var gross := Min(Buys(price, offered, y), inventory);
    NetMonotone(rate, gross, gross);
    var used := Min(offered, cost);
    FloorGalois(offered * Num(price, y), Den(price, y), Buys(price, offered, y));
    CeilGalois(inventory * Den(price, y), Num(price, y), cost);
    MulLe(gross, inventory, Den(price, y));
    MulLe(gross, Buys(price, offered, y), Den(price, y));
  }

  // ---- whole walks ----

  lemma VisitMonotone(s: Pair, id: int, a: nat, b: nat, y: bool)
    requires 0 < a <= b && Visit(s, id, b, y).Some?
    ensures Visit(s, id, a, y).Some?
    ensures var ha, hb := Visit(s, id, a, y).value, Visit(s, id, b, y).value;
            && ha.id == hb.id && ha.out <= hb.out && ha.taken <= a && (ha.taken < a ==> ha == hb)
  {
    hide VisitBin;
    FindByFirst(s.bins, IdOf, id);
    var bin := s.bins[FindBin(s.bins, id).value];
    PriceOfPositive(bin, s.cfg.fees.binStep);
    VisitBinMonotone(RateAt(s, id), FeeOnInput(s.cfg, y), bin, PriceOf(bin, s.cfg.fees.binStep).value, a, b, y);
  }

  /** p visits an initial run of the bins q visits, each like q except possibly the last one. */
  ghost predicate Shadows(p: seq<Hop>, q: seq<Hop>) {
    && |p| <= |q|
    && (forall i :: 0 <= i < |p| ==> p[i].id == q[i].id && p[i].out <= q[i].out)
    && (forall i :: 0 <= i < |p| - 1 ==> p[i] == q[i])
  }

  lemma {:induction false} WalkMonotone(s: Pair, id: int, a: nat, b: nat, y: bool, guard: nat)
    requires a <= b && Walk(s, id, b, y, guard).Some?
    ensures Walk(s, id, a, y, guard).Some?
    ensures Shadows(Walk(s, id, a, y, guard).value, Walk(s, id, b, y, guard).value)
    ensures TotalOut(Walk(s, id, a, y, guard).value) <= TotalOut(Walk(s, id, b, y, guard).value)
    decreases guard
  {
    hide Visit;
    if a == 0 {
    } else {
      VisitMonotone(s, id, a, b, y);
      var ha, hb := Visit(s, id, a, y).value, Visit(s, id, b, y).value;
      var restB := if hb.taken >= b then [] else Walk(s, Next(id, y), b - hb.taken, y, guard - 1).value;
      TotalOutCons(hb, restB);
      TotalOutCons(ha, []);
      if ha.taken < a {
        WalkMonotone(s, Next(id, y), a - ha.taken, b - hb.taken, y, guard - 1);
        var restA := Walk(s, Next(id, y), a - ha.taken, y, guard - 1).value;
        TotalOutCons(ha, restA);
        ShadowsCons(ha, restA, restB);
      }
      assert Walk(s, id, b, y, guard).value == [hb] + restB;
    }
  }

  lemma ShadowsCons(h: Hop, p: seq<Hop>, q: seq<Hop>)
    requires Shadows(p, q)
    ensures Shadows([h] + p, [h] + q)
  {
  }

  /** The quote is monotone and its domain is downward closed: if b quotes, every smaller positive
      input quotes on an initial run of the same bins, and buys no more. Both fee modes, both
      directions, any state. */
  lemma QuoteMonotone(s: Pair, a: nat, b: nat, y: bool)
    requires 0 < a <= b && Quote(s, b, y).Some?
    ensures Quote(s, a, y).Some? && Quote(s, a, y).value <= Quote(s, b, y).value
    ensures Shadows(Route(s, a, y).value, Route(s, b, y).value)
  {
    hide Visit;
    WalkMonotone(References(s), s.activeId, a, b, y, MAX_HOPS);
  }

  function TotalTaken(hops: seq<Hop>): nat { if hops == [] then 0 else hops[0].taken + TotalTaken(hops[1..]) }

  /** Inventory of the bin a quote would use for an id. */
  function Holds(s: Pair, id: int, y: bool): nat {
    FindByFirst(s.bins, IdOf, id);
    match FindBin(s.bins, id) case None => 0 case Some(k) => Inventory(s.bins[k], y)
  }

  /** The bin pays no better than its price, the cached or the computed one. */
  ghost predicate FairlyPriced(s: Pair, h: Hop, y: bool) {
    FindByFirst(s.bins, IdOf, h.id);
    match FindBin(s.bins, h.id)
    case None => false
    case Some(k) =>
      match PriceOf(s.bins[k], s.cfg.fees.binStep)
      case None => false
      case Some(price) => h.gross * Den(price, y) <= h.used * Num(price, y)
  }

  /** The books of one visited bin, read off the state. */
  ghost predicate Balanced(s: Pair, h: Hop, y: bool) {
    && h.used <= h.taken
    && h.used == Offered(RateAt(s, h.id), FeeOnInput(s.cfg, y), h.taken)
    && h.out <= h.gross <= Holds(s, h.id, y) && FairlyPriced(s, h, y)
    && h.out == (if FeeOnInput(s.cfg, y) then h.gross else Net(RateAt(s, h.id), h.gross))
  }

  lemma VisitBooks(s: Pair, id: int, left: nat, y: bool)
    requires left > 0 && Visit(s, id, left, y).Some?
    ensures var h := Visit(s, id, left, y).value;
            && h.id == id && h.taken <= left && Balanced(s, h, y)
            && (h.taken < left ==> h.gross == Holds(s, id, y))
  {
    hide VisitBin;
    FindByFirst(s.bins, IdOf, id);
    var bin := s.bins[FindBin(s.bins, id).value];
    PriceOfPositive(bin, s.cfg.fees.binStep);
    VisitBinBooks(RateAt(s, id), FeeOnInput(s.cfg, y), bin, PriceOf(bin, s.cfg.fees.binStep).value, left, y);
    VisitBinId(RateAt(s, id), FeeOnInput(s.cfg, y), bin, PriceOf(bin, s.cfg.fees.binStep).value, left, y);
  }

  lemma VisitBinId(rate: nat, onInput: bool, bin: Bin, price: nat, left: nat, y: bool)
    requires rate <= MAX_FEE && price > 0 && VisitBin(rate, onInput, bin, price, left, y).Some?
    ensures VisitBin(rate, onInput, bin, price, left, y).value.id == bin.id
  {
  }

  function BinAfter(id: int, i: nat, y: bool): int { if y then id - i else id + i }

  /** Every bin of a walk balances, the bins are consecutive, all but the last are emptied, the whole
      input is taken, and nothing is left to refuse. */
  ghost predicate WalkBooks(s: Pair, id: int, amount: nat, y: bool, guard: nat, hops: seq<Hop>) {
    && |hops| <= guard
    && TotalTaken(hops) == amount
    && (forall i :: 0 <= i < |hops| ==> hops[i].id == BinAfter(id, i, y) && Balanced(s, hops[i], y))
    && (forall i :: 0 <= i < |hops| - 1 ==> hops[i].gross == Holds(s, hops[i].id, y))
  }

  lemma {:induction false} WalkIsBalanced(s: Pair, id: int, amount: nat, y: bool, guard: nat)
    requires Walk(s, id, amount, y, guard).Some?
    ensures WalkBooks(s, id, amount, y, guard, Walk(s, id, amount, y, guard).value)
    decreases guard
  {
    hide Visit, Balanced, Holds;
    if amount == 0 {
    } else {
      VisitBooks(s, id, amount, y);
      var h := Visit(s, id, amount, y).value;
      if h.taken < amount {
        WalkIsBalanced(s, Next(id, y), amount - h.taken, y, guard - 1);
        var rest := Walk(s, Next(id, y), amount - h.taken, y, guard - 1).value;
        var hops := [h] + rest;
        assert hops[1..] == rest;
        forall j | 0 <= j < |hops|
          ensures hops[j].id == BinAfter(id, j, y) && Balanced(s, hops[j], y)
          ensures j < |hops| - 1 ==> hops[j].gross == Holds(s, hops[j].id, y)
        {
          if j > 0 {
            assert hops[j] == rest[j - 1];
            assert BinAfter(Next(id, y), j - 1, y) == BinAfter(id, j, y);
          }
        }
      } else {
        assert Walk(s, id, amount, y, guard).value == [h];
        assert [h][1..] == [];
        assert TotalTaken([h]) == h.taken;
      }
    }
  }

  /** Conservation and bounds of a successful quote: the input is exactly what the visited bins take,
      at most 256 consecutive distinct bins are visited, all but the last are emptied, and no bin pays
      out more than it holds or better than its price. */
  lemma QuoteConserves(s: Pair, amount: nat, y: bool)
    requires Route(s, amount, y).Some?
    ensures WalkBooks(References(s), s.activeId, amount, y, MAX_HOPS, Route(s, amount, y).value)
    ensures Quote(s, amount, y) == Some(TotalOut(Route(s, amount, y).value))
    ensures TotalOut(Route(s, amount, y).value) <= TotalHeld(References(s), s.activeId, |Route(s, amount, y).value|, y)
  {
    hide Visit;
    WalkIsBalanced(References(s), s.activeId, amount, y, MAX_HOPS);
    OutputHeld(References(s), s.activeId, Route(s, amount, y).value, y);
  }

  /** Combined inventory of n consecutive bins. */
  function TotalHeld(s: Pair, id: int, n: nat, y: bool): nat
    decreases n
  {
    if n == 0 then 0 else Holds(s, id, y) + TotalHeld(s, Next(id, y), n - 1, y)
  }

  lemma {:induction false} OutputHeld(s: Pair, id: int, hops: seq<Hop>, y: bool)
    requires forall i :: 0 <= i < |hops| ==> hops[i].id == BinAfter(id, i, y) && hops[i].out <= Holds(s, hops[i].id, y)
    ensures TotalOut(hops) <= TotalHeld(s, id, |hops|, y)
    decreases |hops|
  {
    hide Holds;
    if hops == [] {
    } else {
      forall i | 0 <= i < |hops| - 1 ensures hops[1..][i].id == BinAfter(Next(id, y), i, y) {
        assert BinAfter(Next(id, y), i, y) == BinAfter(id, i + 1, y);
      }
      assert hops[0].id == BinAfter(id, 0, y) == id;
      OutputHeld(s, Next(id, y), hops[1..], y);
    }
  }
}
