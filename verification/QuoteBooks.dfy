/** The quote read in plain numbers: what one hop is, without any of the kernel's functions for fees,
    rates and prices, and which hops a quote makes. */
module QuoteBooks {
  import opened Rounding
  import opened Basics
  import opened FixedPoint
  import opened Fees
  import opened Volatility
  import opened DlmmQuote
  import opened QuoteLaws
  import BinPrice

  // ---- one bin ----

  /** The bin pays out the most that its price and its inventory allow for the net input. */
  ghost predicate PaysMost(price: nat, used: nat, gross: nat, held: nat, y: bool) {
    if y then
      gross <= held && gross * 18_446_744_073_709_551_616 <= used * price
      && (gross == held || used * price < (gross + 1) * 18_446_744_073_709_551_616)
    else
      gross <= held && gross * price <= used * 18_446_744_073_709_551_616
      && (gross == held || used * 18_446_744_073_709_551_616 < (gross + 1) * price)
  }

  /** The least net input that buys everything the bin holds. */
  ghost predicate Empties(price: nat, used: int, held: nat, y: bool) {
    if y then Least(used, price, held * 18_446_744_073_709_551_616)
    else Least(used, 18_446_744_073_709_551_616, held * price)
  }

  /** One net unit less than used does not buy more than the bin holds. */
  ghost predicate NoneWasted(price: nat, used: int, held: nat, y: bool) {
    if y then (used - 1) * price < held * 18_446_744_073_709_551_616
    else (used - 1) * 18_446_744_073_709_551_616 < held * price
  }

  /** What a hop with the given input left is. The fee is taken from the input or from the output; its
      amount on the whole input left, and the net price of the whole bin, must fit 64 bits. Either the
      bin absorbs all that is left, or it is emptied with the least input whose net empties it. */
  ghost predicate HopIs(rate: nat, onInput: bool, price: nat, held: nat, left: nat, y: bool, h: Hop) {
    && (onInput ==> left * rate <= 18_446_744_073_709_551_615 * 1_000_000_000)
    && (if y then held * 18_446_744_073_709_551_616 <= 18_446_744_073_709_551_615 * price
        else held * price <= 18_446_744_073_709_551_615 * 18_446_744_073_709_551_616)
    && PaysMost(price, h.used, h.gross, held, y)
    && (if onInput then h.out == h.gross else Least(h.gross - h.out, 1_000_000_000, h.gross * rate))
    && (Ends(rate, onInput, price, held, left, y, h) || Passes(rate, onInput, price, held, left, y, h))
  }

  ghost predicate Ends(rate: nat, onInput: bool, price: nat, held: nat, left: nat, y: bool, h: Hop) {
    && h.taken == left
    && (if onInput then Least(left - h.used, 1_000_000_000, left * rate) else h.used == left)
    && NoneWasted(price, h.used, held, y)
  }

  ghost predicate Passes(rate: nat, onInput: bool, price: nat, held: nat, left: nat, y: bool, h: Hop) {
    && Empties(price, h.used, held, y)
    && (if onInput then
          && Least(h.taken - h.used, 1_000_000_000 - rate, h.used * rate)
          && left * rate <= (left - h.used - 1) * 1_000_000_000
        else h.taken == h.used < left)
  }

  function Held(bin: Bin, y: bool): nat { if y then bin.y else bin.x }

  lemma PaysMostIs(price: nat, used: nat, gross: nat, held: nat, y: bool)
    requires price > 0
    ensures PaysMost(price, used, gross, held, y) <==> gross == Min(Buys(price, used, y), held)
  {
    var num, den := Num(price, y), Den(price, y);
    FloorGalois(used * num, den, gross);
    FloorGalois(used * num, den, gross + 1);
    FloorGalois(used * num, den, held);
  }

  lemma EmptiesIs(price: nat, used: int, held: nat, y: bool)
    requires price > 0
    ensures Empties(price, used, held, y) <==> used == Costs(price, held, y)
    ensures NoneWasted(price, used, held, y) <==> used <= Costs(price, held, y)
  {
    LeastIsCeil(used, Num(price, y), held * Den(price, y));
    CeilGalois(held * Den(price, y), Num(price, y), used - 1);
    hide CeilDiv;
  }

  lemma CostFits(price: nat, held: nat, y: bool)
    requires price > 0
    ensures Costs(price, held, y) <= U64_MAX <==>
            if y then held * 18_446_744_073_709_551_616 <= 18_446_744_073_709_551_615 * price
            else held * price <= 18_446_744_073_709_551_615 * 18_446_744_073_709_551_616
    ensures held == 0 ==> Costs(price, held, y) == 0
  {
    CeilGalois(held * Den(price, y), Num(price, y), U64_MAX);
    CeilGalois(held * Den(price, y), Num(price, y), 0);
    hide CeilDiv;
  }

  lemma NetIs(rate: nat, left: nat, n: int)
    requires rate <= MAX_FEE
    ensures Least(left - n, 1_000_000_000, left * rate) <==> n == Net(rate, left)
    ensures left * rate <= (left - n - 1) * 1_000_000_000 <==> n < Net(rate, left)
    ensures left - Net(rate, left) <= U64_MAX <==> left * rate <= 18_446_744_073_709_551_615 * 1_000_000_000
  {
    var k := n + 1;
    GapExact(rate, left, n);
    GapExact(rate, left, k);
    GapExact(rate, left, left - U64_MAX);
    CeilGalois(left * rate, 1_000_000_000, left - n);
    CeilGalois(left * rate, 1_000_000_000, left - k);
    CeilGalois(left * rate, 1_000_000_000, U64_MAX);
    hide CeilDiv, Net;
  }

  lemma TakenIs(rate: nat, used: nat, taken: int)
    requires rate <= MAX_FEE
    ensures Least(taken - used, 1_000_000_000 - rate, used * rate) <==> taken == Gross(rate, used)
  {
    SurchargeExact(rate, used, taken - used);
    SurchargeExact(rate, used, taken - used - 1);
    LeastIsCeil(taken - used, 1_000_000_000 - rate, used * rate);
    hide CeilDiv, Gross;
  }


  /** A visit is refused, or is exactly the hop described. */
  lemma VisitBinIs(rate: nat, onInput: bool, bin: Bin, price: nat, left: nat, y: bool, h: Hop)
    requires rate <= MAX_FEE && price > 0 && left > 0
    ensures VisitBin(rate, onInput, bin, price, left, y) == Some(h)
            <==> h.id == bin.id && HopIs(rate, onInput, price, Held(bin, y), left, y, h)
    ensures HopIs(rate, onInput, price, Held(bin, y), left, y, h) ==> h.taken <= left
  {
    var held := Held(bin, y);
    var cost, offered := Costs(price, held, y), Offered(rate, onInput, left);
    CostFits(price, held, y);
    NetIs(rate, left, h.used);
    NetIs(rate, h.gross, h.out);
    TakenIs(rate, h.used, h.taken);
    EmptiesIs(price, h.used, held, y);
    PaysMostIs(price, h.used, h.gross, held, y);
    BuysCosts(price, cost, held, y);
    BuysCosts(price, offered, held, y);
    OfferedTaken(rate, onInput, left, h.used);
    hide Least, PaysMost, Empties, NoneWasted, Costs, Buys, Net, Gross;
  }

  // ---- one bin of a pair ----

  /** The first bin with the id, with the price it is quoted at. */
  ghost predicate Offers(s: Pair, id: int, k: nat, price: nat) {
    && k < |s.bins| && s.bins[k].id == id && (forall j :: 0 <= j < k ==> s.bins[j].id != id)
    && (if s.bins[k].price != 0 then price == s.bins[k].price
        else BinPrice.PriceFromId(id, s.cfg.fees.binStep) == Some(price))
  }

  /** The hop of a quote in the bin with the given id: the rate is that of the distance from the
      reference bin, the fee is on the output only in mode 1 and towards y. */
  ghost predicate HopAt(s: Pair, id: int, left: nat, y: bool, h: Hop) {
    exists k: nat, price: nat, acc: nat, rate: nat ::
      && k < |s.bins| && Offers(s, id, k, price) && AccumulatorIs(s, id, acc) && RateIs(s.cfg.fees, acc, rate)
      && h.id == id
      && HopIs(rate, !(s.cfg.collectFeeMode == 1 && y), price, Held(s.bins[k], y), left, y, h)
  }

  lemma OffersIs(s: Pair, id: int, k: nat, price: nat)
    ensures Offers(s, id, k, price) <==>
            FindBin(s.bins, id) == Some(k) && k < |s.bins| && PriceOf(s.bins[k], s.cfg.fees.binStep) == Some(price)
  {
    hide BinPrice.PriceFromId;
    FindByFirst(s.bins, IdOf, id);
  }

  lemma VisitIs(s: Pair, id: int, left: nat, y: bool, h: Hop)
    requires left > 0
    ensures Visit(s, id, left, y) == Some(h) <==> HopAt(s, id, left, y, h)
    ensures HopAt(s, id, left, y, h) ==> h.taken <= left
  {
    hide Offers, RateIs, HopIs, VisitBin, PriceOf;
    var acc, rate := Accumulator(s, id), RateAt(s, id);
    AccumulatorOfHop(s, id);
    FeeRateIs(s.cfg.fees, acc);
    FindByFirst(s.bins, IdOf, id);
    if Visit(s, id, left, y) == Some(h) {
      var k := FindBin(s.bins, id).value;
      var price := PriceOf(s.bins[k], s.cfg.fees.binStep).value;
      OffersIs(s, id, k, price);
      PriceOfPositive(s.bins[k], s.cfg.fees.binStep);
      VisitBinIs(rate, FeeOnInput(s.cfg, y), s.bins[k], price, left, y, h);
      VisitBinId(rate, FeeOnInput(s.cfg, y), s.bins[k], price, left, y);
    }
    if HopAt(s, id, left, y, h) {
      var k: nat, price: nat, acc': nat, rate': nat :|
        && k < |s.bins| && Offers(s, id, k, price) && AccumulatorIs(s, id, acc') && RateIs(s.cfg.fees, acc', rate')
        && h.id == id
        && HopIs(rate', !(s.cfg.collectFeeMode == 1 && y), price, Held(s.bins[k], y), left, y, h);
      RateIsUnique(s.cfg.fees, acc', rate');
      OffersIs(s, id, k, price);
      PriceOfPositive(s.bins[k], s.cfg.fees.binStep);
      VisitBinIs(rate, FeeOnInput(s.cfg, y), s.bins[k], price, left, y, h);
    }
  }

  // ---- whole quotes ----

  /** Hops from the given bin on, each in the next bin, none beyond the ids from -443_636 to 443_636, all
      but the last leaving some input over and the last one taking the rest. */
  ghost predicate HopsFrom(s: Pair, id: int, left: nat, y: bool, hops: seq<Hop>)
    decreases |hops|
  {
    && hops != [] && HopAt(s, id, left, y, hops[0])
    && (if |hops| == 1 then hops[0].taken == left
        else
          && hops[0].taken < left
          && (if y then -443_636 <= id - 1 else id + 1 <= 443_636)
          && HopsFrom(s, if y then id - 1 else id + 1, left - hops[0].taken, y, hops[1..]))
  }

  lemma {:induction false} WalkIs(s: Pair, id: int, left: nat, y: bool, guard: nat, hops: seq<Hop>)
    requires left > 0
    ensures Walk(s, id, left, y, guard) == Some(hops) <==> |hops| <= guard && HopsFrom(s, id, left, y, hops)
    decreases guard
  {
    hide Visit, HopAt;
    if guard == 0 || hops == [] {
    } else {
      var tail := hops[1..];
      VisitIs(s, id, left, y, hops[0]);
      if Visit(s, id, left, y).Some? {
        var h := Visit(s, id, left, y).value;
        VisitIs(s, id, left, y, h);
        if h.taken < left {
          WalkIs(s, Next(id, y), left - h.taken, y, guard - 1, tail);
          var rest := Walk(s, Next(id, y), left - h.taken, y, guard - 1);
          if rest.Some? {
            ConsIs(h, rest.value, hops);
          }
        } else {
          ConsIs(h, [], hops);
        }
      }
    }
  }

  lemma ConsIs(h: Hop, rest: seq<Hop>, hops: seq<Hop>)
    requires hops != []
    ensures [h] + rest == hops <==> h == hops[0] && rest == hops[1..]
    ensures [h] == hops <==> h == hops[0] && |hops| == 1
  {
    assert hops == [hops[0]] + hops[1..];
    assert ([h] + rest)[1..] == rest;
  }

  /** What a quote does, and when it does it: it visits the hops described, at most 256 of them, in a pair
      that is enabled, and is refused when there are none. */
  lemma RouteIs(s: Pair, amount: nat, y: bool, hops: seq<Hop>)
    ensures Route(s, amount, y) == Some(hops) <==>
            s.cfg.status == 0 && amount > 0 && |hops| <= 256 && HopsFrom(References(s), s.activeId, amount, y, hops)
    ensures ReferencesAre(s, References(s))
  {
    hide Walk, HopsFrom, References;
    ReferencesOf(s);
    if amount > 0 {
      WalkIs(References(s), s.activeId, amount, y, 256, hops);
    }
  }

  // ---- every hop of a quote ----

  lemma {:induction false} HopsInTurn(s: Pair, id: int, left: nat, y: bool, hops: seq<Hop>, i: nat)
    requires HopsFrom(s, id, left, y, hops) && i < |hops|
    ensures 0 <= left - TotalTaken(hops[..i])
    ensures HopAt(s, if y then id - i else id + i, left - TotalTaken(hops[..i]), y, hops[i])
    decreases i
  {
    hide HopAt;
    if i == 0 {
      assert hops[..0] == [];
    } else {
      HopsInTurn(s, if y then id - 1 else id + 1, left - hops[0].taken, y, hops[1..], i - 1);
      assert hops[..i][0] == hops[0] && hops[..i][1..] == hops[1..][..i - 1];
    }
  }

  /** The hop of a bin charged for the given accumulator. */
  ghost predicate ChargedFor(s: Pair, id: int, acc: nat, left: nat, y: bool, h: Hop) {
    exists k: nat, price: nat, rate: nat ::
      && k < |s.bins| && Offers(s, id, k, price) && RateIs(s.cfg.fees, acc, rate)
      && HopIs(rate, !(s.cfg.collectFeeMode == 1 && y), price, Held(s.bins[k], y), left, y, h)
  }

  /** A quote that starts at the reference bin charges hop i for an accumulator of i times 10_000 above the
      reference, up to the cap. */
  lemma ChargedByDistance(s: Pair, left: nat, y: bool, hops: seq<Hop>, i: nat)
    requires HopsFrom(s, s.idxRef, left, y, hops) && i < |hops|
    ensures 0 <= left - TotalTaken(hops[..i])
    ensures ChargedFor(s, if y then s.idxRef - i else s.idxRef + i, Min(s.volRef + 10_000 * i, s.cfg.maxVolAcc),
                       left - TotalTaken(hops[..i]), y, hops[i])
  {
    HopsInTurn(s, s.idxRef, left, y, hops, i);
    hide HopsFrom, HopIs, RateIs, Offers;
  }

  /** What a quote pays is what its hops pay, each once. */
  lemma {:induction false} PaysEveryHop(hops: seq<Hop>, h: Hop)
    ensures TotalOut([]) == 0 && TotalOut(hops + [h]) == TotalOut(hops) + h.out
  {
    if hops == [] {
      assert [] + [h] == [h] && [h][1..] == [];
    } else {
      assert (hops + [h])[1..] == hops[1..] + [h];
      PaysEveryHop(hops[1..], h);
    }
  }

  // ---- two bins ----

  const TWO_FEES := FeeParams(100, 0, 0, 1_000_000)
  const TWO_BINS := Pair(Config(TWO_FEES, 0, 0, 0, 0, 1_000_000, 0, 0), 0, 0, 0, 0, 0,
                         [Bin(0, 0, 100, 18_446_744_073_709_551_616), Bin(-1, 0, 10_000, 18_446_744_073_709_551_616)])

  lemma FirstHop()
    ensures HopAt(TWO_BINS, 0, 1_000, true, Hop(0, 100, 100, 100, 100))
  {
    assert Offers(TWO_BINS, 0, 0, 18_446_744_073_709_551_616);
    assert AccumulatorIs(TWO_BINS, 0, 0);
    assert Least(0, 100_000_000_000, 1_000_000 * (0 * 100) * (0 * 100));
    assert RateIs(TWO_FEES, 0, 0);
    assert HopIs(0, true, 18_446_744_073_709_551_616, 100, 1_000, true, Hop(0, 100, 100, 100, 100));
    hide Offers, HopIs, RateIs, AccumulatorIs;
  }

  lemma SecondHop()
    ensures HopAt(TWO_BINS, -1, 900, true, Hop(-1, 891, 900, 891, 891))
  {
    assert Offers(TWO_BINS, -1, 1, 18_446_744_073_709_551_616);
    assert AccumulatorIs(TWO_BINS, -1, 10_000);
    assert Least(10_000_000, 100_000_000_000, 1_000_000 * (10_000 * 100) * (10_000 * 100));
    assert RateIs(TWO_FEES, 10_000, 10_000_000);
    assert HopIs(10_000_000, true, 18_446_744_073_709_551_616, 10_000, 900, true, Hop(-1, 891, 900, 891, 891));
    hide Offers, HopIs, RateIs, AccumulatorIs;
  }

  /** Two bins at price one, without a base fee: the second one is charged one per cent. */
  lemma SecondBinIsDearer()
    ensures Quote(TWO_BINS, 1_000, true) == Some(991)
  {
    hide HopAt, TWO_BINS, Route, References;
    var h, k := Hop(0, 100, 100, 100, 100), Hop(-1, 891, 900, 891, 891);
    var hops := [h, k];
    FirstHop();
    SecondHop();
    assert hops[1..] == [k] && hops == [h] + [k];
    assert HopsFrom(TWO_BINS, -1, 900, true, [k]);
    assert HopsFrom(TWO_BINS, 0, 1_000, true, hops);
    TwoBinsFresh();
    RouteIs(TWO_BINS, 1_000, true, hops);
    TotalOutCons(h, [k]);
  }

  lemma TwoBinsFresh()
    ensures References(TWO_BINS) == TWO_BINS && TWO_BINS.cfg.status == 0 && TWO_BINS.activeId == 0
  {
  }
}
