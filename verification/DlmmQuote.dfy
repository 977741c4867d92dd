/** The multi-bin DLMM quote: fill one bin, walk to the next, until the input is spent.
    Visit and Walk say in exact arithmetic what a bin and a run of bins do; ComputeFill and
    ComputeQuote are the kernel's code, proved to compute them. */
module DlmmQuote {
  import opened Rounding
  import opened FixedPoint
  import opened Fees
  import opened Volatility
  import opened Basics
  import BinPrice

  const MIN_BIN: int := -443636
  const MAX_BIN: int := 443636
  const MAX_HOPS: nat := 256

  function FeeOnInput(cfg: Config, swapForY: bool): bool {
    if cfg.collectFeeMode == 1 then !swapForY else true
  }

  function IdOf(bin: Bin): int { bin.id }

  function FindBin(bins: seq<Bin>, id: int): Option<nat> { FindBy(bins, IdOf, id) }

  function Inventory(bin: Bin, swapForY: bool): u64 { if swapForY then bin.y else bin.x }

  /** The price a quote uses for a bin: the cached one, or the computed one when none is cached. */
  function PriceOf(bin: Bin, binStep: nat): Option<nat> {
    if bin.price == 0 then BinPrice.PriceFromId(bin.id, binStep) else Some(bin.price)
  }

  lemma PriceOfPositive(bin: Bin, binStep: nat)
    ensures PriceOf(bin, binStep).Some? ==> PriceOf(bin, binStep).value > 0
  {
    BinPrice.PricePositive(bin.id, binStep);
  }

  // ---- one bin, in exact arithmetic ----

  /** Output bought by an unlimited bin. */
  function Buys(price: nat, amount: nat, swapForY: bool): nat
    requires price > 0
  {
    FloorGalois(amount * Num(price, swapForY), Den(price, swapForY), 0);
    amount * Num(price, swapForY) / Den(price, swapForY)
  }

  /** Smallest input that buys the given output. */
  function Costs(price: nat, out: nat, swapForY: bool): nat
    requires price > 0
  {
    CeilNonNeg(out * Den(price, swapForY), Num(price, swapForY));
    CeilDiv(out * Den(price, swapForY), Num(price, swapForY))
  }

  lemma BuysCosts(price: nat, amount: nat, out: nat, y: bool)
    requires price > 0
    ensures Costs(price, out, y) <= amount <==> out <= Buys(price, amount, y)
  {
    Adjoint(amount, out, Num(price, y), Den(price, y));
  }

  /** Input that reaches the bin after the fee, and input whose net is n. */
  function Offered(rate: nat, onInput: bool, left: nat): nat
    requires rate <= MAX_FEE
  {
    if onInput then Net(rate, left) else left
  }

  function Taken(rate: nat, onInput: bool, n: nat): nat
    requires rate <= MAX_FEE
  {
    if onInput then Gross(rate, n) else n
  }

  /** One visited bin: net input used, gross input taken, output before and after fee. */
  datatype Hop = Hop(id: int, used: nat, taken: nat, gross: nat, out: nat)

  /** What a quote does in one bin. A bin that can absorb the whole offer takes all that is left;
      otherwise it takes the smallest gross input whose net empties it. The visit is refused only
      when a fee or the emptying input exceeds 64 bits. */
  function VisitBin(rate: nat, onInput: bool, bin: Bin, price: nat, left: nat, swapForY: bool): Option<Hop>
    requires rate <= MAX_FEE && price > 0
  {
    var inventory := Inventory(bin, swapForY);
    var offered, cost := Offered(rate, onInput, left), Costs(price, inventory, swapForY);
    if left - offered > U64_MAX || (cost > U64_MAX && inventory > 0) then None
    else
      var gross := Min(Buys(price, offered, swapForY), inventory);
      var out := if onInput then gross else Net(rate, gross);
      if offered <= cost then Some(Hop(bin.id, offered, left, gross, out))
      else Some(Hop(bin.id, cost, Taken(rate, onInput, cost), gross, out))
  }

  function Visit(s: Pair, id: int, left: nat, swapForY: bool): Option<Hop> {
    FindByFirst(s.bins, IdOf, id);
    match FindBin(s.bins, id)
    case None => None
    case Some(k) =>
      match PriceOf(s.bins[k], s.cfg.fees.binStep)
      case None => None
      case Some(price) =>
        PriceOfPositive(s.bins[k], s.cfg.fees.binStep);
        VisitBin(RateAt(s, id), FeeOnInput(s.cfg, swapForY), s.bins[k], price, left, swapForY)
  }

  lemma OfferedTaken(rate: nat, onInput: bool, left: nat, n: nat)
    requires rate <= MAX_FEE
    ensures Taken(rate, onInput, n) <= left <==> n <= Offered(rate, onInput, left)
    ensures Offered(rate, onInput, Taken(rate, onInput, n)) == n
    ensures Offered(rate, onInput, left) <= left && n <= Taken(rate, onInput, n)
  {
    if onInput {
      GrossNetGalois(rate, left, n);
      NetOfGross(rate, n);
      NetMonotone(rate, left, left);
      NetMonotone(rate, Gross(rate, n), Gross(rate, n));
    }
  }

  // ---- a run of bins ----

  predicate AtEdge(id: int, swapForY: bool) { if swapForY then id <= MIN_BIN else id >= MAX_BIN }

  /** The bins visited from the given one on until the input is spent. */
  function Walk(s: Pair, id: int, left: nat, swapForY: bool, guard: nat): Option<seq<Hop>>
    decreases guard
  {
    if left == 0 then Some([])
    else if guard == 0 then None
    else
      match Visit(s, id, left, swapForY)
      case None => None
      case Some(h) =>
        if h.taken >= left then Some([h])
        else if AtEdge(id, swapForY) then None
        else
          match Walk(s, Next(id, swapForY), left - h.taken, swapForY, guard - 1)
          case None => None
          case Some(rest) => Some([h] + rest)
  }

  function TotalOut(hops: seq<Hop>): nat { if hops == [] then 0 else hops[0].out + TotalOut(hops[1..]) }

  function OutOf(hops: Option<seq<Hop>>): Option<nat> {
    match hops case None => None case Some(h) => Some(TotalOut(h))
  }

  /** The bins a quote visits, or None when it refuses. */
  function Route(s: Pair, amount: nat, swapForY: bool): Option<seq<Hop>> {
    if s.cfg.status != 0 || amount == 0 then None
    else Walk(References(s), s.activeId, amount, swapForY, MAX_HOPS)
  }

  function Quote(s: Pair, amount: nat, swapForY: bool): Option<nat> {
    OutOf(Route(s, amount, swapForY))
  }

  // ---- the code of one bin ----

  datatype Filled = Filled(used: nat, left: nat, out: nat)

  method ComputeFill(bin: Bin, price: nat, amount: nat, swapForY: bool) returns (r: Option<Filled>)
    requires price > 0
    ensures var inventory := Inventory(bin, swapForY);
            var cost := Costs(price, inventory, swapForY);
            r == if inventory > 0 && cost > U64_MAX then None
                 else Some(Filled(Min(amount, cost), amount - Min(amount, cost),
                                  Min(Buys(price, amount, swapForY), inventory)))
  {
    var maxOut := Inventory(bin, swapForY);
    BuysCosts(price, amount, maxOut, swapForY);
    BuysCosts(price, 0, maxOut, swapForY);
    if maxOut == 0 {
      return Some(Filled(0, amount, 0));
    }
    AmountInExact(maxOut, price, swapForY);
    var maxIn := AmountIn(maxOut, price, swapForY, true);
    if maxIn.None? {
      return None;
    }
    if amount >= maxIn.value {
      return Some(Filled(maxIn.value, amount - maxIn.value, maxOut));
    }
    AmountOutExact(amount, price, swapForY);
    var out := AmountOut(amount, price, swapForY);
    if out.None? {
      return None;
    }
    return Some(Filled(amount, 0, out.value));
  }

  /** The body of the kernel's loop for one bin. */
  method ComputeVisit(rate: nat, onInput: bool, bin: Bin, price: nat, left: nat, swapForY: bool)
    returns (r: Option<Hop>)
    requires rate <= MAX_FEE && price > 0 && left > 0
    ensures r == VisitBin(rate, onInput, bin, price, left, swapForY)
    ensures r.Some? ==> r.value.taken <= left
  {
    ghost var cost := Costs(price, Inventory(bin, swapForY), swapForY);
    FeeInGrossExact(rate, left);
    OfferedTaken(rate, onInput, left, cost);
    var excluded := left;
    if onInput {
      var f := FeeInGross(rate, left);
      if f.None? || f.value > left {
        return None;
      }
      excluded := left - f.value;
    }
    var filled := ComputeFill(bin, price, excluded, swapForY);
    if filled.None? {
      return None;
    }
    var out, included := filled.value.out, left;
    if filled.value.left > 0 {
      excluded := excluded - filled.value.left;
      if onInput {
        BuysCosts(price, 0, 0, swapForY);
        FeeOnNetExact(rate, excluded);
        var f := FeeOnNet(rate, excluded);
        if f.None? {
          return None;
        }
        included := excluded + f.value;
      } else {
        included := excluded;
      }
    }
    if !onInput {
      FeeInGrossExact(rate, out);
      var f := FeeInGross(rate, out);
      if f.None? || f.value > out {
        return None;
      }
      out := out - f.value;
    }
    if included > left {
      return None;
    }
    return Some(Hop(bin.id, filled.value.used, included, filled.value.out, out));
  }

  /** Two states that differ only in cached prices and in the stored accumulator. */
  ghost predicate SameQuotes(s: Pair, t: Pair) {
    && s.cfg == t.cfg && s.volRef == t.volRef && s.idxRef == t.idxRef && |s.bins| == |t.bins|
    && forall k :: 0 <= k < |s.bins| ==>
         && s.bins[k].id == t.bins[k].id && s.bins[k].x == t.bins[k].x && s.bins[k].y == t.bins[k].y
         && PriceOf(s.bins[k], s.cfg.fees.binStep) == PriceOf(t.bins[k], s.cfg.fees.binStep)
  }

  /** A visit does not depend on where the price of the bin is cached. */
  lemma VisitSame(s: Pair, t: Pair, id: int, left: nat, y: bool)
    requires SameQuotes(s, t)
    ensures match FindBin(t.bins, id)
            case None => Visit(s, id, left, y) == None
            case Some(k) =>
              && k < |t.bins|
              && match PriceOf(t.bins[k], s.cfg.fees.binStep)
                 case None => Visit(s, id, left, y) == None
                 case Some(price) =>
                   price > 0 && Visit(s, id, left, y)
                                == VisitBin(RateAt(s, id), FeeOnInput(s.cfg, y), t.bins[k], price, left, y)
  {
    hide PriceOf, RateAt, Buys, Costs, Offered, Taken, FeeOnInput;
    FindBySame(s.bins, t.bins, IdOf, id);
    FindByFirst(t.bins, IdOf, id);
    FindByFirst(s.bins, IdOf, id);
    match FindBin(t.bins, id) {
      case None =>
      case Some(k) => PriceOfPositive(t.bins[k], s.cfg.fees.binStep);
    }
  }

  /** Caching the price of a bin, moving on and updating the accumulator keep all quotes. */
  lemma CacheKeeps(s: Pair, t: Pair, k: nat, price: nat)
    requires SameQuotes(s, t) && k < |t.bins| && t.bins[k].price == 0 && price > 0
    requires PriceOf(t.bins[k], s.cfg.fees.binStep) == Some(price)
    ensures SameQuotes(s, t.(bins := t.bins[k := t.bins[k].(price := price)]))
  {
    hide BinPrice.PriceFromId;
  }

  lemma SameQuotesElsewhere(s: Pair, t: Pair, id: int, volAcc: nat)
    requires SameQuotes(s, t)
    ensures SameQuotes(s, t.(activeId := id, volAcc := volAcc))
  {
    hide PriceOf;
  }

  /** One turn of the kernel's loop in the active bin: find it, cache its price, update the
      volatility accumulator and fill. */
  method VisitActive(after: Dlmm, ghost s0: Pair, left: nat, swapForY: bool) returns (r: Option<Hop>)
    requires left > 0 && SameQuotes(s0, after.State())
    modifies after`bins, after`volAcc
    ensures SameQuotes(s0, after.State())
    ensures r == Visit(s0, after.activeId, left, swapForY)
    ensures r.Some? ==> r.value.taken <= left
  {
    hide Visit, VisitBin, BinPrice.PriceFromId;
    VisitSame(s0, after.State(), after.activeId, left, swapForY);
    var k := FindBin(after.bins, after.activeId);
    if k.None? {
      return None;
    }
    var bin := after.bins[k.value];
    if bin.price == 0 {
      var p := BinPrice.ComputePrice(bin.id, after.cfg.fees.binStep);
      if p.None? {
        return None;
      }
      CacheKeeps(s0, after.State(), k.value, p.value);
      bin := bin.(price := p.value);
      after.bins := after.bins[k.value := bin];
    }
    VisitBinIgnoresPrice(RateAt(s0, after.activeId), FeeOnInput(s0.cfg, swapForY), bin,
                         old(after.bins[k.value]), bin.price, left, swapForY);
    hide SameQuotes;
    SameQuotesFields(s0, after.State());
    ghost var t := after.State();
    after.UpdateVolatility();
    SameQuotesElsewhere(s0, t, after.activeId, after.volAcc);
    r := ComputeVisit(TotalFeeRate(after.cfg.fees, after.volAcc), FeeOnInput(after.cfg, swapForY),
                      bin, bin.price, left, swapForY);
  }

  lemma SameQuotesFields(s: Pair, t: Pair)
    requires SameQuotes(s, t)
    ensures s.cfg == t.cfg && s.volRef == t.volRef && s.idxRef == t.idxRef
  {
  }

  lemma VisitBinIgnoresPrice(rate: nat, onInput: bool, b: Bin, c: Bin, price: nat, left: nat, y: bool)
    requires rate <= MAX_FEE && price > 0 && b.id == c.id && b.x == c.x && b.y == c.y
    ensures VisitBin(rate, onInput, b, price, left, y) == VisitBin(rate, onInput, c, price, left, y)
  {
    hide Buys, Costs, Offered, Taken;
  }

  /** The output of a whole walk once some output has been collected already. */
  function Collected(soFar: nat, rest: Option<nat>): Option<nat> {
    match rest case None => None case Some(out) => Some(soFar + out)
  }

  lemma WalkUnfolds(s: Pair, id: int, left: nat, y: bool, guard: nat)
    requires left > 0 && guard > 0
    ensures OutOf(Walk(s, id, left, y, guard)) ==
            match Visit(s, id, left, y)
            case None => None
            case Some(h) =>
              if h.taken >= left then Some(h.out)
              else if AtEdge(id, y) then None
              else Collected(h.out, OutOf(Walk(s, Next(id, y), left - h.taken, y, guard - 1)))
  {
    hide Visit;
    var v := Visit(s, id, left, y);
    if v.Some? {
      var h := v.value;
      TotalOutCons(h, []);
      if h.taken < left && !AtEdge(id, y) {
        var rest := Walk(s, Next(id, y), left - h.taken, y, guard - 1);
        if rest.Some? {
          TotalOutCons(h, rest.value);
        }
      }
    }
  }

  lemma TotalOutCons(h: Hop, rest: seq<Hop>)
    ensures TotalOut([h] + rest) == h.out + TotalOut(rest)
    ensures TotalOut([h]) == h.out
  {
    assert ([h] + rest)[1..] == rest;
  }

  /** The bin loop, run on the clone. */
  method WalkBins(after: Dlmm, ghost s0: Pair, amount: nat, swapForY: bool) returns (r: Option<nat>)
    requires SameQuotes(s0, after.State())
    modifies after
    ensures r == OutOf(Walk(s0, old(after.activeId), amount, swapForY, MAX_HOPS))
  {
    hide Visit, SameQuotes, Walk, OutOf, AtEdge, Next;
    var left: nat, totalOut: nat, guard: nat := amount, 0, 0;
    ghost var expected := OutOf(Walk(s0, after.activeId, amount, swapForY, MAX_HOPS));
    while left > 0 && guard < MAX_HOPS
      invariant guard <= MAX_HOPS
      invariant SameQuotes(s0, after.State())
      invariant expected == Collected(totalOut, OutOf(Walk(s0, after.activeId, left, swapForY, MAX_HOPS - guard)))
    {
      WalkUnfolds(s0, after.activeId, left, swapForY, MAX_HOPS - guard);
      guard := guard + 1;
      var hop := VisitActive(after, s0, left, swapForY);
      if hop.None? {
        return None;
      }
      left := left - hop.value.taken;
      totalOut := totalOut + hop.value.out;
      if left == 0 {
        WalkEnds(s0, after.activeId, left, swapForY, MAX_HOPS - guard);
      } else {
        if AtEdge(after.activeId, swapForY) {
          return None;
        }
        ghost var t := after.State();
        after.activeId := Next(after.activeId, swapForY);
        SameQuotesElsewhere(s0, t, after.activeId, after.volAcc);
      }
    }
    WalkEnds(s0, after.activeId, left, swapForY, MAX_HOPS - guard);
    if left > 0 {
      return None;
    }
    return Some(totalOut);
  }

  lemma WalkEnds(s: Pair, id: int, left: nat, y: bool, guard: nat)
    ensures left == 0 ==> OutOf(Walk(s, id, left, y, guard)) == Some(0)
    ensures left > 0 && guard == 0 ==> OutOf(Walk(s, id, left, y, guard)) == None
  {
  }

  /** The kernel's quote: references on a clone, then the bin loop. */
  method ComputeQuote(s: Pair, amount: nat, swapForY: bool) returns (r: Option<nat>)
    ensures r == Quote(s, amount, swapForY)
  {
    if s.cfg.status != 0 || amount == 0 {
      return None;
    }
    var after := new Dlmm.Clone(s);
    after.UpdateReferences();
    r := WalkBins(after, References(s), amount, swapForY);
  }
}
