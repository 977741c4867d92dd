/** The mutable bins and state of the order-aware fill, proved against OrderFill. */
module OrderBook {
  import opened Rounding
  import opened Basics
  import opened OrderFill

  class OBin {
    var id: int
    var amountX: nat
    var amountY: nat
    var processed: nat
    var open: nat
    var askSide: bool
    var price: nat

    function V(): BinV
      reads this
    {
      BinV(id, amountX, amountY, processed, open, askSide, price)
    }

    constructor (b: BinV)
      ensures V() == b
    {
      id, amountX, amountY, processed, open, askSide, price := b.id, b.x, b.y, b.processed, b.open, b.askSide, b.price;
    }
  }

  class OState {
    var activeId: int
    var functionType: nat
    var rewardMask: nat
    var reserveX: int
    var reserveY: int
    var bins: seq<OBin>

    function BinsV(): seq<BinV>
      reads this, bins
    {
      seq(|bins|, i requires 0 <= i < |bins| reads this, bins => bins[i].V())
    }

    function V(): StateV
      reads this, bins
    {
      StateV(activeId, functionType, rewardMask, reserveX, reserveY, BinsV())
    }

    ghost predicate Distinct()
      reads this
    {
      forall i, j :: 0 <= i < j < |bins| ==> bins[i] != bins[j]
    }

    /** A copy with bins of its own. */
    constructor Copy(before: OState)
      ensures V() == before.V() && Distinct() && fresh(bins)
    {
      activeId, functionType, rewardMask := before.activeId, before.functionType, before.rewardMask;
      reserveX, reserveY, bins := before.reserveX, before.reserveY, [];
      new;
      for i := 0 to |before.bins|
        invariant |bins| == i && fresh(bins) && Distinct()
        invariant activeId == before.activeId && functionType == before.functionType && rewardMask == before.rewardMask
        invariant reserveX == before.reserveX && reserveY == before.reserveY
        invariant forall j :: 0 <= j < i ==> bins[j].V() == before.bins[j].V()
      {
        var b := new OBin(before.bins[i].V());
        bins := bins + [b];
      }
      assert BinsV() == before.BinsV();
    }
  }

  datatype Portion = Portion(input: nat, left: nat, out: nat)

  /** Fill against one layer; None when the price is one the kernel cannot convert. */
  function FillAgainst(maxOut: nat, amount: nat, price: nat): Option<Portion> {
    if maxOut == 0 then Some(Portion(0, amount, 0))
    else if price != Q1 then None
    else if amount >= maxOut then Some(Portion(maxOut, amount - maxOut, maxOut))
    else Some(Portion(amount, 0, amount))
  }

  datatype Fill = Fill(mmIn: nat, mmOut: nat, procIn: nat, procOut: nat, openIn: nat, openOut: nat,
                       usedIn: nat, left: nat, out: nat)

  /** Filling a bin splits the amount exactly as FillLayers does, at one unit in per unit out. */
  method FillBin(bin: OBin, amount: nat, swapForY: bool, on: bool) returns (r: Option<Fill>)
    ensures r.Some? <==> Priced(bin.V(), swapForY, on)
    ensures r.Some? ==>
              var f, l := r.value, FillLayers(bin.V(), amount, swapForY, on);
              && f.mmOut == l.mm && f.procOut == l.processed && f.openOut == l.open && f.left == l.unfilled
              && f.mmIn == f.mmOut && f.procIn == f.procOut && f.openIn == f.openOut
              && f.usedIn == f.out == Min(amount, Available(bin.V(), swapForY, on))
  {
    LayersInOrder(bin.V(), amount, swapForY, on);
    var mm := FillAgainst(MmAmount(bin.V(), swapForY), amount, bin.price);
    if mm.None? {
      return None;
    }
    var proc := FillAgainst(if on then ProcessedAmount(bin.V(), swapForY) else 0, mm.value.left, bin.price);
    if proc.None? {
      return None;
    }
    var open := FillAgainst(if on then OpenAmount(bin.V(), swapForY) else 0, proc.value.left, bin.price);
    if open.None? {
      return None;
    }
    return Some(Fill(mm.value.input, mm.value.out, proc.value.input, proc.value.out, open.value.input, open.value.out,
                     mm.value.input + proc.value.input + open.value.input, open.value.left,
                     mm.value.out + proc.value.out + open.value.out));
  }

  datatype ApplyError = NoError | MmInventory | OrderInventory

  /** Debits each layer of the bin separately and moves the reserves. It complains about a fill that
      takes more than a layer holds: about the MM layer before anything has changed, about the order
      layers when the MM layer and the reserves have moved already. */
  method ApplyFill(bin: OBin, s: OState, swapForY: bool, f: Fill) returns (error: ApplyError)
    modifies bin`amountX, bin`amountY, bin`processed, bin`open, s`reserveX, s`reserveY
    ensures error == if old(MmAmount(bin.V(), swapForY)) < f.mmOut then MmInventory
                     else if old(bin.processed) < f.procOut || old(bin.open) < f.openOut then OrderInventory
                     else NoError
    ensures error == MmInventory ==>
              bin.V() == old(bin.V()) && s.reserveX == old(s.reserveX) && s.reserveY == old(s.reserveY)
    ensures bin.processed == (if error == NoError then old(bin.processed) - f.procOut else old(bin.processed))
    ensures bin.open == (if error == NoError then old(bin.open) - f.openOut else old(bin.open))
    ensures error != MmInventory ==>
              && bin.amountX == (if swapForY then old(bin.amountX) + f.mmIn else old(bin.amountX) - f.mmOut)
              && bin.amountY == (if swapForY then old(bin.amountY) - f.mmOut else old(bin.amountY) + f.mmIn)
              && s.reserveX == (if swapForY then old(s.reserveX) + f.usedIn else old(s.reserveX) - f.out)
              && s.reserveY == (if swapForY then old(s.reserveY) - f.out else old(s.reserveY) + f.usedIn)
  {
    if swapForY {
      if bin.amountY < f.mmOut {
        return MmInventory;
      }
      bin.amountY := bin.amountY - f.mmOut;
      bin.amountX := bin.amountX + f.mmIn;
      s.reserveY := s.reserveY - f.out;
      s.reserveX := s.reserveX + f.usedIn;
    } else {
      if bin.amountX < f.mmOut {
        return MmInventory;
      }
      bin.amountX := bin.amountX - f.mmOut;
      bin.amountY := bin.amountY + f.mmIn;
      s.reserveX := s.reserveX - f.out;
      s.reserveY := s.reserveY + f.usedIn;
    }
    if bin.processed < f.procOut || bin.open < f.openOut {
      return OrderInventory;
    }
    bin.processed := bin.processed - f.procOut;
    bin.open := bin.open - f.openOut;
    return NoError;
  }

  /** First bin object with the given id. */
  method Find(s: OState, id: int) returns (k: Option<nat>)
    ensures k == FindBin(s.BinsV(), id)
  {
    for i := 0 to |s.bins|
      invariant match FindBin(s.BinsV()[i..], id)
                case None => FindBin(s.BinsV(), id) == None
                case Some(j) => FindBin(s.BinsV(), id) == Some(i + j)
    {
      assert s.BinsV()[i..][1..] == s.BinsV()[i + 1..];
      if s.bins[i].id == id {
        return Some(i);
      }
    }
    return None;
  }

  /** A bin whose layers were debited as FillLayers says is the bin after a take. */
  lemma TakeIsLayered(b: BinV, wanted: nat, after: BinV, y: bool, on: bool)
    requires var l := FillLayers(b, wanted, y, on);
             && l.mm <= MmAmount(b, y) && l.processed <= b.processed && l.open <= b.open
             && after == b.(x := if y then b.x + l.mm else b.x - l.mm, y := if y then b.y - l.mm else b.y + l.mm,
                            processed := b.processed - l.processed, open := b.open - l.open)
    ensures after == Take(b, wanted, y, on)
  {
    hide FillLayers;
  }

  datatype Outcome = Applied(amountOut: nat) | Raised(why: Result)

  /** One turn of the loop at the active bin: fill it and apply the fill, which never complains. */
  method FillActive(after: OState, k: nat, left: nat, swapForY: bool) returns (used: Option<nat>)
    requires after.Distinct() && k < |after.bins| && left > 0
    modifies after, after.bins[k]
    ensures after.bins == old(after.bins)
    ensures var before, on := old(after.V()), OrdersOn(old(after.V()));
            && (used.None? <==> !Priced(before.bins[k], swapForY, on))
            && (used.Some? ==>
                  && used.value == Min(left, Available(before.bins[k], swapForY, on))
                  && after.V() == TakeAt(before, k, used.value, swapForY))
  {
    hide Take, Available, FillLayers, MmAmount, Priced;
    ghost var before := after.V();
    var on := SupportsLimitOrders(after.functionType, after.rewardMask == 0);
    var bin := after.bins[k];
    var f := FillBin(bin, left, swapForY, on);
    if f.None? {
      return None;
    }
    LayersInOrder(bin.V(), left, swapForY, on);
    TakeCapped(bin.V(), left, swapForY, on);
    if f.value.out == 0 && f.value.usedIn == 0 {
      TakeBounds(bin.V(), 0, swapForY, on);
      assert before.bins[k := before.bins[k]] == before.bins;
      return Some(0);
    }
    var error := ApplyFill(bin, after, swapForY, f.value);
    assert error == NoError;
    TakeIsLayered(before.bins[k], left, bin.V(), swapForY, on);
    assert after.BinsV() == before.bins[k := bin.V()];
    return Some(f.value.usedIn);
  }

  /** Taking more than a bin holds takes what it holds. */
  lemma TakeCapped(b: BinV, m: nat, y: bool, on: bool)
    ensures Take(b, m, y, on) == Take(b, Min(m, Available(b, y, on)), y, on)
  {
    TakeBounds(b, m, y, on);
  }

  /** The bin loop, in place on the copy. */
  method WalkBins(after: OState, amount: nat, swapForY: bool) returns (r: Outcome)
    requires after.Distinct()
    modifies after, after.bins
    ensures after.bins == old(after.bins)
    ensures var expected := Swap(old(after.V()), amount, swapForY, 256);
            if expected.Done? then r == Applied(amount) && after.V() == expected.state else r == Raised(expected)
  {
    hide Take, Available, Priced, Swap;
    NoStepsLeft(after.V(), 0, swapForY);
    var left: nat, totalOut: nat, guard: nat := amount, 0, 0;
    ghost var expected := Swap(after.V(), amount, swapForY, MAX_STEPS);
    while left > 0 && guard < MAX_STEPS
      invariant guard <= MAX_STEPS && totalOut + left == amount
      invariant after.bins == old(after.bins)
      invariant left > 0 ==> Swap(after.V(), left, swapForY, MAX_STEPS - guard) == expected
      invariant left == 0 ==> expected == Done(after.V())
    {
      SwapTurn(after.V(), left, swapForY, MAX_STEPS - guard);
      guard := guard + 1;
      var k := Find(after, after.activeId);
      if k.None? {
        return Raised(MissingBin);
      }
      var used := FillActive(after, k.value, left, swapForY);
      if used.None? {
        return Raised(Unpriced);
      }
      left := left - used.value;
      totalOut := totalOut + used.value;
      if left > 0 {
        ghost var t := after.V();
        after.activeId := Next(after.activeId, swapForY);
        assert after.BinsV() == t.bins;
      }
    }
    if left > 0 {
      NoStepsLeft(after.V(), left, swapForY);
      return Raised(Unfilled);
    }
    return Applied(totalOut);
  }

  lemma NoStepsLeft(s: StateV, left: nat, y: bool)
    ensures Swap(s, 0, y, MAX_STEPS) == Done(s)
    ensures left > 0 ==> Swap(s, left, y, 0) == Unfilled
  {
  }

  /** The order-aware swap. The input state is never modified: the method works on a copy and returns
      it. A swap of nothing, or of a negative amount, returns the copy unchanged. */
  method ApplySwap(before: OState, amountIn: int, swapForY: bool) returns (r: Outcome, after: OState)
    ensures fresh(after) && fresh(after.bins)
    ensures var amount := if amountIn > 0 then amountIn else 0;
            var expected := Swap(before.V(), amount, swapForY, 256);
            if expected.Done? then r == Applied(amount) && after.V() == expected.state else r == Raised(expected)
  {
    after := new OState.Copy(before);
    if amountIn <= 0 {
      NoStepsLeft(before.V(), 0, swapForY);
      return Applied(0), after;
    }
    r := WalkBins(after, amountIn, swapForY);
  }
}
