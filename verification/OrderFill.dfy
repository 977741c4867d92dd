/** Layered limit-order bins: market-making liquidity first, then processed orders, then open
    orders, at price one. Take and Swap say what a fill does to a bin and to a state; the laws
    below are about them. */
module OrderFill {
  import opened Rounding
  import opened Basics

  const Q1: nat := 0x1_0000_0000_0000_0000
  const MAX_STEPS: nat := 256
  const FN_UNDETERMINED: nat := 0
  const FN_LIMIT_ORDER: nat := 2

  datatype BinV = BinV(id: int, x: nat, y: nat, processed: nat, open: nat, askSide: bool, price: nat)

  datatype StateV = StateV(activeId: int, functionType: nat, rewardMask: nat,
                           reserveX: int, reserveY: int, bins: seq<BinV>)

  predicate SupportsLimitOrders(functionType: nat, rewardsAllDefault: bool) {
    functionType == FN_LIMIT_ORDER || (functionType == FN_UNDETERMINED && rewardsAllDefault)
  }

  predicate OrdersOn(s: StateV) { SupportsLimitOrders(s.functionType, s.rewardMask == 0) }

  function MmAmount(b: BinV, swapForY: bool): nat { if swapForY then b.y else b.x }

  /** Orders on the matching side of the swap. */
  predicate Matches(b: BinV, swapForY: bool) { swapForY != b.askSide }

  function OpenAmount(b: BinV, swapForY: bool): nat { if Matches(b, swapForY) then b.open else 0 }

  function ProcessedAmount(b: BinV, swapForY: bool): nat { if Matches(b, swapForY) then b.processed else 0 }

  function Available(b: BinV, swapForY: bool, on: bool): nat {
    MmAmount(b, swapForY) + (if on then OpenAmount(b, swapForY) + ProcessedAmount(b, swapForY) else 0)
  }

  datatype Layers = Layers(mm: nat, processed: nat, open: nat, unfilled: nat)

  /** Consume an amount against three layers in order. */
  function Cascade(mm: nat, processed: nat, open: nat, wanted: nat): Layers {
    var m := Min(wanted, mm);
    var p := Min(wanted - m, processed);
    var o := Min(wanted - m - p, open);
    Layers(m, p, o, wanted - m - p - o)
  }

  /** How an output amount is split over the layers of a bin. */
  function FillLayers(b: BinV, wanted: nat, swapForY: bool, on: bool): Layers {
    if on then Cascade(MmAmount(b, swapForY), ProcessedAmount(b, swapForY), OpenAmount(b, swapForY), wanted)
    else Cascade(MmAmount(b, swapForY), 0, 0, wanted)
  }

  lemma CascadeTwice(mm: nat, p: nat, o: nat, m: nat, n: nat)
    ensures var l1 := Cascade(mm, p, o, m);
            && l1.mm <= mm && l1.processed <= p && l1.open <= o
            && l1.mm + l1.processed + l1.open == Min(m, mm + p + o)
            && var l2, l := Cascade(mm - l1.mm, p - l1.processed, o - l1.open, n), Cascade(mm, p, o, m + n);
               l.mm == l1.mm + l2.mm && l.processed == l1.processed + l2.processed && l.open == l1.open + l2.open
  {
  }

  /** The layers are consumed in order and lose nothing: the shares add up to the smaller of the
      wanted and the available output, and a layer is touched only when the ones before it are empty. */
  lemma LayersInOrder(b: BinV, wanted: nat, y: bool, on: bool)
    ensures var l := FillLayers(b, wanted, y, on);
            && l.mm + l.processed + l.open == Min(wanted, Available(b, y, on))
            && l.unfilled == wanted - Min(wanted, Available(b, y, on))
            && l.mm <= MmAmount(b, y) && l.processed <= ProcessedAmount(b, y) && l.open <= OpenAmount(b, y)
            && (l.processed > 0 ==> l.mm == MmAmount(b, y))
            && (l.open > 0 ==> l.mm == MmAmount(b, y) && l.processed == ProcessedAmount(b, y))
  {
  }

  /** The bin after an output amount was taken from it: MM takes are paid into the other MM side,
      order takes never touch it. */
  function Take(b: BinV, wanted: nat, swapForY: bool, on: bool): BinV {
    Debit(b, FillLayers(b, wanted, swapForY, on), swapForY)
  }

  function Debit(b: BinV, l: Layers, swapForY: bool): BinV
    requires l.mm <= MmAmount(b, swapForY) && l.processed <= b.processed && l.open <= b.open
  {
    var c := b.(processed := b.processed - l.processed, open := b.open - l.open);
    if swapForY then c.(y := b.y - l.mm, x := b.x + l.mm) else c.(x := b.x - l.mm, y := b.y + l.mm)
  }

  /** What the order layers of a bin can give. */
  function ProcessedOn(b: BinV, y: bool, on: bool): nat { if on then ProcessedAmount(b, y) else 0 }

  function OpenOn(b: BinV, y: bool, on: bool): nat { if on then OpenAmount(b, y) else 0 }

  lemma LayersAre(b: BinV, m: nat, y: bool, on: bool)
    ensures var l := FillLayers(b, m, y, on);
            && l == Cascade(MmAmount(b, y), ProcessedOn(b, y, on), OpenOn(b, y, on), m)
            && l.mm <= MmAmount(b, y) && l.processed <= ProcessedOn(b, y, on) && l.open <= OpenOn(b, y, on)
    ensures Available(b, y, on) == MmAmount(b, y) + ProcessedOn(b, y, on) + OpenOn(b, y, on)
  {
    CascadeTwice(MmAmount(b, y), ProcessedOn(b, y, on), OpenOn(b, y, on), m, 0);
    hide Cascade;
  }

  /** A take shrinks each layer by its share and nothing else. */
  lemma TakeShrinks(b: BinV, m: nat, y: bool, on: bool)
    ensures var l, c := FillLayers(b, m, y, on), Take(b, m, y, on);
            && MmAmount(c, y) == MmAmount(b, y) - l.mm
            && ProcessedOn(c, y, on) == ProcessedOn(b, y, on) - l.processed
            && OpenOn(c, y, on) == OpenOn(b, y, on) - l.open
  {
    LayersAre(b, m, y, on);
    hide FillLayers;
  }

  lemma DebitTwice(b: BinV, l1: Layers, l2: Layers, l: Layers, y: bool)
    requires l.mm == l1.mm + l2.mm <= MmAmount(b, y) && l.processed == l1.processed + l2.processed <= b.processed
    requires l.open == l1.open + l2.open <= b.open
    ensures Debit(Debit(b, l1, y), l2, y) == Debit(b, l, y)
  {
  }

  /** After a take the bin holds that much less. */
  lemma TakeLeaves(b: BinV, m: nat, y: bool, on: bool)
    ensures Available(Take(b, m, y, on), y, on) == Available(b, y, on) - Min(m, Available(b, y, on))
  {
    hide Cascade, FillLayers, Available, ProcessedOn, OpenOn, MmAmount, Take, Min;
    TakeShrinks(b, m, y, on);
    LayersAre(b, m, y, on);
    LayersAre(Take(b, m, y, on), 0, y, on);
    CascadeTwice(MmAmount(b, y), ProcessedOn(b, y, on), OpenOn(b, y, on), m, 0);
  }

  lemma WithinBin(b: BinV, m: nat, y: bool, on: bool)
    ensures var l := FillLayers(b, m, y, on);
            l.mm <= MmAmount(b, y) && l.processed <= b.processed && l.open <= b.open
            && Take(b, m, y, on) == Debit(b, l, y)
  {
    hide FillLayers, Debit;
    LayersAre(b, m, y, on);
  }

  /** Taking twice is taking the sum. */
  lemma TakeTwice(b: BinV, m: nat, n: nat, y: bool, on: bool)
    ensures Take(Take(b, m, y, on), n, y, on) == Take(b, m + n, y, on)
  {
    hide Cascade, FillLayers, ProcessedOn, OpenOn, MmAmount, Debit, Min, Take;
    var c := Take(b, m, y, on);
    WithinBin(b, m, y, on);
    WithinBin(b, m + n, y, on);
    WithinBin(c, n, y, on);
    TakeShrinks(b, m, y, on);
    LayersAre(b, m, y, on);
    LayersAre(b, m + n, y, on);
    LayersAre(c, n, y, on);
    CascadeTwice(MmAmount(b, y), ProcessedOn(b, y, on), OpenOn(b, y, on), m, n);
    DebitTwice(b, FillLayers(b, m, y, on), FillLayers(c, n, y, on), FillLayers(b, m + n, y, on), y);
  }

  lemma CascadeBounds(mm: nat, p: nat, o: nat, m: nat)
    ensures Cascade(mm, p, o, 0) == Layers(0, 0, 0, 0)
    ensures m >= mm + p + o ==> Cascade(mm, p, o, m) == Layers(mm, p, o, m - mm - p - o)
  {
  }

  lemma DebitBounds(b: BinV, l: Layers, k: Layers, y: bool)
    requires l.mm <= MmAmount(b, y) && l.processed <= b.processed && l.open <= b.open
    ensures k == Layers(0, 0, 0, 0) ==> Debit(b, k, y) == b
    ensures k.mm == l.mm && k.processed == l.processed && k.open == l.open ==> Debit(b, k, y) == Debit(b, l, y)
  {
  }

  /** Taking nothing changes nothing, and taking more than there is takes all there is. */
  lemma TakeBounds(b: BinV, m: nat, y: bool, on: bool)
    ensures Take(b, 0, y, on) == b
    ensures m >= Available(b, y, on) ==> Take(b, m, y, on) == Take(b, Available(b, y, on), y, on)
  {
    hide Cascade, FillLayers, Available, ProcessedOn, OpenOn, MmAmount, Debit, Take;
    var mm, p, o, v := MmAmount(b, y), ProcessedOn(b, y, on), OpenOn(b, y, on), Available(b, y, on);
    LayersAre(b, 0, y, on);
    LayersAre(b, m, y, on);
    LayersAre(b, v, y, on);
    WithinBin(b, 0, y, on);
    WithinBin(b, m, y, on);
    WithinBin(b, v, y, on);
    CascadeBounds(mm, p, o, m);
    CascadeBounds(mm, p, o, v);
    DebitBounds(b, FillLayers(b, v, y, on), FillLayers(b, m, y, on), y);
    DebitBounds(b, FillLayers(b, v, y, on), FillLayers(b, 0, y, on), y);
  }

  function IdOf(bin: BinV): int { bin.id }

  function FindBin(bins: seq<BinV>, id: int): Option<nat> { FindBy(bins, IdOf, id) }

  lemma FindBinStable(bins: seq<BinV>, k: nat, b: BinV, id: int)
    requires k < |bins| && b.id == bins[k].id
    ensures FindBin(bins[k := b], id) == FindBin(bins, id)
  {
    FindBySame(bins[k := b], bins, IdOf, id);
  }

  /** A bin whose available output can be priced: only price one is supported. */
  predicate Priced(b: BinV, swapForY: bool, on: bool) { Available(b, swapForY, on) == 0 || b.price == Q1 }

  /** The state after m units were taken from the bin at index k, with its reserves. */
  function TakeAt(s: StateV, k: nat, m: nat, swapForY: bool): StateV
    requires k < |s.bins|
  {
    s.(bins := s.bins[k := Take(s.bins[k], m, swapForY, OrdersOn(s))],
       reserveX := if swapForY then s.reserveX + m else s.reserveX - m,
       reserveY := if swapForY then s.reserveY - m else s.reserveY + m)
  }

  datatype Result = Done(state: StateV) | MissingBin | Unpriced | Unfilled

  /** Walk the bins, taking what each one has, until the input is spent. The active id moves on
      exactly when input is left over. */
  function Swap(s: StateV, left: nat, swapForY: bool, steps: nat): Result
    decreases steps
  {
    if left == 0 then Done(s)
    else if steps == 0 then Unfilled
    else
      FindByFirst(s.bins, IdOf, s.activeId);
      match FindBin(s.bins, s.activeId)
      case None => MissingBin
      case Some(k) =>
        if !Priced(s.bins[k], swapForY, OrdersOn(s)) then Unpriced
        else
          var m := Min(left, Available(s.bins[k], swapForY, OrdersOn(s)));
          var t := TakeAt(s, k, m, swapForY);
          if m == left then Done(t)
          else Swap(t.(activeId := Next(s.activeId, swapForY)), left - m, swapForY, steps - 1)
  }

  /** One turn of the walk. */
  lemma SwapTurn(s: StateV, left: nat, y: bool, steps: nat)
    requires left > 0
    ensures match FindBin(s.bins, s.activeId)
            case None => Swap(s, left, y, steps) == if steps == 0 then Unfilled else MissingBin
            case Some(k) =>
              && k < |s.bins| && s.bins[k].id == s.activeId
              && var m := Min(left, Available(s.bins[k], y, OrdersOn(s)));
                 var t := TakeAt(s, k, m, y);
                 Swap(s, left, y, steps) ==
                 if steps == 0 then Unfilled
                 else if !Priced(s.bins[k], y, OrdersOn(s)) then Unpriced
                 else if m == left then Done(t)
                 else Swap(t.(activeId := Next(s.activeId, y)), left - m, y, steps - 1)
  {
    hide Take, Available, Priced;
    FindByFirst(s.bins, IdOf, s.activeId);
  }

  lemma SwapNothing(s: StateV, y: bool, steps: nat)
    ensures Swap(s, 0, y, steps) == Done(s)
  {
  }

  // ---- splitting ----

  lemma {:induction false} MoreSteps(s: StateV, left: nat, y: bool, steps: nat, more: nat)
    requires steps <= more && Swap(s, left, y, steps).Done?
    ensures Swap(s, left, y, more) == Swap(s, left, y, steps)
    decreases steps
  {
    hide Swap, TakeAt, Available, Priced, OrdersOn;
    if left == 0 {
      SwapNothing(s, y, steps);
      SwapNothing(s, y, more);
    } else {
      SwapTurn(s, left, y, steps);
      SwapTurn(s, left, y, more);
      var k := FindBin(s.bins, s.activeId).value;
      var m := Min(left, Available(s.bins[k], y, OrdersOn(s)));
      if m < left {
        MoreSteps(TakeAt(s, k, m, y).(activeId := Next(s.activeId, y)), left - m, y, steps - 1, more - 1);
      }
    }
  }

  /** A swap can be split: whenever a+b succeeds, a followed by b succeeds and reaches the identical
      state, active bin, every layer and both reserves, also when a exactly drains a bin. */
  lemma {:induction false} SwapSplits(s: StateV, a: nat, b: nat, y: bool, steps: nat)
    requires a > 0 && b > 0 && Swap(s, a + b, y, steps).Done?
    ensures Swap(s, a, y, steps).Done?
    ensures Swap(Swap(s, a, y, steps).state, b, y, steps) == Swap(s, a + b, y, steps)
    decreases steps
  {
    hide Swap, TakeAt, Available, Priced, OrdersOn;
    SwapTurn(s, a + b, y, steps);
    SwapTurn(s, a, y, steps);
    var k := FindBin(s.bins, s.activeId).value;
    var v := Available(s.bins[k], y, OrdersOn(s));
    if a > v {
      var t := TakeAt(s, k, v, y).(activeId := Next(s.activeId, y));
      SwapSplits(t, a - v, b, y, steps - 1);
      MoreSteps(Swap(t, a - v, y, steps - 1).state, b, y, steps - 1, steps);
    } else {
      SplitHere(s, a, b, k, y, steps);
    }
  }

  /** The split when the first part ends in the active bin. */
  lemma SplitHere(s: StateV, a: nat, b: nat, k: nat, y: bool, steps: nat)
    requires a > 0 && b > 0 && steps > 0 && FindBin(s.bins, s.activeId) == Some(k) && k < |s.bins|
    requires Priced(s.bins[k], y, OrdersOn(s)) && a <= Available(s.bins[k], y, OrdersOn(s))
    ensures Swap(s, a, y, steps) == Done(TakeAt(s, k, a, y))
    ensures Swap(TakeAt(s, k, a, y), b, y, steps) == Swap(s, a + b, y, steps)
  {
    hide Take, Available, Swap, Priced;
    var s1 := TakeAt(s, k, a, y);
    SplitInBin(s, a, Min(b, Available(s.bins[k], y, OrdersOn(s)) - a), k, y);
    SwapTurn(s, a, y, steps);
    SwapTurn(s, a + b, y, steps);
    SwapTurn(s1, b, y, steps);
  }

  lemma SplitInBin(s: StateV, a: nat, m: nat, k: nat, y: bool)
    requires FindBin(s.bins, s.activeId) == Some(k) && k < |s.bins|
    requires a <= Available(s.bins[k], y, OrdersOn(s))
    ensures var s1 := TakeAt(s, k, a, y);
            && TakeAt(s1, k, m, y) == TakeAt(s, k, a + m, y)
            && FindBin(s1.bins, s.activeId) == Some(k)
            && Available(s1.bins[k], y, OrdersOn(s1)) == Available(s.bins[k], y, OrdersOn(s)) - a
            && (Priced(s.bins[k], y, OrdersOn(s)) ==> Priced(s1.bins[k], y, OrdersOn(s1)))
  {
    var on, b := OrdersOn(s), s.bins[k];
    var c := Take(b, a, y, on);
    assert c.id == b.id && c.price == b.price;
    TakeTwice(b, a, m, y, on);
    TakeLeaves(b, a, y, on);
    FindBinStable(s.bins, k, c, s.activeId);
    hide Take, Available;
    assert s.bins[k := c][k := Take(c, m, y, on)] == s.bins[k := Take(b, a + m, y, on)];
  }

  // ---- when a swap succeeds, and what it moves ----

  /** Total available output of n consecutive bins from id on, or None when one of them is missing
      or cannot be priced. */
  function RunTotal(s: StateV, id: int, n: nat, y: bool): Option<nat>
    decreases n
  {
    if n == 0 then Some(0)
    else
      FindByFirst(s.bins, IdOf, id);
      match FindBin(s.bins, id)
      case None => None
      case Some(k) =>
        if !Priced(s.bins[k], y, OrdersOn(s)) then None
        else
          match RunTotal(s, Next(id, y), n - 1, y)
          case None => None
          case Some(rest) => Some(Available(s.bins[k], y, OrdersOn(s)) + rest)
  }

  /** Some run of at most the given number of consecutive bins holds enough. */
  ghost predicate Covered(s: StateV, id: int, amount: nat, y: bool, steps: nat) {
    exists n :: 0 <= n <= steps && RunTotal(s, id, n, y).Some? && RunTotal(s, id, n, y).value >= amount
  }

  /** Bins ahead of the active one do not change when the active one is filled. */
  lemma {:induction false} RunAhead(s: StateV, k: nat, m: nat, id: int, n: nat, y: bool)
    requires k < |s.bins| && (if y then id < s.bins[k].id else id > s.bins[k].id)
    ensures RunTotal(TakeAt(s, k, m, y), id, n, y) == RunTotal(s, id, n, y)
    decreases n
  {
    hide Take, Available;
    if n == 0 {
    } else {
      var t := TakeAt(s, k, m, y);
      TakeKeepsId(s.bins[k], m, y, OrdersOn(s));
      FindBinStable(s.bins, k, t.bins[k], id);
      FindByFirst(s.bins, IdOf, id);
      if FindBin(s.bins, id).Some? {
        assert t.bins[FindBin(s.bins, id).value] == s.bins[FindBin(s.bins, id).value];
        RunAhead(s, k, m, Next(id, y), n - 1, y);
      }
    }
  }

  lemma {:induction false} RunIgnoresActive(s: StateV, active: int, id: int, n: nat, y: bool)
    ensures RunTotal(s.(activeId := active), id, n, y) == RunTotal(s, id, n, y)
    decreases n
  {
    if n == 0 {
    } else if FindBin(s.bins, id).Some? {
      RunIgnoresActive(s, active, Next(id, y), n - 1, y);
    }
  }

  /** No run of bins covers an amount when there is no step left or the active bin is missing or
      cannot be priced; and the active bin alone covers what it holds. */
  lemma CoveredHere(s: StateV, amount: nat, y: bool, steps: nat)
    ensures amount == 0 ==> Covered(s, s.activeId, amount, y, steps)
    ensures amount > 0 && steps == 0 ==> !Covered(s, s.activeId, amount, y, steps)
    ensures match FindBin(s.bins, s.activeId)
            case None => amount > 0 ==> !Covered(s, s.activeId, amount, y, steps)
            case Some(k) =>
              && k < |s.bins|
              && (amount > 0 && !Priced(s.bins[k], y, OrdersOn(s)) ==> !Covered(s, s.activeId, amount, y, steps))
              && (steps > 0 && Priced(s.bins[k], y, OrdersOn(s)) && Available(s.bins[k], y, OrdersOn(s)) >= amount ==>
                    Covered(s, s.activeId, amount, y, steps))
  {
    hide Available, Priced;
    FindByFirst(s.bins, IdOf, s.activeId);
    assert RunTotal(s, s.activeId, 0, y) == Some(0) && RunTotal(s, Next(s.activeId, y), 0, y) == Some(0);
    assert RunTotal(s, s.activeId, 1, y).Some? || RunTotal(s, s.activeId, 1, y).None?;
  }

  /** Filling the active bin does not change what the bins ahead of it cover. */
  lemma CoveredAhead(s: StateV, k: nat, m: nat, amount: nat, y: bool, steps: nat)
    requires k < |s.bins| && s.bins[k].id == s.activeId
    ensures var t := TakeAt(s, k, m, y).(activeId := Next(s.activeId, y));
            Covered(t, t.activeId, amount, y, steps) <==> Covered(s, t.activeId, amount, y, steps)
  {
    hide TakeAt, RunTotal;
    var next := Next(s.activeId, y);
    forall n: nat ensures RunTotal(TakeAt(s, k, m, y).(activeId := next), next, n, y) == RunTotal(s, next, n, y) {
      RunAhead(s, k, m, next, n, y);
      RunIgnoresActive(TakeAt(s, k, m, y), next, next, n, y);
    }
  }

  /** A swap succeeds exactly when some run of consecutive present bins from the active one, within
      the step limit, holds enough available output at price one. */
  lemma {:induction false} SucceedsIffCovered(s: StateV, amount: nat, y: bool, steps: nat)
    ensures Swap(s, amount, y, steps).Done? <==> Covered(s, s.activeId, amount, y, steps)
    decreases steps
  {
    hide Swap, Covered, Available, Priced, TakeAt, OrdersOn;
    CoveredHere(s, amount, y, steps);
    if amount == 0 {
      SwapNothing(s, y, steps);
    } else {
      SwapTurn(s, amount, y, steps);
      var found := FindBin(s.bins, s.activeId);
      if steps > 0 && found.Some? && Priced(s.bins[found.value], y, OrdersOn(s)) {
        var k := found.value;
        var v := Available(s.bins[k], y, OrdersOn(s));
        if v < amount {
          SucceedsIffCovered(TakeAt(s, k, v, y).(activeId := Next(s.activeId, y)), amount - v, y, steps - 1);
          CoveredAhead(s, k, v, amount - v, y, steps - 1);
          CoveredStep(s, k, amount, y, steps);
        }
      }
    }
  }

  lemma CoveredStep(s: StateV, k: nat, amount: nat, y: bool, steps: nat)
    requires steps > 0 && FindBin(s.bins, s.activeId) == Some(k) && k < |s.bins|
    requires Priced(s.bins[k], y, OrdersOn(s)) && amount > Available(s.bins[k], y, OrdersOn(s))
    ensures Covered(s, s.activeId, amount, y, steps)
            <==> Covered(s, Next(s.activeId, y), amount - Available(s.bins[k], y, OrdersOn(s)), y, steps - 1)
  {
    hide Available;
    var next, rest := Next(s.activeId, y), amount - Available(s.bins[k], y, OrdersOn(s));
    if n :| 0 <= n <= steps && RunTotal(s, s.activeId, n, y).Some? && RunTotal(s, s.activeId, n, y).value >= amount {
      assert RunTotal(s, next, n - 1, y).Some? && RunTotal(s, next, n - 1, y).value >= rest;
    }
    if n :| 0 <= n <= steps - 1 && RunTotal(s, next, n, y).Some? && RunTotal(s, next, n, y).value >= rest {
      assert RunTotal(s, s.activeId, n + 1, y).Some? && RunTotal(s, s.activeId, n + 1, y).value >= amount;
    }
  }

  // ---- what a successful swap changes ----

  function TotalAvailable(bins: seq<BinV>, y: bool, on: bool): nat {
    if bins == [] then 0 else Available(bins[0], y, on) + TotalAvailable(bins[1..], y, on)
  }

  lemma {:induction false} TotalAfterUpdate(bins: seq<BinV>, k: nat, b: BinV, y: bool, on: bool)
    requires k < |bins|
    ensures TotalAvailable(bins[k := b], y, on)
            == TotalAvailable(bins, y, on) - Available(bins[k], y, on) + Available(b, y, on)
  {
    hide Available;
    if k > 0 {
      assert bins[k := b][1..] == bins[1..][k - 1 := b];
      TotalAfterUpdate(bins[1..], k - 1, b, y, on);
    } else {
      assert bins[k := b][1..] == bins[1..];
    }
  }

  /** Bins the walk has left behind between two active ids. */
  predicate Passed(from: int, to: int, id: int, y: bool) {
    if y then to < id <= from else from <= id < to
  }

  /** What separates the state before a swap of the given amount from the state after it: the
      reserves and the available output move by the amount; every bin is the old one after a take, in
      layer order, of what it gave; the passed bins are present and drained; the bins outside the walk
      and those shadowed by an earlier bin with the same id are untouched. */
  ghost predicate Moved(s: StateV, t: StateV, amount: nat, y: bool) {
    var on := OrdersOn(s);
    && t.functionType == s.functionType && t.rewardMask == s.rewardMask && |t.bins| == |s.bins|
    && t.reserveX == (if y then s.reserveX + amount else s.reserveX - amount)
    && t.reserveY == (if y then s.reserveY - amount else s.reserveY + amount)
    && TotalAvailable(t.bins, y, on) + amount == TotalAvailable(s.bins, y, on)
    && (if y then t.activeId <= s.activeId else t.activeId >= s.activeId)
    && (forall j :: 0 <= j < |s.bins| ==> TookFrom(s, t, j, y))
  }

  ghost predicate TookFrom(s: StateV, t: StateV, j: nat, y: bool)
    requires j < |s.bins| == |t.bins|
  {
    var before, after, on := s.bins[j], t.bins[j], OrdersOn(s);
    && Available(after, y, on) <= Available(before, y, on)
    && after == Take(before, Available(before, y, on) - Available(after, y, on), y, on)
    && (if FindBin(s.bins, before.id) == Some(j) && Passed(s.activeId, t.activeId, before.id, y)
        then Available(after, y, on) == 0
        else before.id != t.activeId || FindBin(s.bins, before.id) != Some(j) ==> after == before)
  }

  lemma {:induction false} SwapMoves(s: StateV, amount: nat, y: bool, steps: nat)
    requires Swap(s, amount, y, steps).Done?
    ensures Moved(s, Swap(s, amount, y, steps).state, amount, y)
    ensures var t := Swap(s, amount, y, steps).state;
            forall id :: Passed(s.activeId, t.activeId, id, y) ==> FindBin(s.bins, id).Some?
    decreases steps
  {
    hide Swap, Moved, Take, Available, Priced;
    if amount == 0 {
      SwapNothing(s, y, steps);
      NothingMoves(s, y);
    } else {
      SwapTurn(s, amount, y, steps);
      var k, on := FindBin(s.bins, s.activeId).value, OrdersOn(s);
      var m := Min(amount, Available(s.bins[k], y, on));
      var s1 := TakeAt(s, k, m, y);
      TakeAtMoves(s, k, m, y);
      if m < amount {
        var s2 := s1.(activeId := Next(s.activeId, y));
        SwapMoves(s2, amount - m, y, steps - 1);
        var t := Swap(s2, amount - m, y, steps - 1).state;
        MovedOnward(s2, t, amount - m, y);
        ComposeMoves(s, k, s2, t, m, amount - m, y);
        TakeKeepsId(s.bins[k], m, y, on);
        forall id | Passed(s.activeId, t.activeId, id, y) ensures FindBin(s.bins, id).Some? {
          FindBinStable(s.bins, k, s1.bins[k], id);
        }
      }
    }
  }

  lemma MovedOnward(s: StateV, t: StateV, amount: nat, y: bool)
    requires Moved(s, t, amount, y)
    ensures if y then t.activeId <= s.activeId else t.activeId >= s.activeId
  {
    hide TookFrom, TotalAvailable;
  }

  lemma NothingMoves(s: StateV, y: bool)
    ensures Moved(s, s, 0, y)
  {
    hide Take, Available, TotalAvailable;
    forall j | 0 <= j < |s.bins| ensures TookFrom(s, s, j, y) {
      TakeBounds(s.bins[j], 0, y, OrdersOn(s));
    }
  }

  lemma TakeAtMoves(s: StateV, k: nat, m: nat, y: bool)
    requires k < |s.bins| && FindBin(s.bins, s.activeId) == Some(k) && s.bins[k].id == s.activeId
    requires m <= Available(s.bins[k], y, OrdersOn(s))
    ensures Moved(s, TakeAt(s, k, m, y), m, y)
  {
    hide Take, Available, TotalAvailable;
    var on, t := OrdersOn(s), TakeAt(s, k, m, y);
    TakeLeaves(s.bins[k], m, y, on);
    TotalAfterUpdate(s.bins, k, t.bins[k], y, on);
    forall j | 0 <= j < |s.bins| ensures TookFrom(s, t, j, y) {
      TakeBounds(s.bins[j], 0, y, on);
    }
  }

  lemma ComposeMoves(s: StateV, k: nat, s2: StateV, t: StateV, m: nat, n: nat, y: bool)
    requires k < |s.bins| && FindBin(s.bins, s.activeId) == Some(k) && s.bins[k].id == s.activeId
    requires m == Available(s.bins[k], y, OrdersOn(s))
    requires s2 == TakeAt(s, k, m, y).(activeId := Next(s.activeId, y)) && Moved(s2, t, n, y)
    ensures Moved(s, t, m + n, y)
  {
    hide Take, Available, TotalAvailable;
    var on := OrdersOn(s);
    TakeAtMoves(s, k, m, y);
    TakeKeepsId(s.bins[k], m, y, on);
    TakeLeaves(s.bins[k], m, y, on);
    forall j | 0 <= j < |s.bins| ensures TookFrom(s, t, j, y) {
      FindBinStable(s.bins, k, s2.bins[k], s.bins[j].id);
      assert TookFrom(s2, t, j, y);
      assert TookFrom(s, TakeAt(s, k, m, y), j, y);
      FindByFirst(s.bins, IdOf, s.bins[j].id);
    }
  }

  lemma TakeKeepsId(b: BinV, m: nat, y: bool, on: bool)
    ensures Take(b, m, y, on).id == b.id
  {
  }


  // ---- in plain numbers ----

  /** What a bin offers: its MM amount on the output side and, where limit orders are supported, the
      orders of the other side, asks for swaps towards x and bids for swaps towards y. Anything on offer
      must stand at price 2^64. */
  lemma AvailableIs(s: StateV, b: BinV, y: bool)
    ensures OrdersOn(s) <==> s.functionType == 2 || (s.functionType == 0 && s.rewardMask == 0)
    ensures Available(b, y, OrdersOn(s))
         == (if y then b.y else b.x) + (if OrdersOn(s) && b.askSide != y then b.open + b.processed else 0)
    ensures Priced(b, y, OrdersOn(s)) <==>
            Available(b, y, OrdersOn(s)) == 0 || b.price == 18_446_744_073_709_551_616
  {
  }

  /** What a take moves: MM output against the same MM input, then processed orders, then open ones, and
      orders only from the side that can be taken. */
  ghost predicate TakenFrom(b: BinV, c: BinV, taken: nat, y: bool, on: bool) {
    var mm := if y then b.y - c.y else b.x - c.x;
    var processed, open := b.processed - c.processed, b.open - c.open;
    && c == b.(x := c.x, y := c.y, processed := c.processed, open := c.open)
    && mm == (if y then c.x - b.x else c.y - b.y)
    && mm >= 0 && processed >= 0 && open >= 0 && mm + processed + open == taken
    && (processed > 0 ==> on && b.askSide != y && mm == if y then b.y else b.x)
    && (open > 0 ==> on && b.askSide != y && mm == (if y then b.y else b.x) && processed == b.processed)
  }

  lemma TakeIs(b: BinV, wanted: nat, y: bool, on: bool)
    ensures TakenFrom(b, Take(b, wanted, y, on), Min(wanted, Available(b, y, on)), y, on)
  {
    LayersInOrder(b, wanted, y, on);
    LayersAre(b, wanted, y, on);
    WithinBin(b, wanted, y, on);
    hide FillLayers, Available, Min, Take;
  }

  /** The bin t is left in is one of s and now has less to offer. */
  ghost predicate Gave(s: StateV, t: StateV, y: bool) {
    match FindBin(s.bins, t.activeId)
    case None => false
    case Some(k) =>
      && k < |s.bins| == |t.bins|
      && Available(t.bins[k], y, OrdersOn(s)) < Available(s.bins[k], y, OrdersOn(s))
  }

  lemma GaveHere(s: StateV, k: nat, m: nat, y: bool)
    requires k < |s.bins| && FindBin(s.bins, s.activeId) == Some(k) && s.bins[k].id == s.activeId
    requires 0 < m <= Available(s.bins[k], y, OrdersOn(s))
    ensures Gave(s, TakeAt(s, k, m, y), y)
  {
    hide Take, Available, FindBy;
    TakeLeaves(s.bins[k], m, y, OrdersOn(s));
  }

  lemma GaveLater(s: StateV, k: nat, m: nat, s2: StateV, t: StateV, n: nat, y: bool, steps: nat)
    requires k < |s.bins| && FindBin(s.bins, s.activeId) == Some(k) && s.bins[k].id == s.activeId && n > 0
    requires s2 == TakeAt(s, k, m, y).(activeId := Next(s.activeId, y)) && Swap(s2, n, y, steps) == Done(t)
    requires Gave(s2, t, y)
    ensures Gave(s, t, y)
  {
    hide Swap, Take, Available, FindBin;
    LaterBin(s, k, m, s2, t, n, y, steps);
  }

  /** A later turn ends in another bin, which the first turn left alone. */
  lemma LaterBin(s: StateV, k: nat, m: nat, s2: StateV, t: StateV, n: nat, y: bool, steps: nat)
    requires k < |s.bins| && FindBin(s.bins, s.activeId) == Some(k) && s.bins[k].id == s.activeId && n > 0
    requires s2 == TakeAt(s, k, m, y).(activeId := Next(s.activeId, y)) && Swap(s2, n, y, steps) == Done(t)
    ensures FindBin(s2.bins, t.activeId) == FindBin(s.bins, t.activeId)
    ensures match FindBin(s.bins, t.activeId)
            case None => true
            case Some(j) => j < |s.bins| && j != k && s2.bins[j] == s.bins[j]
  {
    hide Swap, Take, Available, FindBy;
    TakeKeepsId(s.bins[k], m, y, OrdersOn(s));
    SwapMoves(s2, n, y, steps);
    hide TotalAvailable, TookFrom;
    FindBinStable(s.bins, k, s2.bins[k], t.activeId);
    FindByFirst(s.bins, IdOf, t.activeId);
  }

  /** The bin a swap ends in gave something: a swap that exactly drains a bin stays there. */
  lemma {:induction false} LastBinGives(s: StateV, amount: nat, y: bool, steps: nat)
    requires amount > 0 && Swap(s, amount, y, steps).Done?
    ensures Gave(s, Swap(s, amount, y, steps).state, y)
    decreases steps
  {
    hide Swap, TakeAt, Available, Priced, Gave, FindBin, OrdersOn;
    SwapTurn(s, amount, y, steps);
    var k := FindBin(s.bins, s.activeId).value;
    var m := Min(amount, Available(s.bins[k], y, OrdersOn(s)));
    if m < amount {
      var s2 := TakeAt(s, k, m, y).(activeId := Next(s.activeId, y));
      LastBinGives(s2, amount - m, y, steps - 1);
      GaveLater(s, k, m, s2, Swap(s2, amount - m, y, steps - 1).state, amount - m, y, steps - 1);
    } else {
      GaveHere(s, k, m, y);
    }
  }

  // ---- how a swap fails ----

  datatype Outlook = Enough | NoBin | NoPrice | NoSteps

  /** What a swap will meet, read off the state it starts in, without moving anything. */
  function Foresee(s: StateV, id: int, amount: nat, y: bool, steps: nat): Outlook
    decreases steps
  {
    if amount == 0 then Enough
    else if steps == 0 then NoSteps
    else
      FindByFirst(s.bins, IdOf, id);
      match FindBin(s.bins, id)
      case None => NoBin
      case Some(k) =>
        var offered := Available(s.bins[k], y, OrdersOn(s));
        if offered > 0 && s.bins[k].price != 18_446_744_073_709_551_616 then NoPrice
        else if amount <= offered then Enough
        else Foresee(s, if y then id - 1 else id + 1, amount - offered, y, steps - 1)
  }

  lemma {:induction false} ForeseeAhead(s: StateV, k: nat, m: nat, active: int, id: int, amount: nat, y: bool,
                                        steps: nat)
    requires k < |s.bins| && (if y then id < s.bins[k].id else id > s.bins[k].id)
    ensures Foresee(TakeAt(s, k, m, y).(activeId := active), id, amount, y, steps) == Foresee(s, id, amount, y, steps)
    decreases steps
  {
    hide TakeAt, Available, OrdersOn, FindBin;
    if amount == 0 || steps == 0 {
    } else {
      SameBeyond(s, k, m, id, y);
      if FindBin(s.bins, id).Some? {
        var j := FindBin(s.bins, id).value;
        var offered := Available(s.bins[j], y, OrdersOn(s));
        if offered < amount {
          ForeseeAhead(s, k, m, active, if y then id - 1 else id + 1, amount - offered, y, steps - 1);
        }
      }
    }
  }

  lemma SameBeyond(s: StateV, k: nat, m: nat, id: int, y: bool)
    requires k < |s.bins| && id != s.bins[k].id
    ensures var t := TakeAt(s, k, m, y);
            && OrdersOn(t) == OrdersOn(s) && FindBin(t.bins, id) == FindBin(s.bins, id)
            && match FindBin(s.bins, id)
               case None => true
               case Some(j) => j < |s.bins| == |t.bins| && t.bins[j] == s.bins[j]
    ensures forall active :: OrdersOn(TakeAt(s, k, m, y).(activeId := active)) == OrdersOn(s)
  {
    hide Take, FindBy;
    TakeKeepsId(s.bins[k], m, y, OrdersOn(s));
    FindBinStable(s.bins, k, TakeAt(s, k, m, y).bins[k], id);
    FindByFirst(s.bins, IdOf, id);
  }

  /** A swap ends as foreseen: done, at a missing bin, at a bin with another price, or out of steps. */
  lemma {:induction false} SwapForeseen(s: StateV, amount: nat, y: bool, steps: nat)
    ensures var r, o := Swap(s, amount, y, steps), Foresee(s, s.activeId, amount, y, steps);
            && (r.Done? <==> o.Enough?) && (r.MissingBin? <==> o.NoBin?)
            && (r.Unpriced? <==> o.NoPrice?) && (r.Unfilled? <==> o.NoSteps?)
    decreases steps
  {
    hide Swap, Available, TakeAt, OrdersOn;
    if amount == 0 {
      SwapNothing(s, y, steps);
    } else {
      SwapTurn(s, amount, y, steps);
      var found := FindBin(s.bins, s.activeId);
      if steps > 0 && found.Some? && Priced(s.bins[found.value], y, OrdersOn(s)) {
        var k := found.value;
        var v := Available(s.bins[k], y, OrdersOn(s));
        if v < amount {
          var next := Next(s.activeId, y);
          SwapForeseen(TakeAt(s, k, v, y).(activeId := next), amount - v, y, steps - 1);
          ForeseeAhead(s, k, v, next, next, amount - v, y, steps - 1);
        }
      }
    }
  }
}
