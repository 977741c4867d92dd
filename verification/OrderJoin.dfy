/** Joining two swaps into one: when it succeeds under the step limit, and a state where it does not. */
module OrderJoin {
  import opened Rounding
  import opened Basics
  import opened OrderFill

  /** How far the active bin has moved from one state to another. */
  function Moves(s: StateV, t: StateV): nat {
    if s.activeId <= t.activeId then t.activeId - s.activeId else s.activeId - t.activeId
  }

  /** A successful swap of something needs exactly one step more than the active bin moves, and the
      active bin moves in the direction of the swap. */
  lemma {:induction false} StepsNeeded(s: StateV, left: nat, y: bool, steps: nat, other: nat)
    requires left > 0 && Swap(s, left, y, steps).Done?
    ensures var t := Swap(s, left, y, steps).state;
            && (if y then t.activeId <= s.activeId else s.activeId <= t.activeId)
            && (Swap(s, left, y, other).Done? <==> Moves(s, t) < other)
            && (Moves(s, t) < other ==> Swap(s, left, y, other) == Done(t))
    decreases steps
  {
    hide Swap, TakeAt, Available, Priced, OrdersOn;
    SwapTurn(s, left, y, steps);
    SwapTurn(s, left, y, other);
    var k := FindBin(s.bins, s.activeId).value;
    var m := Min(left, Available(s.bins[k], y, OrdersOn(s)));
    if m == left {
      TakeAtStays(s, k, m, y);
    } else {
      var next := TakeAt(s, k, m, y).(activeId := Next(s.activeId, y));
      StepsNeeded(next, left - m, y, steps - 1, if other > 0 then other - 1 else 0);
      if other > 0 {
        assert Swap(s, left, y, other) == Swap(next, left - m, y, other - 1);
      }
    }
  }

  lemma TakeAtStays(s: StateV, k: nat, m: nat, y: bool)
    requires k < |s.bins|
    ensures TakeAt(s, k, m, y).activeId == s.activeId
  {
  }

  /** Two swaps in a row are one swap of the sum, given the steps of both. */
  lemma {:induction false} Join(s: StateV, a: nat, b: nat, y: bool, n: nat, m: nat)
    requires a > 0 && b > 0 && Swap(s, a, y, n).Done?
    requires Swap(Swap(s, a, y, n).state, b, y, m).Done?
    ensures Swap(s, a + b, y, n + m) == Swap(Swap(s, a, y, n).state, b, y, m)
    decreases n
  {
    hide Swap, TakeAt, Available, Priced, OrdersOn;
    SwapTurn(s, a, y, n);
    SwapTurn(s, a + b, y, n + m);
    var k := FindBin(s.bins, s.activeId).value;
    var v := Available(s.bins[k], y, OrdersOn(s));
    if a > v {
      Join(TakeAt(s, k, v, y).(activeId := Next(s.activeId, y)), a - v, b, y, n - 1, m);
    } else {
      SwapTurn(Swap(s, a, y, n).state, b, y, m);
      SplitHere(s, a, b, k, y, m);
      SplitHere(s, a, b, k, y, n);
      MoreSteps(s, a + b, y, m, n + m);
    }
  }

  /** The converse of the split law. When a and then b succeed and end in t, their sum succeeds exactly
      when the active bin has moved less than the step limit, and then it reaches the same t. */
  lemma JoinIff(s: StateV, a: nat, b: nat, y: bool, t: StateV)
    requires a > 0 && b > 0 && Swap(s, a, y, 256).Done?
    requires Swap(Swap(s, a, y, 256).state, b, y, 256) == Done(t)
    ensures Swap(s, a + b, y, 256).Done? <==> Moves(s, t) < 256
    ensures Moves(s, t) < 256 ==> Swap(s, a + b, y, 256) == Done(t)
  {
    hide Swap;
    Join(s, a, b, y, 256, 256);
    StepsNeeded(s, a + b, y, 256 + 256, 256);
  }

  /** Both laws in one: a swap of a sum is its two parts in a row, within the step limit. */
  lemma SplitJoinIff(s: StateV, a: nat, b: nat, y: bool, t: StateV)
    requires a > 0 && b > 0
    ensures Swap(s, a + b, y, 256) == Done(t) <==>
            && Swap(s, a, y, 256).Done?
            && Swap(Swap(s, a, y, 256).state, b, y, 256) == Done(t)
            && Moves(s, t) < 256
  {
    hide Swap;
    if Swap(s, a + b, y, 256) == Done(t) {
      SwapSplits(s, a, b, y, 256);
      StepsNeeded(s, a + b, y, 256, 256);
    } else if Swap(s, a, y, 256).Done? && Swap(Swap(s, a, y, 256).state, b, y, 256) == Done(t) {
      JoinIff(s, a, b, y, t);
    }
  }

  // ---- a state where joining fails ----

  /** Bins in order of their ids from zero on, each with one unit of x at price one and no orders. */
  ghost predicate UnitBins(s: StateV) {
    forall i :: 0 <= i < |s.bins| ==> s.bins[i] == BinV(i, 1, 0, 0, 0, false, 18_446_744_073_709_551_616)
  }

  function OneEach(n: nat): StateV {
    StateV(0, FN_UNDETERMINED, 0, n, 0,
           seq(n, i requires 0 <= i < n => BinV(i, 1, 0, 0, 0, false, 18_446_744_073_709_551_616)))
  }

  lemma UnitBin(s: StateV, i: nat)
    requires UnitBins(s) && i < |s.bins|
    ensures FindBin(s.bins, i) == Some(i)
    ensures Available(s.bins[i], false, OrdersOn(s)) == 1 && Priced(s.bins[i], false, OrdersOn(s))
  {
    hide OrdersOn;
    FindByFirst(s.bins, IdOf, i);
  }

  lemma {:induction false} UnitTotal(s: StateV, id: nat, n: nat)
    requires UnitBins(s) && id + n <= |s.bins|
    ensures RunTotal(s, id, n, false) == Some(n)
    decreases n
  {
    hide Available, Priced, OrdersOn, UnitBins;
    if n == 0 {
    } else {
      UnitBin(s, id);
      UnitTotal(s, id + 1, n - 1);
    }
  }

  /** From bin zero, a swap of some units succeeds exactly within that many steps, bins permitting. */
  lemma UnitSwap(s: StateV, amount: nat, steps: nat)
    requires UnitBins(s) && s.activeId == 0 && amount <= |s.bins| && steps <= |s.bins|
    ensures Swap(s, amount, false, steps).Done? <==> amount <= steps
  {
    hide Swap, UnitBins, RunTotal;
    SucceedsIffCovered(s, amount, false, steps);
    if amount <= steps {
      UnitTotal(s, 0, amount);
    }
    forall n: nat | n <= steps ensures RunTotal(s, 0, n, false) == Some(n) {
      UnitTotal(s, 0, n);
    }
  }

  /** The step limit matters: on more than 256 unit bins, 256 units and then one more can be swapped,
      and 257 at once cannot. */
  lemma JoinCanFail(s: StateV)
    requires UnitBins(s) && s.activeId == 0 && |s.bins| > 256
    ensures Swap(s, 256, false, 256).Done?
    ensures Swap(Swap(s, 256, false, 256).state, 1, false, 256).Done?
    ensures !Swap(s, 256 + 1, false, 256).Done?
  {
    hide Swap, UnitBins;
    var limit: nat := 256;
    UnitSwap(s, limit, limit);
    UnitSwap(s, limit, 1);
    UnitSwap(s, limit + 1, limit);
    UnitSwap(s, limit + 1, limit + 1);
    SwapSplits(s, limit, 1, false, limit + 1);
    MoreSteps(s, limit, false, limit, limit + 1);
    var s1 := Swap(s, limit, false, limit).state;
    var t := Swap(s, limit + 1, false, limit + 1).state;
    StepsNeeded(s, limit, false, limit, 1);
    StepsNeeded(s, limit + 1, false, limit + 1, limit + 1);
    StepsNeeded(s1, 1, false, limit + 1, limit);
  }

  /** Such states exist, with any number of bins. */
  lemma JoinFailsAt(n: nat)
    requires n > 256
    ensures var s := OneEach(n);
            && Swap(s, 256, false, 256).Done?
            && Swap(Swap(s, 256, false, 256).state, 1, false, 256).Done?
            && !Swap(s, 256 + 1, false, 256).Done?
  {
    hide Swap;
    assert UnitBins(OneEach(n));
    JoinCanFail(OneEach(n));
  }
}
