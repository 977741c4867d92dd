/** Binary search over an integer range, as the sequence of its probes. The searches of the
    overlay and of the replay differ only in how they judge a probe. */
module Bisect {
  import opened Rounding

  datatype Verdict = Hit | Low | High

  /** The first hit of the search, discarding the lower part after Low and the upper after High. */
  function Search(judge: int -> Verdict, lo: int, hi: int): Option<int>
    decreases hi - lo + 1
  {
    if lo > hi then None
    else
      var mid := (lo + hi) / 2;
      match judge(mid)
      case Hit => Some(mid)
      case Low => Search(judge, mid + 1, hi)
      case High => Search(judge, lo, mid - 1)
  }

  lemma {:induction false} SearchSound(judge: int -> Verdict, lo: int, hi: int)
    ensures Search(judge, lo, hi).Some? ==>
              lo <= Search(judge, lo, hi).value <= hi && judge(Search(judge, lo, hi).value) == Hit
    decreases hi - lo + 1
  {
    if lo > hi {
    } else {
      var mid := (lo + hi) / 2;
      match judge(mid) {
        case Hit =>
        case Low => SearchSound(judge, mid + 1, hi);
        case High => SearchSound(judge, lo, mid - 1);
      }
    }
  }

  /** The judge points towards x from every probe the search can make while x is still in range:
      no probe lies below the midpoint of the range's start and x. */
  ghost predicate PointsTo(judge: int -> Verdict, lo: int, hi: int, x: int) {
    && judge(x) == Hit
    && (forall m :: (lo + x) / 2 <= m < x ==> judge(m) != High)
    && (forall m :: x < m <= hi ==> judge(m) != Low)
  }

  /** A search whose judge points to some x in range finds a hit. */
  lemma {:induction false} SearchComplete(judge: int -> Verdict, lo: int, hi: int, x: int)
    requires lo <= x <= hi && PointsTo(judge, lo, hi, x)
    ensures Search(judge, lo, hi).Some?
    decreases hi - lo + 1
  {
    var mid := (lo + hi) / 2;
    match judge(mid) {
      case Hit =>
      case Low => SearchComplete(judge, mid + 1, hi, x);
      case High => SearchComplete(judge, lo, mid - 1, x);
    }
  }

  /** The midpoints of a search that narrows down to x, x last. */
  function Probes(lo: int, hi: int, x: int): seq<int>
    requires lo <= x <= hi
    decreases hi - lo + 1
  {
    var mid := (lo + hi) / 2;
    [mid] + if mid < x then Probes(mid + 1, hi, x) else if mid > x then Probes(lo, mid - 1, x) else []
  }

  lemma {:induction false} ProbesInside(lo: int, hi: int, x: int, m: int)
    requires lo <= x <= hi && m in Probes(lo, hi, x)
    ensures lo <= m <= hi
    decreases hi - lo + 1
  {
    var mid := (lo + hi) / 2;
    FirstProbe(lo, hi, x);
    if m != mid {
      hide Probes;
      if mid < x {
        ProbesInside(mid + 1, hi, x, m);
      } else {
        ProbesInside(lo, mid - 1, x, m);
      }
    }
  }

  /** No midpoint on the way to x turns the search away from x. */
  ghost predicate Leads(judge: int -> Verdict, lo: int, hi: int, x: int)
    requires lo <= x <= hi
  {
    && judge(x) == Hit
    && forall m :: m in Probes(lo, hi, x) ==> (m < x ==> judge(m) != High) && (m > x ==> judge(m) != Low)
  }

  lemma {:induction false} LeadsToHit(judge: int -> Verdict, lo: int, hi: int, x: int)
    requires lo <= x <= hi && Leads(judge, lo, hi, x)
    ensures Search(judge, lo, hi).Some?
    decreases hi - lo + 1
  {
    var mid := (lo + hi) / 2;
    FirstProbe(lo, hi, x);
    if judge(mid) != Hit {
      hide Probes;
      if mid < x {
        LeadsToHit(judge, mid + 1, hi, x);
      } else {
        LeadsToHit(judge, lo, mid - 1, x);
      }
    }
  }

  lemma FirstProbe(lo: int, hi: int, x: int)
    requires lo <= x <= hi
    ensures var mid := (lo + hi) / 2;
            && (mid == x ==> forall m :: m in Probes(lo, hi, x) <==> m == mid)
            && (mid < x ==> forall m :: m in Probes(lo, hi, x) <==> m == mid || m in Probes(mid + 1, hi, x))
            && (mid > x ==> forall m :: m in Probes(lo, hi, x) <==> m == mid || m in Probes(lo, mid - 1, x))
  {
  }

  lemma {:induction false} HitWasLedTo(judge: int -> Verdict, lo: int, hi: int, x: int)
    requires Search(judge, lo, hi) == Some(x)
    ensures lo <= x <= hi && Leads(judge, lo, hi, x)
    decreases hi - lo + 1
  {
    SearchSound(judge, lo, hi);
    var mid := (lo + hi) / 2;
    match judge(mid) {
      case Hit =>
      case Low =>
        SearchSound(judge, mid + 1, hi);
        HitWasLedTo(judge, mid + 1, hi, x);
      case High =>
        SearchSound(judge, lo, mid - 1);
        HitWasLedTo(judge, lo, mid - 1, x);
    }
  }
}
