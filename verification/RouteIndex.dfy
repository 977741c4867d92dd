/** The adjacency-indexed route counter, proved to compute the naive counts. */
module RouteIndex {
  import opened RouteCount

  datatype Half = Half(i: nat, other: string, kind: string, side: nat)

  /** Entries an edge contributes to the list of a token. */
  function HalvesOf(e: Edge, i: nat, u: string): seq<Half> {
    (if e.mx == u then [Half(i, e.my, e.kind, 0)] else []) + (if e.my == u then [Half(i, e.mx, e.kind, 1)] else [])
  }

  function Adjacent(es: seq<Edge>, n: nat, u: string): seq<Half>
    requires n <= |es|
  {
    if n == 0 then [] else Adjacent(es, n - 1, u) + HalvesOf(es[n - 1], n - 1, u)
  }

  lemma AdjacentStep(es: seq<Edge>, n: nat, u: string)
    requires n < |es|
    ensures Adjacent(es, n + 1, u) == Adjacent(es, n, u) + HalvesOf(es[n], n, u)
  {
  }

  function Get(tab: map<string, seq<Half>>, u: string): seq<Half> { if u in tab then tab[u] else [] }

  method BuildAdjacency(es: seq<Edge>) returns (tab: map<string, seq<Half>>)
    requires Proper(es)
    ensures forall u :: Get(tab, u) == Adjacent(es, |es|, u)
  {
    tab := map[];
    assert forall u :: Get(tab, u) == Adjacent(es, 0, u);
    hide Adjacent, Get, Put, HalvesOf;
    for i := 0 to |es|
      invariant forall u :: Get(tab, u) == Adjacent(es, i, u)
    {
      var e := es[i];
      ghost var before := tab;
      tab := Put(tab, e.mx, Half(i, e.my, e.kind, 0));
      tab := Put(tab, e.my, Half(i, e.mx, e.kind, 1));
      forall u: string ensures Get(tab, u) == Adjacent(es, i + 1, u) {
        TwoPuts(before, e, i, u);
        AdjacentStep(es, i, u);
      }
    }
  }

  function Put(tab: map<string, seq<Half>>, u: string, h: Half): map<string, seq<Half>> { tab[u := Get(tab, u) + [h]] }

  lemma TwoPuts(tab: map<string, seq<Half>>, e: Edge, i: nat, u: string)
    ensures Get(Put(Put(tab, e.mx, Half(i, e.my, e.kind, 0)), e.my, Half(i, e.mx, e.kind, 1)), u)
         == Get(tab, u) + HalvesOf(e, i, u)
  {
  }

  /** Edge index at a position of an adjacency list, or the number of edges past its end. */
  function At(list: seq<Half>, p: nat, n: nat): nat { if p < |list| then list[p].i else n }

  /** A list holds exactly the edges that end in a token, by increasing index. */
  ghost predicate Indexes(list: seq<Half>, es: seq<Edge>, n: nat, u: string)
    requires n <= |es|
  {
    && (forall p :: 0 <= p < |list| ==>
          list[p].i < n && Ends(es[list[p].i], u)
          && list[p].other == Other(es[list[p].i], u) && list[p].kind == es[list[p].i].kind)
    && (forall p, q :: 0 <= p < q < |list| ==> list[p].i < list[q].i)
    && (forall i :: 0 <= i < n && Ends(es[i], u) ==> exists p :: 0 <= p < |list| && list[p].i == i)
  }

  lemma {:induction false} AdjacentIndexes(es: seq<Edge>, n: nat, u: string)
    requires n <= |es| && Proper(es)
    ensures Indexes(Adjacent(es, n, u), es, n, u)
  {
    hide Adjacent, Indexes, Ends, HalvesOf, Proper;
    if n == 0 {
      AdjacentNone(es, u);
    } else {
      AdjacentIndexes(es, n - 1, u);
      AdjacentStep(es, n - 1, u);
      IndexesStep(Adjacent(es, n - 1, u), es, n - 1, u);
    }
  }

  lemma AdjacentNone(es: seq<Edge>, u: string)
    ensures Adjacent(es, 0, u) == [] && Indexes(Adjacent(es, 0, u), es, 0, u)
  {
  }

  lemma Entry(list: seq<Half>, es: seq<Edge>, n: nat, u: string, p: nat)
    requires n <= |es| && Indexes(list, es, n, u) && p < |list|
    ensures list[p].i < n && Ends(es[list[p].i], u) && list[p].other == Other(es[list[p].i], u)
  {
  }

  lemma IndexesStep(list: seq<Half>, es: seq<Edge>, n: nat, u: string)
    requires n < |es| && Proper(es) && Indexes(list, es, n, u)
    ensures Indexes(list + HalvesOf(es[n], n, u), es, n + 1, u)
  {
    var e := es[n];
    assert e.mx != e.my;
    if Ends(e, u) {
      var h := if e.mx == u then Half(n, e.my, e.kind, 0) else Half(n, e.mx, e.kind, 1);
      var longer := list + [h];
      assert HalvesOf(e, n, u) == [h];
      forall i | 0 <= i < n + 1 && Ends(es[i], u) ensures exists p :: 0 <= p < |longer| && longer[p].i == i {
        if i < n {
          var p :| 0 <= p < |list| && list[p].i == i;
          assert longer[p].i == i;
        } else {
          assert longer[|list|].i == i;
        }
      }
    } else {
      assert list + HalvesOf(e, n, u) == list;
    }
  }

  /** Between two consecutive list positions no edge ends in the token. */
  lemma Gap(list: seq<Half>, es: seq<Edge>, u: string, p: nat, i: nat)
    requires Indexes(list, es, |es|, u) && p <= |list|
    requires (p > 0 ==> list[p - 1].i < i) && i < At(list, p, |es|)
    ensures !Ends(es[i], u)
  {
    hide Ends;
    forall q | 0 <= q < |list| ensures list[q].i != i {
      if q < p {
        assert q == p - 1 || list[q].i < list[p - 1].i;
      } else {
        assert q == p || list[p].i < list[q].i;
      }
    }
  }

  // ---- counting row by row ----

  function Row2(es: seq<Edge>, i: nat, b: nat, c: Class): set<nat> { set k | 0 <= k < b && Cycle2(es, i, k, c) }

  function Cell3(es: seq<Edge>, i: nat, k: nat, b: nat): set<nat> { set l | 0 <= l < b && Cycle3(es, i, k, l) }

  function Plane3(es: seq<Edge>, i: nat, b: nat): set<(nat, nat)> {
    set k, l | 0 <= k < b && 0 <= l < |es| && Cycle3(es, i, k, l) :: (k, l)
  }

  lemma {:induction false} InjectiveImage<A, B>(s: set<A>, f: A -> B, t: set<B>)
    requires t == set x | x in s :: f(x)
    requires forall x, y :: x in s && y in s && f(x) == f(y) ==> x == y
    ensures |t| == |s|
    decreases |s|
  {
    if s == {} {
    } else {
      var x :| x in s;
      assert t - {f(x)} == set y | y in s - {x} :: f(y);
      InjectiveImage(s - {x}, f, t - {f(x)});
    }
  }

  lemma Disjoint<T>(a: set<T>, b: set<T>)
    requires a !! b
    ensures |a + b| == |a| + |b|
  {
  }

  lemma Row2Step(es: seq<Edge>, i: nat, k: nat, c: Class)
    ensures |Row2(es, i, k + 1, c)| == |Row2(es, i, k, c)| + if Cycle2(es, i, k, c) then 1 else 0
  {
    hide Cycle2;
    assert Row2(es, i, k + 1, c) == Row2(es, i, k, c) + if Cycle2(es, i, k, c) then {k} else {};
  }

  lemma Cell3Step(es: seq<Edge>, i: nat, k: nat, l: nat)
    ensures |Cell3(es, i, k, l + 1)| == |Cell3(es, i, k, l)| + if Cycle3(es, i, k, l) then 1 else 0
  {
    hide Cycle3;
    assert Cell3(es, i, k, l + 1) == Cell3(es, i, k, l) + if Cycle3(es, i, k, l) then {l} else {};
  }

  function PairRow(es: seq<Edge>, i: nat, c: Class): set<(nat, nat)> {
    set k | k in Row2(es, i, |es|, c) :: (i, k)
  }

  lemma PairsSplit(es: seq<Edge>, i: nat, c: Class)
    ensures Pairs(es, i + 1, c) == Pairs(es, i, c) + PairRow(es, i, c) && Pairs(es, i, c) !! PairRow(es, i, c)
  {
    hide Cycle2;
    forall t: (nat, nat) ensures t in PairRow(es, i, c) <==> t.0 == i && t.1 in Row2(es, i, |es|, c) {
    }
    hide PairRow;
  }

  lemma PairsStep(es: seq<Edge>, i: nat, c: Class)
    ensures |Pairs(es, i + 1, c)| == |Pairs(es, i, c)| + |Row2(es, i, |es|, c)|
  {
    InjectiveImage(Row2(es, i, |es|, c), k => (i, k), PairRow(es, i, c));
    hide Pairs, Row2, PairRow;
    PairsSplit(es, i, c);
    Disjoint(Pairs(es, i, c), PairRow(es, i, c));
  }

  function PlaneRow(es: seq<Edge>, i: nat, k: nat): set<(nat, nat)> {
    set l | l in Cell3(es, i, k, |es|) :: (k, l)
  }

  lemma Plane3Split(es: seq<Edge>, i: nat, k: nat)
    ensures Plane3(es, i, k + 1) == Plane3(es, i, k) + PlaneRow(es, i, k) && Plane3(es, i, k) !! PlaneRow(es, i, k)
  {
    hide Cycle3;
    forall t: (nat, nat) ensures t in PlaneRow(es, i, k) <==> t.0 == k && t.1 in Cell3(es, i, k, |es|) {
    }
    hide PlaneRow;
  }

  lemma Plane3Step(es: seq<Edge>, i: nat, k: nat)
    ensures |Plane3(es, i, k + 1)| == |Plane3(es, i, k)| + |Cell3(es, i, k, |es|)|
  {
    InjectiveImage(Cell3(es, i, k, |es|), l => (k, l), PlaneRow(es, i, k));
    hide Plane3, Cell3, PlaneRow;
    Plane3Split(es, i, k);
    Disjoint(Plane3(es, i, k), PlaneRow(es, i, k));
  }

  lemma TriplesStep(es: seq<Edge>, i: nat)
    ensures |Triples(es, i + 1)| == |Triples(es, i)| + |Plane3(es, i, |es|)|
  {
    hide Cycle3;
    var plane := set q | q in Plane3(es, i, |es|) :: (i, q.0, q.1);
    InjectiveImage(Plane3(es, i, |es|), (q: (nat, nat)) => (i, q.0, q.1), plane);
    forall t: (nat, nat, nat) ensures t in Triples(es, i + 1) <==> t in Triples(es, i) + plane {
      assert t in plane <==> t.0 == i && (t.1, t.2) in Plane3(es, i, |es|);
    }
    assert Triples(es, i + 1) == Triples(es, i) + plane;
    assert Triples(es, i) !! plane;
    Disjoint(Triples(es, i), plane);
  }

  lemma NothingYet(es: seq<Edge>, i: nat, k: nat)
    ensures forall c :: |Row2(es, i, 0, c)| == 0 && |Pairs(es, 0, c)| == 0
    ensures |Cell3(es, i, k, 0)| == 0 && |Plane3(es, i, 0)| == 0 && |Triples(es, 0)| == 0
  {
    assert forall c :: Row2(es, i, 0, c) == {} && Pairs(es, 0, c) == {};
    assert Cell3(es, i, k, 0) == {} && Plane3(es, i, 0) == {} && Triples(es, 0) == {};
  }

  /** No third edge continues a walk that is already back at SOL or has used one edge twice. */
  lemma NoThird(es: seq<Edge>, i: nat, k: nat)
    requires i == k || (i < |es| && k < |es| && Other(es[k], Other(es[i], SOL)) == SOL)
    ensures |Cell3(es, i, k, |es|)| == 0
  {
    assert Cell3(es, i, k, |es|) == {};
  }

  // ---- the loops ----

  /** The innermost loop: third edges back to SOL. */
  method CountThird(es: seq<Edge>, list: seq<Half>, i1: nat, i2: nat, t2: string) returns (n: nat)
    requires Proper(es) && i1 < |es| && i2 < |es| && i1 != i2
    requires Ends(es[i1], SOL) && Ends(es[i2], Other(es[i1], SOL)) && t2 == Other(es[i2], Other(es[i1], SOL)) != SOL
    requires Indexes(list, es, |es|, t2)
    ensures n == |Cell3(es, i1, i2, |es|)|
  {
    hide SOL, Cell3, Indexes;
    n := 0;
    var p := 0;
    NothingYet(es, i1, i2);
    SkipThird(es, list, i1, i2, t2, 0, 0);
    while p < |list|
      invariant p <= |list|
      invariant n == |Cell3(es, i1, i2, At(list, p, |es|))|
    {
      var h := list[p];
      Entry(list, es, |es|, t2, p);
      Cell3Step(es, i1, i2, h.i);
      SkipThird(es, list, i1, i2, t2, p + 1, h.i + 1);
      p := p + 1;
      if h.i == i1 || h.i == i2 {
        continue;
      }
      if h.other == SOL {
        n := n + 1;
      }
    }
  }

  lemma SkipThird(es: seq<Edge>, list: seq<Half>, i1: nat, i2: nat, t2: string, p: nat, b: nat)
    requires i1 < |es| && i2 < |es| && Ends(es[i1], SOL) && t2 == Other(es[i2], Other(es[i1], SOL))
    requires Indexes(list, es, |es|, t2) && p <= |list| && b == if p == 0 then 0 else list[p - 1].i + 1
    ensures Cell3(es, i1, i2, At(list, p, |es|)) == Cell3(es, i1, i2, b)
  {
    hide SOL;
    forall l | b <= l < At(list, p, |es|) ensures !Cycle3(es, i1, i2, l) {
      Gap(list, es, t2, p, l);
    }
  }

  /** The middle loop: everything that starts with one edge out of SOL. */
  method CountFrom(es: seq<Edge>, tab: map<string, seq<Half>>, i1: nat, t1: string) returns (n: Counts)
    requires Proper(es) && i1 < |es| && Ends(es[i1], SOL) && t1 == Other(es[i1], SOL)
    requires forall u :: Get(tab, u) == Adjacent(es, |es|, u)
    ensures n.n2 == |Row2(es, i1, |es|, Every)| && n.n3 == |Plane3(es, i1, |es|)|
    ensures n.route0 == |Row2(es, i1, |es|, DlmmPumpSol)| && n.fam5 == |Row2(es, i1, |es|, OtherMixed)|
  {
    hide SOL, Row2, Cell3, Plane3, Indexes;
    var list := Get(tab, t1);
    AdjacentIndexes(es, |es|, t1);
    n := Counts(0, 0, 0, 0);
    var p := 0;
    NothingYet(es, i1, 0);
    SkipSecond(es, list, i1, t1, 0, 0);
    while p < |list|
      invariant p <= |list|
      invariant n.n2 == |Row2(es, i1, At(list, p, |es|), Every)| && n.n3 == |Plane3(es, i1, At(list, p, |es|))|
      invariant n.route0 == |Row2(es, i1, At(list, p, |es|), DlmmPumpSol)|
      invariant n.fam5 == |Row2(es, i1, At(list, p, |es|), OtherMixed)|
    {
      var h := list[p];
      Entry(list, es, |es|, t1, p);
      forall c: Class { Row2Step(es, i1, h.i, c); }
      Plane3Step(es, i1, h.i);
      SkipSecond(es, list, i1, t1, p + 1, h.i + 1);
      p := p + 1;
      if h.i == i1 {
        NoThird(es, i1, h.i);
        continue;
      }
      if h.other == SOL {
        NoThird(es, i1, h.i);
        n := n.(n2 := n.n2 + 1);
        if Route0(es[i1], es[h.i]) {
          n := n.(route0 := n.route0 + 1);
        } else if Mixed(es[i1], es[h.i]) {
          n := n.(fam5 := n.fam5 + 1);
        }
        continue;
      }
      if h.other == t1 {
        continue;
      }
      AdjacentIndexes(es, |es|, h.other);
      var third := CountThird(es, Get(tab, h.other), i1, h.i, h.other);
      n := n.(n3 := n.n3 + third);
    }
  }

  lemma SkipSecond(es: seq<Edge>, list: seq<Half>, i1: nat, t1: string, p: nat, b: nat)
    requires i1 < |es| && t1 == Other(es[i1], SOL)
    requires Indexes(list, es, |es|, t1) && p <= |list| && b == if p == 0 then 0 else list[p - 1].i + 1
    ensures forall c :: Row2(es, i1, At(list, p, |es|), c) == Row2(es, i1, b, c)
    ensures Plane3(es, i1, At(list, p, |es|)) == Plane3(es, i1, b)
  {
    hide SOL, InClass;
    forall k | b <= k < At(list, p, |es|) ensures !Ends(es[k], t1) {
      Gap(list, es, t1, p, k);
    }
  }

  /** Counting closed routes over the adjacency index gives exactly the naive counts. */
  method CountClosed(pools: seq<Pool>) returns (n: Counts)
    ensures n == CountNaive(Edges(pools))
  {
    hide SOL, Pairs, Triples, Edges, Indexes;
    var es := ComputeEdges(pools);
    EdgesAreProper(pools);
    var tab := BuildAdjacency(es);
    var list := Get(tab, SOL);
    AdjacentIndexes(es, |es|, SOL);
    n := Counts(0, 0, 0, 0);
    var p := 0;
    NothingYet(es, 0, 0);
    SkipFirst(es, list, 0, 0);
    while p < |list|
      invariant p <= |list|
      invariant n.n2 == |Pairs(es, At(list, p, |es|), Every)| && n.n3 == |Triples(es, At(list, p, |es|))|
      invariant n.route0 == |Pairs(es, At(list, p, |es|), DlmmPumpSol)|
      invariant n.fam5 == |Pairs(es, At(list, p, |es|), OtherMixed)|
    {
      var h := list[p];
      Entry(list, es, |es|, SOL, p);
      forall c: Class { PairsStep(es, h.i, c); }
      TriplesStep(es, h.i);
      SkipFirst(es, list, p + 1, h.i + 1);
      p := p + 1;
      if h.other == SOL {
        continue;
      }
      var from := CountFrom(es, tab, h.i, h.other);
      n := Counts(n.n2 + from.n2, n.n3 + from.n3, n.route0 + from.route0, n.fam5 + from.fam5);
    }
  }

  lemma SkipFirst(es: seq<Edge>, list: seq<Half>, p: nat, b: nat)
    requires Indexes(list, es, |es|, SOL) && p <= |list| && b == if p == 0 then 0 else list[p - 1].i + 1
    ensures forall c :: Pairs(es, At(list, p, |es|), c) == Pairs(es, b, c)
    ensures Triples(es, At(list, p, |es|)) == Triples(es, b)
  {
    hide SOL, InClass;
    forall k | b <= k < At(list, p, |es|) ensures !Ends(es[k], SOL) {
      Gap(list, es, SOL, p, k);
    }
  }

  lemma EdgesTurn(pools: seq<Pool>)
    requires pools != []
    ensures IsEdge(pools[0]) ==>
              Edges(pools) == [Edge(EdgeKind(pools[0]), pools[0].mx, pools[0].my)] + Edges(pools[1..])
    ensures !IsEdge(pools[0]) ==> Edges(pools) == Edges(pools[1..])
  {
  }

  method ComputeEdges(pools: seq<Pool>) returns (es: seq<Edge>)
    ensures es == Edges(pools)
  {
    es := [];
    assert Edges([]) == [];
    hide Edges;
    for i := 0 to |pools|
      invariant es + Edges(pools[i..]) == Edges(pools)
    {
      EdgesTurn(pools[i..]);
      assert pools[i..][1..] == pools[i + 1..];
      var kind := if pools[i].kind != "" then pools[i].kind else pools[i].proto;
      if kind != "dlmm" && kind != "pump" {
        continue;
      }
      if pools[i].mx == "" || pools[i].my == "" || pools[i].mx == pools[i].my {
        continue;
      }
      es := es + [Edge(kind, pools[i].mx, pools[i].my)];
    }
    assert pools[|pools|..] == [] && es + [] == es;
  }

  /** Every difference made by extra pools is even and not negative. */
  method DeltaClosed(base: seq<Pool>, extra: seq<Pool>) returns (d2: int, d3: int, dRoute0: int, dFam5: int)
    ensures d2 == CountNaive(Edges(base + extra)).n2 - CountNaive(Edges(base)).n2
    ensures d3 == CountNaive(Edges(base + extra)).n3 - CountNaive(Edges(base)).n3
    ensures dRoute0 == CountNaive(Edges(base + extra)).route0 - CountNaive(Edges(base)).route0
    ensures dFam5 == CountNaive(Edges(base + extra)).fam5 - CountNaive(Edges(base)).fam5
    ensures d2 >= 0 && d3 >= 0 && dRoute0 >= 0 && dFam5 >= 0
    ensures d2 % 2 == 0 && d3 % 2 == 0 && dRoute0 % 2 == 0 && dFam5 % 2 == 0
  {
    hide CountNaive, Edges;
    var b := CountClosed(base);
    var a := CountClosed(base + extra);
    EdgesAreProper(base);
    EdgesAreProper(base + extra);
    EdgesAppend(base, extra);
    CountsGrow(Edges(base), Edges(extra));
    CountsAreEven(Edges(base));
    CountsAreEven(Edges(base + extra));
    return a.n2 - b.n2, a.n3 - b.n3, a.route0 - b.route0, a.fam5 - b.fam5;
  }
}
