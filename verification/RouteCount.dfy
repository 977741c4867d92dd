/** Closed SOL routes over typed pools, as sets of edge cycles; parity and growth of their numbers. */
module RouteCount {
  const SOL: string := "So11111111111111111111111111111111111111112"

  /** kind and proto are empty when a pool does not carry them. */
  datatype Pool = Pool(kind: string, proto: string, mx: string, my: string)

  datatype Edge = Edge(kind: string, mx: string, my: string)

  function EdgeKind(p: Pool): string { if p.kind != "" then p.kind else p.proto }

  predicate IsEdge(p: Pool) {
    (EdgeKind(p) == "dlmm" || EdgeKind(p) == "pump") && p.mx != "" && p.my != "" && p.mx != p.my
  }

  /** The pools that trade two different mints, in order. */
  function Edges(pools: seq<Pool>): seq<Edge> {
    if pools == [] then []
    else (if IsEdge(pools[0]) then [Edge(EdgeKind(pools[0]), pools[0].mx, pools[0].my)] else []) + Edges(pools[1..])
  }

  ghost predicate Proper(es: seq<Edge>) { forall i :: 0 <= i < |es| ==> es[i].mx != es[i].my }

  predicate Ends(e: Edge, u: string) { e.mx == u || e.my == u }

  function Other(e: Edge, u: string): string { if e.mx == u then e.my else e.mx }

  predicate Mixed(a: Edge, b: Edge) { (a.kind == "dlmm" && b.kind == "pump") || (a.kind == "pump" && b.kind == "dlmm") }

  /** One DLMM and one Pump pool quoting the same token in SOL. */
  predicate Route0(a: Edge, b: Edge) {
    Mixed(a, b) && a.my == SOL && b.my == SOL && a.mx == b.mx && a.mx != SOL
  }

  /** Classes of two-hop cycles that are counted separately. */
  datatype Class = Every | DlmmPumpSol | OtherMixed

  predicate InClass(a: Edge, b: Edge, c: Class) {
    match c
    case Every => true
    case DlmmPumpSol => Route0(a, b)
    case OtherMixed => Mixed(a, b) && !Route0(a, b)
  }

  /** Edges i and k, taken in this order, lead from SOL to a token and back. */
  predicate Cycle2(es: seq<Edge>, i: nat, k: nat, c: Class) {
    && i < |es| && k < |es| && i != k
    && Ends(es[i], SOL) && Ends(es[k], Other(es[i], SOL)) && Other(es[k], Other(es[i], SOL)) == SOL
    && InClass(es[i], es[k], c)
  }

  /** Edges i, k and l lead from SOL over two tokens and back. */
  predicate Cycle3(es: seq<Edge>, i: nat, k: nat, l: nat) {
    && i < |es| && k < |es| && l < |es| && i != k && i != l && k != l
    && Ends(es[i], SOL)
    && var t1 := Other(es[i], SOL);
       Ends(es[k], t1) && var t2 := Other(es[k], t1);
                          t2 != SOL && Ends(es[l], t2) && Other(es[l], t2) == SOL
  }

  function Pairs(es: seq<Edge>, b: nat, c: Class): set<(nat, nat)> {
    set i, k | 0 <= i < b && 0 <= k < |es| && Cycle2(es, i, k, c) :: (i, k)
  }

  function Triples(es: seq<Edge>, b: nat): set<(nat, nat, nat)> {
    set i, k, l | 0 <= i < b && 0 <= k < |es| && 0 <= l < |es| && Cycle3(es, i, k, l) :: (i, k, l)
  }

  datatype Counts = Counts(n2: nat, n3: nat, route0: nat, fam5: nat)

  /** The naive counts: all ordered two- and three-edge cycles through SOL. */
  function CountNaive(es: seq<Edge>): Counts {
    Counts(|Pairs(es, |es|, Every)|, |Triples(es, |es|)|, |Pairs(es, |es|, DlmmPumpSol)|, |Pairs(es, |es|, OtherMixed)|)
  }

  // ---- parity ----

  lemma {:induction false} EvenByInvolution<T>(s: set<T>, f: T -> T)
    requires forall x :: x in s ==> f(x) in s && f(f(x)) == x && f(x) != x
    ensures |s| % 2 == 0
    decreases |s|
  {
    if s == {} {
    } else {
      var x :| x in s;
      var rest := s - {x, f(x)};
      assert |rest| == |s| - 2;
      forall y | y in rest ensures f(y) in rest {
        assert f(f(y)) == y && f(f(x)) == x;
      }
      EvenByInvolution(rest, f);
    }
  }

  /** A cycle run backwards is a cycle of the same class. */
  lemma Reversal(es: seq<Edge>, i: nat, k: nat, l: nat, c: Class)
    requires Proper(es)
    ensures Cycle2(es, i, k, c) ==> Cycle2(es, k, i, c)
    ensures Cycle3(es, i, k, l) ==> Cycle3(es, l, k, i)
  {
  }

  /** Reversal pairs the cycles off without a fixed point, so every count is even. */
  lemma CountsAreEven(es: seq<Edge>)
    requires Proper(es)
    ensures var n := CountNaive(es);
            n.n2 % 2 == 0 && n.n3 % 2 == 0 && n.route0 % 2 == 0 && n.fam5 % 2 == 0
  {
    forall c: Class ensures |Pairs(es, |es|, c)| % 2 == 0 {
      forall p | p in Pairs(es, |es|, c) ensures (p.1, p.0) in Pairs(es, |es|, c) {
        Reversal(es, p.0, p.1, 0, c);
      }
      EvenByInvolution(Pairs(es, |es|, c), (p: (nat, nat)) => (p.1, p.0));
    }
    forall p | p in Triples(es, |es|) ensures (p.2, p.1, p.0) in Triples(es, |es|) {
      Reversal(es, p.0, p.1, p.2, Every);
    }
    EvenByInvolution(Triples(es, |es|), (p: (nat, nat, nat)) => (p.2, p.1, p.0));
  }

  // ---- growth ----

  lemma {:induction false} SubsetSmaller<T>(a: set<T>, b: set<T>)
    requires a <= b
    ensures |a| <= |b|
  {
    assert b == a + (b - a);
  }

  /** The two mixed classes are disjoint parts of all two-hop cycles. */
  lemma ClassesPartition(es: seq<Edge>)
    ensures CountNaive(es).route0 + CountNaive(es).fam5 <= CountNaive(es).n2
  {
    var r, f, a := Pairs(es, |es|, DlmmPumpSol), Pairs(es, |es|, OtherMixed), Pairs(es, |es|, Every);
    assert r !! f;
    assert |r + f| == |r| + |f|;
    SubsetSmaller(r + f, a);
  }

  lemma {:induction false} EdgesAppend(p: seq<Pool>, q: seq<Pool>)
    ensures Edges(p + q) == Edges(p) + Edges(q)
  {
    hide IsEdge, EdgeKind;
    if p == [] {
      assert p + q == q;
    } else {
      assert (p + q)[1..] == p[1..] + q;
      EdgesAppend(p[1..], q);
      var first := if IsEdge(p[0]) then [Edge(EdgeKind(p[0]), p[0].mx, p[0].my)] else [];
      assert Edges(p) == first + Edges(p[1..]) && Edges(p + q) == first + Edges(p[1..] + q);
      hide Edges;
      assert first + (Edges(p[1..]) + Edges(q)) == (first + Edges(p[1..])) + Edges(q);
    }
  }

  lemma {:induction false} EdgesAreProper(pools: seq<Pool>)
    ensures Proper(Edges(pools))
  {
    if pools == [] {
    } else {
      EdgesAreProper(pools[1..]);
    }
  }

  ghost predicate NoMore(a: Counts, b: Counts) {
    a.n2 <= b.n2 && a.n3 <= b.n3 && a.route0 <= b.route0 && a.fam5 <= b.fam5
  }

  /** Appending edges never lowers a count. */
  lemma CountsGrow(es: seq<Edge>, more: seq<Edge>)
    ensures NoMore(CountNaive(es), CountNaive(es + more))
  {
    var all := es + more;
    forall c: Class ensures |Pairs(es, |es|, c)| <= |Pairs(all, |all|, c)| {
      assert Pairs(es, |es|, c) <= Pairs(all, |all|, c);
      SubsetSmaller(Pairs(es, |es|, c), Pairs(all, |all|, c));
    }
    assert Triples(es, |es|) <= Triples(all, |all|);
    SubsetSmaller(Triples(es, |es|), Triples(all, |all|));
  }


  // ---- in plain terms ----

  predicate Joins(e: Edge, a: string, b: string) { (e.mx == a && e.my == b) || (e.mx == b && e.my == a) }

  /** A pool is an edge when it is a DLMM or a Pump pool, by kind or else by protocol, of two different
      named mints. */
  lemma EdgeOfPool(p: Pool)
    ensures var kind := if p.kind == "" then p.proto else p.kind;
            Edges([p]) == if (kind == "dlmm" || kind == "pump") && p.mx != "" && p.my != "" && p.mx != p.my
                          then [Edge(kind, p.mx, p.my)] else []
    ensures Edges([]) == []
  {
    assert [p][1..] == [];
  }

  /** A two-hop cycle is made of two different edges that join SOL and the same token. */
  lemma TwoHopsAre(es: seq<Edge>, i: nat, k: nat)
    requires Proper(es)
    ensures Cycle2(es, i, k, Every) <==>
            && i < |es| && k < |es| && i != k
            && exists t :: Joins(es[i], "So11111111111111111111111111111111111111112", t)
                           && Joins(es[k], "So11111111111111111111111111111111111111112", t)
  {
    if Cycle2(es, i, k, Every) {
      assert Joins(es[i], SOL, Other(es[i], SOL)) && Joins(es[k], SOL, Other(es[i], SOL));
    }
    hide SOL;
  }

  /** A three-hop cycle leads over two different tokens, along three different edges. */
  lemma ThreeHopsAre(es: seq<Edge>, i: nat, k: nat, l: nat)
    requires Proper(es)
    ensures Cycle3(es, i, k, l) <==>
            && i < |es| && k < |es| && l < |es| && i != k && i != l && k != l
            && exists t, u :: Joins(es[i], "So11111111111111111111111111111111111111112", t) && Joins(es[k], t, u)
                              && Joins(es[l], u, "So11111111111111111111111111111111111111112")
                              && u != "So11111111111111111111111111111111111111112"
  {
    if Cycle3(es, i, k, l) {
      var t := Other(es[i], SOL);
      var u := Other(es[k], t);
      assert Joins(es[i], SOL, t) && Joins(es[k], t, u) && Joins(es[l], u, SOL);
    }
    hide SOL;
  }

  /** The classes of a two-hop cycle: a DLMM and a Pump pool that both list the token first and SOL second
      are route 0; any other pair of a DLMM and a Pump pool is family 5. */
  lemma ClassesAre(es: seq<Edge>, i: nat, k: nat)
    requires Cycle2(es, i, k, Every) && Proper(es)
    ensures var mixed := (es[i].kind == "dlmm" && es[k].kind == "pump")
                         || (es[i].kind == "pump" && es[k].kind == "dlmm");
            var solSecond := es[i].my == es[k].my == "So11111111111111111111111111111111111111112";
            && (Cycle2(es, i, k, DlmmPumpSol) <==> mixed && solSecond)
            && (Cycle2(es, i, k, OtherMixed) <==> mixed && !solSecond)
  {
    TwoHopsAre(es, i, k);
  }

  function Pairing(a: Edge, b: Edge): seq<Edge> { [a, b] }

  /** The counts of a DLMM and a Pump pool of one token. */
  lemma TwoPools(t: string, solFirst: bool, solFirst2: bool)
    requires t != "So11111111111111111111111111111111111111112"
    ensures var a := if solFirst then Edge("dlmm", SOL, t) else Edge("dlmm", t, SOL);
            var b := if solFirst2 then Edge("pump", SOL, t) else Edge("pump", t, SOL);
            CountNaive(Pairing(a, b)) == if solFirst || solFirst2 then Counts(2, 0, 0, 2) else Counts(2, 0, 2, 0)
  {
    var a := if solFirst then Edge("dlmm", SOL, t) else Edge("dlmm", t, SOL);
    var b := if solFirst2 then Edge("pump", SOL, t) else Edge("pump", t, SOL);
    var es := Pairing(a, b);
    assert Proper(es) && Joins(a, SOL, t) && Joins(b, SOL, t);
    TwoHopsAre(es, 0, 1);
    ClassesAre(es, 0, 1);
    hide Cycle2, SOL;
    CyclesOfTwo(es, Every);
    CyclesOfTwo(es, DlmmPumpSol);
    CyclesOfTwo(es, OtherMixed);
    NoThreeOfTwo(es);
  }

  lemma CyclesOfTwo(es: seq<Edge>, c: Class)
    requires |es| == 2 && Proper(es)
    ensures |Pairs(es, 2, c)| == if Cycle2(es, 0, 1, c) then 2 else 0
  {
    Reversal(es, 0, 1, 0, c);
    Reversal(es, 1, 0, 0, c);
    DistinctEdges(es, c);
    hide Cycle2, Proper;
    var both: set<(nat, nat)> := {(0, 1), (1, 0)};
    assert |both| == 2;
    forall p: (nat, nat) ensures p in Pairs(es, 2, c) <==> p in both && Cycle2(es, 0, 1, c) {
      if p in Pairs(es, 2, c) {
        InPairs(es, c, p);
      }
    }
    hide Pairs;
    assert Pairs(es, 2, c) == if Cycle2(es, 0, 1, c) then both else {};
  }

  lemma InPairs(es: seq<Edge>, c: Class, p: (nat, nat))
    requires |es| == 2 && p in Pairs(es, 2, c)
    ensures p.0 < 2 && p.1 < 2 && p.0 != p.1 && Cycle2(es, p.0, p.1, c)
  {
    hide SOL, InClass;
  }

  lemma DistinctEdges(es: seq<Edge>, c: Class)
    ensures forall i :: !Cycle2(es, i, i, c)
  {
  }

  lemma NoThreeOfTwo(es: seq<Edge>)
    requires |es| == 2
    ensures |Triples(es, 2)| == 0
  {
    assert Triples(es, 2) == {};
  }
}
