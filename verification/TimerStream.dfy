/** The replay read off the stream of records alone: the clock, the published partners, the jobs each
    snapshot queues, and which of them fire. */
module TimerStream {
  import opened Rounding
  import opened Volatility
  import opened TimerQueue
  import opened TimerFate

  // ---- what records say ----

  /** The record carries a usable timestamp. */
  predicate Stamps(e: Event, t: int) {
    e.kind.Auth? && e.proto.DlmmProto? && e.now == Some(t) && 1_790_300_000 <= t <= 1_790_400_000
  }

  predicate Publishes(e: Event, p: nat) { e.kind.Auth? && e.proto.PumpProto? && e.pumpParsed && e.idx == p }

  predicate Observes(e: Event, pool: nat, d: Pair) {
    e.kind.Auth? && e.proto.DlmmProto? && e.idx == pool && e.dlmm == Some(d)
  }

  predicate Invalidates(e: Event, pool: nat) { e.kind.Inv? && e.idx == pool }

  /** Time of record m: the latest usable timestamp so far, zero before the first. */
  function TimeAt(es: seq<Event>, m: nat): int
    requires m < |es|
  {
    ClockAt(0, es, m)
  }

  ghost predicate LatestStamp(es: seq<Event>, n: nat, t: int)
    requires n <= |es|
  {
    && (forall m, u :: 0 <= m < n && Stamps(es[m], u) ==> u <= t)
    && (t == 0 || exists m :: 0 <= m < n && Stamps(es[m], t))
  }

  lemma {:induction false} ClockIsLatest(clock: int, es: seq<Event>)
    requires clock >= 0
    ensures var t := ClockAfter(clock, es);
            && t >= clock && (forall m, u :: 0 <= m < |es| && Stamps(es[m], u) ==> u <= t)
            && (t == clock || exists m :: 0 <= m < |es| && Stamps(es[m], t))
    decreases |es|
  {
    if es == [] {
    } else {
      var rest, c := es[1..], NextClock(clock, es[0]);
      ClockIsLatest(c, rest);
      var t := ClockAfter(clock, es);
      if t != c {
        var m :| 0 <= m < |rest| && Stamps(rest[m], t);
        assert Stamps(es[m + 1], t);
      } else if t != clock {
        assert Stamps(es[0], t);
      }
      forall m, u | 0 <= m < |es| && Stamps(es[m], u) ensures u <= t {
        if m > 0 {
          assert Stamps(rest[m - 1], u);
        }
      }
    }
  }

  lemma {:induction false} ClockOfPrefix(clock: int, es: seq<Event>, m: nat)
    requires m < |es|
    ensures ClockAt(clock, es, m) == ClockAfter(clock, es[..m + 1])
    decreases m
  {
    assert es[..m + 1][0] == es[0] && es[..m + 1][1..] == es[1..][..m];
    if m == 0 {
      assert es[1..][..0] == [];
    } else {
      ClockOfPrefix(NextClock(clock, es[0]), es[1..], m - 1);
    }
  }

  /** The time of a record is the latest usable timestamp up to it. */
  lemma TimeIsLatest(es: seq<Event>, m: nat)
    requires m < |es|
    ensures LatestStamp(es, m + 1, TimeAt(es, m))
  {
    ClockOfPrefix(0, es, m);
    ClockIsLatest(0, es[..m + 1]);
    var t := TimeAt(es, m);
    if t != 0 {
      var k :| 0 <= k < m + 1 && Stamps(es[..m + 1][k], t);
      assert Stamps(es[k], t);
    }
    forall k, u | 0 <= k < m + 1 && Stamps(es[k], u) ensures u <= t {
      assert Stamps(es[..m + 1][k], u);
    }
  }

  // ---- the state of the machine ----

  lemma RunSnoc(es: seq<Event>, partners: Partners, n: nat)
    requires n < |es|
    ensures Run(INITIAL, es[..n + 1], partners) == Step(Run(INITIAL, es[..n], partners), es[n], partners)
    ensures Invariant(Run(INITIAL, es[..n], partners))
  {
    hide Step, Invariant;
    InitialInvariant();
    RunKeeps(INITIAL, es[..n], partners);
    assert es[..n + 1][..n] == es[..n] && es[..n + 1][n..] == [es[n]];
    RunSplit(INITIAL, es[..n + 1], partners, n);
    var s := Run(INITIAL, es[..n], partners);
    assert [es[n]][1..] == [];
    assert Run(s, [es[n]], partners) == Run(Step(s, es[n], partners), [], partners);
  }

  /** What one record changes of the clock, the universe and the published partners. */
  lemma StepKnows(s: State, e: Event, partners: Partners)
    requires Invariant(s)
    ensures var t := Step(s, e, partners);
            && t.clock == NextClock(s.clock, e)
            && (t.switched <==> s.switched || e.idx > 170)
            && t.lastPump == if t.clock > 0 && Publishes(e, e.idx) then s.lastPump[e.idx := t.clock] else s.lastPump
  {
    hide FireUpto, Handle, Invariant;
    StepKeeps(s, e, partners);
    var c, sw := NextClock(s.clock, e), s.switched || e.idx > SWITCH_IDX;
    if c > 0 {
      var v := s.(switched := sw, clock := c);
      ClockKeeps(s, c, sw);
      FireKnows(s, v);
      HandleKnows(FireUpto(v, c), e, partners);
    }
  }

  lemma FireKnows(s: State, v: State)
    requires Invariant(s) && v == s.(switched := v.switched, clock := v.clock)
    ensures var u := FireUpto(v, v.clock); u == v.(heap := u.heap, fired := u.fired)
  {
    FireUptoEffect(v, v.clock);
  }

  lemma HandleKnows(u: State, e: Event, partners: Partners)
    requires Invariant(u) && u.clock > 0
    ensures var t := Handle(u, e, partners);
            && t.clock == u.clock && t.switched == u.switched
            && t.lastPump == if Publishes(e, e.idx) then u.lastPump[e.idx := u.clock] else u.lastPump
  {
    hide Schedule, Invariant;
    if e.kind.Auth? && e.proto.DlmmProto? && e.dlmm.Some? {
      ObserveKeeps(u, e.idx, e.dlmm.value);
      ScheduleKeeps(Observe(u, e.idx, e.dlmm.value), e.idx, e.dlmm.value, partners);
    }
  }

  /** Partner p was published by a record before n, once the clock was running. */
  ghost predicate Published(es: seq<Event>, n: nat, p: nat)
    requires n <= |es|
  {
    exists m :: 0 <= m < n && Publishes(es[m], p) && TimeAt(es, m) > 0
  }

  /** The last time it was. */
  ghost predicate LastPublished(es: seq<Event>, n: nat, p: nat, t: int)
    requires n <= |es|
  {
    exists m :: 0 <= m < n && Publishes(es[m], p) && TimeAt(es, m) == t
                && forall k :: m < k < n ==> !Publishes(es[k], p)
  }

  /** A record of a pool above 170 was seen before n. */
  ghost predicate FullUniverse(es: seq<Event>, n: nat)
    requires n <= |es|
  {
    exists m :: 0 <= m < n && es[m].idx > 170
  }

  /** The machine's clock, universe and published partners after n records. */
  lemma {:induction false} StateOfStream(es: seq<Event>, partners: Partners, n: nat)
    requires n <= |es|
    ensures var s := Run(INITIAL, es[..n], partners);
            && (n > 0 ==> s.clock == TimeAt(es, n - 1)) && (n == 0 ==> s.clock == 0)
            && (s.switched <==> FullUniverse(es, n))
            && (forall p: nat :: p in s.lastPump <==> Published(es, n, p))
            && (forall p: nat :: p in s.lastPump ==> LastPublished(es, n, p, s.lastPump[p]))
    decreases n
  {
    hide Step, Run, Invariant, Published, LastPublished, TimeAt, Publishes, FullUniverse;
    if n == 0 {
      NothingSeen(es, partners);
    } else {
      var k := n - 1;
      StateOfStream(es, partners, k);
      RunSnoc(es, partners, k);
      StepKnows(Run(INITIAL, es[..k], partners), es[k], partners);
      TimeStep(es, k);
      PublishedStep(es, k);
      LastPublishedStep(es, k);
    }
  }

  lemma NothingSeen(es: seq<Event>, partners: Partners)
    ensures Run(INITIAL, es[..0], partners) == INITIAL && !FullUniverse(es, 0) && forall p: nat :: !Published(es, 0, p)
  {
    assert es[..0] == [];
  }

  /** What one more record publishes. */
  lemma PublishedStep(es: seq<Event>, k: nat)
    requires k < |es|
    ensures FullUniverse(es, k + 1) <==> FullUniverse(es, k) || es[k].idx > 170
    ensures forall p: nat ::
              Published(es, k + 1, p) <==> Published(es, k, p) || (Publishes(es[k], p) && TimeAt(es, k) > 0)
    ensures forall p: nat :: Publishes(es[k], p) ==> p == es[k].idx
    ensures forall p: nat :: Publishes(es[k], p) ==>
              LastPublished(es, k + 1, p, TimeAt(es, k)) && (Published(es, k, p) ==> TimeAt(es, k) > 0)
  {
    TimesGrow(es, k);
    hide TimeAt;
  }

  lemma {:induction false} TimesGrow(es: seq<Event>, k: nat)
    requires k < |es|
    ensures forall m :: 0 <= m <= k ==> TimeAt(es, m) <= TimeAt(es, k)
    decreases k
  {
    hide TimeAt;
    TimeStep(es, k);
    if k == 0 {
    } else {
      TimesGrow(es, k - 1);
    }
  }

  lemma TimeStep(es: seq<Event>, k: nat)
    requires k < |es|
    ensures TimeAt(es, k) == NextClock(if k == 0 then 0 else TimeAt(es, k - 1), es[k])
    ensures k > 0 ==> 0 <= TimeAt(es, k - 1) <= TimeAt(es, k)
  {
    ClockOfPrefix(0, es, k);
    if k > 0 {
      ClockOfPrefix(0, es, k - 1);
      assert es[..k + 1] == es[..k] + [es[k]];
      ClockSnoc(0, es[..k], es[k]);
      ClockNeverBack(0, es[..k]);
    }
  }

  lemma {:induction false} ClockSnoc(clock: int, es: seq<Event>, e: Event)
    ensures ClockAfter(clock, es + [e]) == NextClock(ClockAfter(clock, es), e)
    decreases |es|
  {
    if es == [] {
      assert [e][1..] == [];
    } else {
      assert (es + [e])[1..] == es[1..] + [e];
      ClockSnoc(NextClock(clock, es[0]), es[1..], e);
    }
  }

  lemma LastPublishedStep(es: seq<Event>, k: nat)
    requires k < |es|
    ensures forall p: nat, t: int ::
              !Publishes(es[k], p) && LastPublished(es, k, p, t) ==> LastPublished(es, k + 1, p, t)
  {
    forall p: nat, t: int | !Publishes(es[k], p) && LastPublished(es, k, p, t) ensures LastPublished(es, k + 1, p, t) {
      var m :| 0 <= m < k && Publishes(es[m], p) && TimeAt(es, m) == t
               && forall i :: m < i < k ==> !Publishes(es[i], p);
      assert 0 <= m < k + 1;
    }
  }


  // ---- the partners of a job ----

  /** parts are the candidates published before n, in the order of the candidates. */
  ghost predicate Sifted(parts: seq<nat>, candidates: seq<nat>, es: seq<Event>, n: nat)
    requires n <= |es|
    decreases |candidates|
  {
    if candidates == [] then parts == []
    else
      var k := |candidates| - 1;
      if Published(es, n, candidates[k]) then
        parts != [] && parts[|parts| - 1] == candidates[k] && Sifted(parts[..|parts| - 1], candidates[..k], es, n)
      else Sifted(parts, candidates[..k], es, n)
  }

  lemma {:induction false} SiftedMembers(parts: seq<nat>, candidates: seq<nat>, es: seq<Event>, n: nat, p: nat)
    requires n <= |es| && Sifted(parts, candidates, es, n)
    ensures p in parts <==> p in candidates && Published(es, n, p)
    decreases |candidates|
  {
    hide Published;
    if candidates == [] {
    } else {
      var k := |candidates| - 1;
      assert candidates == candidates[..k] + [candidates[k]];
      if Published(es, n, candidates[k]) {
        assert parts == parts[..|parts| - 1] + [candidates[k]];
        SiftedMembers(parts[..|parts| - 1], candidates[..k], es, n, p);
      } else {
        SiftedMembers(parts, candidates[..k], es, n, p);
      }
    }
  }

  lemma {:induction false} PresentSnoc(s: State, candidates: seq<nat>, p: nat)
    ensures Present(s, candidates + [p]) == Present(s, candidates) + if p in s.lastPump then [p] else []
  {
    if candidates == [] {
      assert [] + [p] == [p] && [p][1..] == [];
    } else {
      assert (candidates + [p])[1..] == candidates[1..] + [p];
      PresentSnoc(s, candidates[1..], p);
    }
  }

  lemma {:induction false} PresentIsSifted(s: State, candidates: seq<nat>, es: seq<Event>, n: nat)
    requires n <= |es| && forall p: nat :: p in s.lastPump <==> Published(es, n, p)
    ensures Sifted(Present(s, candidates), candidates, es, n)
    decreases |candidates|
  {
    hide Published;
    if candidates == [] {
    } else {
      var k := |candidates| - 1;
      var front := candidates[..k];
      assert candidates == front + [candidates[k]];
      PresentSnoc(s, front, candidates[k]);
      PresentIsSifted(s, front, es, n);
      var parts, rest := Present(s, candidates), Present(s, front);
      if candidates[k] in s.lastPump {
        assert parts == rest + [candidates[k]] && parts[..|parts| - 1] == rest;
      } else {
        assert parts == rest;
      }
    }
  }

  // ---- which jobs a record queues ----

  /** A job that a record adds is of the snapshot it observes. */
  lemma NewJob(s: State, e: Event, partners: Partners, j: Job)
    requires Invariant(s) && j in Step(s, e, partners).heap && j.id > s.seqNo
    ensures var t := Step(s, e, partners);
            var parts := Present(s, partners(t.switched, j.pool));
            && t.clock > 0 && Observes(e, j.pool, j.dlmm) && parts != []
            && FreshJob(t.(seqNo := s.seqNo), j, j.pool, j.dlmm, parts, NextBoundaries(j.dlmm, t.clock))
  {
    hide FeeAfterTime, NextBoundaries, Present, Handle, FreshJob, FireUpto, Invariant, Observes;
    var c, sw := NextClock(s.clock, e), s.switched || e.idx > SWITCH_IDX;
    var v := s.(switched := sw, clock := c);
    NoNewIds(s);
    ClockForward(s, e);
    if c > 0 {
      FireKeepsOld(s, v);
      HandleNew(FireUpto(v, c), e, partners, j);
      PresentReads(s, FireUpto(v, c), partners(sw, j.pool));
      FreshReads(FireUpto(v, c), Step(s, e, partners).(seqNo := s.seqNo), j, Present(s, partners(sw, j.pool)));
    }
  }

  lemma NoNewIds(s: State)
    requires Invariant(s)
    ensures s.clock >= 0 && forall j :: j in s.heap ==> j.id <= s.seqNo
  {
  }

  lemma FireKeepsOld(s: State, v: State)
    requires Invariant(s) && v == s.(switched := v.switched, clock := v.clock) && v.clock >= s.clock && v.clock > 0
    ensures var u := FireUpto(v, v.clock);
            && Invariant(u) && u == v.(heap := u.heap, fired := u.fired) && forall j :: j in u.heap ==> j in s.heap
  {
    hide Fire;
    FireUptoEffect(v, v.clock);
    ClockKeeps(s, v.clock, v.switched);
  }

  lemma FreshReads(u: State, t: State, j: Job, parts: seq<nat>)
    requires u.clock == t.clock && u.seqNo == t.seqNo
    requires FreshJob(u, j, j.pool, j.dlmm, parts, NextBoundaries(j.dlmm, u.clock))
    ensures FreshJob(t, j, j.pool, j.dlmm, parts, NextBoundaries(j.dlmm, t.clock))
  {
    hide FeeAfterTime, NextBoundaries;
  }

  lemma HandleNew(u: State, e: Event, partners: Partners, j: Job)
    requires Invariant(u) && u.clock > 0 && j in Handle(u, e, partners).heap && j !in u.heap
    ensures var parts := Present(u, partners(u.switched, j.pool));
            && Observes(e, j.pool, j.dlmm) && parts != []
            && FreshJob(u, j, j.pool, j.dlmm, parts, NextBoundaries(j.dlmm, u.clock))
    ensures Handle(u, e, partners).clock == u.clock && Handle(u, e, partners).switched == u.switched
  {
    hide FeeAfterTime, NextBoundaries, Present, PushAll, Invariant;
    if e.kind.Auth? && e.proto.DlmmProto? && e.dlmm.Some? {
      var o := Observe(u, e.idx, e.dlmm.value);
      ObserveKeeps(u, e.idx, e.dlmm.value);
      ScheduleKeeps(o, e.idx, e.dlmm.value, partners);
      PresentReads(u, o, partners(u.switched, e.idx));
    }
  }

  lemma {:induction false} PresentReads(s: State, t: State, candidates: seq<nat>)
    requires s.lastPump == t.lastPump
    ensures Present(s, candidates) == Present(t, candidates)
  {
    if candidates == [] {
    } else {
      PresentReads(s, t, candidates[1..]);
    }
  }

  /** What a queued job is, in terms of the stream. */
  ghost predicate JobOfStream(es: seq<Event>, partners: Partners, i: nat, j: Job)
    requires i < |es|
  {
    var t := TimeAt(es, i);
    && t > 0 && Observes(es[i], j.pool, j.dlmm) && j.schedTs == t < j.boundary
    && (j.crossing, j.boundary) in NextBoundaries(j.dlmm, t) && j.feeBefore == FeeAfterTime(j.dlmm, t).rate
    && j.partners != [] && Sifted(j.partners, partners(FullUniverse(es, i + 1), j.pool), es, i)
  }

  /** Every job a record queues is one of the snapshot it observes, with the partners published by then. */
  lemma QueuedJob(es: seq<Event>, partners: Partners, i: nat, j: Job)
    requires i < |es| && ScheduledAt(INITIAL, es, partners, i, j)
    ensures JobOfStream(es, partners, i, j)
  {
    hide Step, Run, FeeAfterTime, NextBoundaries, FullUniverse, Published, Invariant;
    var s := Run(INITIAL, es[..i], partners);
    RunSnoc(es, partners, i);
    StateOfStream(es, partners, i);
    StateOfStream(es, partners, i + 1);
    NewJob(s, es[i], partners, j);
    PresentIsSifted(s, partners(FullUniverse(es, i + 1), j.pool), es, i);
  }

  /** Its partners are the candidates of the universe so far that a parsed record published earlier. */
  lemma PartnersAre(es: seq<Event>, partners: Partners, i: nat, j: Job, p: nat)
    requires i < |es| && ScheduledAt(INITIAL, es, partners, i, j)
    ensures p in j.partners <==>
            && p in partners(exists m :: 0 <= m <= i && es[m].idx > 170, j.pool)
            && exists m :: 0 <= m < i && Publishes(es[m], p) && TimeAt(es, m) > 0
  {
    QueuedJob(es, partners, i, j);
    hide Run, Step, ScheduledAt, FeeAfterTime, NextBoundaries;
    var full := exists m :: 0 <= m <= i && es[m].idx > 170;
    assert full == FullUniverse(es, i + 1);
    SiftedMembers(j.partners, partners(full, j.pool), es, i, p);
  }

  /** And every boundary of a snapshot observed while some partner is known is queued. */
  lemma QueuesBoundary(es: seq<Event>, partners: Partners, i: nat, pool: nat, d: Pair, b: (Crossing, int))
    requires i < |es| && TimeAt(es, i) > 0 && Observes(es[i], pool, d) && b in NextBoundaries(d, TimeAt(es, i))
    requires exists p :: p in partners(FullUniverse(es, i + 1), pool) && Published(es, i, p)
    ensures exists j :: ScheduledAt(INITIAL, es, partners, i, j)
                        && j.pool == pool && j.dlmm == d && j.crossing == b.0 && j.boundary == b.1
  {
    hide Run, Step, FeeAfterTime, FullUniverse, Published, Invariant, Present, Observes, TimeAt;
    var s := Run(INITIAL, es[..i], partners);
    RunSnoc(es, partners, i);
    StateOfStream(es, partners, i);
    StateOfStream(es, partners, i + 1);
    BoundariesAreFuture(d, TimeAt(es, i));
    hide NextBoundaries;
    var p :| p in partners(FullUniverse(es, i + 1), pool) && Published(es, i, p);
    StepKnows(s, es[i], partners);
    PresentHas(s, partners(FullUniverse(es, i + 1), pool), p);
    StepQueues(s, es[i], partners, pool, d, b);
  }

  lemma {:induction false} PresentHas(s: State, candidates: seq<nat>, p: nat)
    requires p in candidates && p in s.lastPump
    ensures p in Present(s, candidates)
  {
    if candidates[0] != p {
      PresentHas(s, candidates[1..], p);
    }
  }

  lemma StepQueues(s: State, e: Event, partners: Partners, pool: nat, d: Pair, b: (Crossing, int))
    requires Invariant(s) && Observes(e, pool, d) && NextClock(s.clock, e) > 0
    requires b in NextBoundaries(d, NextClock(s.clock, e)) && b.1 > NextClock(s.clock, e)
    requires Present(s, partners(s.switched || e.idx > 170, pool)) != []
    ensures exists j :: j in Step(s, e, partners).heap && j.id > s.seqNo
                        && j.pool == pool && j.dlmm == d && j.crossing == b.0 && j.boundary == b.1
  {
    hide FeeAfterTime, NextBoundaries, Present, Handle, FireUpto, Invariant, Observes;
    var c, sw := NextClock(s.clock, e), s.switched || e.idx > SWITCH_IDX;
    var v := s.(switched := sw, clock := c);
    ClockForward(s, e);
    FireKeepsOld(s, v);
    PresentReads(s, FireUpto(v, c), partners(sw, pool));
    HandleQueues(FireUpto(v, c), e, partners, pool, d, b);
  }

  lemma ClockForward(s: State, e: Event)
    ensures NextClock(s.clock, e) >= s.clock
  {
  }

  lemma HandleQueues(u: State, e: Event, partners: Partners, pool: nat, d: Pair, b: (Crossing, int))
    requires Invariant(u) && Observes(e, pool, d) && u.clock > 0
    requires b in NextBoundaries(d, u.clock) && b.1 > u.clock
    requires Present(u, partners(u.switched, pool)) != []
    ensures exists j :: j in Handle(u, e, partners).heap && j.id > u.seqNo
                        && j.pool == pool && j.dlmm == d && j.crossing == b.0 && j.boundary == b.1
  {
    hide FeeAfterTime, NextBoundaries, Present, PushAll, Invariant;
    var o := Observe(u, pool, d);
    ObserveKeeps(u, pool, d);
    PresentReads(u, o, partners(u.switched, pool));
    PushAllComplete(o, pool, d, Present(o, partners(o.switched, pool)), NextBoundaries(d, o.clock), b);
  }

  // ---- which jobs fire ----

  lemma {:induction false} ClockShift(clock: int, es: seq<Event>, i: nat, m: nat)
    requires i + 1 + m < |es|
    ensures ClockAt(clock, es, i + 1 + m) == ClockAt(ClockAt(clock, es, i), es[i + 1..], m)
    decreases i
  {
    var c := NextClock(clock, es[0]);
    if i == 0 {
      assert ClockAt(clock, es, m + 1) == ClockAt(c, es[1..], m);
    } else {
      ClockShift(c, es[1..], i - 1, m);
      assert es[1..][i..] == es[i + 1..];
    }
  }

  ghost predicate Ended(es: seq<Event>, i: nat, j: Job) {
    exists m :: i < m < |es| && TimeAt(es, m) >= j.boundary
  }

  /** No later record of the pool, an observation or an invalidation, comes before the boundary. */
  ghost predicate LeftAlone(es: seq<Event>, i: nat, j: Job) {
    forall m :: i < m < |es| && (Invalidates(es[m], j.pool) || exists d :: Observes(es[m], j.pool, d)) ==>
      TimeAt(es, m) >= j.boundary
  }

  /** Some partner known to the job was published again inside its window. */
  ghost predicate Republished(es: seq<Event>, partners: Partners, i: nat, j: Job)
    requires i < |es|
  {
    exists m, p :: i < m < |es| && Publishes(es[m], p) && p in partners(FullUniverse(es, i + 1), j.pool)
                   && Published(es, i, p) && j.schedTs < TimeAt(es, m) < j.boundary
  }

  lemma Aligned(es: seq<Event>, i: nat)
    requires i < |es|
    ensures var t, later := TimeAt(es, i), es[i + 1..];
            && (forall m {:trigger later[m]} {:trigger ClockAt(t, later, m)} :: 0 <= m < |later| ==>
                  ClockAt(t, later, m) == TimeAt(es, i + 1 + m) && later[m] == es[i + 1 + m])
            && (forall m {:trigger es[m]} {:trigger TimeAt(es, m)} :: i < m < |es| ==>
                  TimeAt(es, m) == ClockAt(t, later, m - i - 1) && es[m] == later[m - i - 1])
  {
    var t, later := TimeAt(es, i), es[i + 1..];
    forall m | 0 <= m < |later| ensures ClockAt(t, later, m) == TimeAt(es, i + 1 + m) && later[m] == es[i + 1 + m] {
      ClockShift(0, es, i, m);
    }
    forall m | i < m < |es| ensures TimeAt(es, m) == ClockAt(t, later, m - i - 1) && es[m] == later[m - i - 1] {
      ClockShift(0, es, i, m - i - 1);
    }
  }

  lemma SameEnd(es: seq<Event>, i: nat, j: Job)
    requires i < |es| && TimeAt(es, i) < j.boundary
    ensures ClockAfter(TimeAt(es, i), es[i + 1..]) >= j.boundary <==> Ended(es, i, j)
  {
    var t, later := TimeAt(es, i), es[i + 1..];
    Aligned(es, i);
    ClockNeverBack(t, later);
    hide TimeAt;
    if later != [] {
      var k := |later| - 1;
      ClockOfPrefix(t, later, k);
      assert later[..k + 1] == later;
      assert TimeAt(es, i + 1 + k) == ClockAt(t, later, k);
    }
    if m :| i < m < |es| && TimeAt(es, m) >= j.boundary {
      assert ClockAt(t, later, m - i - 1) >= j.boundary;
    }
  }

  lemma SameQuiet(es: seq<Event>, i: nat, j: Job)
    requires i < |es|
    ensures Undisturbed(j, TimeAt(es, i), es[i + 1..]) <==> LeftAlone(es, i, j)
  {
    var t, later := TimeAt(es, i), es[i + 1..];
    Aligned(es, i);
    hide TimeAt;
    forall e: Event ensures Cancels(e, j.pool) <==> Invalidates(e, j.pool) || exists d :: Observes(e, j.pool, d) {
      if Cancels(e, j.pool) && !e.kind.Inv? {
        assert Observes(e, j.pool, e.dlmm.value);
      }
    }
    hide Cancels, Invalidates, Observes;
  }

  lemma SamePublications(es: seq<Event>, partners: Partners, i: nat, j: Job)
    requires i < |es| && JobOfStream(es, partners, i, j)
    ensures PartnerSeen(j, TimeAt(es, i), es[i + 1..]) <==> Republished(es, partners, i, j)
  {
    hide FullUniverse, Published, FeeAfterTime, NextBoundaries, Sifted;
    var t, later := TimeAt(es, i), es[i + 1..];
    Aligned(es, i);
    hide TimeAt;
    forall p: nat ensures p in j.partners <==> p in partners(FullUniverse(es, i + 1), j.pool) && Published(es, i, p) {
      SiftedMembers(j.partners, partners(FullUniverse(es, i + 1), j.pool), es, i, p);
    }
  }

  // ---- the timer theorem ----

  /** A job queued by record i fires if and only if some later record reaches its boundary and every later
      snapshot or invalidation of its pool comes at or after it. The firing reports the fee at the boundary,
      and whether a partner, published before the snapshot, was published again inside the window. */
  lemma TimerInStream(es: seq<Event>, partners: Partners, i: nat, j: Job)
    requires i < |es| && ScheduledAt(INITIAL, es, partners, i, j)
    ensures var fired := Run(INITIAL, es, partners).fired;
            && ((exists f :: f in fired && f.job.id == j.id) <==> Ended(es, i, j) && LeftAlone(es, i, j))
            && (forall f :: f in fired && f.job.id == j.id ==>
                  && f.job == j
                  && f.feeAfter == FeeAfterTime(j.dlmm, j.boundary).rate
                  && (f.partnerUntouched <==> !Republished(es, partners, i, j)))
  {
    hide Run, FeeAfterTime, Undisturbed, PartnerSeen, LeftAlone, Ended, Republished, ScheduledAt;
    TimerFires(es, partners, i, j);
    StateOfStream(es, partners, i + 1);
    QueuedJob(es, partners, i, j);
    SameEnd(es, i, j);
    SameQuiet(es, i, j);
    SamePublications(es, partners, i, j);
  }
}
