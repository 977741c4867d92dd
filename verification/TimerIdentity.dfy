/** The scheduler with cancelled jobs known by their memory address, as the replay keeps them, and when
    the reuse of an address does not matter. */
module TimerIdentity {
  import opened Rounding
  import opened Volatility
  import opened TimerQueue
  import opened TimerFate

  /** The address of each job, by its number. Nothing keeps an allocator from giving one twice. */
  type Allocator = nat -> nat

  function Addresses(at: Allocator, ids: set<nat>): set<nat> { set d | d in ids :: at(d) }

  // ---- the machine: dead holds addresses, and is never purged ----

  function FireByAddress(s: State, ts: int, at: Allocator): State
    decreases |s.heap|
  {
    if s.heap == [] || s.heap[0].boundary > ts then s
    else
      var job := s.heap[0];
      var t := s.(heap := s.heap[1..]);
      if at(job.id) in s.dead then FireByAddress(t, ts, at)
      else FireByAddress(t.(fired := s.fired + [Fire(s.lastPump, job)]), ts, at)
  }

  function CancelByAddress(s: State, pool: nat, at: Allocator): State {
    s.(dead := s.dead + Addresses(at, set j | j in s.heap && j.pool == pool :: j.id))
  }

  function HandleByAddress(s: State, e: Event, partners: Partners, at: Allocator): State {
    var c := CancelByAddress(s, e.idx, at);
    match e.kind
    case Inv => c.(lastDlmm := s.lastDlmm - {e.idx})
    case OtherKind => s
    case Auth =>
      match e.proto
      case PumpProto => if e.pumpParsed then s.(lastPump := s.lastPump[e.idx := s.clock]) else s
      case OtherProto => s
      case DlmmProto =>
        match e.dlmm
        case None => s
        case Some(d) => Schedule(c.(lastDlmm := s.lastDlmm[e.idx := Snapshot(s.clock, d)]), e.idx, d, partners)
  }

  function StepByAddress(s: State, e: Event, partners: Partners, at: Allocator): State {
    var clock := NextClock(s.clock, e);
    var t := s.(switched := s.switched || e.idx > SWITCH_IDX);
    if clock == 0 then t else HandleByAddress(FireByAddress(t.(clock := clock), clock, at), e, partners, at)
  }

  function RunByAddress(s: State, es: seq<Event>, partners: Partners, at: Allocator): State
    decreases |es|
  {
    if es == [] then s else RunByAddress(StepByAddress(s, es[0], partners, at), es[1..], partners, at)
  }

  // ---- the two machines side by side ----

  /** The machines agree on everything but the firings; cancelled jobs are known by their addresses. */
  ghost predicate Related(s: State, a: State, at: Allocator) {
    a == s.(dead := Addresses(at, s.dead), fired := a.fired)
  }

  /** No job that is due and was not cancelled has the address of a cancelled one. */
  ghost predicate SweepClear(s: State, ts: int, at: Allocator) {
    forall j :: j in s.heap && j.boundary <= ts && j.id !in s.dead ==> at(j.id) !in Addresses(at, s.dead)
  }

  function Missing(s: State, a: State): int { |s.fired| - |a.fired| }

  /** A sweep by address suppresses firings exactly when it is not clear, and changes nothing else. */
  lemma {:induction false} SweepCompared(s: State, a: State, ts: int, at: Allocator)
    requires Sorted(s.heap) && Related(s, a, at)
    ensures var t, b := FireUpto(s, ts), FireByAddress(a, ts, at);
            && Related(t, b, at) && Missing(t, b) >= Missing(s, a)
            && (Missing(t, b) == Missing(s, a) <==> SweepClear(s, ts, at))
            && (SweepClear(s, ts, at) && a.fired == s.fired ==> b.fired == t.fired)
    decreases |s.heap|
  {
    hide Fire;
    if s.heap == [] || s.heap[0].boundary > ts {
      assert forall j :: j in s.heap ==> j.boundary > ts by { FireUptoEffect(s, ts); }
    } else {
      var job := s.heap[0];
      assert s.heap == [job] + s.heap[1..];
      var t, b := s.(heap := s.heap[1..]), a.(heap := s.heap[1..]);
      var t' := if job.id in s.dead then t else t.(fired := s.fired + [Fire(s.lastPump, job)]);
      var b' := if at(job.id) in a.dead then b else b.(fired := a.fired + [Fire(s.lastPump, job)]);
      SweepCompared(t', b', ts, at);
    }
  }

  lemma AddressesOfUnion(at: Allocator, x: set<nat>, y: set<nat>)
    ensures Addresses(at, x + y) == Addresses(at, x) + Addresses(at, y)
  {
  }

  /** Scheduling neither reads nor changes the cancelled jobs and the firings. */
  lemma {:induction false} PushAllIgnores(s: State, pool: nat, d: Pair, parts: seq<nat>, bs: seq<(Crossing, int)>,
                                          dead: set<nat>, fired: seq<Firing>)
    ensures PushAll(s.(dead := dead, fired := fired), pool, d, parts, bs)
         == PushAll(s, pool, d, parts, bs).(dead := dead, fired := fired)
    ensures PushAll(s, pool, d, parts, bs).dead == s.dead && PushAll(s, pool, d, parts, bs).fired == s.fired
    decreases |bs|
  {
    hide FeeAfterTime, Insert;
    if bs == [] {
    } else if bs[0].1 <= s.clock {
      PushAllIgnores(s, pool, d, parts, bs[1..], dead, fired);
    } else {
      var job := Job(s.seqNo + 1, pool, s.clock, bs[0].1, bs[0].0, d, parts, FeeAfterTime(d, s.clock).rate);
      PushAllIgnores(s.(seqNo := s.seqNo + 1, heap := Insert(s.heap, job)), pool, d, parts, bs[1..], dead, fired);
    }
  }

  lemma {:induction false} PresentIgnores(s: State, candidates: seq<nat>, dead: set<nat>, fired: seq<Firing>)
    ensures Present(s.(dead := dead, fired := fired), candidates) == Present(s, candidates)
  {
    if candidates == [] {
    } else {
      PresentIgnores(s, candidates[1..], dead, fired);
    }
  }

  lemma HandleCompared(s: State, a: State, e: Event, partners: Partners, at: Allocator)
    requires Related(s, a, at)
    ensures var t, b := Handle(s, e, partners), HandleByAddress(a, e, partners, at);
            Related(t, b, at) && t.fired == s.fired && b.fired == a.fired
  {
    hide FeeAfterTime, NextBoundaries, Present, PushAll, Addresses;
    var doomed := set j | j in s.heap && j.pool == e.idx :: j.id;
    AddressesOfUnion(at, s.dead, doomed);
    if e.kind.Auth? && e.proto.DlmmProto? && e.dlmm.Some? {
      var d := e.dlmm.value;
      var o := Observe(s, e.idx, d);
      var dead := Addresses(at, o.dead);
      PresentIgnores(o, partners(o.switched, e.idx), dead, a.fired);
      PushAllIgnores(o, e.idx, d, Present(o, partners(o.switched, e.idx)), NextBoundaries(d, o.clock), dead, a.fired);
    }
  }

  /** The state and the time of the sweep at an event. */
  function AtSweep(s: State, e: Event): State {
    s.(switched := s.switched || e.idx > SWITCH_IDX, clock := NextClock(s.clock, e))
  }

  /** Every sweep of a run is clear. */
  ghost predicate NoneSuppressed(s: State, es: seq<Event>, partners: Partners, at: Allocator)
    decreases |es|
  {
    es == []
    || (SweepClear(AtSweep(s, es[0]), NextClock(s.clock, es[0]), at)
        && NoneSuppressed(Step(s, es[0], partners), es[1..], partners, at))
  }

  lemma StepCompared(s: State, a: State, e: Event, partners: Partners, at: Allocator)
    requires Invariant(s) && Related(s, a, at)
    ensures var t, b := Step(s, e, partners), StepByAddress(a, e, partners, at);
            && Related(t, b, at) && Missing(t, b) >= Missing(s, a)
            && (Missing(t, b) == Missing(s, a) <==> SweepClear(AtSweep(s, e), NextClock(s.clock, e), at))
            && (SweepClear(AtSweep(s, e), NextClock(s.clock, e), at) && a.fired == s.fired ==> b.fired == t.fired)
  {
    hide FireUpto, FireByAddress, Handle, HandleByAddress, Addresses;
    var u, v, clock := AtSweep(s, e), AtSweep(a, e), NextClock(s.clock, e);
    if clock > 0 {
      SweepCompared(u, v, clock, at);
      HandleCompared(FireUpto(u, clock), FireByAddress(v, clock, at), e, partners, at);
    }
  }

  lemma {:induction false} RunCompared(s: State, a: State, es: seq<Event>, partners: Partners, at: Allocator)
    requires Invariant(s) && Related(s, a, at)
    ensures var t, b := Run(s, es, partners), RunByAddress(a, es, partners, at);
            && Missing(t, b) >= Missing(s, a)
            && (Missing(t, b) == Missing(s, a) <==> NoneSuppressed(s, es, partners, at))
            && (NoneSuppressed(s, es, partners, at) && a.fired == s.fired ==> b.fired == t.fired)
    decreases |es|
  {
    hide Step, StepByAddress, Invariant, SweepClear, Related, AtSweep;
    if es == [] {
    } else {
      StepKeeps(s, es[0], partners);
      StepCompared(s, a, es[0], partners, at);
      RunCompared(Step(s, es[0], partners), StepByAddress(a, es[0], partners, at), es[1..], partners, at);
    }
  }

  /** Reused addresses do no harm exactly when, at every sweep, no due job that was not cancelled has
      the address of a cancelled one. Then the replay by address fires the same jobs. */
  lemma SameFiringsIff(es: seq<Event>, partners: Partners, at: Allocator)
    ensures RunByAddress(INITIAL, es, partners, at).fired == Run(INITIAL, es, partners).fired
            <==> NoneSuppressed(INITIAL, es, partners, at)
  {
    hide Run, RunByAddress, NoneSuppressed, Invariant;
    InitialInvariant();
    assert Addresses(at, {}) == {};
    RunCompared(INITIAL, INITIAL, es, partners, at);
  }

  /** An allocator that never gives an address twice. */
  ghost predicate NoReuse(at: Allocator) { forall i, k :: at(i) == at(k) ==> i == k }

  lemma {:induction false} NoReuseSuppressesNothing(s: State, es: seq<Event>, partners: Partners, at: Allocator)
    requires NoReuse(at)
    ensures NoneSuppressed(s, es, partners, at)
    decreases |es|
  {
    hide Step;
    if es == [] {
    } else {
      NoReuseSuppressesNothing(Step(s, es[0], partners), es[1..], partners, at);
    }
  }

  /** The timer theorem for the replay by address, under the condition. */
  lemma TimerFiresByAddress(es: seq<Event>, partners: Partners, at: Allocator, i: nat, j: Job)
    requires i < |es| && ScheduledAt(INITIAL, es, partners, i, j)
    requires NoReuse(at) || NoneSuppressed(INITIAL, es, partners, at)
    ensures var fired := RunByAddress(INITIAL, es, partners, at).fired;
            var clock, later := Run(INITIAL, es[..i + 1], partners).clock, es[i + 1..];
            (exists f :: f in fired && f.job.id == j.id)
            <==> ClockAfter(clock, later) >= j.boundary && Undisturbed(j, clock, later)
  {
    hide Run, RunByAddress, NoneSuppressed, Undisturbed, ScheduledAt;
    if NoReuse(at) {
      NoReuseSuppressesNothing(INITIAL, es, partners, at);
    }
    SameFiringsIff(es, partners, at);
    TimerFires(es, partners, i, j);
  }

  // ---- a stream on which reuse loses a timer ----

  /** A snapshot whose only boundary lies the given number of seconds after the first usable time. */
  predicate CrossesAfter(d: Pair, seconds: nat) {
    d.cfg.fees.variableFeeControl > 0 && d.cfg.lastUpd == NOW_LO && d.cfg.filterPeriod == d.cfg.decayPeriod == seconds
  }

  function Tick(seconds: nat): Event { Event(Auth, DlmmProto, 0, Some(NOW_LO + seconds), None, false) }

  function Snap(d: Pair): Event { Event(Auth, DlmmProto, 1, None, Some(d), false) }

  const PUBLISH: Event := Event(Auth, PumpProto, 2, None, None, true)
  const INVALIDATE: Event := Event(Inv, DlmmProto, 1, None, None, false)

  /** A partner is published, pool 1 is observed and invalidated, and it is observed again after the
      first job has left the queue. */
  function Reused(d1: Pair, d2: Pair): seq<Event> {
    [Tick(0), PUBLISH, Snap(d1), INVALIDATE, Tick(10), Snap(d2), Tick(20)]
  }

  function JobOf(id: nat, clock: int, boundary: int, d: Pair): Job {
    Job(id, 1, clock, boundary, Filter, d, [2], FeeAfterTime(d, clock).rate)
  }

  /** The state before the last event: the second job is queued and the first is known as dead. */
  function Loaded(d2: Pair): State {
    State(false, NOW_LO + 10, 2, [JobOf(2, NOW_LO + 10, NOW_LO + 20, d2)], {1}, [],
          map[1 := Snapshot(NOW_LO + 10, d2)], map[2 := NOW_LO])
  }

  lemma ScheduleOne(s: State, d: Pair, partners: Partners, boundary: int)
    requires partners(s.switched, 1) == [2] && 2 in s.lastPump && boundary > s.clock && s.heap == []
    requires NextBoundaries(d, s.clock) == [(Filter, boundary)]
    ensures Schedule(s, 1, d, partners)
         == s.(seqNo := s.seqNo + 1, heap := [JobOf(s.seqNo + 1, s.clock, boundary, d)])
  {
    hide FeeAfterTime, NextBoundaries;
    var parts, bs := [2], [(Filter, boundary)];
    assert parts[1..] == [] && bs[1..] == [];
    assert Present(s, parts) == [2];
    var j := JobOf(s.seqNo + 1, s.clock, boundary, d);
    var t := s.(seqNo := s.seqNo + 1, heap := [j]);
    assert Insert([], j) == [j];
    assert PushAll(t, 1, d, parts, bs[1..]) == t;
    assert PushAll(s, 1, d, parts, bs) == t;
  }

  /** Observing pool 1 with an empty queue queues one job for it. */
  lemma SnapStep(s: State, d: Pair, partners: Partners, boundary: int)
    requires s.clock > 0 && s.heap == [] && !s.switched && partners(false, 1) == [2] && 2 in s.lastPump
    requires boundary > s.clock && NextBoundaries(d, s.clock) == [(Filter, boundary)]
    ensures Step(s, Snap(d), partners)
         == s.(seqNo := s.seqNo + 1, heap := [JobOf(s.seqNo + 1, s.clock, boundary, d)],
               lastDlmm := s.lastDlmm[1 := Snapshot(s.clock, d)])
  {
    hide FeeAfterTime, NextBoundaries, Schedule;
    var o := Observe(s, 1, d);
    assert o.dead == s.dead;
    ScheduleOne(o, d, partners, boundary);
  }

  lemma FirstHalf(d1: Pair, partners: Partners)
    requires CrossesAfter(d1, 10) && partners(false, 1) == [2]
    ensures var s := State(false, NOW_LO + 10, 1, [], {1}, [], map[], map[2 := NOW_LO]);
            var s2 := Step(Step(INITIAL, Tick(0), partners), PUBLISH, partners);
            var s4 := Step(Step(s2, Snap(d1), partners), INVALIDATE, partners);
            Step(s4, Tick(10), partners) == s
  {
    hide FeeAfterTime, Schedule;
    var s1 := INITIAL.(clock := NOW_LO);
    assert Step(INITIAL, Tick(0), partners) == s1;
    var s2 := s1.(lastPump := map[2 := NOW_LO]);
    assert Step(s1, PUBLISH, partners) == s2;
    var j := JobOf(1, NOW_LO, NOW_LO + 10, d1);
    SnapStep(s2, d1, partners, NOW_LO + 10);
    var s3 := s2.(seqNo := 1, heap := [j], lastDlmm := map[1 := Snapshot(NOW_LO, d1)]);
    assert Step(s2, Snap(d1), partners) == s3;
    var s4 := s3.(dead := {1}, lastDlmm := map[]);
    assert Cancel(s3, 1).dead == {1};
    assert Step(s3, INVALIDATE, partners) == s4;
    var u := s4.(clock := NOW_LO + 10);
    assert [j][1..] == [] && FireUpto(u.(heap := []), u.clock) == u.(heap := []);
    assert FireUpto(u, u.clock) == u.(heap := []);
  }

  lemma {:induction false} ClearAt(s: State, es: seq<Event>, partners: Partners, at: Allocator, k: nat)
    requires k < |es| && NoneSuppressed(s, es, partners, at)
    ensures SweepClear(AtSweep(Run(s, es[..k], partners), es[k]), NextClock(Run(s, es[..k], partners).clock, es[k]), at)
    decreases k
  {
    hide Step, SweepClear;
    if k == 0 {
      assert es[..0] == [];
    } else {
      assert es[..k][1..] == es[1..][..k - 1];
      ClearAt(Step(s, es[0], partners), es[1..], partners, at, k - 1);
    }
  }

  lemma BeforeLast(d1: Pair, d2: Pair, partners: Partners)
    requires CrossesAfter(d1, 10) && CrossesAfter(d2, 20) && partners(false, 1) == [2]
    ensures Run(INITIAL, Reused(d1, d2)[..6], partners) == Loaded(d2)
  {
    var s5 := State(false, NOW_LO + 10, 1, [], {1}, [], map[], map[2 := NOW_LO]);
    FirstHalf(d1, partners);
    SnapStep(s5, d2, partners, NOW_LO + 20);
    hide Step, Run, JobOf, CrossesAfter, Tick, Snap, PUBLISH, INVALIDATE;
    var e5 := [Snap(d2)];
    var e4 := [Tick(10)] + e5;
    var e3 := [INVALIDATE] + e4;
    var e2 := [Snap(d1)] + e3;
    var e1 := [PUBLISH] + e2;
    assert Reused(d1, d2)[..6] == [Tick(0)] + e1;
    var s1 := Step(INITIAL, Tick(0), partners);
    var s2 := Step(s1, PUBLISH, partners);
    var s3 := Step(s2, Snap(d1), partners);
    var s4 := Step(s3, INVALIDATE, partners);
    RunCons(INITIAL, Tick(0), e1, partners);
    RunCons(s1, PUBLISH, e2, partners);
    RunCons(s2, Snap(d1), e3, partners);
    RunCons(s3, INVALIDATE, e4, partners);
    RunCons(s4, Tick(10), e5, partners);
    RunCons(s5, Snap(d2), [], partners);
    assert e5 == [Snap(d2)] + [];
  }

  lemma RunCons(s: State, e: Event, rest: seq<Event>, partners: Partners)
    ensures Run(s, [e] + rest, partners) == Run(Step(s, e, partners), rest, partners)
    ensures Run(Step(s, e, partners), [], partners) == Step(s, e, partners)
  {
    hide Step;
    assert ([e] + rest)[1..] == rest;
  }

  /** The second job gets the address of the first, which was cancelled and has left the queue. It was
      never cancelled and fires, but not in the replay by address. */
  lemma ReuseLosesTimer(d1: Pair, d2: Pair, partners: Partners, at: Allocator)
    requires CrossesAfter(d1, 10) && CrossesAfter(d2, 20) && partners(false, 1) == [2] && at(1) == at(2)
    ensures var es := Reused(d1, d2);
            RunByAddress(INITIAL, es, partners, at).fired != Run(INITIAL, es, partners).fired
  {
    hide Run, RunByAddress;
    var es, j := Reused(d1, d2), JobOf(2, NOW_LO + 10, NOW_LO + 20, d2);
    BeforeLast(d1, d2, partners);
    SameFiringsIff(es, partners, at);
    if NoneSuppressed(INITIAL, es, partners, at) {
      hide NoneSuppressed;
      ClearAt(INITIAL, es, partners, at, 6);
    }
    assert j in Loaded(d2).heap && 1 in Loaded(d2).dead;
    assert at(j.id) in Addresses(at, Loaded(d2).dead);
  }
}
