/** The timer-decay scheduler as a state machine over the recorded event stream: a queue of jobs
    ordered by boundary, cancelled by later events of their pool, fired when the clock reaches them. */
module TimerQueue {
  import opened Rounding
  import opened Volatility

  const NOW_LO: int := 1_790_300_000
  const NOW_HI: int := 1_790_400_000
  const SWITCH_IDX: nat := 170

  datatype Kind = Auth | Inv | OtherKind
  datatype Proto = DlmmProto | PumpProto | OtherProto

  /** A decoded record: the timestamp and the snapshots that parsed, where there are any. */
  datatype Event = Event(kind: Kind, proto: Proto, idx: nat, now: Option<int>, dlmm: Option<Pair>, pumpParsed: bool)

  datatype Job = Job(id: nat, pool: nat, schedTs: int, boundary: int, crossing: Crossing, dlmm: Pair,
                     partners: seq<nat>, feeBefore: nat)

  datatype Firing = Firing(job: Job, feeAfter: nat, volAccAfter: nat, partnerUntouched: bool)

  datatype Snapshot = Snapshot(ts: int, dlmm: Pair)

  /** Queue in firing order, cancelled job identities, firings so far, latest snapshots and clock. */
  datatype State = State(switched: bool, clock: int, seqNo: nat, heap: seq<Job>, dead: set<nat>, fired: seq<Firing>,
                         lastDlmm: map<nat, Snapshot>, lastPump: map<nat, int>)

  const INITIAL: State := State(false, 0, 0, [], {}, [], map[], map[])

  /** Pump pools that share the token of a pool, in the small and in the full universe. */
  type Partners = (bool, nat) -> seq<nat>

  predicate Before(a: Job, b: Job) {
    a.boundary < b.boundary || (a.boundary == b.boundary && a.id < b.id)
  }

  function Insert(heap: seq<Job>, j: Job): seq<Job> {
    if heap == [] || Before(j, heap[0]) then [j] + heap else [heap[0]] + Insert(heap[1..], j)
  }

  /** A partner was published after the job was scheduled and up to its boundary. */
  predicate Touched(lastPump: map<nat, int>, j: Job) {
    exists p :: p in j.partners && p in lastPump && j.schedTs < lastPump[p] <= j.boundary
  }

  function Fire(lastPump: map<nat, int>, j: Job): Firing {
    var view := FeeAfterTime(j.dlmm, j.boundary);
    Firing(j, view.rate, view.volAcc, !Touched(lastPump, j))
  }

  /** Pop every job whose boundary has been reached; fire the ones that were not cancelled. */
  function FireUpto(s: State, ts: int): State
    decreases |s.heap|
  {
    if s.heap == [] || s.heap[0].boundary > ts then s
    else
      var job := s.heap[0];
      var t := s.(heap := s.heap[1..]);
      if job.id in s.dead then FireUpto(t, ts)
      else FireUpto(t.(fired := s.fired + [Fire(s.lastPump, job)]), ts)
  }

  /** Mark every queued job of a pool dead; the jobs stay in the queue. */
  function Cancel(s: State, pool: nat): State {
    s.(dead := s.dead + set j | j in s.heap && j.pool == pool :: j.id)
  }

  /** The clock after an event: its timestamp when it carries a usable one, never going back. */
  function NextClock(clock: int, e: Event): int {
    if e.kind.Auth? && e.proto.DlmmProto? && e.now.Some? && NOW_LO <= e.now.value <= NOW_HI && e.now.value > clock
    then e.now.value else clock
  }

  function Present(s: State, candidates: seq<nat>): seq<nat> {
    if candidates == [] then []
    else (if candidates[0] in s.lastPump then [candidates[0]] else []) + Present(s, candidates[1..])
  }

  /** Queue one job for each future boundary. */
  function PushAll(s: State, pool: nat, d: Pair, parts: seq<nat>, bs: seq<(Crossing, int)>): State
    decreases |bs|
  {
    if bs == [] then s
    else if bs[0].1 <= s.clock then PushAll(s, pool, d, parts, bs[1..])
    else
      var job := Job(s.seqNo + 1, pool, s.clock, bs[0].1, bs[0].0, d, parts, FeeAfterTime(d, s.clock).rate);
      PushAll(s.(seqNo := s.seqNo + 1, heap := Insert(s.heap, job)), pool, d, parts, bs[1..])
  }

  function Schedule(s: State, pool: nat, d: Pair, partners: Partners): State {
    var parts := Present(s, partners(s.switched, pool));
    if parts == [] then s else PushAll(s, pool, d, parts, NextBoundaries(d, s.clock))
  }

  /** A parsed snapshot: the pool's earlier jobs are cancelled, the snapshot becomes its latest. */
  function Observe(s: State, pool: nat, d: Pair): State {
    Cancel(s, pool).(lastDlmm := s.lastDlmm[pool := Snapshot(s.clock, d)])
  }

  /** What an event does once the clock has moved and the due jobs have fired. */
  function Handle(s: State, e: Event, partners: Partners): State {
    match e.kind
    case Inv => Cancel(s, e.idx).(lastDlmm := s.lastDlmm - {e.idx})
    case OtherKind => s
    case Auth =>
      match e.proto
      case PumpProto => if e.pumpParsed then s.(lastPump := s.lastPump[e.idx := s.clock]) else s
      case OtherProto => s
      case DlmmProto =>
        match e.dlmm
        case None => s
        case Some(d) =>
          Schedule(Observe(s, e.idx, d), e.idx, d, partners)
  }

  /** One record of the stream. Records before the first usable timestamp only note the universe. */
  function Step(s: State, e: Event, partners: Partners): State {
    var clock := NextClock(s.clock, e);
    var t := s.(switched := s.switched || e.idx > SWITCH_IDX);
    if clock == 0 then t else Handle(FireUpto(t.(clock := clock), clock), e, partners)
  }

  function Run(s: State, es: seq<Event>, partners: Partners): State
    decreases |es|
  {
    if es == [] then s else Run(Step(s, es[0], partners), es[1..], partners)
  }

  // ---- the invariant ----

  ghost predicate Sorted(heap: seq<Job>) {
    forall i, k :: 0 <= i < k < |heap| ==> Before(heap[i], heap[k])
  }

  ghost predicate FiredInOrder(fired: seq<Firing>) {
    forall i, k :: 0 <= i < k < |fired| ==> Before(fired[i].job, fired[k].job) && fired[i].job.id != fired[k].job.id
  }

  ghost predicate QueueOk(s: State) {
    && Sorted(s.heap)
    && (forall j :: j in s.heap ==> j.boundary > s.clock && j.schedTs <= s.clock && j.id <= s.seqNo && s.clock > 0)
    && (forall j, k :: j in s.heap && k in s.heap && j.id == k.id ==> j == k)
    && (forall id :: id in s.dead ==> id <= s.seqNo)
  }

  ghost predicate FiredOk(s: State) {
    && FiredInOrder(s.fired)
    && (forall f :: f in s.fired ==> f.job.boundary <= s.clock && f.job.id <= s.seqNo)
    && (forall f, j :: f in s.fired && j in s.heap ==> f.job.id != j.id)
  }

  /** Every live queued job belongs to its pool's latest snapshot. */
  ghost predicate LiveIsLatest(s: State) {
    forall j :: j in s.heap && j.id !in s.dead ==>
      j.pool in s.lastDlmm && s.lastDlmm[j.pool] == Snapshot(j.schedTs, j.dlmm)
  }

  ghost predicate PumpsPast(s: State) {
    forall p :: p in s.lastPump ==> s.lastPump[p] <= s.clock
  }

  /** What every reachable state satisfies. */
  ghost predicate Invariant(s: State) {
    s.clock >= 0 && QueueOk(s) && FiredOk(s) && LiveIsLatest(s) && PumpsPast(s)
  }

  // ---- the parts of a step ----

  lemma {:induction false} InsertEffect(heap: seq<Job>, j: Job)
    requires Sorted(heap) && forall k :: k in heap ==> k.id != j.id
    ensures Sorted(Insert(heap, j))
    ensures forall k :: k in Insert(heap, j) <==> k in heap || k == j
  {
    if heap == [] {
    } else if !Before(j, heap[0]) {
      var rest := Insert(heap[1..], j);
      InsertEffect(heap[1..], j);
      assert heap == [heap[0]] + heap[1..];
      assert forall k :: k in rest ==> Before(heap[0], k);
    }
  }

  /** Firing up to ts removes exactly the due jobs and records exactly the live ones among them. */
  lemma {:induction false} FireUptoEffect(s: State, ts: int)
    requires Sorted(s.heap)
    ensures var t := FireUpto(s, ts);
            && t == s.(heap := t.heap, fired := t.fired)
            && Sorted(t.heap)
            && (forall j :: j in t.heap <==> j in s.heap && j.boundary > ts)
            && (forall f :: f in t.fired <==>
                  f in s.fired
                  || (f.job in s.heap && f.job.boundary <= ts && f.job.id !in s.dead && f == Fire(s.lastPump, f.job)))
    decreases |s.heap|
  {
    if s.heap != [] && s.heap[0].boundary <= ts {
      var job := s.heap[0];
      assert s.heap == [job] + s.heap[1..];
      var t := s.(heap := s.heap[1..]);
      FireUptoEffect(if job.id in s.dead then t else t.(fired := s.fired + [Fire(s.lastPump, job)]), ts);
    } else {
      assert forall j :: j in s.heap ==> j.boundary > ts;
    }
  }

  lemma HeadIsFirst(heap: seq<Job>)
    requires Sorted(heap) && heap != []
    requires forall j, k :: j in heap && k in heap && j.id == k.id ==> j == k
    ensures Sorted(heap[1..])
    ensures forall j :: j in heap[1..] ==> j in heap && Before(heap[0], j) && j.id != heap[0].id
  {
    forall j | j in heap[1..] ensures Before(heap[0], j) && j.id != heap[0].id {
      var i :| 0 <= i < |heap[1..]| && heap[1..][i] == j;
      assert heap[i + 1] == j;
    }
  }

  lemma FiredAppend(fired: seq<Firing>, f: Firing)
    requires FiredInOrder(fired) && forall g :: g in fired ==> Before(g.job, f.job) && g.job.id != f.job.id
    ensures FiredInOrder(fired + [f])
  {
  }

  lemma {:induction false} FireUptoOrder(s: State, ts: int)
    requires Sorted(s.heap) && FiredInOrder(s.fired)
    requires forall j, k :: j in s.heap && k in s.heap && j.id == k.id ==> j == k
    requires forall f, j :: f in s.fired && j in s.heap ==> Before(f.job, j) && f.job.id != j.id
    ensures FiredInOrder(FireUpto(s, ts).fired)
    decreases |s.heap|
  {
    hide FeeAfterTime, Touched;
    if s.heap == [] {
    } else if s.heap[0].boundary <= ts {
      var job := s.heap[0];
      var t := s.(heap := s.heap[1..]);
      HeadIsFirst(s.heap);
      assert job in s.heap;
      FiredAppend(s.fired, Fire(s.lastPump, job));
      FireUptoOrder(if job.id in s.dead then t else t.(fired := s.fired + [Fire(s.lastPump, job)]), ts);
    }
  }

  /** The clock moves to a later value and the due jobs fire: the invariant holds at the new clock. */
  lemma ClockKeeps(s: State, clock: int, switched: bool)
    requires Invariant(s) && clock >= s.clock && clock > 0
    ensures Invariant(FireUpto(s.(switched := switched, clock := clock), clock))
  {
    var u := s.(switched := switched, clock := clock);
    FireUptoEffect(u, clock);
    FireUptoOrder(u, clock);
  }

  lemma CancelKeeps(s: State, pool: nat)
    requires Invariant(s)
    ensures Invariant(Cancel(s, pool))
    ensures forall j :: j in s.heap && j.pool == pool ==> j.id in Cancel(s, pool).dead
    ensures forall j :: j in s.heap && j.pool != pool ==> (j.id in Cancel(s, pool).dead <==> j.id in s.dead)
  {
  }

  /** A job pushed from state s. */
  ghost predicate FreshJob(s: State, j: Job, pool: nat, d: Pair, parts: seq<nat>, bs: seq<(Crossing, int)>) {
    && j.pool == pool && j.schedTs == s.clock && j.dlmm == d && j.partners == parts
    && j.feeBefore == FeeAfterTime(d, s.clock).rate
    && j.boundary > s.clock && (j.crossing, j.boundary) in bs && j.id > s.seqNo
  }

  lemma PushKeeps(s: State, job: Job)
    requires Invariant(s) && s.clock > 0
    requires job.id == s.seqNo + 1 && job.schedTs == s.clock < job.boundary
    requires job.pool in s.lastDlmm && s.lastDlmm[job.pool] == Snapshot(s.clock, job.dlmm)
    ensures Invariant(s.(seqNo := s.seqNo + 1, heap := Insert(s.heap, job)))
    ensures forall j :: j in Insert(s.heap, job) <==> j in s.heap || j == job
  {
    InsertEffect(s.heap, job);
  }

  lemma {:induction false} PushAllKeeps(s: State, pool: nat, d: Pair, parts: seq<nat>, bs: seq<(Crossing, int)>)
    requires Invariant(s) && s.clock > 0 && pool in s.lastDlmm && s.lastDlmm[pool] == Snapshot(s.clock, d)
    ensures var t := PushAll(s, pool, d, parts, bs);
            && Invariant(t) && t == s.(seqNo := t.seqNo, heap := t.heap) && t.seqNo >= s.seqNo
            && (forall j :: j in s.heap ==> j in t.heap)
            && (forall j :: j in t.heap ==> j in s.heap || FreshJob(s, j, pool, d, parts, bs))
    decreases |bs|
  {
    hide FeeAfterTime, Invariant;
    if bs == [] {
    } else {
      assert bs == [bs[0]] + bs[1..];
      if bs[0].1 <= s.clock {
        PushAllKeeps(s, pool, d, parts, bs[1..]);
      } else {
        var job := Job(s.seqNo + 1, pool, s.clock, bs[0].1, bs[0].0, d, parts, FeeAfterTime(d, s.clock).rate);
        PushKeeps(s, job);
        PushAllKeeps(s.(seqNo := s.seqNo + 1, heap := Insert(s.heap, job)), pool, d, parts, bs[1..]);
      }
    }
  }

  lemma ObserveKeeps(s: State, pool: nat, d: Pair)
    requires Invariant(s)
    ensures Invariant(Observe(s, pool, d))
  {
    CancelKeeps(s, pool);
  }

  lemma ScheduleKeeps(s: State, pool: nat, d: Pair, partners: Partners)
    requires Invariant(s) && s.clock > 0 && pool in s.lastDlmm && s.lastDlmm[pool] == Snapshot(s.clock, d)
    ensures var t := Schedule(s, pool, d, partners);
            && Invariant(t) && t == s.(seqNo := t.seqNo, heap := t.heap) && t.seqNo >= s.seqNo
            && (forall j :: j in s.heap ==> j in t.heap)
            && (forall j :: j in t.heap ==>
                  j in s.heap
                  || FreshJob(s, j, pool, d, Present(s, partners(s.switched, pool)), NextBoundaries(d, s.clock)))
  {
    hide FeeAfterTime, NextBoundaries, Invariant;
    PushAllKeeps(s, pool, d, Present(s, partners(s.switched, pool)), NextBoundaries(d, s.clock));
  }

  /** Handling an event keeps the invariant and leaves the clock and the firings alone. */
  lemma HandleKeeps(s: State, e: Event, partners: Partners)
    requires Invariant(s) && s.clock > 0
    ensures Invariant(Handle(s, e, partners))
    ensures Handle(s, e, partners).clock == s.clock && Handle(s, e, partners).fired == s.fired
    ensures Handle(s, e, partners).seqNo >= s.seqNo
  {
    hide Schedule;
    if e.kind.Auth? && e.proto.DlmmProto? && e.dlmm.Some? {
      hide Invariant;
      ObserveKeeps(s, e.idx, e.dlmm.value);
      ScheduleKeeps(Observe(s, e.idx, e.dlmm.value), e.idx, e.dlmm.value, partners);
    } else {
      CancelKeeps(s, e.idx);
    }
  }

  /** Every step keeps the invariant. */
  lemma StepKeeps(s: State, e: Event, partners: Partners)
    requires Invariant(s)
    ensures Invariant(Step(s, e, partners))
    ensures Step(s, e, partners).clock == NextClock(s.clock, e) >= s.clock
  {
    var clock := NextClock(s.clock, e);
    if clock > 0 {
      ClockKeeps(s, clock, s.switched || e.idx > SWITCH_IDX);
      var u := FireUpto(s.(switched := s.switched || e.idx > SWITCH_IDX, clock := clock), clock);
      FireUptoEffect(s.(switched := s.switched || e.idx > SWITCH_IDX, clock := clock), clock);
      HandleKeeps(u, e, partners);
    }
  }

  /** Every reachable state satisfies the invariant: firings are in boundary order without repeats,
      queued boundaries lie in the future, live jobs belong to their pool's latest snapshot. */
  lemma {:induction false} RunKeeps(s: State, es: seq<Event>, partners: Partners)
    requires Invariant(s)
    ensures Invariant(Run(s, es, partners))
    decreases |es|
  {
    hide Step, Invariant;
    if es == [] {
    } else {
      StepKeeps(s, es[0], partners);
      RunKeeps(Step(s, es[0], partners), es[1..], partners);
    }
  }

  // ---- scheduling misses no fee change ----

  lemma {:induction false} PushAllComplete(s: State, pool: nat, d: Pair, parts: seq<nat>,
                                         bs: seq<(Crossing, int)>, b: (Crossing, int))
    requires Invariant(s) && s.clock > 0 && pool in s.lastDlmm && s.lastDlmm[pool] == Snapshot(s.clock, d)
    requires b in bs && b.1 > s.clock
    ensures exists j :: j in PushAll(s, pool, d, parts, bs).heap && j.id > s.seqNo
                        && j.pool == pool && j.dlmm == d && j.crossing == b.0 && j.boundary == b.1
    decreases |bs|
  {
    hide FeeAfterTime, Invariant;
    assert bs == [bs[0]] + bs[1..];
    if bs[0].1 <= s.clock {
      PushAllComplete(s, pool, d, parts, bs[1..], b);
    } else {
      var job := Job(s.seqNo + 1, pool, s.clock, bs[0].1, bs[0].0, d, parts, FeeAfterTime(d, s.clock).rate);
      var u := s.(seqNo := s.seqNo + 1, heap := Insert(s.heap, job));
      PushKeeps(s, job);
      if b == bs[0] {
        PushAllKeeps(u, pool, d, parts, bs[1..]);
      } else {
        PushAllComplete(u, pool, d, parts, bs[1..], b);
      }
    }
  }

  /** If some partner is known when a snapshot is observed, then every later change of the snapshot's
      fee rate is preceded by the boundary of a job queued for it. */
  lemma ScheduleCoversFeeChange(s: State, pool: nat, d: Pair, partners: Partners, t: int)
    requires Invariant(s) && s.clock > 0 && pool in s.lastDlmm && s.lastDlmm[pool] == Snapshot(s.clock, d)
    requires Present(s, partners(s.switched, pool)) != []
    requires t >= s.clock && FeeAfterTime(d, t).rate != FeeAfterTime(d, s.clock).rate
    ensures exists j :: j in Schedule(s, pool, d, partners).heap && j.id > s.seqNo
                        && j.pool == pool && j.dlmm == d && s.clock < j.boundary <= t
  {
    hide FeeAfterTime, NextBoundaries, Invariant;
    ChangeHasBoundary(d, s.clock, t);
    var b :| b in NextBoundaries(d, s.clock) && s.clock < b.1 <= t;
    PushAllComplete(s, pool, d, Present(s, partners(s.switched, pool)), NextBoundaries(d, s.clock), b);
  }
}
