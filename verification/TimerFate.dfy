/** Which timers fire. The queue machine is compared with a declarative reading of the event stream:
    a job fires exactly when the clock reaches its boundary and no event of its pool cancels it first. */
module TimerFate {
  import opened Rounding
  import opened Volatility
  import opened TimerQueue

  predicate Cancels(e: Event, pool: nat) {
    e.idx == pool && (e.kind.Inv? || (e.kind.Auth? && e.proto.DlmmProto? && e.dlmm.Some?))
  }

  /** A partner of the job is published strictly after the job was scheduled. */
  predicate Touches(e: Event, j: Job, clock: int) {
    e.kind.Auth? && e.proto.PumpProto? && e.pumpParsed && e.idx in j.partners && clock > j.schedTs
  }

  /** What the rest of the stream does to a live queued job: None when it never fires, otherwise
      whether a partner was published in its window. */
  function Fate(j: Job, touched: bool, clock: int, es: seq<Event>): Option<bool>
    decreases |es|
  {
    if es == [] then None
    else
      var c := NextClock(clock, es[0]);
      if c >= j.boundary then Some(touched)
      else if Cancels(es[0], j.pool) then None
      else Fate(j, touched || Touches(es[0], j, c), c, es[1..])
  }

  // ---- the declarative reading ----

  function ClockAfter(clock: int, es: seq<Event>): int
    decreases |es|
  {
    if es == [] then clock else ClockAfter(NextClock(clock, es[0]), es[1..])
  }

  /** Clock at which event m is processed. */
  function ClockAt(clock: int, es: seq<Event>, m: nat): int
    requires m < |es|
    decreases m
  {
    if m == 0 then NextClock(clock, es[0]) else ClockAt(NextClock(clock, es[0]), es[1..], m - 1)
  }

  lemma {:induction false} ClockNeverBack(clock: int, es: seq<Event>)
    ensures clock <= ClockAfter(clock, es)
    ensures forall m :: 0 <= m < |es| ==> clock <= ClockAt(clock, es, m) <= ClockAfter(clock, es)
    decreases |es|
  {
    if es == [] {
    } else {
      var c := NextClock(clock, es[0]);
      ClockNeverBack(c, es[1..]);
      forall m | 0 <= m < |es| ensures clock <= ClockAt(clock, es, m) <= ClockAfter(clock, es) {
        if m > 0 {
          assert ClockAt(clock, es, m) == ClockAt(c, es[1..], m - 1);
        }
      }
    }
  }

  /** No event cancels the pool at a clock strictly below the boundary. */
  ghost predicate Undisturbed(j: Job, clock: int, es: seq<Event>) {
    forall m :: 0 <= m < |es| && Cancels(es[m], j.pool) ==> ClockAt(clock, es, m) >= j.boundary
  }

  ghost predicate PartnerSeen(j: Job, clock: int, es: seq<Event>) {
    exists m :: 0 <= m < |es| && ClockAt(clock, es, m) < j.boundary && Touches(es[m], j, ClockAt(clock, es, m))
  }

  /** A job survives exactly when the clock reaches its boundary and every cancelling event of its
      pool comes at or after the boundary. */
  lemma {:induction false} FateIsSurvival(j: Job, touched: bool, clock: int, es: seq<Event>)
    requires clock < j.boundary
    ensures Fate(j, touched, clock, es).Some? <==> ClockAfter(clock, es) >= j.boundary && Undisturbed(j, clock, es)
    ensures Fate(j, touched, clock, es).Some? ==>
              (Fate(j, touched, clock, es).value <==> touched || PartnerSeen(j, clock, es))
    decreases |es|
  {
    if es == [] {
    } else {
      var c, rest := NextClock(clock, es[0]), es[1..];
      ClockNeverBack(c, rest);
      assert ClockAt(clock, es, 0) == c;
      assert forall m :: 0 <= m < |rest| ==> ClockAt(clock, es, m + 1) == ClockAt(c, rest, m) && es[m + 1] == rest[m];
      if c >= j.boundary {
        assert forall m :: 0 <= m < |es| ==> ClockAt(clock, es, m) >= c by {
          forall m | 0 <= m < |es| ensures ClockAt(clock, es, m) >= c {
            if m > 0 { assert ClockAt(clock, es, m) == ClockAt(c, rest, m - 1); }
          }
        }
      } else if !Cancels(es[0], j.pool) {
        var t := touched || Touches(es[0], j, c);
        FateIsSurvival(j, t, c, rest);
        ShiftUndisturbed(j, clock, es);
        ShiftPartnerSeen(j, clock, es);
      }
    }
  }

  lemma ShiftUndisturbed(j: Job, clock: int, es: seq<Event>)
    requires es != []
    ensures Undisturbed(j, clock, es) <==>
            (Cancels(es[0], j.pool) ==> NextClock(clock, es[0]) >= j.boundary)
            && Undisturbed(j, NextClock(clock, es[0]), es[1..])
  {
    var c, rest := NextClock(clock, es[0]), es[1..];
    if Undisturbed(j, clock, es) {
      assert ClockAt(clock, es, 0) == c;
      forall m | 0 <= m < |rest| && Cancels(rest[m], j.pool) ensures ClockAt(c, rest, m) >= j.boundary {
        assert es[m + 1] == rest[m] && ClockAt(clock, es, m + 1) == ClockAt(c, rest, m);
      }
    }
    if (Cancels(es[0], j.pool) ==> c >= j.boundary) && Undisturbed(j, c, rest) {
      forall m | 0 <= m < |es| && Cancels(es[m], j.pool) ensures ClockAt(clock, es, m) >= j.boundary {
        if m > 0 {
          assert es[m] == rest[m - 1] && ClockAt(clock, es, m) == ClockAt(c, rest, m - 1);
        }
      }
    }
  }

  lemma ShiftPartnerSeen(j: Job, clock: int, es: seq<Event>)
    requires es != []
    ensures var c := NextClock(clock, es[0]);
            PartnerSeen(j, clock, es) <==> (c < j.boundary && Touches(es[0], j, c)) || PartnerSeen(j, c, es[1..])
  {
    var c, rest := NextClock(clock, es[0]), es[1..];
    assert ClockAt(clock, es, 0) == c;
    if m :| 0 <= m < |es| && ClockAt(clock, es, m) < j.boundary && Touches(es[m], j, ClockAt(clock, es, m)) {
      if m > 0 {
        assert es[m] == rest[m - 1] && ClockAt(clock, es, m) == ClockAt(c, rest, m - 1);
      }
    }
    if m :| 0 <= m < |rest| && ClockAt(c, rest, m) < j.boundary && Touches(rest[m], j, ClockAt(c, rest, m)) {
      assert es[m + 1] == rest[m] && ClockAt(clock, es, m + 1) == ClockAt(c, rest, m);
    }
  }

  // ---- one step of the machine ----

  predicate Live(s: State, j: Job) { j in s.heap && j.id !in s.dead }

  /** One event on a live queued job: it fires when the clock reaches its boundary; otherwise it stays
      queued, dies exactly when the event cancels its pool, and notes partner publications. */
  lemma StepOnLive(s: State, e: Event, partners: Partners, j: Job)
    requires Invariant(s) && Live(s, j)
    ensures var t, c := Step(s, e, partners), NextClock(s.clock, e);
            if c >= j.boundary then Fire(s.lastPump, j) in t.fired && j !in t.heap
            else
              && j in t.heap && (Live(t, j) <==> !Cancels(e, j.pool))
              && (Touched(t.lastPump, j) <==> Touched(s.lastPump, j) || Touches(e, j, c))
  {
    hide FeeAfterTime, NextBoundaries, Schedule;
    var c, sw := NextClock(s.clock, e), s.switched || e.idx > SWITCH_IDX;
    var u := FireUpto(s.(switched := sw, clock := c), c);
    FireUptoEffect(s.(switched := sw, clock := c), c);
    ClockKeeps(s, c, sw);
    HandleOn(u, e, partners, j);
    StepKeeps(s, e, partners);
  }

  /** What handling an event means for a job that is queued at the time. */
  lemma HandleOn(u: State, e: Event, partners: Partners, j: Job)
    requires Invariant(u) && u.clock > 0
    ensures var t := Handle(u, e, partners);
            && t.fired == u.fired
            && (j in u.heap ==> j in t.heap && (j.id in t.dead <==> j.id in u.dead || Cancels(e, j.pool)))
            && (j in u.heap ==> (Touched(t.lastPump, j) <==> Touched(u.lastPump, j) || Touches(e, j, u.clock)))
            && (j in t.heap && j !in u.heap ==>
                  j.id > u.seqNo && j.schedTs == u.clock && j.id !in t.dead && !Touched(t.lastPump, j))
            && t.seqNo >= u.seqNo
  {
    hide FeeAfterTime, NextBoundaries, Schedule;
    HandleKeeps(u, e, partners);
    CancelKeeps(u, e.idx);
    if e.kind.Auth? && e.proto.DlmmProto? && e.dlmm.Some? {
      var o := Observe(u, e.idx, e.dlmm.value);
      ObserveKeeps(u, e.idx, e.dlmm.value);
      ScheduleKeeps(o, e.idx, e.dlmm.value, partners);
    } else if e.kind.Auth? && e.proto.PumpProto? && e.pumpParsed && j in u.heap {
      TouchedUpdate(u.lastPump, e.idx, u.clock, j);
    }
  }

  lemma TouchedUpdate(lastPump: map<nat, int>, p: nat, clock: int, j: Job)
    requires clock <= j.boundary && (p in lastPump ==> lastPump[p] <= clock)
    ensures Touched(lastPump[p := clock], j) <==> Touched(lastPump, j) || (p in j.partners && clock > j.schedTs)
  {
    var after := lastPump[p := clock];
    if Touched(lastPump, j) {
      var q :| q in j.partners && q in lastPump && j.schedTs < lastPump[q] <= j.boundary;
      assert q in after && j.schedTs < after[q] <= j.boundary;
    }
    if p in j.partners && clock > j.schedTs {
      assert p in after && j.schedTs < after[p] <= j.boundary;
    }
  }

  /** One event from the outside: firings stay, new firings are due live jobs, queued jobs were queued
      before or are new, and dead jobs stay dead. */
  lemma StepFrame(s: State, e: Event, partners: Partners)
    requires Invariant(s)
    ensures var t, c := Step(s, e, partners), NextClock(s.clock, e);
            && t.seqNo >= s.seqNo
            && (forall f :: f in s.fired ==> f in t.fired)
            && (forall f :: f in t.fired ==>
                  f in s.fired || (Live(s, f.job) && f.job.boundary <= c && f == Fire(s.lastPump, f.job)))
            && (forall j :: j in t.heap ==>
                  || (j in s.heap && j.boundary > c && (j.id in s.dead ==> j.id in t.dead))
                  || (j.id > s.seqNo && j.schedTs == t.clock && Live(t, j) && !Touched(t.lastPump, j)))
  {
    hide FeeAfterTime, NextBoundaries, Schedule, Touched;
    var c, sw := NextClock(s.clock, e), s.switched || e.idx > SWITCH_IDX;
    if c > 0 {
      var u := FireUpto(s.(switched := sw, clock := c), c);
      FireUptoEffect(s.(switched := sw, clock := c), c);
      ClockKeeps(s, c, sw);
      forall j: Job {
        HandleOn(u, e, partners, j);
      }
      HandleKeeps(u, e, partners);
    }
  }

  // ---- whole runs ----

  lemma {:induction false} FiredStays(s: State, es: seq<Event>, partners: Partners, f: Firing)
    requires Invariant(s) && f in s.fired
    ensures f in Run(s, es, partners).fired
    decreases |es|
  {
    hide Step, Invariant;
    if es == [] {
    } else {
      StepFrame(s, es[0], partners);
      StepKeeps(s, es[0], partners);
      FiredStays(Step(s, es[0], partners), es[1..], partners, f);
    }
  }

  /** An identity that was issued, has not fired and is not live will never fire. */
  lemma {:induction false} NeverFires(s: State, es: seq<Event>, partners: Partners, id: nat)
    requires Invariant(s) && id <= s.seqNo
    requires forall f :: f in s.fired ==> f.job.id != id
    requires forall j :: Live(s, j) ==> j.id != id
    ensures forall f :: f in Run(s, es, partners).fired ==> f.job.id != id
    decreases |es|
  {
    hide Step, Invariant;
    if es == [] {
    } else {
      StepFrame(s, es[0], partners);
      StepKeeps(s, es[0], partners);
      NeverFires(Step(s, es[0], partners), es[1..], partners, id);
    }
  }

  /** The machine gives a live job exactly its fate. */
  lemma {:induction false} LiveFate(s: State, es: seq<Event>, partners: Partners, j: Job)
    requires Invariant(s) && Live(s, j)
    ensures match Fate(j, Touched(s.lastPump, j), s.clock, es)
            case Some(touched) =>
              var view := FeeAfterTime(j.dlmm, j.boundary);
              Firing(j, view.rate, view.volAcc, !touched) in Run(s, es, partners).fired
            case None => forall f :: f in Run(s, es, partners).fired ==> f.job.id != j.id
    decreases |es|
  {
    hide FeeAfterTime, Step, Touched, Cancels, Touches;
    if es == [] {
    } else {
      var t, c := Step(s, es[0], partners), NextClock(s.clock, es[0]);
      StepOnLive(s, es[0], partners, j);
      StepKeeps(s, es[0], partners);
      if c >= j.boundary {
        FiredStays(t, es[1..], partners, Fire(s.lastPump, j));
      } else if Cancels(es[0], j.pool) {
        NeverFires(t, es[1..], partners, j.id);
      } else {
        LiveFate(t, es[1..], partners, j);
      }
    }
  }

  /** Event i of a run queued the job. */
  ghost predicate ScheduledAt(s: State, es: seq<Event>, partners: Partners, i: nat, j: Job)
    requires i < |es|
  {
    j in Run(s, es[..i + 1], partners).heap && j.id > Run(s, es[..i], partners).seqNo
  }

  lemma {:induction false} RunSplit(s: State, es: seq<Event>, partners: Partners, i: nat)
    requires i <= |es|
    ensures Run(s, es, partners) == Run(Run(s, es[..i], partners), es[i..], partners)
    decreases |es|
  {
    hide Step;
    if i > 0 {
      assert es[..i][1..] == es[1..][..i - 1] && es[1..][i - 1..] == es[i..];
      RunSplit(Step(s, es[0], partners), es[1..], partners, i - 1);
    } else {
      assert es[..0] == [] && es[0..] == es;
    }
  }

  lemma InitialInvariant()
    ensures Invariant(INITIAL)
  {
  }

  /** A job just queued by event i is live and no partner has been published since. */
  lemma ScheduledIsLive(es: seq<Event>, partners: Partners, i: nat, j: Job)
    requires i < |es| && ScheduledAt(INITIAL, es, partners, i, j)
    ensures var t := Run(INITIAL, es[..i + 1], partners);
            Invariant(t) && Live(t, j) && j.schedTs == t.clock < j.boundary && !Touched(t.lastPump, j)
  {
    hide Step;
    var s := Run(INITIAL, es[..i], partners);
    InitialInvariant();
    RunKeeps(INITIAL, es[..i], partners);
    RunKeeps(INITIAL, es[..i + 1], partners);
    assert es[..i + 1][..i] == es[..i] && es[..i + 1][i..] == [es[i]];
    RunSplit(INITIAL, es[..i + 1], partners, i);
    assert Run(s, [es[i]], partners) == Step(s, es[i], partners);
    StepFrame(s, es[i], partners);
  }

  /** The timer theorem. A job queued at some event fires if and only if the clock later reaches its
      boundary and no parsed DLMM snapshot and no invalidation of its pool is processed at a clock
      strictly below it; the firing then reports the fee at the boundary and whether a partner was
      published inside the window. */
  lemma TimerFires(es: seq<Event>, partners: Partners, i: nat, j: Job)
    requires i < |es| && ScheduledAt(INITIAL, es, partners, i, j)
    ensures var fired, clock := Run(INITIAL, es, partners).fired, Run(INITIAL, es[..i + 1], partners).clock;
            var later := es[i + 1..];
            && ((exists f :: f in fired && f.job.id == j.id)
                <==> ClockAfter(clock, later) >= j.boundary && Undisturbed(j, clock, later))
            && (forall f :: f in fired && f.job.id == j.id ==>
                  && f.job == j
                  && f.feeAfter == FeeAfterTime(j.dlmm, j.boundary).rate
                  && (f.partnerUntouched <==> !PartnerSeen(j, clock, later)))
  {
    hide FeeAfterTime, Step, Touched, Undisturbed, PartnerSeen;
    var t, later := Run(INITIAL, es[..i + 1], partners), es[i + 1..];
    ScheduledIsLive(es, partners, i, j);
    RunSplit(INITIAL, es, partners, i + 1);
    LiveFate(t, later, partners, j);
    FateIsSurvival(j, false, t.clock, later);
    RunKeeps(t, later, partners);
    FiredOnce(Run(t, later, partners));
  }

  /** No identity fires twice. */
  lemma FiredOnce(s: State)
    requires Invariant(s)
    ensures forall f, g :: f in s.fired && g in s.fired && f.job.id == g.job.id ==> f == g
  {
  }

  /** Conversely every firing is of a job that some event queued. */
  lemma {:induction false} FiringsAccounted(s: State, es: seq<Event>, partners: Partners, f: Firing)
    requires Invariant(s) && f in Run(s, es, partners).fired && f !in s.fired && !Live(s, f.job)
    ensures exists i :: 0 <= i < |es| && ScheduledAt(s, es, partners, i, f.job)
    decreases |es|
  {
    hide Step, Invariant, Live;
    var t := Step(s, es[0], partners);
    StepFrame(s, es[0], partners);
    StepKeeps(s, es[0], partners);
    assert Run(s, es[..1], partners) == t by { assert es[..1][1..] == []; }
    assert Run(s, es[..0], partners) == s;
    if Live(t, f.job) {
      LiveOrigin(s, t, f.job);
      assert ScheduledAt(s, es, partners, 0, f.job);
    } else {
      FiringsAccounted(t, es[1..], partners, f);
      var i :| 0 <= i < |es[1..]| && ScheduledAt(t, es[1..], partners, i, f.job);
      assert es[..i + 2][1..] == es[1..][..i + 1] && es[..i + 1][1..] == es[1..][..i];
      assert ScheduledAt(s, es, partners, i + 1, f.job);
    }
  }

  lemma LiveOrigin(s: State, t: State, j: Job)
    requires Live(t, j) && !Live(s, j)
    requires j in t.heap ==> (j in s.heap && (j.id in s.dead ==> j.id in t.dead)) || j.id > s.seqNo
    ensures j in t.heap && j.id > s.seqNo
  {
  }

  /** Every firing of a run from the start is of a job some event queued; firings come in boundary
      order, and the sweep at the end of the stream finds nothing left to fire. */
  lemma RunFirings(es: seq<Event>, partners: Partners)
    ensures var s := Run(INITIAL, es, partners);
            && (forall f :: f in s.fired ==> exists i :: 0 <= i < |es| && ScheduledAt(INITIAL, es, partners, i, f.job))
            && FiredInOrder(s.fired) && LiveIsLatest(s)
            && FireUpto(s, s.clock) == s
  {
    InitialInvariant();
    RunKeeps(INITIAL, es, partners);
    forall f | f in Run(INITIAL, es, partners).fired
      ensures exists i :: 0 <= i < |es| && ScheduledAt(INITIAL, es, partners, i, f.job)
    {
      FiringsAccounted(INITIAL, es, partners, f);
    }
  }
}
