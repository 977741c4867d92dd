/** The replay loop over mutable tables, proved to run the queue machine. */
module TimerReplay {
  import opened Rounding
  import opened Volatility
  import opened TimerQueue

  class Replay {
    const partners: Partners
    var switched: bool
    var clock: int
    var seqNo: nat
    var heap: seq<Job>
    var dead: set<nat>
    var fired: seq<Firing>
    var lastDlmm: map<nat, Snapshot>
    var lastPump: map<nat, int>

    function S(): State
      reads this
    {
      State(switched, clock, seqNo, heap, dead, fired, lastDlmm, lastPump)
    }

    constructor (partners: Partners)
      ensures S() == INITIAL && this.partners == partners
    {
      this.partners := partners;
      switched, clock, seqNo, heap, dead, fired := false, 0, 0, [], {}, [];
      lastDlmm, lastPump := map[], map[];
    }

    method CancelPool(pool: nat)
      modifies `dead
      ensures S() == Cancel(old(S()), pool)
    {
      ghost var doomed := set j | j in heap && j.pool == pool :: j.id;
      ghost var before := dead;
      for i := 0 to |heap|
        invariant dead == before + set j | j in heap[..i] && j.pool == pool :: j.id
      {
        if heap[i].pool == pool {
          dead := dead + {heap[i].id};
        }
        assert heap[..i + 1] == heap[..i] + [heap[i]];
      }
      assert heap[..|heap|] == heap;
    }

    method FireDue(ts: int)
      modifies `heap, `fired
      ensures S() == FireUpto(old(S()), ts)
    {
      hide Fire;
      while heap != [] && heap[0].boundary <= ts
        invariant FireUpto(S(), ts) == FireUpto(old(S()), ts)
        decreases |heap|
      {
        var job := heap[0];
        heap := heap[1..];
        if job.id in dead {
          continue;
        }
        var view := ComputeFeeAfterTime(job.dlmm, job.boundary);
        var untouched := true;
        for i := 0 to |job.partners|
          invariant untouched <==> forall p :: p in job.partners[..i] ==>
            !(p in lastPump && job.schedTs < lastPump[p] <= job.boundary)
        {
          var p := job.partners[i];
          if p in lastPump && job.schedTs < lastPump[p] <= job.boundary {
            untouched := false;
          }
          assert job.partners[..i + 1] == job.partners[..i] + [p];
        }
        assert job.partners[..|job.partners|] == job.partners;
        FireIs(lastPump, job, view, untouched);
        fired := fired + [Firing(job, view.rate, view.volAcc, untouched)];
      }
    }

    method Push(job: Job)
      modifies `heap
      ensures heap == Insert(old(heap), job)
    {
      var i := 0;
      while i < |heap| && !Before(job, heap[i])
        invariant 0 <= i <= |heap|
        invariant forall k :: 0 <= k < i ==> !Before(job, heap[k])
      {
        i := i + 1;
      }
      InsertAt(heap, job, i);
      heap := heap[..i] + [job] + heap[i..];
    }

    method KnownPartners(candidates: seq<nat>) returns (parts: seq<nat>)
      ensures parts == Present(S(), candidates)
    {
      parts := [];
      for i := 0 to |candidates|
        invariant parts + Present(S(), candidates[i..]) == Present(S(), candidates)
      {
        assert candidates[i..][1..] == candidates[i + 1..];
        if candidates[i] in lastPump {
          parts := parts + [candidates[i]];
        }
      }
      assert candidates[|candidates|..] == [] && parts + [] == parts;
    }

    method ScheduleJobs(pool: nat, d: Pair)
      modifies `heap, `seqNo
      ensures S() == Schedule(old(S()), pool, d, partners)
    {
      hide FeeAfterTime, NextBoundaries, Present, Insert;
      var parts := KnownPartners(partners(switched, pool));
      if parts == [] {
        return;
      }
      var before := ComputeFeeAfterTime(d, clock);
      var bs := NextBoundaries(d, clock);
      for i := 0 to |bs|
        invariant clock == old(clock)
        invariant PushAll(S(), pool, d, parts, bs[i..]) == PushAll(old(S()), pool, d, parts, bs)
      {
        assert bs[i..][1..] == bs[i + 1..];
        if bs[i].1 > clock {
          Push(Job(seqNo + 1, pool, clock, bs[i].1, bs[i].0, d, parts, before.rate));
          seqNo := seqNo + 1;
        }
      }
      assert bs[|bs|..] == [];
    }

    method Process(e: Event)
      modifies this
      ensures S() == Step(old(S()), e, partners)
    {
      hide FireUpto, Cancel, Schedule;
      if e.idx > SWITCH_IDX {
        switched := true;
      }
      var ts: Option<int> := None;
      if e.kind.Auth? && e.proto.DlmmProto? && e.now.Some? {
        if NOW_LO <= e.now.value <= NOW_HI {
          ts := e.now;
        }
      }
      if ts.None? {
        if clock == 0 {
          return;
        }
        ts := Some(clock);
      }
      if ts.value < clock {
        ts := Some(clock);
      }
      clock := ts.value;
      FireDue(clock);
      if e.kind.Inv? {
        CancelPool(e.idx);
        lastDlmm := lastDlmm - {e.idx};
        return;
      }
      if !e.kind.Auth? {
        return;
      }
      if e.proto.PumpProto? {
        if e.pumpParsed {
          lastPump := lastPump[e.idx := clock];
        }
        return;
      }
      if !e.proto.DlmmProto? || e.dlmm.None? {
        return;
      }
      CancelPool(e.idx);
      lastDlmm := lastDlmm[e.idx := Snapshot(clock, e.dlmm.value)];
      ScheduleJobs(e.idx, e.dlmm.value);
    }
  }

  /** Insert puts a job before the first one it precedes. */
  lemma {:induction false} InsertAt(heap: seq<Job>, j: Job, i: nat)
    requires i <= |heap| && (forall k :: 0 <= k < i ==> !Before(j, heap[k])) && (i < |heap| ==> Before(j, heap[i]))
    ensures Insert(heap, j) == heap[..i] + [j] + heap[i..]
  {
    if i == 0 {
    } else {
      InsertAt(heap[1..], j, i - 1);
      assert heap[..i] == [heap[0]] + heap[1..][..i - 1] && heap[i..] == heap[1..][i - 1..];
    }
  }

  lemma FireIs(lastPump: map<nat, int>, j: Job, view: FeeView, untouched: bool)
    requires view == FeeAfterTime(j.dlmm, j.boundary)
    requires untouched <==> forall p :: p in j.partners ==> !(p in lastPump && j.schedTs < lastPump[p] <= j.boundary)
    ensures Fire(lastPump, j) == Firing(j, view.rate, view.volAcc, untouched)
  {
    hide FeeAfterTime;
  }

  /** The whole replay: every record in order, then a last sweep at the final clock. */
  method ReplayAll(es: seq<Event>, partners: Partners) returns (r: Replay)
    ensures fresh(r)
    ensures r.S() == FireUpto(Run(INITIAL, es, partners), Run(INITIAL, es, partners).clock)
  {
    hide Step, FireUpto;
    r := new Replay(partners);
    for i := 0 to |es|
      invariant fresh(r) && r.partners == partners
      invariant Run(r.S(), es[i..], partners) == Run(INITIAL, es, partners)
    {
      assert es[i..][1..] == es[i + 1..];
      r.Process(es[i]);
    }
    r.FireDue(r.clock);
  }
}
