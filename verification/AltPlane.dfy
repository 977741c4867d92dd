/** The lookup-table control plane: which tables a refresh fetches, what each answer does to the
    cache, and what a transaction can rely on across refreshes. */
module AltPlane {
  import opened Rounding
  import opened Basics
  import opened LookupTables

  const BATCH: nat := 8

  /** A fetch raises, reports that the table does not exist, or returns an observation. */
  datatype Answer = Raises | Absent | Found(record: Record)

  datatype Plane = Plane(cache: map<Key, Entry>, due: map<Key, real>, attempts: map<Key, nat>)

  function Lookup(cache: map<Key, Entry>, pk: Key): Option<Entry> { if pk in cache then Some(cache[pk]) else None }

  predicate Quarantined(cache: map<Key, Entry>, pk: Key) {
    pk in cache && cache[pk].Full? && cache[pk].record.quarantined
  }

  /** Seconds until a failed fetch is retried: doubling, at most a minute. */
  function Backoff(attempts: nat): nat { Min(60, Pow2(Min(attempts, 6))) }

  function Attempts(p: Plane, pk: Key): nat { if pk in p.attempts then p.attempts[pk] else 0 }

  /** One answer for one table. An authoritative absence forgets the table unless it is quarantined. */
  function Visit(p: Plane, pk: Key, now: real, answer: Answer): Plane {
    match answer
    case Raises =>
      var n := Attempts(p, pk) + 1;
      p.(attempts := p.attempts[pk := n], due := p.due[pk := now + Backoff(n) as real])
    case Absent =>
      p.(attempts := p.attempts - {pk}, due := p.due[pk := now + 30.0],
         cache := if Quarantined(p.cache, pk) then p.cache else p.cache - {pk})
    case Found(record) =>
      p.(attempts := p.attempts - {pk}, due := p.due[pk := now + 30.0],
         cache := p.cache[pk := Full(MergeRecord(Lookup(p.cache, pk), record))])
  }

  function VisitAll(p: Plane, pks: seq<Key>, now: real, fetch: Key -> Answer): Plane
    decreases |pks|
  {
    if pks == [] then p else VisitAll(Visit(p, pks[0], now, fetch(pks[0])), pks[1..], now, fetch)
  }

  /** Tables in due order: every due table once, sooner ones first; ties may come in any order. */
  ghost predicate DueOrder(due: map<Key, real>, order: seq<Key>) {
    && (forall pk :: pk in order <==> pk in due)
    && (forall i, j :: 0 <= i < j < |order| ==> order[i] != order[j] && due[order[i]] <= due[order[j]])
  }

  /** The batch of a refresh: the tables already due, eight at most. */
  function Batch(due: map<Key, real>, order: seq<Key>, now: real, limit: nat): seq<Key>
    requires forall pk :: pk in order ==> pk in due
  {
    if order == [] || limit == 0 || due[order[0]] > now then []
    else [order[0]] + Batch(due, order[1..], now, limit - 1)
  }

  class ControlPlane {
    var cache: map<Key, Entry>
    var due: map<Key, real>
    var attempts: map<Key, nat>

    function P(): Plane
      reads this
    {
      Plane(cache, due, attempts)
    }

    /** File one answer; changed tells whether the cache may differ. */
    method File(pk: Key, now: real, answer: Answer) returns (changed: bool)
      modifies this
      ensures P() == Visit(old(P()), pk, now, answer)
      ensures forall k :: k != pk && k in old(due) ==> k in due && due[k] == old(due)[k]
      ensures !changed ==> cache == old(cache)
    {
      changed := false;
      match answer {
        case Raises =>
          var n := (if pk in attempts then attempts[pk] else 0) + 1;
          attempts := attempts[pk := n];
          due := due[pk := now + Backoff(n) as real];
        case Absent =>
          attempts := attempts - {pk};
          due := due[pk := now + 30.0];
          if !Quarantined(cache, pk) {
            changed := pk in cache;
            cache := cache - {pk};
          }
        case Found(record) =>
          attempts := attempts - {pk};
          due := due[pk := now + 30.0];
          cache := cache[pk := Full(MergeRecord(Lookup(cache, pk), record))];
          changed := true;
      }
    }

    /** Fetch the due tables and file the answers. When nothing is reported changed, the cache is as it
        was, so skipping the snapshot loses nothing. */
    method RefreshDue(order: seq<Key>, now: real, fetch: Key -> Answer)
      returns (changed: bool, success: nat, failed: nat, ghost batch: seq<Key>)
      requires DueOrder(due, order)
      modifies this
      ensures batch == Batch(old(due), order, now, BATCH)
      ensures P() == VisitAll(old(P()), batch, now, fetch)
      ensures success + failed == |batch| && failed == CountRaises(batch, fetch)
      ensures !changed ==> cache == old(cache)
    {
      hide Visit, VisitAll, CountRaises, Batch;
      changed, success, failed := false, 0, 0;
      ghost var due0, p0 := due, P();
      batch := Batch(due0, order, now, BATCH);
      BatchShape(due0, order, now, BATCH);
      var i := 0;
      while i < |order| && i < BATCH
        invariant 0 <= i <= |batch|
        invariant forall k :: i <= k < |order| ==> order[k] in due && due[order[k]] == due0[order[k]]
        invariant VisitAll(P(), batch[i..], now, fetch) == VisitAll(p0, batch, now, fetch)
        invariant success + failed == i && failed + CountRaises(batch[i..], fetch) == CountRaises(batch, fetch)
        invariant !changed ==> cache == old(cache)
      {
        var pk := order[i];
        if due[pk] > now {
          break;
        }
        assert i < |batch| && batch[i] == pk;
        assert batch[i..][0] == pk && batch[i..][1..] == batch[i + 1..];
        VisitTurn(P(), batch[i..], now, fetch);
        var answer := fetch(pk);
        var filed := File(pk, now, answer);
        changed := changed || filed;
        if answer.Raises? {
          failed := failed + 1;
        } else {
          success := success + 1;
        }
        i := i + 1;
      }
      assert batch[i..] == [];
      VisitTurn(P(), [], now, fetch);
    }
  }

  /** The batch is the run of due tables at the head of the order, as long as the limit allows. */
  lemma {:induction false} BatchShape(due: map<Key, real>, order: seq<Key>, now: real, limit: nat)
    requires forall pk :: pk in order ==> pk in due
    ensures var b := Batch(due, order, now, limit);
            && |b| <= limit && |b| <= |order|
            && (forall k :: 0 <= k < |b| ==> b[k] == order[k] && due[b[k]] <= now)
            && (|b| < limit && |b| < |order| ==> due[order[|b|]] > now)
  {
    if order == [] {
    } else if limit > 0 && due[order[0]] <= now {
      BatchShape(due, order[1..], now, limit - 1);
    }
  }

  lemma VisitTurn(p: Plane, pks: seq<Key>, now: real, fetch: Key -> Answer)
    ensures pks == [] ==> VisitAll(p, pks, now, fetch) == p && CountRaises(pks, fetch) == 0
    ensures pks != [] ==>
              && VisitAll(p, pks, now, fetch) == VisitAll(Visit(p, pks[0], now, fetch(pks[0])), pks[1..], now, fetch)
              && CountRaises(pks, fetch) == (if fetch(pks[0]).Raises? then 1 else 0) + CountRaises(pks[1..], fetch)
  {
    hide Visit;
  }

  function CountRaises(pks: seq<Key>, fetch: Key -> Answer): nat {
    if pks == [] then 0 else (if fetch(pks[0]).Raises? then 1 else 0) + CountRaises(pks[1..], fetch)
  }

  /** A refresh fetches only due tables, none twice, and passes over a due table only when the batch
      is full. */
  lemma RefreshIsFair(due: map<Key, real>, order: seq<Key>, now: real)
    requires DueOrder(due, order)
    ensures var b := Batch(due, order, now, BATCH);
            && |b| <= 8
            && (forall pk :: pk in b ==> pk in due && due[pk] <= now)
            && (forall i, j :: 0 <= i < j < |b| ==> b[i] != b[j])
            && (|b| < 8 ==> forall pk :: pk in due && pk !in b ==> due[pk] > now)
  {
    BatchShape(due, order, now, BATCH);
    var b := Batch(due, order, now, BATCH);
    forall pk | pk in due && pk !in b && |b| < BATCH ensures due[pk] > now {
      var k :| 0 <= k < |order| && order[k] == pk;
      assert k >= |b|;
    }
  }

  // ---- any history of refreshes ----

  /** One filed answer in the life of the plane. */
  datatype Filed = Filed(pk: Key, now: real, answer: Answer)

  function Replay(p: Plane, history: seq<Filed>): Plane
    decreases |history|
  {
    if history == [] then p
    else Replay(Visit(p, history[0].pk, history[0].now, history[0].answer), history[1..])
  }

  /** A batch is a history. */
  lemma {:induction false} BatchIsHistory(p: Plane, pks: seq<Key>, now: real, fetch: Key -> Answer)
    ensures VisitAll(p, pks, now, fetch) == Replay(p, HistoryOf(pks, now, fetch))
    decreases |pks|
  {
    hide Visit;
    if pks == [] {
    } else {
      var h := HistoryOf(pks, now, fetch);
      assert h[1..] == HistoryOf(pks[1..], now, fetch);
      BatchIsHistory(Visit(p, pks[0], now, fetch(pks[0])), pks[1..], now, fetch);
    }
  }

  function HistoryOf(pks: seq<Key>, now: real, fetch: Key -> Answer): seq<Filed> {
    if pks == [] then [] else [Filed(pks[0], now, fetch(pks[0]))] + HistoryOf(pks[1..], now, fetch)
  }

  /** Quarantine is absorbing: no history of fetches, absences included, changes a quarantined entry. */
  lemma {:induction false} QuarantineAbsorbs(p: Plane, history: seq<Filed>, pk: Key)
    requires Quarantined(p.cache, pk)
    ensures pk in Replay(p, history).cache && Replay(p, history).cache[pk] == p.cache[pk]
    decreases |history|
  {
    if history == [] {
    } else {
      QuarantineAbsorbs(Visit(p, history[0].pk, history[0].now, history[0].answer), history[1..], pk);
    }
  }

  ghost predicate Forgets(history: seq<Filed>, pk: Key) {
    exists i :: 0 <= i < |history| && history[i].pk == pk && history[i].answer.Absent?
  }

  /** While a table is never reported absent, its full record is only merged into. */
  lemma {:induction false} HistoryMerges(p: Plane, history: seq<Filed>, pk: Key)
    requires pk in p.cache && p.cache[pk].Full? && !Forgets(history, pk)
    ensures Merged(p.cache, Replay(p, history).cache, pk)
    decreases |history|
  {
    if history == [] {
    } else {
      var h := history[0];
      var q := Visit(p, h.pk, h.now, h.answer);
      if h.pk == pk && h.answer.Found? {
        MergeExtends(p.cache[pk].record, h.answer.record);
      }
      assert !Forgets(history[1..], pk) by {
        forall i | 0 <= i < |history[1..]| ensures !(history[1..][i].pk == pk && history[1..][i].answer.Absent?) {
          assert history[1..][i] == history[i + 1];
        }
      }
      HistoryMerges(q, history[1..], pk);
      if h.pk == pk {
        ExtendsTransitive(p.cache[pk].record, q.cache[pk].record, Replay(p, history).cache[pk].record);
      }
    }
  }

  /** A transaction resolved through full records resolves to the same key list after any history that
      forgets none of its tables, or is refused for a quarantined table. */
  lemma ResolutionStable(p: Plane, history: seq<Filed>, tx: Parsed)
    requires Resolve(tx, p.cache).1.Resolved?
    requires forall t :: t in tx.tables ==> (t.pk in p.cache ==> p.cache[t.pk].Full?) && !Forgets(history, t.pk)
    ensures var after := Replay(p, history).cache;
            Resolve(tx, after) == Resolve(tx, p.cache) || Resolve(tx, after) == (tx.staticKeys, Refused(ConflictSeen))
  {
    hide Resolve;
    forall t | t in tx.tables ensures Merged(p.cache, Replay(p, history).cache, t.pk) {
      if t.pk in p.cache {
        HistoryMerges(p, history, t.pk);
      }
    }
    ResolvedStaysOrRefused(tx, p.cache, Replay(p, history).cache);
  }

  // ---- when forgetting is safe ----

  /** The history reports tables absent only among the given ones. */
  ghost predicate OnlyForgets(history: seq<Filed>, absent: set<Key>) {
    forall f :: f in history && f.answer.Absent? ==> f.pk in absent
  }

  /** After the history the transaction resolves to the same key list or is refused. */
  ghost predicate KeepsOrRefuses(p: Plane, history: seq<Filed>, tx: Parsed) {
    var after := Replay(p, history).cache;
    Resolve(tx, after) == Resolve(tx, p.cache) ||
    (Resolve(tx, after).0 == tx.staticKeys && Resolve(tx, after).1.Refused?)
  }

  ghost predicate SafeToForget(p: Plane, tx: Parsed, absent: set<Key>) {
    forall history :: OnlyForgets(history, absent) ==> KeepsOrRefuses(p, history, tx)
  }

  /** The transaction names the given tables, if at all, without loading anything through them. */
  predicate LoadsNothing(tx: Parsed, absent: set<Key>) {
    forall t :: t in tx.tables && t.pk in absent ==> t.writable == [] && t.readonly == []
  }

  lemma {:induction false} LoadKeptOrStopped(tables: seq<Table>, before: map<Key, Entry>,
                                           after: map<Key, Entry>, writable: bool)
    requires LoadRole(tables, before, writable).Keys?
    requires forall t :: t in tables ==> Merged(before, after, t.pk) || Role(t, writable) == []
    ensures LoadRole(tables, after, writable) == LoadRole(tables, before, writable)
            || LoadRole(tables, after, writable).Stopped?
  {
    if tables == [] {
    } else {
      var t := tables[0];
      LoadKeptOrStopped(tables[1..], before, after, writable);
      if Merged(before, after, t.pk) {
        PickGrows(Addresses(before[t.pk]), Addresses(after[t.pk]), Role(t, writable));
      }
    }
  }

  lemma ForgettingNothingLoaded(p: Plane, history: seq<Filed>, tx: Parsed, absent: set<Key>)
    requires Resolve(tx, p.cache).1.Resolved? && LoadsNothing(tx, absent) && OnlyForgets(history, absent)
    requires forall t :: t in tx.tables ==> t.pk in p.cache && p.cache[t.pk].Full?
    ensures KeepsOrRefuses(p, history, tx)
  {
    var after := Replay(p, history).cache;
    forall t | t in tx.tables && t.pk !in absent ensures Merged(p.cache, after, t.pk) {
      HistoryMerges(p, history, t.pk);
    }
    LoadKeptOrStopped(tx.tables, p.cache, after, true);
    LoadKeptOrStopped(tx.tables, p.cache, after, false);
  }

  /** Two address lists agree at every index that the tables load from one key in a role. */
  ghost predicate Agree(tables: seq<Table>, pk: Key, writable: bool, a: seq<Key>, b: seq<Key>) {
    forall t, i :: t in tables && t.pk == pk && i in Role(t, writable) && 0 <= i < |a| && i < |b| ==> a[i] == b[i]
  }

  lemma {:induction false} PickReplaced(a: seq<Key>, b: seq<Key>, idxs: seq<int>)
    requires Pick(a, idxs).Some? && |a| <= |b|
    ensures Pick(b, idxs).Some? && |Pick(a, idxs).value| == |Pick(b, idxs).value|
    ensures Pick(a, idxs) == Pick(b, idxs) <==> forall i :: i in idxs ==> 0 <= i < |a| && a[i] == b[i]
  {
    if idxs == [] {
    } else {
      PickReplaced(a, b, idxs[1..]);
      assert forall i :: i in idxs <==> i == idxs[0] || i in idxs[1..];
      Parts([a[idxs[0]]], Pick(a, idxs[1..]).value, [b[idxs[0]]], Pick(b, idxs[1..]).value);
    }
  }

  lemma {:induction false} PickInRange(a: seq<Key>, idxs: seq<int>)
    requires Pick(a, idxs).Some?
    ensures forall i :: i in idxs ==> 0 <= i < |a|
  {
    if idxs == [] {
    } else {
      PickInRange(a, idxs[1..]);
      assert forall i :: i in idxs <==> i == idxs[0] || i in idxs[1..];
    }
  }

  /** Replacing the addresses of one key by a list at least as long changes what the tables load in a
      role exactly when the two lists differ at a loaded index. */
  lemma {:induction false} LoadReplaced(tables: seq<Table>, before: map<Key, Entry>,
                                      after: map<Key, Entry>, pk: Key, writable: bool)
    requires LoadRole(tables, before, writable).Keys?
    requires pk in before && before.Keys == after.Keys && Usable(after[pk])
    requires |Addresses(before[pk])| <= |Addresses(after[pk])|
    requires forall k :: k in before && k != pk ==> after[k] == before[k]
    ensures LoadRole(tables, after, writable).Keys?
    ensures |LoadRole(tables, after, writable).keys| == |LoadRole(tables, before, writable).keys|
    ensures LoadRole(tables, after, writable) == LoadRole(tables, before, writable)
            <==> Agree(tables, pk, writable, Addresses(before[pk]), Addresses(after[pk]))
  {
    if tables == [] {
    } else {
      var t, rest, role := tables[0], tables[1..], Role(tables[0], writable);
      LoadReplaced(rest, before, after, pk, writable);
      var a, b := Addresses(before[t.pk]), Addresses(after[t.pk]);
      PickReplaced(a, b, role);
      PickInRange(a, role);
      AgreeCons(tables, pk, writable, Addresses(before[pk]), Addresses(after[pk]));
      hide Agree;
      Parts(Pick(a, role).value, LoadRole(rest, before, writable).keys,
            Pick(b, role).value, LoadRole(rest, after, writable).keys);
    }
  }

  lemma AgreeCons(tables: seq<Table>, pk: Key, writable: bool, a: seq<Key>, b: seq<Key>)
    requires tables != []
    ensures Agree(tables, pk, writable, a, b) <==>
            && Agree(tables[1..], pk, writable, a, b)
            && (tables[0].pk == pk ==>
                  forall i :: i in Role(tables[0], writable) && 0 <= i < |a| && i < |b| ==> a[i] == b[i])
  {
    assert forall t :: t in tables <==> t == tables[0] || t in tables[1..];
  }

  lemma Parts(a: seq<Key>, b: seq<Key>, c: seq<Key>, d: seq<Key>)
    requires |a| == |c|
    ensures a + b == c + d <==> a == c && b == d
  {
    if a + b == c + d {
      assert a == (a + b)[..|a|] == (c + d)[..|c|] == c;
      assert b == (a + b)[|a|..] == (c + d)[|c|..] == d;
    }
  }

  /** An absence of a table and then a new observation of it. */
  function Recreated(pk: Key, current: Record, now: real): seq<Filed> {
    [Filed(pk, now, Absent), Filed(pk, now, Found(current))]
  }

  /** What re-creating a table does to a resolved transaction, for any new record with at least as many
      addresses: it still resolves, to the same key list exactly when the new addresses are the old
      ones at every index the transaction loads from the table. */
  lemma ForgettingChangesResolution(p: Plane, tx: Parsed, pk: Key, current: Record, now: real)
    requires Resolve(tx, p.cache).1.Resolved? && exists t :: t in tx.tables && t.pk == pk
    requires pk in p.cache && p.cache[pk].Full? && !current.quarantined
    requires |p.cache[pk].record.addresses| <= |current.addresses|
    ensures var after := Replay(p, Recreated(pk, current, now)).cache; var was := p.cache[pk].record.addresses;
            && Resolve(tx, after).1.Resolved?
            && (Resolve(tx, after).0 == Resolve(tx, p.cache).0 <==>
                  Agree(tx.tables, pk, true, was, current.addresses)
                  && Agree(tx.tables, pk, false, was, current.addresses))
  {
    var t :| t in tx.tables && t.pk == pk;
    UsableWhenResolved(tx.tables, p.cache, t);
    var h := Recreated(pk, current, now);
    var q := Visit(p, pk, now, Absent);
    var after := Visit(q, pk, now, Found(current)).cache;
    assert h[1..] == [h[1]] && h[1..][1..] == [];
    assert Replay(p, h) == Replay(q, h[1..]);
    assert Replay(q, h[1..]).cache == after;
    assert after[pk] == Full(current);
    hide Agree;
    LoadReplaced(tx.tables, p.cache, after, pk, true);
    LoadReplaced(tx.tables, p.cache, after, pk, false);
    var w, r := LoadRole(tx.tables, p.cache, true).keys, LoadRole(tx.tables, p.cache, false).keys;
    var w', r' := LoadRole(tx.tables, after, true).keys, LoadRole(tx.tables, after, false).keys;
    Parts(tx.staticKeys + w, r, tx.staticKeys + w', r');
    Parts(tx.staticKeys, w, tx.staticKeys, w');
  }

  lemma {:induction false} UsableWhenResolved(tables: seq<Table>, alts: map<Key, Entry>, t: Table)
    requires LoadRole(tables, alts, true).Keys? && t in tables
    ensures t.pk in alts && Usable(alts[t.pk])
  {
    if tables[0] == t {
    } else {
      UsableWhenResolved(tables[1..], alts, t);
    }
  }

  const SYSTEM_PROGRAM: Key := "11111111111111111111111111111111"
  const WRAPPED_SOL: Key := "So11111111111111111111111111111111111111112"

  /** A public key other than the given one. */
  function OtherKey(k: Key): (r: Key)
    ensures r != k
  {
    assert |SYSTEM_PROGRAM| == 32 && |WRAPPED_SOL| == 43;
    if k == SYSTEM_PROGRAM then WRAPPED_SOL else SYSTEM_PROGRAM
  }

  /** When some table loads an address, re-creating it with another key at that index breaks the
      resolution. */
  lemma RecreatingBreaks(p: Plane, tx: Parsed, t: Table, i: int, writable: bool)
    requires Resolve(tx, p.cache).1.Resolved? && t in tx.tables && i in Role(t, writable)
    requires t.pk in p.cache && p.cache[t.pk].Full?
    ensures exists h :: OnlyForgets(h, {t.pk}) && !KeepsOrRefuses(p, h, tx)
  {
    hide OtherKey, Resolve;
    var prev := p.cache[t.pk].record;
    LoadsInRange(tx, p.cache, t, i, writable);
    var current := prev.(addresses := prev.addresses[i := OtherKey(prev.addresses[i])], quarantined := false);
    ForgettingChangesResolution(p, tx, t.pk, current, 0.0);
    assert !Agree(tx.tables, t.pk, writable, prev.addresses, current.addresses) by {
      assert prev.addresses[i] != current.addresses[i];
    }
    assert OnlyForgets(Recreated(t.pk, current, 0.0), {t.pk});
    assert !KeepsOrRefuses(p, Recreated(t.pk, current, 0.0), tx);
  }

  lemma LoadsInRange(tx: Parsed, alts: map<Key, Entry>, t: Table, i: int, writable: bool)
    requires Resolve(tx, alts).1.Resolved? && t in tx.tables && i in Role(t, writable)
    ensures t.pk in alts && 0 <= i < |Addresses(alts[t.pk])|
  {
    TableInRange(tx.tables, alts, t, i, writable);
  }

  lemma {:induction false} TableInRange(tables: seq<Table>, alts: map<Key, Entry>, t: Table, i: int, writable: bool)
    requires LoadRole(tables, alts, writable).Keys? && t in tables && i in Role(t, writable)
    ensures t.pk in alts && 0 <= i < |Addresses(alts[t.pk])|
  {
    if tables[0] == t {
      PickInRange(Addresses(alts[t.pk]), Role(t, writable));
    } else {
      TableInRange(tables[1..], alts, t, i, writable);
    }
  }

  /** Exactly when tables may be forgotten. Of a transaction resolved through full records, every
      history whose absences are among the given tables keeps the key list or refuses it, if and only
      if the transaction loads nothing through those tables. */
  lemma SafeToForgetIff(p: Plane, tx: Parsed, absent: set<Key>)
    requires Resolve(tx, p.cache).1.Resolved?
    requires forall t :: t in tx.tables ==> t.pk in p.cache && p.cache[t.pk].Full?
    ensures SafeToForget(p, tx, absent) <==> LoadsNothing(tx, absent)
  {
    hide Resolve, Replay, KeepsOrRefuses;
    if LoadsNothing(tx, absent) {
      forall history | OnlyForgets(history, absent) ensures KeepsOrRefuses(p, history, tx) {
        ForgettingNothingLoaded(p, history, tx, absent);
      }
    } else {
      var t :| t in tx.tables && t.pk in absent && !(t.writable == [] && t.readonly == []);
      var writable := t.writable != [];
      var role := Role(t, writable);
      RecreatingBreaks(p, tx, t, role[0], writable);
      var h :| OnlyForgets(h, {t.pk}) && !KeepsOrRefuses(p, h, tx);
      assert OnlyForgets(h, absent);
    }
  }


  // ---- when a table is asked for again ----

  function Failures(pk: Key, times: seq<real>): seq<Filed> {
    if times == [] then [] else [Filed(pk, times[0], Raises)] + Failures(pk, times[1..])
  }

  /** After one to five failures in a row a table is due again in 2, 4, 8, 16 and 32 seconds, after more
      of them in 60. An answer makes it due in 30 seconds and ends the row. */
  lemma {:induction false} RetryTimes(p: Plane, pk: Key, times: seq<real>)
    requires times != []
    ensures var q, n := Replay(p, Failures(pk, times)), Attempts(p, pk) + |times|;
            && pk in q.due && pk in q.attempts && q.attempts[pk] == n && q.cache == p.cache
            && q.due[pk] - times[|times| - 1]
               == (if n == 1 then 2.0 else if n == 2 then 4.0 else if n == 3 then 8.0 else if n == 4 then 16.0
                   else if n == 5 then 32.0 else 60.0)
    decreases |times|
  {
    var q := Visit(p, pk, times[0], Raises);
    BackoffIs(Attempts(p, pk) + 1);
    assert Failures(pk, times)[1..] == Failures(pk, times[1..]);
    hide Backoff;
    if |times| == 1 {
      assert Failures(pk, times[1..]) == [];
    } else {
      RetryTimes(q, pk, times[1..]);
    }
  }

  lemma BackoffIs(n: nat)
    requires n > 0
    ensures Backoff(n) == if n == 1 then 2 else if n == 2 then 4 else if n == 3 then 8 else if n == 4 then 16
                          else if n == 5 then 32 else 60
  {
    assert Pow2(1) == 2 && Pow2(2) == 4 && Pow2(3) == 8;
    assert Pow2(4) == 16 && Pow2(5) == 32 && Pow2(6) == 64;
  }

  lemma AnswerTimes(p: Plane, pk: Key, now: real, answer: Answer)
    requires !answer.Raises?
    ensures var q := Visit(p, pk, now, answer);
            pk in q.due && q.due[pk] == now + 30.0 && pk !in q.attempts
  {
  }
}
