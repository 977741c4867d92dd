/** Address lookup tables: merging finalized observations with quarantine, and resolving the
    addresses a transaction loads through them. */
module LookupTables {
  import opened Rounding
  import opened Basics

  const NOT_DEACTIVATED: nat := 0xFFFF_FFFF_FFFF_FFFF

  type Key = string

  datatype Record = Record(addresses: seq<Key>, deactivationSlot: nat, lastExtendedSlot: nat, startIndex: nat,
                           authority: Option<Key>, sha: string, observedSlot: nat, bankHash: Option<string>,
                           quarantined: bool)

  /** A cache entry is a full record or an address list from an older cache. */
  datatype Entry = Full(record: Record) | Listed(addresses: seq<Key>)

  datatype Reason = PrefixConflict | RegressedTable | DeactivationConflict | AuthorityConflict | SnapshotConflict
                  | BankIdentityConflict | ExtensionPrefixConflict

  datatype Judgement = Accept | Stale | Conflict(reason: Reason)

  /** How a new observation relates to the previous one, tests in the source's order. */
  function Judge(prev: Record, cur: Record): Judgement {
    var n := Min(|prev.addresses|, |cur.addresses|);
    if prev.addresses[..n] != cur.addresses[..n] then Conflict(PrefixConflict)
    else if cur.observedSlot < prev.observedSlot then Stale
    else if |cur.addresses| < |prev.addresses| || cur.lastExtendedSlot < prev.lastExtendedSlot
    then Conflict(RegressedTable)
    else if prev.deactivationSlot != NOT_DEACTIVATED && cur.deactivationSlot != prev.deactivationSlot
    then Conflict(DeactivationConflict)
    else if prev.authority != cur.authority && cur.authority.Some? then Conflict(AuthorityConflict)
    else if cur.observedSlot == prev.observedSlot && cur.sha != prev.sha then Conflict(SnapshotConflict)
    else if cur.observedSlot == prev.observedSlot && cur.bankHash.Some? && prev.bankHash.Some?
            && cur.bankHash != prev.bankHash
    then Conflict(BankIdentityConflict)
    else if cur.lastExtendedSlot == prev.lastExtendedSlot && cur.startIndex != prev.startIndex
    then Conflict(ExtensionPrefixConflict)
    else Accept
  }

  /** Merging an observation: a quarantined record stays, a conflict quarantines the previous record. */
  function MergeRecord(previous: Option<Entry>, current: Record): Record {
    if previous.None? || previous.value.Listed? then current
    else
      var prev := previous.value.record;
      if prev.quarantined then prev
      else
        match Judge(prev, current)
        case Accept => current
        case Stale => prev
        case Conflict(_) => prev.(quarantined := true)
  }

  // ---- the order merged records move in ----

  /** What an unquarantined record may become: addresses grow only by suffix, the slots never go
      back, a deactivation is final, an authority can only be given up. */
  ghost predicate Extends(a: Record, b: Record) {
    && a.addresses <= b.addresses
    && a.observedSlot <= b.observedSlot
    && a.lastExtendedSlot <= b.lastExtendedSlot
    && (a.deactivationSlot != NOT_DEACTIVATED ==> b.deactivationSlot == a.deactivationSlot)
    && (b.authority == a.authority || b.authority.None?)
  }

  lemma ExtendsTransitive(a: Record, b: Record, c: Record)
    requires Extends(a, b) && Extends(b, c)
    ensures Extends(a, c)
  {
  }

  /** One merge of an unquarantined observation into a full record either extends it or quarantines
      it with its contents as they were; a quarantined record does not move. */
  lemma MergeExtends(prev: Record, current: Record)
    ensures var r := MergeRecord(Some(Full(prev)), current);
            && Extends(prev, r)
            && (prev.quarantined ==> r == prev)
            && (r.quarantined && !current.quarantined ==> r == prev.(quarantined := true))
  {
    var n := Min(|prev.addresses|, |current.addresses|);
    if Judge(prev, current).Accept? {
      assert prev.addresses[..n] == prev.addresses;
    }
  }

  /** When a merge quarantines: exactly when the observation is current, or contradicts the known
      prefix, and fails to extend the record. */
  lemma QuarantineIffConflict(prev: Record, current: Record)
    requires !prev.quarantined && !current.quarantined
    ensures var r := MergeRecord(Some(Full(prev)), current);
            && (r.quarantined <==>
                  !(prev.addresses <= current.addresses || current.addresses <= prev.addresses)
                  || (current.observedSlot >= prev.observedSlot && !Consistent(prev, current)))
            && (!r.quarantined ==> r == if current.observedSlot < prev.observedSlot then prev else current)
  {
    var n := Min(|prev.addresses|, |current.addresses|);
    assert prev.addresses[..n] == current.addresses[..n]
      <==> prev.addresses <= current.addresses || current.addresses <= prev.addresses;
  }

  /** A later observation that a correct table can make after an earlier one. */
  ghost predicate Consistent(a: Record, b: Record) {
    && Extends(a, b)
    && (b.observedSlot == a.observedSlot ==>
          b.sha == a.sha && (a.bankHash.Some? && b.bankHash.Some? ==> a.bankHash == b.bankHash))
    && (b.lastExtendedSlot == a.lastExtendedSlot ==> b.startIndex == a.startIndex)
  }

  function MergeAll(r: Record, observations: seq<Record>): Record
    decreases |observations|
  {
    if observations == [] then r else MergeAll(MergeRecord(Some(Full(r)), observations[0]), observations[1..])
  }

  /** Over any sequence of merges the record only extends, and quarantine is absorbing. */
  lemma {:induction false} MergeAllExtends(r: Record, observations: seq<Record>)
    ensures Extends(r, MergeAll(r, observations))
    ensures r.quarantined ==> MergeAll(r, observations) == r
    decreases |observations|
  {
    if observations == [] {
    } else {
      var m := MergeRecord(Some(Full(r)), observations[0]);
      MergeExtends(r, observations[0]);
      MergeAllExtends(m, observations[1..]);
      ExtendsTransitive(r, m, MergeAll(r, observations));
    }
  }

  // ---- resolving a transaction ----

  /** A table a transaction names, with the indices it loads as writable and as read-only; a decoded
      index may be negative. */
  datatype Table = Table(pk: Key, writable: seq<int>, readonly: seq<int>)

  datatype Parsed = Parsed(staticKeys: seq<Key>, versioned: bool, tables: seq<Table>)

  datatype Refusal = Miss | ConflictSeen | IndexUnavailable

  datatype Status = Legacy | Resolved | Inline | Refused(why: Refusal)

  function Addresses(e: Entry): seq<Key> {
    match e case Full(r) => r.addresses case Listed(a) => a
  }

  predicate Usable(e: Entry) { e.Full? ==> !e.record.quarantined }

  /** The addresses at the given indices, or None when one is out of range. */
  function Pick(addresses: seq<Key>, idxs: seq<int>): Option<seq<Key>> {
    if idxs == [] then Some([])
    else if !(0 <= idxs[0] < |addresses|) then None
    else match Pick(addresses, idxs[1..]) case None => None case Some(rest) => Some([addresses[idxs[0]]] + rest)
  }

  datatype Loaded = Keys(keys: seq<Key>) | Stopped(why: Refusal)

  function Role(t: Table, writable: bool): seq<int> { if writable then t.writable else t.readonly }

  /** Addresses loaded through the tables in one role, in message order, without deduplication. */
  function LoadRole(tables: seq<Table>, alts: map<Key, Entry>, writable: bool): Loaded {
    if tables == [] then Keys([])
    else if tables[0].pk !in alts then Stopped(Miss)
    else if !Usable(alts[tables[0].pk]) then Stopped(ConflictSeen)
    else
      match Pick(Addresses(alts[tables[0].pk]), Role(tables[0], writable))
      case None => Stopped(IndexUnavailable)
      case Some(keys) =>
        match LoadRole(tables[1..], alts, writable)
        case Stopped(why) => Stopped(why)
        case Keys(rest) => Keys(keys + rest)
  }

  /** All writable descriptors first, then all read-only ones. */
  function Resolve(p: Parsed, alts: map<Key, Entry>): (seq<Key>, Status) {
    if !p.versioned then (p.staticKeys, Legacy)
    else
      match LoadRole(p.tables, alts, true)
      case Stopped(why) => (p.staticKeys, Refused(why))
      case Keys(writable) =>
        match LoadRole(p.tables, alts, false)
        case Stopped(why) => (p.staticKeys, Refused(why))
        case Keys(readonly) => (p.staticKeys + writable + readonly, if p.tables != [] then Resolved else Inline)
  }

  method ResolveLoaded(p: Parsed, alts: map<Key, Entry>) returns (keys: seq<Key>, status: Status)
    ensures (keys, status) == Resolve(p, alts)
  {
    keys := p.staticKeys;
    if !p.versioned {
      return keys, Legacy;
    }
    var writable := LoadPass(p.tables, alts, true);
    if writable.Stopped? {
      return keys, Refused(writable.why);
    }
    var readonly := LoadPass(p.tables, alts, false);
    if readonly.Stopped? {
      return keys, Refused(readonly.why);
    }
    return keys + writable.keys + readonly.keys, if p.tables != [] then Resolved else Inline;
  }

  /** One pass over the tables, appending what each one loads in the given role. */
  method LoadPass(tables: seq<Table>, alts: map<Key, Entry>, writable: bool) returns (r: Loaded)
    ensures r == LoadRole(tables, alts, writable)
  {
    var loaded := [];
    assert tables[0..] == tables;
    for i := 0 to |tables|
      invariant LoadRole(tables, alts, writable) == Prepend(loaded, LoadRole(tables[i..], alts, writable))
    {
      assert tables[i..][1..] == tables[i + 1..];
      var tab := tables[i];
      if tab.pk !in alts {
        return Stopped(Miss);
      }
      if !Usable(alts[tab.pk]) {
        return Stopped(ConflictSeen);
      }
      var picked := PickAll(Addresses(alts[tab.pk]), Role(tab, writable));
      if picked.None? {
        return Stopped(IndexUnavailable);
      }
      PrependTwice(loaded, picked.value, LoadRole(tables[i + 1..], alts, writable));
      loaded := loaded + picked.value;
    }
    assert tables[|tables|..] == [] && loaded + [] == loaded;
    return Keys(loaded);
  }

  ghost function Prepend(keys: seq<Key>, rest: Loaded): Loaded {
    match rest case Stopped(_) => rest case Keys(more) => Keys(keys + more)
  }

  lemma PrependTwice(a: seq<Key>, b: seq<Key>, rest: Loaded)
    ensures Prepend(a, Prepend(b, rest)) == Prepend(a + b, rest)
  {
    if rest.Keys? {
      assert a + (b + rest.keys) == (a + b) + rest.keys;
    }
  }

  method PickAll(addresses: seq<Key>, idxs: seq<int>) returns (r: Option<seq<Key>>)
    ensures r == Pick(addresses, idxs)
  {
    var out := [];
    assert idxs[0..] == idxs;
    assert Pick(addresses, idxs).Some? ==> out + Pick(addresses, idxs).value == Pick(addresses, idxs).value;
    for i := 0 to |idxs|
      invariant match Pick(addresses, idxs[i..])
                case None => Pick(addresses, idxs).None?
                case Some(rest) => Pick(addresses, idxs) == Some(out + rest)
    {
      assert idxs[i..][1..] == idxs[i + 1..];
      if !(0 <= idxs[i] < |addresses|) {
        return None;
      }
      ghost var rest := Pick(addresses, idxs[i + 1..]);
      if rest.Some? {
        assert out + ([addresses[idxs[i]]] + rest.value) == (out + [addresses[idxs[i]]]) + rest.value;
      }
      out := out + [addresses[idxs[i]]];
    }
    assert idxs[|idxs|..] == [] && out + [] == out;
    return Some(out);
  }

  // ---- stability of a resolved transaction ----

  lemma {:induction false} PickGrows(a: seq<Key>, b: seq<Key>, idxs: seq<int>)
    requires a <= b && Pick(a, idxs).Some?
    ensures Pick(b, idxs) == Pick(a, idxs)
  {
    if idxs == [] {
    } else {
      PickGrows(a, b, idxs[1..]);
    }
  }

  /** The later entry of a table came from merges into the full record of the earlier one. */
  ghost predicate Merged(before: map<Key, Entry>, after: map<Key, Entry>, pk: Key) {
    pk in before ==> before[pk].Full? && pk in after && after[pk].Full? && Extends(before[pk].record, after[pk].record)
  }

  lemma {:induction false} LoadStable(tables: seq<Table>, before: map<Key, Entry>,
                                    after: map<Key, Entry>, writable: bool)
    requires LoadRole(tables, before, writable).Keys?
    requires forall t :: t in tables ==> Merged(before, after, t.pk)
    ensures LoadRole(tables, after, writable) == LoadRole(tables, before, writable)
            || (LoadRole(tables, after, writable) == Stopped(ConflictSeen)
                && exists t :: t in tables && t.pk in after && !Usable(after[t.pk]))
  {
    if tables == [] {
    } else {
      var t := tables[0];
      LoadStable(tables[1..], before, after, writable);
      PickGrows(Addresses(before[t.pk]), Addresses(after[t.pk]), Role(t, writable));
    }
  }

  /** A transaction that once resolved keeps resolving to the same key list while its tables' records
      are only merged into, or is refused because one of them has been quarantined. */
  lemma ResolvedStaysOrRefused(p: Parsed, before: map<Key, Entry>, after: map<Key, Entry>)
    requires Resolve(p, before).1.Resolved?
    requires forall t :: t in p.tables ==> Merged(before, after, t.pk)
    ensures Resolve(p, after) == Resolve(p, before)
            || (Resolve(p, after) == (p.staticKeys, Refused(ConflictSeen))
                && exists t :: t in p.tables && t.pk in after && !Usable(after[t.pk]))
  {
    LoadStable(p.tables, before, after, true);
    LoadStable(p.tables, before, after, false);
  }


  // ---- what is loaded, place by place ----

  datatype Slot = Slot(pk: Key, index: int)

  function TableSlots(pk: Key, idxs: seq<int>): seq<Slot> {
    seq(|idxs|, i requires 0 <= i < |idxs| => Slot(pk, idxs[i]))
  }

  /** The places a message names, table after table, writable ones or read-only ones. */
  function Slots(tables: seq<Table>, writable: bool): seq<Slot> {
    if tables == [] then []
    else
      TableSlots(tables[0].pk, if writable then tables[0].writable else tables[0].readonly)
      + Slots(tables[1..], writable)
  }

  /** The place can be read: the table is known, not quarantined, and long enough. */
  predicate Readable(alts: map<Key, Entry>, slot: Slot) {
    slot.pk in alts && Open(alts, slot.pk) && 0 <= slot.index < |Addresses(alts[slot.pk])|
  }

  predicate Open(alts: map<Key, Entry>, pk: Key) {
    pk in alts && (alts[pk].Full? ==> !alts[pk].record.quarantined)
  }

  ghost predicate ReadsOff(keys: seq<Key>, slots: seq<Slot>, alts: map<Key, Entry>) {
    && |keys| == |slots|
    && forall i :: 0 <= i < |slots| ==>
         Readable(alts, slots[i]) && keys[i] == Addresses(alts[slots[i].pk])[slots[i].index]
  }

  lemma {:induction false} PickReads(alts: map<Key, Entry>, pk: Key, idxs: seq<int>)
    requires Open(alts, pk)
    ensures var r := Pick(Addresses(alts[pk]), idxs);
            && (r.Some? ==> ReadsOff(r.value, TableSlots(pk, idxs), alts))
            && (r.None? ==> exists slot :: slot in TableSlots(pk, idxs) && !Readable(alts, slot))
  {
    if idxs == [] {
    } else {
      PickReads(alts, pk, idxs[1..]);
      var slots := TableSlots(pk, idxs);
      assert slots == [slots[0]] + TableSlots(pk, idxs[1..]);
      assert slots[0] == Slot(pk, idxs[0]) && slots[0] in slots;
    }
  }

  /** Loading in a role succeeds exactly when all tables are known and not quarantined and all places can
      be read, and then reads them off in order. */
  lemma {:induction false} LoadReads(tables: seq<Table>, alts: map<Key, Entry>, writable: bool)
    ensures var r, slots := LoadRole(tables, alts, writable), Slots(tables, writable);
            && (r.Keys? <==>
                (forall t :: t in tables ==> Open(alts, t.pk)) && forall slot :: slot in slots ==> Readable(alts, slot))
            && (r.Keys? ==> ReadsOff(r.keys, slots, alts))
  {
    if tables == [] {
    } else {
      var t, rest := tables[0], tables[1..];
      var here := TableSlots(t.pk, if writable then t.writable else t.readonly);
      assert Slots(tables, writable) == here + Slots(rest, writable);
      assert forall u :: u in tables <==> u == t || u in rest;
      LoadReads(rest, alts, writable);
      if Open(alts, t.pk) {
        PickReads(alts, t.pk, if writable then t.writable else t.readonly);
      }
    }
  }

  /** A versioned message resolves exactly when every table it names is known and not quarantined and
      every place can be read; its keys are then the static ones, those at all writable places in order,
      and those at all read-only places in order. Any other message keeps its static keys. */
  lemma ResolvedKeys(p: Parsed, alts: map<Key, Entry>)
    ensures var (keys, status) := Resolve(p, alts);
            && (!p.versioned <==> status.Legacy?)
            && (p.versioned ==>
                  (status.Resolved? || status.Inline? <==>
                    && (forall t :: t in p.tables ==> Open(alts, t.pk))
                    && (forall slot :: slot in Slots(p.tables, true) + Slots(p.tables, false) ==>
                            Readable(alts, slot))))
            && (status.Inline? ==> p.tables == []) && (status.Resolved? ==> p.tables != [])
            && (if status.Resolved? || status.Inline? then
                  && p.staticKeys <= keys
                  && ReadsOff(keys[|p.staticKeys|..], Slots(p.tables, true) + Slots(p.tables, false), alts)
                else keys == p.staticKeys)
  {
    hide Slots, LoadRole, Readable, Open, ReadsOff;
    LoadReads(p.tables, alts, true);
    LoadReads(p.tables, alts, false);
    var slots := Slots(p.tables, true) + Slots(p.tables, false);
    assert forall slot :: slot in slots <==> slot in Slots(p.tables, true) || slot in Slots(p.tables, false);
    var w, r := LoadRole(p.tables, alts, true), LoadRole(p.tables, alts, false);
    if w.Keys? && r.Keys? {
      ReadsConcat(w.keys, Slots(p.tables, true), r.keys, Slots(p.tables, false), alts);
      var keys := p.staticKeys + w.keys + r.keys;
      assert keys == p.staticKeys + (w.keys + r.keys) && keys[|p.staticKeys|..] == w.keys + r.keys;
    }
  }

  lemma ReadsConcat(a: seq<Key>, s: seq<Slot>, b: seq<Key>, t: seq<Slot>, alts: map<Key, Entry>)
    requires ReadsOff(a, s, alts) && ReadsOff(b, t, alts)
    ensures ReadsOff(a + b, s + t, alts)
  {
    hide Readable;
  }

  // ---- why loading stops ----

  /** What is wrong with a table in a role. */
  ghost predicate Blamed(t: Table, writable: bool, alts: map<Key, Entry>, why: Refusal) {
    match why
    case Miss => t.pk !in alts
    case ConflictSeen => t.pk in alts && !Open(alts, t.pk)
    case IndexUnavailable => Open(alts, t.pk) && !AllReadable(t, writable, alts)
  }

  ghost predicate AllReadable(t: Table, writable: bool, alts: map<Key, Entry>) {
    forall slot :: slot in TableSlots(t.pk, if writable then t.writable else t.readonly) ==> Readable(alts, slot)
  }

  ghost predicate Sound(t: Table, writable: bool, alts: map<Key, Entry>) {
    Open(alts, t.pk) && AllReadable(t, writable, alts)
  }

  /** Table i is the first one with something wrong. */
  ghost predicate StopsAt(tables: seq<Table>, writable: bool, alts: map<Key, Entry>, why: Refusal, i: nat) {
    && i < |tables| && Blamed(tables[i], writable, alts, why)
    && forall j :: 0 <= j < i ==> Sound(tables[j], writable, alts)
  }

  lemma OneTable(t: Table, writable: bool, alts: map<Key, Entry>, why: Refusal)
    ensures Sound(t, writable, alts) ==> !Blamed(t, writable, alts, why)
    ensures !Sound(t, writable, alts) ==>
              (LoadRole([t], alts, writable) == Stopped(why) <==> Blamed(t, writable, alts, why))
    ensures Sound(t, writable, alts) <==> LoadRole([t], alts, writable).Keys?
  {
    hide Readable;
    assert [t][1..] == [];
    assert LoadRole([t][1..], alts, writable) == Keys([]);
    if Open(alts, t.pk) {
      PickReads(alts, t.pk, if writable then t.writable else t.readonly);
    }
  }

  /** Loading stops for what is wrong with the first unsound table of the role. */
  lemma {:induction false} StopsWhere(tables: seq<Table>, alts: map<Key, Entry>, writable: bool, why: Refusal)
    ensures LoadRole(tables, alts, writable) == Stopped(why) <==>
            exists i: nat :: StopsAt(tables, writable, alts, why, i)
  {
    hide Sound, Blamed, Open, Pick, Addresses, Usable;
    if tables == [] {
    } else {
      var t, rest := tables[0], tables[1..];
      OneTable(t, writable, alts, why);
      StopsWhere(rest, alts, writable, why);
      assert [t][1..] == [];
      if Sound(t, writable, alts) {
        if i: nat :| StopsAt(rest, writable, alts, why, i) {
          assert tables[i + 1] == rest[i] && forall j :: 0 < j <= i ==> tables[j] == rest[j - 1];
          assert StopsAt(tables, writable, alts, why, i + 1);
        }
        if i: nat :| StopsAt(tables, writable, alts, why, i) {
          assert i > 0 && tables[i] == rest[i - 1] && forall j :: 0 <= j < i - 1 ==> rest[j] == tables[j + 1];
          assert StopsAt(rest, writable, alts, why, i - 1);
        }
      } else {
        assert StopsAt(tables, writable, alts, why, 0) <==> Blamed(t, writable, alts, why);
      }
    }
  }

  /** A message is refused for the first thing that is wrong with its tables, writable places first. */
  lemma RefusedFor(p: Parsed, alts: map<Key, Entry>, why: Refusal)
    ensures Resolve(p, alts).1 == Refused(why) <==>
            && p.versioned
            && ((exists i: nat :: StopsAt(p.tables, true, alts, why, i))
                || ((forall t :: t in p.tables ==> Sound(t, true, alts))
                    && exists i: nat :: StopsAt(p.tables, false, alts, why, i)))
  {
    hide StopsAt, LoadRole, Slots, Readable, Open, TableSlots;
    StopsWhere(p.tables, alts, true, why);
    StopsWhere(p.tables, alts, false, why);
    AllSound(p.tables, alts, true);
  }

  lemma {:induction false} AllSound(tables: seq<Table>, alts: map<Key, Entry>, writable: bool)
    ensures LoadRole(tables, alts, writable).Keys? <==> forall t :: t in tables ==> Sound(t, writable, alts)
  {
    hide Sound, Open, Pick, Addresses, Usable;
    if tables == [] {
    } else {
      OneTable(tables[0], writable, alts, Miss);
      AllSound(tables[1..], alts, writable);
      assert [tables[0]][1..] == [];
      assert forall u :: u in tables <==> u == tables[0] || u in tables[1..];
    }
  }

  /** The first record of a table is taken as it comes, also over a bare address list. */
  lemma FirstObservation(current: Record, addresses: seq<Key>)
    ensures MergeRecord(None, current) == current && MergeRecord(Some(Listed(addresses)), current) == current
    ensures NOT_DEACTIVATED == 18_446_744_073_709_551_615
  {
  }
}
