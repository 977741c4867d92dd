/** The serializer of legacy and version 0 messages that the legacy framer undoes: a message is framed
    exactly when its bytes are those of a well-formed message. */
module FrameLegacyCodec {
  import opened Wire
  import opened FrameV1
  import opened FrameLegacy
  import opened FrameCodec

  datatype Table = Table(address: Bytes, writable: Bytes, readonly: Bytes)

  /** A message with every byte of it, also those the parser skips. */
  datatype OldMessage = OldMessage(versioned: bool, nsig: Byte, sigs: Bytes, roSigned: Byte, roUnsigned: Byte,
                                   keys: seq<Bytes>, blockhash: Bytes, ixs: seq<Ix>, tables: seq<Table>)

  function OldView(m: OldMessage): Parsed { Old(m.versioned, m.nsig, m.keys, m.ixs) }

  /** In a version 0 message the program may also be one loaded through a table. */
  predicate IxFits(ix: Ix, versioned: bool, nkeys: nat) {
    (versioned || ix.prog < nkeys) && |ix.acc| < 65536 && |ix.data| < 65536
  }

  predicate IxsFit(ixs: seq<Ix>, versioned: bool, nkeys: nat) {
    ixs == [] || (IxFits(ixs[0], versioned, nkeys) && IxsFit(ixs[1..], versioned, nkeys))
  }

  predicate TableFits(t: Table) { |t.address| == 32 && |t.writable| < 65536 && |t.readonly| < 65536 }

  predicate TablesFit(ts: seq<Table>) { ts == [] || (TableFits(ts[0]) && TablesFit(ts[1..])) }

  predicate OldWellFormed(m: OldMessage) {
    && 1 <= m.nsig <= 12 && |m.sigs| == 64 * m.nsig as int && m.roSigned < m.nsig
    && m.nsig as int <= |m.keys| <= 64 && m.nsig as int + m.roUnsigned as int <= |m.keys|
    && Whole(m.keys) && |m.blockhash| == 32
    && 1 <= |m.ixs| <= 64 && IxsFit(m.ixs, m.versioned, |m.keys|)
    && |m.tables| <= 32 && TablesFit(m.tables) && (m.versioned || m.tables == [])
  }

  /** A count and then what it counts. */
  function Counted(x: Bytes): Bytes
    requires |x| < 65536
  {
    Encode16(|x|) + x
  }

  function IxBytes(ix: Ix): Bytes
    requires |ix.acc| < 65536 && |ix.data| < 65536
  {
    [ix.prog] + (Counted(ix.acc) + Counted(ix.data))
  }

  function AllIxBytes(ixs: seq<Ix>, versioned: bool, nkeys: nat): Bytes
    requires IxsFit(ixs, versioned, nkeys)
  {
    if ixs == [] then [] else IxBytes(ixs[0]) + AllIxBytes(ixs[1..], versioned, nkeys)
  }

  function TableBytes(t: Table): Bytes
    requires TableFits(t)
  {
    t.address + (Counted(t.writable) + Counted(t.readonly))
  }

  function AllTableBytes(ts: seq<Table>): Bytes
    requires TablesFit(ts)
  {
    if ts == [] then [] else TableBytes(ts[0]) + AllTableBytes(ts[1..])
  }

  function TablesPart(versioned: bool, ts: seq<Table>): Bytes
    requires |ts| <= 32 && TablesFit(ts)
  {
    if versioned then Encode16(|ts|) + AllTableBytes(ts) else []
  }

  function IxsPart(versioned: bool, nkeys: nat, ixs: seq<Ix>, ts: seq<Table>): Bytes
    requires |ixs| <= 64 && IxsFit(ixs, versioned, nkeys) && |ts| <= 32 && TablesFit(ts)
  {
    Encode16(|ixs|) + (AllIxBytes(ixs, versioned, nkeys) + TablesPart(versioned, ts))
  }

  function KeysPart(m: OldMessage): Bytes
    requires OldWellFormed(m)
  {
    [m.roSigned, m.roUnsigned]
    + (Encode16(|m.keys|) + (Flat(m.keys) + (m.blockhash + IxsPart(m.versioned, |m.keys|, m.ixs, m.tables))))
  }

  function MarkPart(m: OldMessage): Bytes { if m.versioned then [128, m.nsig] else [m.nsig] }

  /** Count of signatures, signatures, version mark, header, counted keys, blockhash, counted instructions
      and, in version 0, counted tables. */
  function OldSerialize(m: OldMessage): Bytes
    requires OldWellFormed(m)
  {
    Encode16(m.nsig as int) + (m.sigs + (MarkPart(m) + KeysPart(m)))
  }

  // ---- one counted list, one instruction, one table ----

  lemma CountedMatch(p: Bytes, off: nat, x: Bytes)
    requires |x| < 65536
    ensures Holds(p, off, Counted(x)) <==>
            var c := Cu16(p, off);
            c.Value? && c.n == |x| && c.next + |x| <= |p| && p[c.next..c.next + |x|] == x
    ensures Holds(p, off, Counted(x)) ==> Cu16(p, off).next + |x| == off + |Counted(x)|
  {
    hide Cu16, Encode16;
    HoldsConcat(p, off, Encode16(|x|), x);
    Cu16Canonical(p, off, |x|, off + |Encode16(|x|)|);
    if Cu16(p, off).Value? {
      Cu16Canonical(p, off, Cu16(p, off).n, Cu16(p, off).next);
    }
  }

  lemma InstructionMatch(p: Bytes, off: nat, versioned: bool, nkeys: nat, ix: Ix)
    requires IxFits(ix, versioned, nkeys) && Holds(p, off, IxBytes(ix))
    ensures Instruction(p, off, versioned, nkeys) == Read([ix], off + |IxBytes(ix)|)
  {
    hide Cu16, Encode16, Counted;
    var a, d := Counted(ix.acc), Counted(ix.data);
    HoldsConcat(p, off, [ix.prog], a + d);
    HoldsConcat(p, off + 1, a, d);
    CountedMatch(p, off + 1, ix.acc);
    CountedMatch(p, off + 1 + |a|, ix.data);
    assert p[off..off + 1] == [p[off]];
  }

  lemma InstructionParts(p: Bytes, off: nat, versioned: bool, nkeys: nat)
    requires Instruction(p, off, versioned, nkeys).Read?
    ensures var c := Cu16(p, off + 1);
            && off < |p| && (versioned || p[off] < nkeys) && c.Value? && c.next + c.n <= |p|
            && var d := Cu16(p, c.next + c.n);
               && d.Value? && d.next + d.n <= |p|
               && Instruction(p, off, versioned, nkeys)
                  == Read([Ix(p[off], p[c.next..c.next + c.n], p[d.next..d.next + d.n])], d.next + d.n)
  {
    hide Cu16;
  }

  lemma InstructionShape(p: Bytes, off: nat, versioned: bool, nkeys: nat)
    requires Instruction(p, off, versioned, nkeys).Read?
    ensures var r := Instruction(p, off, versioned, nkeys);
            && |r.ixs| == 1 && IxFits(r.ixs[0], versioned, nkeys)
            && Holds(p, off, IxBytes(r.ixs[0])) && r.end == off + |IxBytes(r.ixs[0])|
  {
    hide Cu16, Encode16, Counted, Instruction;
    InstructionParts(p, off, versioned, nkeys);
    var ix := Instruction(p, off, versioned, nkeys).ixs[0];
    var c := Cu16(p, off + 1);
    Cu16Shortest(p, off + 1);
    Cu16Shortest(p, c.next + c.n);
    CountedMatch(p, off + 1, ix.acc);
    CountedMatch(p, c.next + c.n, ix.data);
    IxStands(p, off, ix);
  }

  lemma IxStands(p: Bytes, off: nat, ix: Ix)
    requires |ix.acc| < 65536 && |ix.data| < 65536 && off < |p| && p[off] == ix.prog
    requires Holds(p, off + 1, Counted(ix.acc)) && Holds(p, off + 1 + |Counted(ix.acc)|, Counted(ix.data))
    ensures Holds(p, off, IxBytes(ix))
  {
    hide Counted;
    var a, d := Counted(ix.acc), Counted(ix.data);
    assert p[off..off + 1] == [p[off]];
    HoldsConcat(p, off + 1, a, d);
    HoldsConcat(p, off, [ix.prog], a + d);
  }

  lemma {:induction false} InstructionsMatch(p: Bytes, off: nat, versioned: bool, nkeys: nat, ixs: seq<Ix>)
    requires IxsFit(ixs, versioned, nkeys) && Holds(p, off, AllIxBytes(ixs, versioned, nkeys))
    ensures Instructions(p, off, |ixs|, versioned, nkeys) == Read(ixs, off + |AllIxBytes(ixs, versioned, nkeys)|)
    decreases |ixs|
  {
    hide Instruction, IxBytes, Holds;
    if ixs == [] {
    } else {
      var rest := ixs[1..];
      HoldsConcat(p, off, IxBytes(ixs[0]), AllIxBytes(rest, versioned, nkeys));
      InstructionMatch(p, off, versioned, nkeys, ixs[0]);
      InstructionsMatch(p, off + |IxBytes(ixs[0])|, versioned, nkeys, rest);
      assert ixs == [ixs[0]] + rest;
    }
  }

  lemma {:induction false} InstructionsShape(p: Bytes, off: nat, n: nat, versioned: bool, nkeys: nat)
    requires off <= |p| && Instructions(p, off, n, versioned, nkeys).Read?
    ensures var r := Instructions(p, off, n, versioned, nkeys);
            && |r.ixs| == n && IxsFit(r.ixs, versioned, nkeys)
            && Holds(p, off, AllIxBytes(r.ixs, versioned, nkeys))
            && r.end == off + |AllIxBytes(r.ixs, versioned, nkeys)|
    decreases n
  {
    hide Instruction, IxBytes, Holds;
    if n == 0 {
      NothingHolds(p, off);
    } else {
      var one := Instruction(p, off, versioned, nkeys);
      InstructionShape(p, off, versioned, nkeys);
      HoldsInside(p, off, IxBytes(one.ixs[0]));
      InstructionsShape(p, one.end, n - 1, versioned, nkeys);
      var r, tail := Instructions(p, off, n, versioned, nkeys), Instructions(p, one.end, n - 1, versioned, nkeys);
      assert r.ixs[0] == one.ixs[0] && r.ixs[1..] == tail.ixs;
      HoldsConcat(p, off, IxBytes(one.ixs[0]), AllIxBytes(tail.ixs, versioned, nkeys));
    }
  }

  lemma HoldsInside(p: Bytes, off: nat, x: Bytes)
    requires Holds(p, off, x)
    ensures off + |x| <= |p|
  {
  }

  // ---- tables ----

  lemma TableMatch(p: Bytes, off: nat, t: Table)
    requires TableFits(t) && Holds(p, off, TableBytes(t))
    ensures TableRef(p, off) == Past(off + |TableBytes(t)|)
  {
    hide Cu16, Encode16, Counted;
    var w, r := Counted(t.writable), Counted(t.readonly);
    HoldsConcat(p, off, t.address, w + r);
    HoldsConcat(p, off + 32, w, r);
    CountedMatch(p, off + 32, t.writable);
    CountedMatch(p, off + 32 + |w|, t.readonly);
  }

  lemma IndexListShape(p: Bytes, off: nat) returns (x: Bytes)
    requires IndexList(p, off).Past?
    ensures |x| < 65536 && Holds(p, off, Counted(x)) && IndexList(p, off).end == off + |Counted(x)|
  {
    hide Cu16, Counted;
    var c := Cu16(p, off);
    Cu16Shortest(p, off);
    x := p[c.next..c.next + c.n];
    CountedMatch(p, off, x);
  }

  lemma TableShape(p: Bytes, off: nat) returns (t: Table)
    requires TableRef(p, off).Past?
    ensures TableFits(t) && Holds(p, off, TableBytes(t)) && TableRef(p, off).end == off + |TableBytes(t)|
  {
    hide Cu16, Counted, IndexList;
    var w := IndexListShape(p, off + 32);
    var r := IndexListShape(p, off + 32 + |Counted(w)|);
    t := Table(p[off..off + 32], w, r);
    HoldsConcat(p, off + 32, Counted(w), Counted(r));
    HoldsConcat(p, off, t.address, Counted(w) + Counted(r));
  }

  lemma {:induction false} TablesMatch(p: Bytes, off: nat, ts: seq<Table>)
    requires TablesFit(ts) && Holds(p, off, AllTableBytes(ts))
    ensures TableRefs(p, off, |ts|) == Past(off + |AllTableBytes(ts)|)
    decreases |ts|
  {
    hide TableRef, TableBytes, Holds, TableFits;
    if ts == [] {
    } else {
      HoldsConcat(p, off, TableBytes(ts[0]), AllTableBytes(ts[1..]));
      TableMatch(p, off, ts[0]);
      TablesMatch(p, off + |TableBytes(ts[0])|, ts[1..]);
    }
  }

  lemma {:induction false} TablesShape(p: Bytes, off: nat, n: nat) returns (ts: seq<Table>)
    requires off <= |p| && TableRefs(p, off, n).Past?
    ensures |ts| == n && TablesFit(ts) && Holds(p, off, AllTableBytes(ts))
    ensures TableRefs(p, off, n).end == off + |AllTableBytes(ts)|
    decreases n
  {
    hide TableRef, TableBytes, Holds, TableFits;
    if n == 0 {
      ts := [];
      NothingHolds(p, off);
    } else {
      var t := TableShape(p, off);
      HoldsInside(p, off, TableBytes(t));
      var rest := TablesShape(p, off + |TableBytes(t)|, n - 1);
      ts := [t] + rest;
      assert ts[1..] == rest;
      HoldsConcat(p, off, TableBytes(t), AllTableBytes(rest));
    }
  }

  // ---- from the tables back to the signatures ----

  lemma LutsMatch(p: Bytes, nsig: nat, keys: seq<Bytes>, ixs: seq<Ix>, off: nat, ts: seq<Table>)
    requires |ts| <= 32 && TablesFit(ts) && Holds(p, off, TablesPart(true, ts))
    ensures Luts(p, nsig, keys, ixs, off) == Framed(Old(true, nsig, keys, ixs), off + |TablesPart(true, ts)|)
  {
    hide Cu16, Encode16, AllTableBytes, TableRefs, Holds, TablesFit;
    HoldsConcat(p, off, Encode16(|ts|), AllTableBytes(ts));
    Cu16Canonical(p, off, |ts|, off + |Encode16(|ts|)|);
    TablesMatch(p, off + |Encode16(|ts|)|, ts);
  }

  lemma LutsShape(p: Bytes, nsig: nat, keys: seq<Bytes>, ixs: seq<Ix>, off: nat) returns (ts: seq<Table>)
    requires Luts(p, nsig, keys, ixs, off).Framed?
    ensures |ts| <= 32 && TablesFit(ts) && Holds(p, off, TablesPart(true, ts))
    ensures Luts(p, nsig, keys, ixs, off) == Framed(Old(true, nsig, keys, ixs), off + |TablesPart(true, ts)|)
  {
    hide Cu16, Encode16, AllTableBytes, TableRefs, TablesFit;
    var c := Cu16(p, off);
    Cu16Shortest(p, off);
    ts := TablesShape(p, c.next, c.n);
    HoldsConcat(p, off, Encode16(|ts|), AllTableBytes(ts));
  }

  lemma BodyMatch(p: Bytes, versioned: bool, nsig: nat, keys: seq<Bytes>, off: nat, ixs: seq<Ix>, ts: seq<Table>)
    requires 1 <= |ixs| <= 64 && IxsFit(ixs, versioned, |keys|)
    requires |ts| <= 32 && TablesFit(ts) && (versioned || ts == [])
    requires Holds(p, off, IxsPart(versioned, |keys|, ixs, ts))
    ensures Body(p, versioned, nsig, keys, off)
         == Framed(Old(versioned, nsig, keys, ixs), off + |IxsPart(versioned, |keys|, ixs, ts)|)
  {
    hide Cu16, Encode16, AllIxBytes, Instructions, Luts, IxsFit, TablesFit, Holds;
    var count, all, tail := Encode16(|ixs|), AllIxBytes(ixs, versioned, |keys|), TablesPart(versioned, ts);
    HoldsConcat(p, off, count, all + tail);
    HoldsConcat(p, off + |count|, all, tail);
    Cu16Canonical(p, off, |ixs|, off + |count|);
    InstructionsMatch(p, off + |count|, versioned, |keys|, ixs);
    if versioned {
      LutsMatch(p, nsig, keys, ixs, off + |count| + |all|, ts);
    }
  }

  lemma BodyShape(p: Bytes, versioned: bool, nsig: nat, keys: seq<Bytes>, off: nat)
    returns (ixs: seq<Ix>, ts: seq<Table>)
    requires Body(p, versioned, nsig, keys, off).Framed?
    ensures 1 <= |ixs| <= 64 && IxsFit(ixs, versioned, |keys|) && |ts| <= 32 && TablesFit(ts) && (versioned || ts == [])
    ensures Holds(p, off, IxsPart(versioned, |keys|, ixs, ts))
    ensures Body(p, versioned, nsig, keys, off)
         == Framed(Old(versioned, nsig, keys, ixs), off + |IxsPart(versioned, |keys|, ixs, ts)|)
  {
    hide Cu16, Encode16, AllIxBytes, Instructions, Luts, IxsFit, TablesFit, AllTableBytes;
    var c := Cu16(p, off);
    Cu16Shortest(p, off);
    InstructionsShape(p, c.next, c.n, versioned, |keys|);
    var read := Instructions(p, c.next, c.n, versioned, |keys|);
    ixs := read.ixs;
    HoldsInside(p, c.next, AllIxBytes(ixs, versioned, |keys|));
    if versioned {
      ts := LutsShape(p, nsig, keys, ixs, read.end);
    } else {
      ts := [];
      NoTables();
      NothingHolds(p, read.end);
    }
    HoldsConcat(p, c.next, AllIxBytes(ixs, versioned, |keys|), TablesPart(versioned, ts));
    HoldsConcat(p, off, Encode16(|ixs|), AllIxBytes(ixs, versioned, |keys|) + TablesPart(versioned, ts));
  }

  lemma NoTables()
    ensures TablesFit([])
  {
  }

  lemma Two(p: Bytes, off: nat, a: Byte, b: Byte)
    ensures Holds(p, off, [a, b]) <==> off + 2 <= |p| && p[off] == a && p[off + 1] == b
  {
    if off + 2 <= |p| {
      var w := p[off..off + 2];
      assert w[0] == p[off] && w[1] == p[off + 1] && w == [w[0], w[1]];
    }
  }

  /** The header, the counted keys, the blockhash and the rest, each at its place. */
  lemma KeysPartHolds(p: Bytes, m: OldMessage, off: nat)
    requires OldWellFormed(m)
    ensures var count, flat := Encode16(|m.keys|), Flat(m.keys);
            var tail := IxsPart(m.versioned, |m.keys|, m.ixs, m.tables);
            var at := off + 2 + |count|;
            && |flat| == 32 * |m.keys| && |KeysPart(m)| == 2 + |count| + |flat| + 32 + |tail|
            && (Holds(p, off, KeysPart(m)) <==>
                && off + 2 <= |p| && p[off] == m.roSigned && p[off + 1] == m.roUnsigned
                && Holds(p, off + 2, count) && Holds(p, at, flat)
                && Holds(p, at + |flat|, m.blockhash) && Holds(p, at + |flat| + 32, tail))
            && (Holds(p, off, KeysPart(m)) ==> at + |flat| + 32 <= |p|)
  {
    hide Encode16, Flat, IxsPart, IxsFit, TablesFit;
    var count, flat, tail := Encode16(|m.keys|), Flat(m.keys), IxsPart(m.versioned, |m.keys|, m.ixs, m.tables);
    var at := off + 2 + |count|;
    KeysMatch(p, at, m.keys);
    HoldsConcat(p, off, [m.roSigned, m.roUnsigned], count + (flat + (m.blockhash + tail)));
    HoldsConcat(p, off + 2, count, flat + (m.blockhash + tail));
    HoldsConcat(p, at, flat, m.blockhash + tail);
    HoldsConcat(p, at + |flat|, m.blockhash, tail);
    Two(p, off, m.roSigned, m.roUnsigned);
  }

  lemma CountsMatch(p: Bytes, m: OldMessage, off: nat)
    requires OldWellFormed(m) && Holds(p, off, KeysPart(m))
    ensures Counts(p, m.versioned, m.nsig, off) == Framed(OldView(m), off + |KeysPart(m)|)
  {
    hide Cu16, Encode16, Flat, IxsPart, Keys, Body, IxsFit, TablesFit, Whole, KeysPart, Holds;
    KeysPartHolds(p, m, off);
    var at := off + 2 + |Encode16(|m.keys|)|;
    Cu16Canonical(p, off + 2, |m.keys|, at);
    KeysMatch(p, at, m.keys);
    BodyMatch(p, m.versioned, m.nsig, m.keys, at + 32 * |m.keys| + 32, m.ixs, m.tables);
  }

  lemma CountsShape(p: Bytes, versioned: bool, nsig: Byte, sigs: Bytes, off: nat) returns (m: OldMessage)
    requires Counts(p, versioned, nsig, off).Framed? && 1 <= nsig <= 12 && |sigs| == 64 * nsig as int
    ensures OldWellFormed(m) && m.versioned == versioned && m.nsig == nsig && m.sigs == sigs
    ensures Holds(p, off, KeysPart(m)) && Counts(p, versioned, nsig, off) == Framed(OldView(m), off + |KeysPart(m)|)
  {
    hide Cu16, Encode16, Flat, IxsPart, Keys, Body, IxsFit, TablesFit, Whole, KeysPart;
    var c := Cu16(p, off + 2);
    Cu16Shortest(p, off + 2);
    var at, n := c.next, c.n;
    var keys := Keys(p, at, n);
    KeysWhole(p, at, n);
    KeysMatch(p, at, keys);
    var ixs, ts := BodyShape(p, versioned, nsig, keys, at + 32 * n + 32);
    m := OldMessage(versioned, nsig, sigs, p[off], p[off + 1], keys, p[at + 32 * n..at + 32 * n + 32], ixs, ts);
    KeysPartHolds(p, m, off);
  }

  lemma MarkMatch(p: Bytes, m: OldMessage, off: nat)
    requires OldWellFormed(m) && Holds(p, off, MarkPart(m) + KeysPart(m))
    ensures Mark(p, m.nsig, off) == Framed(OldView(m), off + |MarkPart(m)| + |KeysPart(m)|)
  {
    hide KeysPart, Counts;
    HoldsConcat(p, off, MarkPart(m), KeysPart(m));
    if m.versioned {
      Two(p, off, 128, m.nsig);
    } else {
      assert p[off..off + 1] == [p[off]];
    }
    CountsMatch(p, m, off + |MarkPart(m)|);
  }

  lemma MarkShape(p: Bytes, nsig: Byte, sigs: Bytes, off: nat) returns (m: OldMessage)
    requires Mark(p, nsig, off).Framed? && 1 <= nsig <= 12 && |sigs| == 64 * nsig as int
    ensures OldWellFormed(m) && m.nsig == nsig && m.sigs == sigs
    ensures Holds(p, off, MarkPart(m) + KeysPart(m))
    ensures Mark(p, nsig, off) == Framed(OldView(m), off + |MarkPart(m)| + |KeysPart(m)|)
  {
    hide KeysPart, Counts;
    var versioned := p[off] == 128;
    m := CountsShape(p, versioned, nsig, sigs, if versioned then off + 2 else off + 1);
    if versioned {
      Two(p, off, 128, nsig);
    } else {
      assert p[off..off + 1] == [p[off]];
    }
    HoldsConcat(p, off, MarkPart(m), KeysPart(m));
  }

  lemma ParseAtMatch(p: Bytes, m: OldMessage)
    requires OldWellFormed(m) && Holds(p, 0, OldSerialize(m))
    ensures ParseAt(p) == Framed(OldView(m), |OldSerialize(m)|)
  {
    hide KeysPart, MarkPart, Mark, Cu16, Encode16, OldWellFormed;
    SmallCounts(m);
    var count, tail := Encode16(m.nsig as int), MarkPart(m) + KeysPart(m);
    HoldsConcat(p, 0, count, m.sigs + tail);
    HoldsConcat(p, |count|, m.sigs, tail);
    Cu16Canonical(p, 0, m.nsig as int, |count|);
    MarkMatch(p, m, |count| + |m.sigs|);
  }

  lemma SmallCounts(m: OldMessage)
    requires OldWellFormed(m)
    ensures 1 <= m.nsig <= 12 && |m.sigs| == 64 * m.nsig as int
  {
  }

  lemma ParseAtShape(p: Bytes) returns (m: OldMessage)
    requires ParseAt(p).Framed?
    ensures OldWellFormed(m) && Holds(p, 0, OldSerialize(m)) && ParseAt(p) == Framed(OldView(m), |OldSerialize(m)|)
  {
    hide KeysPart, MarkPart, Mark, Cu16, Encode16, OldWellFormed;
    var c := Cu16(p, 0);
    Cu16Shortest(p, 0);
    var sigs := p[c.next..c.next + 64 * c.n];
    m := MarkShape(p, c.n, sigs, c.next + 64 * c.n);
    HoldsConcat(p, c.next, m.sigs, MarkPart(m) + KeysPart(m));
    HoldsConcat(p, 0, Encode16(c.n), m.sigs + (MarkPart(m) + KeysPart(m)));
  }

  // ---- the two directions ----

  lemma FromHolds(raw: Bytes, start: nat, x: Bytes)
    requires start <= |raw|
    ensures Holds(From(raw, start), 0, x) <==> Holds(raw, start, x)
  {
    if start + |x| <= |raw| {
      assert raw[start..][..|x|] == raw[start..start + |x|];
    }
  }

  /** Parsing undoes serializing, wherever the message stands and whatever follows it. */
  lemma OldRoundTrip(raw: Bytes, start: nat, m: OldMessage)
    requires OldWellFormed(m) && Holds(raw, start, OldSerialize(m))
    ensures ParseLegacy(raw, start) == Framed(OldView(m), start + |OldSerialize(m)|)
  {
    hide ParseAt, OldSerialize, OldWellFormed;
    HoldsInside(raw, start, OldSerialize(m));
    FromHolds(raw, start, OldSerialize(m));
    ParseAtMatch(From(raw, start), m);
  }

  /** Every framed verdict comes from the bytes of a well-formed message that stands there. */
  lemma OldFramedIsSerialized(raw: Bytes, start: nat) returns (m: OldMessage)
    requires ParseLegacy(raw, start).Framed?
    ensures OldWellFormed(m) && Holds(raw, start, OldSerialize(m))
    ensures ParseLegacy(raw, start) == Framed(OldView(m), start + |OldSerialize(m)|)
  {
    hide ParseAt, OldSerialize, OldWellFormed;
    m := ParseAtShape(From(raw, start));
    if start > |raw| {
      NothingParses();
    }
    FromHolds(raw, start, OldSerialize(m));
  }

  lemma NothingParses()
    ensures !ParseAt([]).Framed?
  {
  }

  /** The legacy framer accepts exactly the bytes of well-formed messages. */
  lemma OldFramedIff(raw: Bytes, start: nat)
    ensures ParseLegacy(raw, start).Framed? <==> exists m :: OldWellFormed(m) && Holds(raw, start, OldSerialize(m))
  {
    hide ParseLegacy, OldSerialize, OldWellFormed, Holds;
    if ParseLegacy(raw, start).Framed? {
      var _ := OldFramedIsSerialized(raw, start);
    }
    if m :| OldWellFormed(m) && Holds(raw, start, OldSerialize(m)) {
      OldRoundTrip(raw, start, m);
    }
  }


  /** Dispatching on the first byte accepts exactly the bytes of well-formed messages of either kind. */
  lemma AnyFramedIff(raw: Bytes, start: nat)
    ensures ParseAny(raw, start).Framed? <==>
            || (exists m :: WellFormed(m) && Holds(raw, start, Serialize(m)))
            || (exists m :: OldWellFormed(m) && Holds(raw, start, OldSerialize(m)))
  {
    hide ParseAny, ParseV1, ParseLegacy, WellFormed, OldWellFormed, Holds, Serialize, OldSerialize;
    DispatchComplete(raw, start);
    FramedIff(raw, start);
    OldFramedIff(raw, start);
  }
}
