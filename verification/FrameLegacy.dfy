/** The legacy and version 0 framer, when its verdicts are final, and the dispatch between framers. */
module FrameLegacy {
  import opened Wire
  import opened FrameV1

  // ---- the parser, on the bytes from the start of the message ----

  datatype Ixs = Stop(verdict: Outcome) | Read(ixs: seq<Ix>, end: nat)

  datatype Skipped = Halt(verdict: Outcome) | Past(end: nat)

  /** One instruction at off: program, counted accounts, counted data. */
  function Instruction(p: Bytes, off: nat, versioned: bool, nkeys: nat): (r: Ixs)
    ensures r.Stop? ==> !r.verdict.Framed?
  {
    if off >= |p| then Stop(Incomplete(TruncatedIx))
    else if !versioned && p[off] >= nkeys then Stop(Invalid(ProgIdx))
    else
      match Cu16(p, off + 1)
      case Short => Stop(Incomplete(IxAcc))
      case Bad => Stop(Invalid(IxAcc))
      case Value(nacct, at) =>
        if at + nacct > |p| then Stop(Incomplete(TruncatedAcc))
        else
          match Cu16(p, at + nacct)
          case Short => Stop(Incomplete(IxData))
          case Bad => Stop(Invalid(IxData))
          case Value(dlen, from) =>
            if from + dlen > |p| then Stop(Incomplete(TruncatedData))
            else Read([Ix(p[off], p[at..at + nacct], p[from..from + dlen])], from + dlen)
  }

  function Instructions(p: Bytes, off: nat, n: nat, versioned: bool, nkeys: nat): (r: Ixs)
    ensures r.Stop? ==> !r.verdict.Framed?
    decreases n
  {
    if n == 0 then Read([], off)
    else
      match Instruction(p, off, versioned, nkeys)
      case Stop(v) => Stop(v)
      case Read(ix, at) =>
        match Instructions(p, at, n - 1, versioned, nkeys)
        case Stop(v) => Stop(v)
        case Read(rest, end) => Read(ix + rest, end)
  }

  function IndexList(p: Bytes, off: nat): (r: Skipped)
    ensures r.Halt? ==> !r.verdict.Framed?
  {
    match Cu16(p, off)
    case Short => Halt(Incomplete(AltIdx))
    case Bad => Halt(Invalid(AltIdx))
    case Value(n, at) => if at + n > |p| then Halt(Incomplete(TruncatedAltIdx)) else Past(at + n)
  }

  /** A lookup table reference: its address and its two index lists. */
  function TableRef(p: Bytes, off: nat): (r: Skipped)
    ensures r.Halt? ==> !r.verdict.Framed?
  {
    if off + 32 > |p| then Halt(Incomplete(TruncatedAlt))
    else
      match IndexList(p, off + 32)
      case Halt(v) => Halt(v)
      case Past(at) => IndexList(p, at)
  }

  function TableRefs(p: Bytes, off: nat, n: nat): (r: Skipped)
    ensures r.Halt? ==> !r.verdict.Framed?
    decreases n
  {
    if n == 0 then Past(off)
    else
      match TableRef(p, off)
      case Halt(v) => Halt(v)
      case Past(at) => TableRefs(p, at, n - 1)
  }

  function Luts(p: Bytes, nsig: nat, keys: seq<Bytes>, ixs: seq<Ix>, off: nat): Outcome {
    match Cu16(p, off)
    case Short => Incomplete(Lut)
    case Bad => Invalid(Lut)
    case Value(n, at) =>
      if n > 32 then Invalid(TooManyLuts)
      else
        match TableRefs(p, at, n)
        case Halt(v) => v
        case Past(end) => Framed(Old(true, nsig, keys, ixs), end)
  }

  function Body(p: Bytes, versioned: bool, nsig: nat, keys: seq<Bytes>, off: nat): Outcome {
    match Cu16(p, off)
    case Short => Incomplete(TruncatedIx)
    case Bad => Invalid(BadIx)
    case Value(n, at) =>
      if n == 0 || n > TX_INSTR_MAX then Invalid(BadNinstr)
      else
        match Instructions(p, at, n, versioned, |keys|)
        case Stop(v) => v
        case Read(ixs, end) =>
          if versioned then Luts(p, nsig, keys, ixs, end) else Framed(Old(false, nsig, keys, ixs), end)
  }

  function Counts(p: Bytes, versioned: bool, nsig: nat, off: nat): Outcome {
    if off + 2 > |p| then Incomplete(TruncatedHdr)
    else
      match Cu16(p, off + 2)
      case Short => Incomplete(TruncatedNkeys)
      case Bad => Invalid(BadNkeys)
      case Value(nkeys, at) =>
        if !HeaderOk(nsig, p[off], p[off + 1], nkeys) then Invalid(BadHeader)
        else if at + 32 * nkeys + 32 > |p| then Incomplete(TruncatedKeys)
        else Body(p, versioned, nsig, Keys(p, at, nkeys), at + 32 * nkeys + 32)
  }

  /** The byte after the signatures marks the version. A message cut right behind the mark is called
      invalid here, not incomplete. */
  function Mark(p: Bytes, nsig: nat, off: nat): Outcome {
    if off >= |p| then Incomplete(TruncatedHdr)
    else if p[off] >= 128 then
      if p[off] != 128 then Invalid(BadVersion)
      else if off + 1 >= |p| || p[off + 1] != nsig then Invalid(HdrNsig)
      else Counts(p, true, nsig, off + 2)
    else if p[off] != nsig then Invalid(HdrNsig)
    else Counts(p, false, nsig, off + 1)
  }

  function ParseAt(p: Bytes): Outcome {
    match Cu16(p, 0)
    case Short => Incomplete(TruncatedNsig)
    case Bad => Invalid(BadNsig)
    case Value(nsig, off) =>
      if nsig < 1 || nsig > TX_SIG_MAX then Invalid(NsigRange)
      else if off + 64 * nsig > |p| then Incomplete(TruncatedSigs)
      else Mark(p, nsig, off + 64 * nsig)
  }

  function From(raw: Bytes, start: nat): Bytes { if start <= |raw| then raw[start..] else [] }

  function Shift(v: Outcome, start: nat): Outcome {
    match v
    case Framed(msg, end) => Framed(msg, start + end)
    case other => other
  }

  function ParseLegacy(raw: Bytes, start: nat): Outcome { Shift(ParseAt(From(raw, start)), start) }

  ghost function ParseAny(raw: Bytes, start: nat): Outcome {
    if start < |raw| && raw[start] == TX_V1_PREFIX then ParseV1(raw, start) else ParseLegacy(raw, start)
  }

  // ---- which verdicts are final ----

  ghost predicate Final(v: Ixs) { v.Read? || !v.verdict.Incomplete? }

  ghost predicate Done(v: Skipped) { v.Past? || !v.verdict.Incomplete? }

  lemma InstructionStable(p: Bytes, more: Bytes, off: nat, versioned: bool, nkeys: nat)
    requires Final(Instruction(p, off, versioned, nkeys))
    ensures Instruction(p + more, off, versioned, nkeys) == Instruction(p, off, versioned, nkeys)
    ensures Instruction(p, off, versioned, nkeys).Read? ==> Instruction(p, off, versioned, nkeys).end <= |p|
  {
    hide Cu16;
    if versioned || p[off] < nkeys {
      Cu16Stable(p, more, off + 1);
      match Cu16(p, off + 1) {
        case Value(nacct, at) =>
          Cu16Stable(p, more, at + nacct);
          match Cu16(p, at + nacct) {
            case Value(dlen, from) =>
              assert (p + more)[at..at + nacct] == p[at..at + nacct]
                     && (p + more)[from..from + dlen] == p[from..from + dlen];
            case _ =>
          }
        case _ =>
      }
    }
  }

  lemma {:induction false} InstructionsStable(p: Bytes, more: Bytes, off: nat, n: nat, versioned: bool, nkeys: nat)
    requires off <= |p| && Final(Instructions(p, off, n, versioned, nkeys))
    ensures Instructions(p + more, off, n, versioned, nkeys) == Instructions(p, off, n, versioned, nkeys)
    ensures Instructions(p, off, n, versioned, nkeys).Read? ==> Instructions(p, off, n, versioned, nkeys).end <= |p|
    decreases n
  {
    hide Instruction;
    if n == 0 {
    } else {
      InstructionStable(p, more, off, versioned, nkeys);
      match Instruction(p, off, versioned, nkeys) {
        case Stop(_) =>
        case Read(_, at) => InstructionsStable(p, more, at, n - 1, versioned, nkeys);
      }
    }
  }

  lemma IndexListStable(p: Bytes, more: Bytes, off: nat)
    requires Done(IndexList(p, off))
    ensures IndexList(p + more, off) == IndexList(p, off)
  {
    hide Cu16;
    Cu16Stable(p, more, off);
  }

  lemma {:induction false} TableRefsStable(p: Bytes, more: Bytes, off: nat, n: nat)
    requires Done(TableRefs(p, off, n))
    ensures TableRefs(p + more, off, n) == TableRefs(p, off, n)
    decreases n
  {
    hide IndexList;
    if n == 0 {
    } else {
      IndexListStable(p, more, off + 32);
      match IndexList(p, off + 32) {
        case Halt(_) =>
        case Past(at) =>
          IndexListStable(p, more, at);
          match IndexList(p, at) {
            case Halt(_) =>
            case Past(next) => TableRefsStable(p, more, next, n - 1);
          }
      }
    }
  }

  lemma LutsStable(p: Bytes, more: Bytes, nsig: nat, keys: seq<Bytes>, ixs: seq<Ix>, off: nat)
    requires !Luts(p, nsig, keys, ixs, off).Incomplete?
    ensures Luts(p + more, nsig, keys, ixs, off) == Luts(p, nsig, keys, ixs, off)
  {
    hide Cu16, TableRefs;
    Cu16Stable(p, more, off);
    match Cu16(p, off) {
      case Value(n, at) =>
        if n <= 32 {
          TableRefsStable(p, more, at, n);
        }
      case _ =>
    }
  }

  lemma BodyStable(p: Bytes, more: Bytes, versioned: bool, nsig: nat, keys: seq<Bytes>, off: nat)
    requires !Body(p, versioned, nsig, keys, off).Incomplete?
    ensures Body(p + more, versioned, nsig, keys, off) == Body(p, versioned, nsig, keys, off)
  {
    hide Cu16, Instructions, Luts;
    Cu16Stable(p, more, off);
    match Cu16(p, off) {
      case Value(n, at) =>
        if 0 < n <= TX_INSTR_MAX {
          InstructionsStable(p, more, at, n, versioned, |keys|);
          match Instructions(p, at, n, versioned, |keys|) {
            case Read(ixs, end) =>
              if versioned {
                LutsStable(p, more, nsig, keys, ixs, end);
              }
            case Stop(_) =>
          }
        }
      case _ =>
    }
  }

  lemma CountsStable(p: Bytes, more: Bytes, versioned: bool, nsig: nat, off: nat)
    requires !Counts(p, versioned, nsig, off).Incomplete?
    ensures Counts(p + more, versioned, nsig, off) == Counts(p, versioned, nsig, off)
  {
    hide Cu16, Body, Keys, HeaderOk;
    Cu16Stable(p, more, off + 2);
    match Cu16(p, off + 2) {
      case Value(nkeys, at) =>
        if HeaderOk(nsig, p[off], p[off + 1], nkeys) {
          KeysGrow(p, more, at, nkeys);
          BodyStable(p, more, versioned, nsig, Keys(p, at, nkeys), at + 32 * nkeys + 32);
        }
      case _ =>
    }
  }

  /** The message ends right behind the version mark that follows its signatures. */
  predicate CutAtMark(p: Bytes) {
    match Cu16(p, 0)
    case Value(nsig, off) => 1 <= nsig <= TX_SIG_MAX && |p| == off + 64 * nsig + 1 && p[|p| - 1] == 128
    case _ => false
  }

  lemma ParseAtStable(p: Bytes, more: Bytes)
    requires !ParseAt(p).Incomplete? && !CutAtMark(p)
    ensures ParseAt(p + more) == ParseAt(p)
  {
    hide Cu16, Counts;
    Cu16Stable(p, more, 0);
    match Cu16(p, 0) {
      case Value(nsig, at) =>
        if 1 <= nsig <= TX_SIG_MAX {
          var off := at + 64 * nsig;
          if p[off] == 128 && p[off + 1] == nsig {
            CountsStable(p, more, true, nsig, off + 2);
          } else if p[off] == nsig {
            CountsStable(p, more, false, nsig, off + 1);
          }
        }
      case _ =>
    }
  }

  /** One more byte turns the invalid verdict of a message cut at the mark into an incomplete one. */
  lemma CutAtMarkRevised(p: Bytes) returns (one: Byte)
    requires CutAtMark(p)
    ensures Cu16(p, 0).Value? && one == Cu16(p, 0).n
    ensures ParseAt(p) == Invalid(HdrNsig) && ParseAt(p + [one]) == Incomplete(TruncatedHdr)
  {
    one := Cu16(p, 0).n;
    Cu16Stable(p, [one], 0);
  }

  ghost predicate KeptByAll(raw: Bytes, start: nat) {
    forall more :: ParseAny(raw + more, start) == ParseAny(raw, start)
  }

  predicate CutAfterMark(raw: Bytes, start: nat) {
    start < |raw| && raw[start] != TX_V1_PREFIX && CutAtMark(raw[start..])
  }

  /** A framed or invalid verdict survives all appended bytes exactly when the input is not a
      version 0 message cut right behind its version mark. */
  lemma VerdictFinalIff(raw: Bytes, start: nat)
    requires !ParseAny(raw, start).Incomplete?
    ensures KeptByAll(raw, start) <==> !CutAfterMark(raw, start)
  {
    hide ParseV1, ParseAt, CutAtMark;
    NothingIsIncomplete(raw, start);
    if raw[start] == TX_V1_PREFIX {
      forall more: Bytes ensures ParseAny(raw + more, start) == ParseAny(raw, start) {
        Stable(raw, more, start);
      }
    } else {
      forall more: Bytes ensures From(raw + more, start) == From(raw, start) + more {
      }
      if CutAfterMark(raw, start) {
        var one := CutAtMarkRevised(raw[start..]);
        assert From(raw + [one], start) == raw[start..] + [one];
        assert ParseAny(raw + [one], start) != ParseAny(raw, start);
      } else {
        forall more: Bytes ensures ParseAny(raw + more, start) == ParseAny(raw, start) {
          ParseAtStable(raw[start..], more);
        }
      }
    }
  }

  lemma NothingIsIncomplete(raw: Bytes, start: nat)
    ensures start >= |raw| ==> ParseAny(raw, start).Incomplete?
  {
  }

  /** A concrete version 0 message whose first 66 bytes are called invalid and whose first 67 are
      called incomplete. */
  lemma CutExample(sig: Bytes)
    requires |sig| == 64
    ensures ParseAny([1] + sig + [128], 0) == Invalid(HdrNsig)
    ensures ParseAny([1] + sig + [128, 1], 0) == Incomplete(TruncatedHdr)
  {
    var p: Bytes := [1] + sig + [128];
    assert p[65] == 128 && Cu16(p, 0) == Value(1, 1);
    var one := CutAtMarkRevised(p);
    assert p + [one] == [1] + sig + [128, 1];
    assert From(p, 0) == p && From(p + [one], 0) == p + [one];
  }

  /** Every proper prefix of a framed message is incomplete or cut right behind the version mark. */
  lemma PrefixNotFramed(raw: Bytes, start: nat, n: nat)
    requires ParseAny(raw, start).Framed? && n < ParseAny(raw, start).end
    ensures n <= |raw| && !ParseAny(raw[..n], start).Framed?
    ensures ParseAny(raw[..n], start).Incomplete? || CutAfterMark(raw[..n], start)
  {
    hide ParseAny, CutAfterMark;
    AnyEnd(raw, start);
    var q := raw[..n];
    AnyEnd(q, start);
    assert raw == q + raw[n..];
    if CutAfterMark(q, start) {
      CutIsInvalid(q, start);
    } else if !ParseAny(q, start).Incomplete? {
      VerdictKept(q, raw[n..], start);
    }
  }

  lemma VerdictKept(raw: Bytes, more: Bytes, start: nat)
    requires !ParseAny(raw, start).Incomplete? && !CutAfterMark(raw, start)
    ensures ParseAny(raw + more, start) == ParseAny(raw, start)
  {
    hide ParseAny, CutAfterMark;
    VerdictFinalIff(raw, start);
  }

  lemma CutIsInvalid(raw: Bytes, start: nat)
    requires CutAfterMark(raw, start)
    ensures ParseAny(raw, start).Invalid?
  {
    var _ := CutAtMarkRevised(raw[start..]);
  }

  lemma AnyEnd(raw: Bytes, start: nat)
    ensures ParseAny(raw, start).Framed? ==> ParseAny(raw, start).end <= |raw|
  {
    NothingIsIncomplete(raw, start);
    hide ParseV1, ParseAt;
    if start < |raw| && raw[start] == TX_V1_PREFIX {
      EndInside(raw, start);
    } else if start < |raw| {
      ParseAtEnd(From(raw, start));
    }
  }

  lemma {:induction false} TableRefsEnd(p: Bytes, off: nat, n: nat)
    requires off <= |p| && TableRefs(p, off, n).Past?
    ensures TableRefs(p, off, n).end <= |p|
    decreases n
  {
    if n == 0 {
    } else {
      hide Cu16;
      TableRefsEnd(p, TableRef(p, off).end, n - 1);
    }
  }

  lemma ParseAtEnd(p: Bytes)
    ensures ParseAt(p).Framed? ==> ParseAt(p).end <= |p|
  {
    hide HeaderOk, Keys, Instructions, TableRefs, Body, Luts;
    forall versioned: bool, nsig: nat, keys: seq<Bytes>, off: nat
      ensures Body(p, versioned, nsig, keys, off).Framed? ==> Body(p, versioned, nsig, keys, off).end <= |p|
    {
      BodyEnd(p, versioned, nsig, keys, off);
    }
  }

  lemma BodyEnd(p: Bytes, versioned: bool, nsig: nat, keys: seq<Bytes>, off: nat)
    ensures Body(p, versioned, nsig, keys, off).Framed? ==> Body(p, versioned, nsig, keys, off).end <= |p|
  {
    hide Cu16, Instructions, TableRefs;
    if Body(p, versioned, nsig, keys, off).Framed? {
      Cu16Stable(p, [], off);
      var c := Cu16(p, off);
      InstructionsStable(p, [], c.next, c.n, versioned, |keys|);
      var end := Instructions(p, c.next, c.n, versioned, |keys|).end;
      if versioned {
        Cu16Stable(p, [], end);
        TableRefsEnd(p, Cu16(p, end).next, Cu16(p, end).n);
      }
    }
  }

  /** The legacy framer frames nothing that begins with the version 1 prefix. */
  lemma NeverBoth(raw: Bytes, start: nat)
    requires start < |raw| && raw[start] == TX_V1_PREFIX
    ensures !ParseLegacy(raw, start).Framed?
  {
    hide Mark;
    assert From(raw, start)[0] == TX_V1_PREFIX;
  }

  /** Dispatching on the first byte loses nothing: an input is framed exactly when one of the two
      framers frames it, and then the other does not. */
  lemma DispatchComplete(raw: Bytes, start: nat)
    ensures ParseAny(raw, start).Framed? <==> ParseV1(raw, start).Framed? || ParseLegacy(raw, start).Framed?
    ensures !(ParseV1(raw, start).Framed? && ParseLegacy(raw, start).Framed?)
  {
    hide ParseLegacy, ParseKeys, HeaderFault;
    if start < |raw| && raw[start] == TX_V1_PREFIX {
      NeverBoth(raw, start);
    }
  }

  // ---- the cursor loops ----

  function Joined(ixs: seq<Ix>, r: Ixs): Ixs {
    match r
    case Stop(v) => Stop(v)
    case Read(rest, end) => Read(ixs + rest, end)
  }

  lemma InstructionsStep(p: Bytes, off: nat, n: nat, versioned: bool, nkeys: nat, ixs: seq<Ix>)
    requires n > 0
    ensures var one := Instruction(p, off, versioned, nkeys);
            Joined(ixs, Instructions(p, off, n, versioned, nkeys)) ==
            if one.Stop? then one else Joined(ixs + one.ixs, Instructions(p, one.end, n - 1, versioned, nkeys))
  {
    hide Instruction;
    var one := Instruction(p, off, versioned, nkeys);
    if one.Read? {
      var tail := Instructions(p, one.end, n - 1, versioned, nkeys);
      if tail.Read? {
        assert ixs + (one.ixs + tail.ixs) == (ixs + one.ixs) + tail.ixs;
      }
    }
  }

  lemma JoinedNone(r: Ixs)
    ensures Joined([], r) == r
  {
    if r.Read? {
      assert [] + r.ixs == r.ixs;
    }
  }

  method ReadInstruction(p: Bytes, start: nat, versioned: bool, nkeys: nat) returns (r: Ixs)
    ensures r == Instruction(p, start, versioned, nkeys)
  {
    hide Cu16;
    var off: nat := start;
    if off >= |p| {
      return Stop(Incomplete(TruncatedIx));
    }
    var prog := p[off];
    off := off + 1;
    if !versioned && prog >= nkeys {
      return Stop(Invalid(ProgIdx));
    }
    var got := Cu16(p, off);
    if !got.Value? {
      return Stop(if got.Short? then Incomplete(IxAcc) else Invalid(IxAcc));
    }
    var nacct := got.n;
    off := got.next;
    if off + nacct > |p| {
      return Stop(Incomplete(TruncatedAcc));
    }
    var acc := p[off..off + nacct];
    off := off + nacct;
    got := Cu16(p, off);
    if !got.Value? {
      return Stop(if got.Short? then Incomplete(IxData) else Invalid(IxData));
    }
    var dlen := got.n;
    off := got.next;
    if off + dlen > |p| {
      return Stop(Incomplete(TruncatedData));
    }
    return Read([Ix(prog, acc, p[off..off + dlen])], off + dlen);
  }

  method ReadInstructions(p: Bytes, start: nat, ninstr: nat, versioned: bool, nkeys: nat) returns (r: Ixs)
    ensures r == Instructions(p, start, ninstr, versioned, nkeys)
  {
    hide Instruction;
    var ixs, off: nat := [], start;
    JoinedNone(Instructions(p, start, ninstr, versioned, nkeys));
    for i := 0 to ninstr
      invariant Instructions(p, start, ninstr, versioned, nkeys)
                == Joined(ixs, Instructions(p, off, ninstr - i, versioned, nkeys))
    {
      hide Instructions, Joined;
      InstructionsStep(p, off, ninstr - i, versioned, nkeys, ixs);
      var one := ReadInstruction(p, off, versioned, nkeys);
      if one.Stop? {
        return one;
      }
      ixs, off := ixs + one.ixs, one.end;
    }
    assert ixs + [] == ixs;
    return Read(ixs, off);
  }

  method SkipTables(p: Bytes, start: nat, nlut: nat) returns (r: Skipped)
    ensures r == TableRefs(p, start, nlut)
  {
    hide Cu16;
    var off: nat := start;
    for i := 0 to nlut
      invariant TableRefs(p, start, nlut) == TableRefs(p, off, nlut - i)
    {
      if off + 32 > |p| {
        return Halt(Incomplete(TruncatedAlt));
      }
      ghost var at0 := off + 32;
      off := off + 32;
      for w := 0 to 2
        invariant w == 0 ==> off == at0
        invariant w == 1 ==> IndexList(p, at0) == Past(off)
        invariant w == 2 ==> IndexList(p, at0).Past? && IndexList(p, IndexList(p, at0).end) == Past(off)
      {
        var got := Cu16(p, off);
        if !got.Value? {
          return Halt(if got.Short? then Incomplete(AltIdx) else Invalid(AltIdx));
        }
        if got.next + got.n > |p| {
          return Halt(Incomplete(TruncatedAltIdx));
        }
        off := got.next + got.n;
      }
    }
    return Past(off);
  }

  method ComputeParseLegacy(raw: Bytes, start: nat) returns (r: Outcome)
    ensures r == ParseLegacy(raw, start)
  {
    hide Cu16, Keys, Instructions, TableRefs, HeaderOk;
    var p := From(raw, start);
    var got := Cu16(p, 0);
    if !got.Value? {
      return if got.Short? then Incomplete(TruncatedNsig) else Invalid(BadNsig);
    }
    var nsig, off := got.n, got.next;
    if nsig < 1 || nsig > TX_SIG_MAX {
      return Invalid(NsigRange);
    }
    if off + 64 * nsig > |p| {
      return Incomplete(TruncatedSigs);
    }
    off := off + 64 * nsig;
    if off >= |p| {
      return Incomplete(TruncatedHdr);
    }
    var b0 := p[off];
    off := off + 1;
    var versioned := false;
    if b0 >= 128 {
      if b0 != 128 {
        return Invalid(BadVersion);
      }
      versioned := true;
      if off >= |p| || p[off] != nsig {
        return Invalid(HdrNsig);
      }
      off := off + 1;
    } else if b0 != nsig {
      return Invalid(HdrNsig);
    }
    var v := ComputeCounts(p, versioned, nsig, off);
    return Shift(v, start);
  }

  method ComputeCounts(p: Bytes, versioned: bool, nsig: nat, start: nat) returns (r: Outcome)
    ensures r == Counts(p, versioned, nsig, start)
  {
    hide Cu16, Keys, Instructions, TableRefs, HeaderOk;
    if start + 2 > |p| {
      return Incomplete(TruncatedHdr);
    }
    var roSigned: nat, roUnsigned: nat := p[start], p[start + 1];
    var got := Cu16(p, start + 2);
    if !got.Value? {
      return if got.Short? then Incomplete(TruncatedNkeys) else Invalid(BadNkeys);
    }
    var nkeys, off := got.n, got.next;
    if !HeaderOk(nsig, roSigned, roUnsigned, nkeys) {
      return Invalid(BadHeader);
    }
    if off + 32 * nkeys + 32 > |p| {
      return Incomplete(TruncatedKeys);
    }
    var keys := ReadKeys(p, off, nkeys);
    KeyCount(p, off, nkeys);
    off := off + 32 * nkeys + 32;
    got := Cu16(p, off);
    if !got.Value? {
      return if got.Short? then Incomplete(TruncatedIx) else Invalid(BadIx);
    }
    var ninstr := got.n;
    if ninstr == 0 || ninstr > TX_INSTR_MAX {
      return Invalid(BadNinstr);
    }
    var read := ReadInstructions(p, got.next, ninstr, versioned, nkeys);
    if read.Stop? {
      return read.verdict;
    }
    if !versioned {
      return Framed(Old(false, nsig, keys, read.ixs), read.end);
    }
    got := Cu16(p, read.end);
    if !got.Value? {
      return if got.Short? then Incomplete(Lut) else Invalid(Lut);
    }
    if got.n > 32 {
      return Invalid(TooManyLuts);
    }
    var skipped := SkipTables(p, got.next, got.n);
    return if skipped.Halt? then skipped.verdict else Framed(Old(true, nsig, keys, read.ixs), skipped.end);
  }

  method ComputeParseAny(raw: Bytes, start: nat) returns (r: Outcome)
    ensures r == ParseAny(raw, start)
  {
    hide ParseV1, ParseLegacy;
    if start < |raw| && raw[start] == TX_V1_PREFIX {
      r := ComputeParseV1(raw, start);
    } else {
      r := ComputeParseLegacy(raw, start);
    }
  }


  // ---- how many bytes decide ----

  lemma CompactDecided(p: Bytes, off: nat)
    requires off + 3 <= |p|
    ensures !Cu16(p, off).Short?
    ensures Cu16(p, off).Value? ==> Cu16(p, off).n < 65536 && off < Cu16(p, off).next <= off + 3
  {
  }

  lemma InstructionDecided(p: Bytes, off: nat, versioned: bool, nkeys: nat)
    requires off + 131_077 <= |p|
    ensures var r := Instruction(p, off, versioned, nkeys);
            Final(r) && (r.Read? ==> off < r.end <= off + 131_077)
  {
    hide Cu16;
    CompactDecided(p, off + 1);
    var c := Cu16(p, off + 1);
    if c.Value? {
      CompactDecided(p, c.next + c.n);
    }
  }

  lemma {:induction false} InstructionsDecided(p: Bytes, off: nat, n: nat, versioned: bool, nkeys: nat)
    requires off + 131_077 * n <= |p|
    ensures var r := Instructions(p, off, n, versioned, nkeys);
            Final(r) && (r.Read? ==> off <= r.end <= off + 131_077 * n)
    decreases n
  {
    hide Instruction;
    if n == 0 {
    } else {
      InstructionDecided(p, off, versioned, nkeys);
      var one := Instruction(p, off, versioned, nkeys);
      if one.Read? {
        InstructionsDecided(p, one.end, n - 1, versioned, nkeys);
      }
    }
  }

  lemma TableDecided(p: Bytes, off: nat)
    requires off + 131_108 <= |p|
    ensures Done(TableRef(p, off)) && (TableRef(p, off).Past? ==> off < TableRef(p, off).end <= off + 131_108)
  {
    hide Cu16;
    CompactDecided(p, off + 32);
    var c := Cu16(p, off + 32);
    if c.Value? {
      CompactDecided(p, c.next + c.n);
    }
  }

  lemma {:induction false} TablesDecided(p: Bytes, off: nat, n: nat)
    requires off + 131_108 * n <= |p|
    ensures Done(TableRefs(p, off, n))
    decreases n
  {
    hide TableRef;
    if n == 0 {
    } else {
      TableDecided(p, off);
      if TableRef(p, off).Past? {
        TablesDecided(p, TableRef(p, off).end, n - 1);
      }
    }
  }

  lemma BodyDecided(p: Bytes, versioned: bool, nsig: nat, keys: seq<Bytes>, off: nat)
    requires off + 12_584_390 <= |p|
    ensures !Body(p, versioned, nsig, keys, off).Incomplete?
  {
    hide Cu16, Instructions, TableRefs;
    CompactDecided(p, off);
    var c := Cu16(p, off);
    if c.Value? && 0 < c.n <= TX_INSTR_MAX {
      InstructionsDecided(p, c.next, c.n, versioned, |keys|);
      var read := Instructions(p, c.next, c.n, versioned, |keys|);
      if read.Read? && versioned {
        CompactDecided(p, read.end);
        var d := Cu16(p, read.end);
        if d.Value? && d.n <= 32 {
          TablesDecided(p, d.next, d.n);
        }
      }
    }
  }

  lemma CountsDecided(p: Bytes, versioned: bool, nsig: nat, off: nat)
    requires off + 2_085 + 12_584_390 <= |p|
    ensures !Counts(p, versioned, nsig, off).Incomplete?
  {
    hide Cu16, Keys, Body;
    CompactDecided(p, off + 2);
    var c := Cu16(p, off + 2);
    if c.Value? && HeaderOk(nsig, p[off], p[off + 1], c.n) {
      BodyDecided(p, versioned, nsig, Keys(p, c.next, c.n), c.next + 32 * c.n + 32);
    }
  }

  /** With 12_587_248 bytes from the start on, no verdict is that bytes are missing: no message of either
      kind is longer. */
  lemma AnyLongIsDecided(raw: Bytes, start: nat)
    requires start + 12_587_248 <= |raw|
    ensures !ParseAny(raw, start).Incomplete?
  {
    hide Cu16, Counts, ParseV1;
    if raw[start] == TX_V1_PREFIX {
      LongIsDecided(raw, start);
    } else {
      var p := From(raw, start);
      CompactDecided(p, 0);
      var c := Cu16(p, 0);
      if c.Value? && 1 <= c.n <= TX_SIG_MAX {
        var off := c.next + 64 * c.n;
        CountsDecided(p, true, c.n, off + 2);
        CountsDecided(p, false, c.n, off + 1);
      }
    }
  }
}
