/** The version 1 framer: a streaming-stable parser that undoes a serializer. */
module FrameV1 {
  import opened Rounding
  import opened Wire

  const TX_V1_MAX: int := 4096
  const TX_V1_HDR: int := 42

  // ---- sections ----

  function Le32(p: Bytes, off: nat): nat
    requires off + 4 <= |p|
  {
    p[off] as int + 256 * p[off + 1] as int + 65536 * p[off + 2] as int + 16777216 * p[off + 3] as int
  }

  function MaskAt(p: Bytes, start: nat): nat
    requires start + TX_V1_HDR <= |p|
  {
    Le32(p, start + 4)
  }

  function Bits(mask: nat): nat { if mask == 0 then 0 else mask % 2 + Bits(mask / 2) }

  function Keys(p: Bytes, off: nat, n: nat): seq<Bytes>
    requires off + 32 * n <= |p|
    decreases n
  {
    if n == 0 then [] else [p[off..off + 32]] + Keys(p, off + 32, n - 1)
  }

  ghost predicate Distinct(keys: seq<Bytes>) { forall i, j :: 0 <= i < j < |keys| ==> keys[i] != keys[j] }

  datatype Head = Head(prog: Byte, nacct: nat, dlen: nat)

  function HeadAt(p: Bytes, off: nat): Head
    requires off + 4 <= |p|
  {
    Head(p[off], p[off + 1], p[off + 2] as int + 256 * p[off + 3] as int)
  }

  function Heads(p: Bytes, off: nat, n: nat): seq<Head>
    requires off + 4 * n <= |p|
    decreases n
  {
    if n == 0 then [] else [HeadAt(p, off)] + Heads(p, off + 4, n - 1)
  }

  function Pay(heads: seq<Head>): nat {
    if heads == [] then 0 else heads[0].nacct + heads[0].dlen + Pay(heads[1..])
  }

  predicate ProgsIn(heads: seq<Head>, naddr: nat) { forall h :: h in heads ==> h.prog < naddr }

  predicate AccountsIn(acc: Bytes, naddr: nat) { forall a :: a in acc ==> a < naddr }

  datatype Payload = Cut | BadAccount | Payload(ixs: seq<Ix>, end: nat)

  /** The accounts and data of every announced instruction, from off on. */
  function Bodies(p: Bytes, off: nat, heads: seq<Head>, naddr: nat): Payload
    decreases |heads|
  {
    if heads == [] then Payload([], off)
    else
      var h := heads[0];
      var mid, end := off + h.nacct, off + h.nacct + h.dlen;
      if end > |p| then Cut
      else if !AccountsIn(p[off..mid], naddr) then BadAccount
      else
        match Bodies(p, end, heads[1..], naddr)
        case Payload(ixs, last) => Payload([Ix(h.prog, p[off..mid], p[mid..end])] + ixs, last)
        case fault => fault
  }

  // ---- the parser ----

  function HeaderFault(p: Bytes, start: nat): Option<Why>
    requires start + TX_V1_HDR <= |p|
  {
    if MaskAt(p, start) >= 32 then Some(UnknownMask)
    else if MaskAt(p, start) % 4 == 1 || MaskAt(p, start) % 4 == 2 then Some(PartialPriorityFee)
    else if p[start + 40] == 0 || p[start + 40] > TX_INSTR_MAX then Some(BadNinstr)
    else if !HeaderOk(p[start + 1], p[start + 2], p[start + 3], p[start + 41]) then Some(BadHeader)
    else None
  }

  ghost function ParseV1(p: Bytes, start: nat): Outcome {
    if start >= |p| then Incomplete(TruncatedPrefix)
    else if p[start] != TX_V1_PREFIX then Invalid(NotV1)
    else if start + TX_V1_HDR > |p| then Incomplete(TruncatedHdr)
    else
      match HeaderFault(p, start)
      case Some(why) => Invalid(why)
      case None => ParseKeys(p, start, start + TX_V1_HDR, p[start + 41])
  }

  ghost function ParseKeys(p: Bytes, start: nat, off: nat, naddr: nat): Outcome
    requires start + TX_V1_HDR <= |p|
  {
    if off + 32 * naddr > |p| then Incomplete(TruncatedKeys)
    else if !Distinct(Keys(p, off, naddr)) then Invalid(DuplicateAddress)
    else ParseHeads(p, start, off + 32 * naddr, Keys(p, off, naddr))
  }

  function ParseHeads(p: Bytes, start: nat, off: nat, keys: seq<Bytes>): Outcome
    requires start + TX_V1_HDR <= |p|
  {
    var cfg := off + 4 * Bits(MaskAt(p, start));
    var n: nat := p[start + 40];
    if cfg > |p| then Incomplete(TruncatedCfg)
    else if cfg + 4 * n > |p| then Incomplete(TruncatedIxHdr)
    else if !ProgsIn(Heads(p, cfg, n), |keys|) then Invalid(ProgIdx)
    else ParseBodies(p, start, cfg + 4 * n, keys, Heads(p, cfg, n))
  }

  function ParseBodies(p: Bytes, start: nat, off: nat, keys: seq<Bytes>, heads: seq<Head>): Outcome
    requires start + TX_V1_HDR <= |p|
  {
    var nsig: nat := p[start + 1];
    if off - start + Pay(heads) + 64 * nsig > TX_V1_MAX then Invalid(Oversize)
    else if off + Pay(heads) > |p| then Incomplete(TruncatedPayload)
    else
      match Bodies(p, off, heads, |keys|)
      case Cut => Incomplete(TruncatedPayload)
      case BadAccount => Invalid(AccIdx)
      case Payload(ixs, end) =>
        if end + 64 * nsig > |p| then Incomplete(TruncatedSigs)
        else Framed(V1(nsig, MaskAt(p, start), keys, ixs), end + 64 * nsig)
  }

  // ---- streaming stability ----

  lemma {:induction false} KeysGrow(p: Bytes, more: Bytes, off: nat, n: nat)
    requires off + 32 * n <= |p|
    ensures Keys(p + more, off, n) == Keys(p, off, n)
    decreases n
  {
    if n == 0 {
    } else {
      assert (p + more)[off..off + 32] == p[off..off + 32];
      KeysGrow(p, more, off + 32, n - 1);
    }
  }

  lemma {:induction false} HeadsGrow(p: Bytes, more: Bytes, off: nat, n: nat)
    requires off + 4 * n <= |p|
    ensures Heads(p + more, off, n) == Heads(p, off, n)
    decreases n
  {
    if n == 0 {
    } else {
      HeadsGrow(p, more, off + 4, n - 1);
    }
  }

  lemma {:induction false} BodiesGrow(p: Bytes, more: Bytes, off: nat, heads: seq<Head>, naddr: nat)
    requires !Bodies(p, off, heads, naddr).Cut?
    ensures Bodies(p + more, off, heads, naddr) == Bodies(p, off, heads, naddr)
    decreases |heads|
  {
    if heads == [] {
    } else {
      hide AccountsIn;
      var h := heads[0];
      var mid, end := off + h.nacct, off + h.nacct + h.dlen;
      assert (p + more)[off..mid] == p[off..mid] && (p + more)[mid..end] == p[mid..end];
      if AccountsIn(p[off..mid], naddr) {
        BodiesGrow(p, more, end, heads[1..], naddr);
      }
    }
  }

  lemma BodiesStable(p: Bytes, more: Bytes, start: nat, off: nat, keys: seq<Bytes>, heads: seq<Head>)
    requires start + TX_V1_HDR <= |p| && !ParseBodies(p, start, off, keys, heads).Incomplete?
    ensures ParseBodies(p + more, start, off, keys, heads) == ParseBodies(p, start, off, keys, heads)
  {
    hide Bodies, Pay;
    if !Bodies(p, off, heads, |keys|).Cut? {
      BodiesGrow(p, more, off, heads, |keys|);
    }
  }

  lemma HeadsStable(p: Bytes, more: Bytes, start: nat, off: nat, keys: seq<Bytes>)
    requires start + TX_V1_HDR <= |p| && !ParseHeads(p, start, off, keys).Incomplete?
    ensures ParseHeads(p + more, start, off, keys) == ParseHeads(p, start, off, keys)
  {
    hide Heads, ParseBodies, ProgsIn, Bits;
    var cfg, n: nat := off + 4 * Bits(MaskAt(p, start)), p[start + 40];
    HeadsGrow(p, more, cfg, n);
    if ProgsIn(Heads(p, cfg, n), |keys|) {
      BodiesStable(p, more, start, cfg + 4 * n, keys, Heads(p, cfg, n));
    }
  }

  /** A framed or invalid verdict is not changed by appended bytes. */
  lemma Stable(p: Bytes, more: Bytes, start: nat)
    requires !ParseV1(p, start).Incomplete?
    ensures ParseV1(p + more, start) == ParseV1(p, start)
  {
    hide ParseHeads, Keys, Distinct, HeaderOk;
    if p[start] == TX_V1_PREFIX && HeaderFault(p, start).None? {
      var off, n: nat := start + TX_V1_HDR, p[start + 41];
      KeysGrow(p, more, off, n);
      if Distinct(Keys(p, off, n)) {
        HeadsStable(p, more, start, off + 32 * n, Keys(p, off, n));
      }
    }
  }

  /** Every proper prefix of a framed message is incomplete. */
  lemma PrefixIncomplete(p: Bytes, start: nat, n: nat)
    requires ParseV1(p, start).Framed? && n < ParseV1(p, start).end
    ensures n <= |p| && ParseV1(p[..n], start).Incomplete?
  {
    hide ParseV1;
    EndInside(p, start);
    if !ParseV1(p[..n], start).Incomplete? {
      assert p == p[..n] + p[n..];
      Stable(p[..n], p[n..], start);
      EndInside(p[..n], start);
    }
  }

  lemma EndInside(p: Bytes, start: nat)
    ensures ParseV1(p, start).Framed? ==> ParseV1(p, start).end <= |p|
  {
    hide Keys, Distinct, HeaderFault, Heads, ProgsIn, Pay, Bodies, Bits;
  }

  // ---- the cursor loops ----

  lemma {:induction false} DistinctCount(keys: seq<Bytes>)
    ensures |set k | k in keys| <= |keys|
    ensures |set k | k in keys| == |keys| <==> Distinct(keys)
    decreases |keys|
  {
    if keys == [] {
    } else {
      var n := |keys| - 1;
      var rest, last := keys[..n], keys[n];
      DistinctCount(rest);
      var s := set k | k in rest;
      assert (set k | k in keys) == s + {last};
      if last in rest {
        var i :| 0 <= i < n && rest[i] == last;
        assert keys[i] == keys[n];
        assert s + {last} == s;
      } else {
        assert |s + {last}| == |s| + 1;
      }
    }
  }

  method ReadKeys(p: Bytes, off: nat, n: nat) returns (keys: seq<Bytes>)
    requires off + 32 * n <= |p|
    ensures keys == Keys(p, off, n)
  {
    keys := [];
    for i := 0 to n
      invariant keys + Keys(p, off + 32 * i, n - i) == Keys(p, off, n)
    {
      var key := p[off + 32 * i..off + 32 * i + 32];
      assert Keys(p, off + 32 * i, n - i) == [key] + Keys(p, off + 32 * (i + 1), n - (i + 1));
      keys := keys + [key];
    }
  }

  lemma {:induction false} PayAppend(heads: seq<Head>, h: Head)
    ensures Pay(heads + [h]) == Pay(heads) + h.nacct + h.dlen
    decreases |heads|
  {
    if heads == [] {
    } else {
      assert (heads + [h])[1..] == heads[1..] + [h];
      PayAppend(heads[1..], h);
    }
  }

  /** Stops at the first instruction whose program is not in the key list. */
  method ReadHeads(p: Bytes, off: nat, n: nat, naddr: nat) returns (ok: bool, heads: seq<Head>, pay: nat)
    requires off + 4 * n <= |p|
    ensures ok <==> ProgsIn(Heads(p, off, n), naddr)
    ensures ok ==> heads == Heads(p, off, n) && pay == Pay(heads)
  {
    heads, pay := [], 0;
    for i := 0 to n
      invariant heads + Heads(p, off + 4 * i, n - i) == Heads(p, off, n)
      invariant pay == Pay(heads) && ProgsIn(heads, naddr)
    {
      var h := HeadAt(p, off + 4 * i);
      var rest := Heads(p, off + 4 * (i + 1), n - (i + 1));
      assert Heads(p, off + 4 * i, n - i) == [h] + rest;
      assert (heads + [h]) + rest == Heads(p, off, n);
      if h.prog >= naddr {
        assert (heads + [h])[|heads|] == h;
        assert h in Heads(p, off, n);
        return false, heads, pay;
      }
      PayAppend(heads, h);
      heads, pay := heads + [h], pay + h.nacct + h.dlen;
    }
    assert heads + [] == heads;
    return true, heads, pay;
  }

  function Before(ixs: seq<Ix>, b: Payload): Payload {
    match b
    case Payload(more, end) => Payload(ixs + more, end)
    case fault => fault
  }

  lemma BodyStep(p: Bytes, off: nat, heads: seq<Head>, naddr: nat, ixs: seq<Ix>)
    requires heads != []
    ensures var h := heads[0]; var mid := off + h.nacct; var end := mid + h.dlen;
            Before(ixs, Bodies(p, off, heads, naddr)) ==
            if end > |p| then Cut
            else if !AccountsIn(p[off..mid], naddr) then BadAccount
            else Before(ixs + [Ix(h.prog, p[off..mid], p[mid..end])], Bodies(p, end, heads[1..], naddr))
  {
    hide AccountsIn;
    var h := heads[0];
    var mid, end := off + h.nacct, off + h.nacct + h.dlen;
    if end <= |p| {
      var ix := Ix(h.prog, p[off..mid], p[mid..end]);
      var tail := Bodies(p, end, heads[1..], naddr);
      if tail.Payload? {
        assert ixs + ([ix] + tail.ixs) == (ixs + [ix]) + tail.ixs;
      }
    }
  }

  method ReadBodies(p: Bytes, off: nat, heads: seq<Head>, naddr: nat) returns (b: Payload)
    ensures b == Bodies(p, off, heads, naddr)
  {
    var ixs, cursor: nat := [], off;
    assert Before([], Bodies(p, off, heads, naddr)) == Bodies(p, off, heads, naddr) by {
      if Bodies(p, off, heads, naddr).Payload? {
        assert [] + Bodies(p, off, heads, naddr).ixs == Bodies(p, off, heads, naddr).ixs;
      }
    }
    for i := 0 to |heads|
      invariant Bodies(p, off, heads, naddr) == Before(ixs, Bodies(p, cursor, heads[i..], naddr))
    {
      hide Bodies, Before, AccountsIn;
      var h := heads[i];
      BodyStep(p, cursor, heads[i..], naddr, ixs);
      assert heads[i..][1..] == heads[i + 1..];
      var mid, end := cursor + h.nacct, cursor + h.nacct + h.dlen;
      if end > |p| {
        return Cut;
      }
      if !AccountsIn(p[cursor..mid], naddr) {
        return BadAccount;
      }
      ixs := ixs + [Ix(h.prog, p[cursor..mid], p[mid..end])];
      cursor := end;
    }
    assert ixs + [] == ixs;
    return Payload(ixs, cursor);
  }

  method ComputeParseV1(p: Bytes, start: nat) returns (r: Outcome)
    ensures r == ParseV1(p, start)
  {
    hide Keys, Heads, ProgsIn, Pay, Bodies, Bits, Distinct, HeaderOk, Le32;
    if start >= |p| {
      return Incomplete(TruncatedPrefix);
    }
    if p[start] != TX_V1_PREFIX {
      return Invalid(NotV1);
    }
    if start + TX_V1_HDR > |p| {
      return Incomplete(TruncatedHdr);
    }
    var nsig: nat, roSigned: nat, roUnsigned: nat := p[start + 1], p[start + 2], p[start + 3];
    var mask := Le32(p, start + 4);
    if mask >= 32 {
      return Invalid(UnknownMask);
    }
    if mask % 4 == 1 || mask % 4 == 2 {
      return Invalid(PartialPriorityFee);
    }
    var ninstr: nat, naddr: nat := p[start + 40], p[start + 41];
    if ninstr == 0 || ninstr > TX_INSTR_MAX {
      return Invalid(BadNinstr);
    }
    if !HeaderOk(nsig, roSigned, roUnsigned, naddr) {
      return Invalid(BadHeader);
    }
    var off: nat := start + TX_V1_HDR;
    if off + 32 * naddr > |p| {
      return Incomplete(TruncatedKeys);
    }
    var keys := ReadKeys(p, off, naddr);
    KeyCount(p, off, naddr);
    DistinctCount(keys);
    if |set k | k in keys| != naddr {
      return Invalid(DuplicateAddress);
    }
    off := off + 32 * naddr;
    var cfg := 4 * Bits(mask);
    if off + cfg > |p| {
      return Incomplete(TruncatedCfg);
    }
    off := off + cfg;
    if off + 4 * ninstr > |p| {
      return Incomplete(TruncatedIxHdr);
    }
    var ok, heads, pay := ReadHeads(p, off, ninstr, naddr);
    if !ok {
      return Invalid(ProgIdx);
    }
    off := off + 4 * ninstr;
    if off - start + pay + 64 * nsig > TX_V1_MAX {
      return Invalid(Oversize);
    }
    if off + pay > |p| {
      return Incomplete(TruncatedPayload);
    }
    var b := ReadBodies(p, off, heads, naddr);
    match b {
      case Cut => return Incomplete(TruncatedPayload);
      case BadAccount => return Invalid(AccIdx);
      case Payload(ixs, cursor) =>
        if cursor + 64 * nsig > |p| {
          return Incomplete(TruncatedSigs);
        }
        return Framed(V1(nsig, mask, keys, ixs), cursor + 64 * nsig);
    }
  }

  lemma {:induction false} KeyCount(p: Bytes, off: nat, n: nat)
    requires off + 32 * n <= |p|
    ensures |Keys(p, off, n)| == n
    decreases n
  {
    if n == 0 {
    } else {
      KeyCount(p, off + 32, n - 1);
    }
  }


  /** The config section holds four bytes for each of the five mask bits that are set. */
  lemma BitsAre(mask: nat)
    requires mask < 32
    ensures Bits(mask) == mask % 2 + mask / 2 % 2 + mask / 4 % 2 + mask / 8 % 2 + mask / 16 % 2
  {
    hide Bits;
    var a, b := mask / 2, mask / 4;
    var c, d := mask / 8, mask / 16;
    BitsStep(mask);
    BitsStep(a);
    BitsStep(b);
    BitsStep(c);
    BitsStep(d);
    BitsStep(0);
    assert a / 2 == b && b / 2 == c && c / 2 == d && d / 2 == 0;
  }

  lemma BitsStep(mask: nat)
    ensures Bits(mask) == if mask == 0 then 0 else mask % 2 + Bits(mask / 2)
  {
  }


  // ---- how many bytes decide ----

  lemma {:induction false} BodiesWithin(p: Bytes, off: nat, heads: seq<Head>, naddr: nat)
    requires off + Pay(heads) <= |p|
    ensures !Bodies(p, off, heads, naddr).Cut?
    ensures Bodies(p, off, heads, naddr).Payload? ==> Bodies(p, off, heads, naddr).end == off + Pay(heads)
    decreases |heads|
  {
    hide AccountsIn;
    if heads == [] {
    } else {
      BodiesWithin(p, off + heads[0].nacct + heads[0].dlen, heads[1..], naddr);
    }
  }

  lemma BodiesDecided(p: Bytes, start: nat, off: nat, keys: seq<Bytes>, heads: seq<Head>)
    requires start + 4096 <= |p| && start <= off
    ensures !ParseBodies(p, start, off, keys, heads).Incomplete?
  {
    hide Bodies, Pay;
    if off - start + Pay(heads) + 64 * p[start + 1] as int <= TX_V1_MAX {
      BodiesWithin(p, off, heads, |keys|);
    }
  }

  lemma HeadsDecided(p: Bytes, start: nat, off: nat, keys: seq<Bytes>)
    requires start + 4096 <= |p| && start <= off <= start + 2090 && MaskAt(p, start) < 32 && p[start + 40] <= 64
    ensures !ParseHeads(p, start, off, keys).Incomplete?
  {
    hide Bits, Heads, ParseBodies, ProgsIn, MaskAt;
    BitsAre(MaskAt(p, start));
    var cfg: nat, n: nat := off + 4 * Bits(MaskAt(p, start)), p[start + 40];
    BodiesDecided(p, start, cfg + 4 * n, keys, Heads(p, cfg, n));
  }

  /** With 4096 bytes from the start on, the verdict is never that bytes are missing. */
  lemma LongIsDecided(p: Bytes, start: nat)
    requires start + 4096 <= |p|
    ensures !ParseV1(p, start).Incomplete?
  {
    hide ParseHeads, Keys, Distinct, MaskAt;
    if p[start] == TX_V1_PREFIX && HeaderFault(p, start).None? {
      var off, n: nat := start + TX_V1_HDR, p[start + 41];
      HeadsDecided(p, start, off + 32 * n, Keys(p, off, n));
    }
  }
}
