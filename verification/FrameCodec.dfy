/** The serializer that the version 1 framer undoes: a message is framed exactly when its bytes are
    those of a well-formed message. */
module FrameCodec {
  import opened Rounding
  import opened Wire
  import opened FrameV1

  /** A version 1 transaction with every byte of it, also those the parser skips. */
  datatype Message = Message(nsig: Byte, roSigned: Byte, roUnsigned: Byte, mask: nat, lifetime: Bytes,
                             keys: seq<Bytes>, config: Bytes, ixs: seq<Ix>, sigs: Bytes)

  function View(m: Message): Parsed { V1(m.nsig, m.mask, m.keys, m.ixs) }

  predicate Fits(ix: Ix, naddr: nat) {
    && ix.prog < naddr && |ix.acc| < 256 && |ix.data| < 65536
    && forall i :: 0 <= i < |ix.acc| ==> ix.acc[i] < naddr
  }

  predicate AllFit(ixs: seq<Ix>, naddr: nat) { ixs == [] || (Fits(ixs[0], naddr) && AllFit(ixs[1..], naddr)) }

  predicate Whole(keys: seq<Bytes>) { keys == [] || (|keys[0]| == 32 && Whole(keys[1..])) }

  ghost predicate WellFormed(m: Message) {
    && m.mask < 32 && m.mask % 4 != 1 && m.mask % 4 != 2
    && |m.lifetime| == 32
    && 1 <= |m.ixs| <= 64
    && 1 <= m.nsig <= 12 && m.roSigned < m.nsig
    && m.nsig as int <= |m.keys| <= 64 && m.nsig as int + m.roUnsigned as int <= |m.keys|
    && Whole(m.keys) && (forall i, j :: 0 <= i < j < |m.keys| ==> m.keys[i] != m.keys[j])
    && |m.config| == 4 * (m.mask % 2 + m.mask / 2 % 2 + m.mask / 4 % 2 + m.mask / 8 % 2 + m.mask / 16 % 2)
    && AllFit(m.ixs, |m.keys|)
    && |m.sigs| == 64 * m.nsig as int
    && |Serialize(m)| <= 4096
  }

  /** The same rules in the parser's terms. */
  ghost predicate Rules(m: Message) {
    && m.mask < 32 && m.mask % 4 != 1 && m.mask % 4 != 2
    && |m.lifetime| == 32
    && 1 <= |m.ixs| <= TX_INSTR_MAX
    && HeaderOk(m.nsig, m.roSigned, m.roUnsigned, |m.keys|)
    && Whole(m.keys) && Distinct(m.keys)
    && |m.config| == 4 * Bits(m.mask)
    && AllFit(m.ixs, |m.keys|)
    && |m.sigs| == 64 * m.nsig as int
    && |Serialize(m)| <= TX_V1_MAX
  }

  lemma RulesAgree(m: Message)
    ensures WellFormed(m) <==> Rules(m)
  {
    if m.mask < 32 {
      BitsAre(m.mask);
    }
    hide Bits, Whole, AllFit, Serialize;
  }

  lemma FitsIs(ix: Ix, naddr: nat)
    ensures Fits(ix, naddr) <==>
            ix.prog < naddr && |ix.acc| < 256 && |ix.data| < 65536 && AccountsIn(ix.acc, naddr)
  {
    assert forall i :: 0 <= i < |ix.acc| ==> ix.acc[i] in ix.acc;
  }

  function HeadOf(ix: Ix): Head { Head(ix.prog, |ix.acc|, |ix.data|) }

  function HeadsOf(ixs: seq<Ix>): seq<Head> { if ixs == [] then [] else [HeadOf(ixs[0])] + HeadsOf(ixs[1..]) }

  function Flat(keys: seq<Bytes>): Bytes { if keys == [] then [] else keys[0] + Flat(keys[1..]) }

  function HeadBytes(ix: Ix): Bytes { [ix.prog, |ix.acc| % 256, |ix.data| % 256, |ix.data| / 256 % 256] }

  function AllHeadBytes(ixs: seq<Ix>): Bytes {
    if ixs == [] then [] else HeadBytes(ixs[0]) + AllHeadBytes(ixs[1..])
  }

  function BodyBytes(ixs: seq<Ix>): Bytes { if ixs == [] then [] else ixs[0].acc + ixs[0].data + BodyBytes(ixs[1..]) }

  function Header(m: Message): Bytes {
    [0x81, m.nsig, m.roSigned, m.roUnsigned, m.mask % 256, 0, 0, 0] + m.lifetime
    + [|m.ixs| % 256, |m.keys| % 256]
  }

  function Serialize(m: Message): Bytes {
    Header(m) + (Flat(m.keys) + (m.config + (AllHeadBytes(m.ixs) + (BodyBytes(m.ixs) + m.sigs))))
  }

  // ---- section by section ----

  lemma {:induction false} KeysMatch(p: Bytes, off: nat, keys: seq<Bytes>)
    requires Whole(keys)
    ensures |Flat(keys)| == 32 * |keys|
    ensures off + 32 * |keys| <= |p| ==> (Keys(p, off, |keys|) == keys <==> Holds(p, off, Flat(keys)))
    decreases |keys|
  {
    if keys == [] {
    } else {
      KeysMatch(p, off + 32, keys[1..]);
      HoldsConcat(p, off, keys[0], Flat(keys[1..]));
      hide Holds, Whole, Flat;
      if off + 32 * |keys| <= |p| {
        var got := Keys(p, off, |keys|);
        assert got == [p[off..off + 32]] + Keys(p, off + 32, |keys| - 1);
        assert got[1..] == Keys(p, off + 32, |keys| - 1);
      }
    }
  }

  lemma {:induction false} KeysWhole(p: Bytes, off: nat, n: nat)
    requires off + 32 * n <= |p|
    ensures |Keys(p, off, n)| == n && Whole(Keys(p, off, n))
    decreases n
  {
    if n == 0 {
    } else {
      KeysWhole(p, off + 32, n - 1);
      assert Keys(p, off, n)[1..] == Keys(p, off + 32, n - 1);
    }
  }

  lemma HeadMatch(p: Bytes, off: nat, ix: Ix)
    requires |ix.acc| < 256 && |ix.data| < 65536 && off + 4 <= |p|
    ensures HeadAt(p, off) == HeadOf(ix) <==> Holds(p, off, HeadBytes(ix))
  {
    var w := p[off..off + 4];
    assert w[0] == p[off] && w[1] == p[off + 1] && w[2] == p[off + 2] && w[3] == p[off + 3];
    assert w == [p[off], p[off + 1], p[off + 2], p[off + 3]];
  }

  lemma {:induction false} HeadsMatch(p: Bytes, off: nat, ixs: seq<Ix>, naddr: nat)
    requires AllFit(ixs, naddr)
    ensures |AllHeadBytes(ixs)| == 4 * |ixs|
    ensures off + 4 * |ixs| <= |p| ==> (Heads(p, off, |ixs|) == HeadsOf(ixs) <==> Holds(p, off, AllHeadBytes(ixs)))
    decreases |ixs|
  {
    hide Holds, HeadAt, HeadOf, HeadBytes;
    if ixs == [] {
      NothingHolds(p, off);
    } else {
      HeadsMatch(p, off + 4, ixs[1..], naddr);
      HeadBytesLength(ixs[0]);
      HoldsConcat(p, off, HeadBytes(ixs[0]), AllHeadBytes(ixs[1..]));
      if off + 4 * |ixs| <= |p| {
        HeadMatch(p, off, ixs[0]);
        var got, want := Heads(p, off, |ixs|), HeadsOf(ixs);
        assert got[0] == HeadAt(p, off) && got[1..] == Heads(p, off + 4, |ixs| - 1);
        assert want[0] == HeadOf(ixs[0]) && want[1..] == HeadsOf(ixs[1..]);
        assert got == [got[0]] + got[1..] && want == [want[0]] + want[1..];
      }
    }
  }

  lemma HeadBytesLength(ix: Ix)
    ensures |HeadBytes(ix)| == 4
  {
  }

  lemma NothingHolds(p: Bytes, off: nat)
    ensures off <= |p| <==> Holds(p, off, [])
  {
  }

  lemma {:induction false} BodiesMatch(p: Bytes, off: nat, ixs: seq<Ix>, naddr: nat)
    requires AllFit(ixs, naddr)
    ensures |BodyBytes(ixs)| == Pay(HeadsOf(ixs)) && ProgsIn(HeadsOf(ixs), naddr)
    ensures Holds(p, off, BodyBytes(ixs)) ==>
              Bodies(p, off, HeadsOf(ixs), naddr) == Payload(ixs, off + Pay(HeadsOf(ixs)))
    decreases |ixs|
  {
    hide Holds, AccountsIn;
    if ixs == [] {
    } else {
      var ix, rest := ixs[0], ixs[1..];
      BodiesMatch(p, off + |ix.acc| + |ix.data|, rest, naddr);
      HeadsOfCons(ix, rest);
      assert ixs == [ix] + rest;
      hide HeadsOf, AllFit;
      HoldsConcat(p, off, ix.acc + ix.data, BodyBytes(rest));
      BodyMatch(p, off, ix, HeadsOf(rest), naddr);
    }
  }

  lemma HeadsOfCons(ix: Ix, rest: seq<Ix>)
    ensures HeadsOf([ix] + rest) == [HeadOf(ix)] + HeadsOf(rest)
  {
    assert ([ix] + rest)[1..] == rest;
  }

  /** One turn of the payload loop over a body that stands at off. */
  lemma BodyMatch(p: Bytes, off: nat, ix: Ix, heads: seq<Head>, naddr: nat)
    requires Fits(ix, naddr)
    ensures Pay([HeadOf(ix)] + heads) == |ix.acc| + |ix.data| + Pay(heads)
    ensures ProgsIn([HeadOf(ix)] + heads, naddr) <==> ProgsIn(heads, naddr)
    ensures Holds(p, off, ix.acc + ix.data) && Bodies(p, off + |ix.acc| + |ix.data|, heads, naddr).Payload? ==>
              var tail := Bodies(p, off + |ix.acc| + |ix.data|, heads, naddr);
              Bodies(p, off, [HeadOf(ix)] + heads, naddr) == Payload([ix] + tail.ixs, tail.end)
  {
    FitsIs(ix, naddr);
    var all := [HeadOf(ix)] + heads;
    assert all[1..] == heads;
    HoldsConcat(p, off, ix.acc, ix.data);
    hide AccountsIn;
  }

  function ReadIx(p: Bytes, off: nat, h: Head): Ix
    requires off + h.nacct + h.dlen <= |p|
  {
    Ix(h.prog, p[off..off + h.nacct], p[off + h.nacct..off + h.nacct + h.dlen])
  }

  /** One turn of the payload loop that went on to the end. */
  lemma BodyTurn(p: Bytes, off: nat, heads: seq<Head>, naddr: nat)
    requires heads != [] && Bodies(p, off, heads, naddr).Payload? && ProgsIn(heads, naddr) && Small(heads)
    ensures var h := heads[0]; var end := off + h.nacct + h.dlen;
            && end <= |p| && HeadOf(ReadIx(p, off, h)) == h && Fits(ReadIx(p, off, h), naddr)
            && Bodies(p, end, heads[1..], naddr).Payload? && ProgsIn(heads[1..], naddr) && Small(heads[1..])
            && var tail := Bodies(p, end, heads[1..], naddr);
               Bodies(p, off, heads, naddr) == Payload([ReadIx(p, off, h)] + tail.ixs, tail.end)
  {
    FitsIs(ReadIx(p, off, heads[0]), naddr);
    hide AccountsIn, Fits;
    assert heads[0] in heads;
    assert forall h :: h in heads[1..] ==> h in heads;
  }

  lemma NoBodies(p: Bytes, off: nat, naddr: nat)
    ensures Bodies(p, off, [], naddr) == Payload([], off)
  {
  }

  /** What the parser read from the payload serializes to the bytes it read. */
  lemma {:induction false} BodiesShape(p: Bytes, off: nat, heads: seq<Head>, naddr: nat)
    requires off <= |p| && Bodies(p, off, heads, naddr).Payload? && ProgsIn(heads, naddr) && Small(heads)
    ensures var b := Bodies(p, off, heads, naddr);
            AllFit(b.ixs, naddr) && HeadsOf(b.ixs) == heads && b.end == off + Pay(heads)
            && Holds(p, off, BodyBytes(b.ixs))
    decreases |heads|
  {
    hide Holds, Fits, ReadIx, ProgsIn, HeadOf, Bodies, Small;
    if heads == [] {
      NoBodies(p, off, naddr);
      NothingHolds(p, off);
    } else {
      BodyTurn(p, off, heads, naddr);
      var h, rest := heads[0], heads[1..];
      BodiesShape(p, off + h.nacct + h.dlen, rest, naddr);
      assert heads == [h] + rest;
      assert Pay(heads) == h.nacct + h.dlen + Pay(rest);
      hide HeadsOf, AllFit, BodyBytes, Pay;
      ShapeCons(p, off, h, Bodies(p, off + h.nacct + h.dlen, rest, naddr).ixs, naddr);
    }
  }

  lemma ShapeCons(p: Bytes, off: nat, h: Head, rest: seq<Ix>, naddr: nat)
    requires off + h.nacct + h.dlen <= |p| && HeadOf(ReadIx(p, off, h)) == h && Fits(ReadIx(p, off, h), naddr)
    requires AllFit(rest, naddr) && Holds(p, off + h.nacct + h.dlen, BodyBytes(rest))
    ensures var all := [ReadIx(p, off, h)] + rest;
            AllFit(all, naddr) && HeadsOf(all) == [h] + HeadsOf(rest) && Holds(p, off, BodyBytes(all))
  {
    hide Holds, Fits, HeadOf, HeadsOf, BodyBytes, AllFit, ReadIx;
    var ix := ReadIx(p, off, h);
    HeadsOfCons(ix, rest);
    FitsCons(ix, rest, naddr);
    Stands(p, off, h);
    HoldsConcat(p, off, ix.acc + ix.data, BodyBytes(rest));
  }

  lemma FitsCons(ix: Ix, rest: seq<Ix>, naddr: nat)
    ensures AllFit([ix] + rest, naddr) <==> Fits(ix, naddr) && AllFit(rest, naddr)
    ensures BodyBytes([ix] + rest) == ix.acc + ix.data + BodyBytes(rest)
  {
    hide Fits;
    assert ([ix] + rest)[1..] == rest;
  }

  lemma Stands(p: Bytes, off: nat, h: Head)
    requires off + h.nacct + h.dlen <= |p|
    ensures var ix := ReadIx(p, off, h); Holds(p, off, ix.acc + ix.data) && |ix.acc| + |ix.data| == h.nacct + h.dlen
  {
    var ix := ReadIx(p, off, h);
    HoldsConcat(p, off, ix.acc, ix.data);
  }

  predicate Small(heads: seq<Head>) {
    heads == [] || (heads[0].nacct < 256 && heads[0].dlen < 65536 && Small(heads[1..]))
  }

  lemma {:induction false} HeadsSmall(p: Bytes, off: nat, n: nat)
    requires off + 4 * n <= |p|
    ensures |Heads(p, off, n)| == n && Small(Heads(p, off, n))
    decreases n
  {
    if n == 0 {
    } else {
      HeadsSmall(p, off + 4, n - 1);
      assert Heads(p, off, n)[1..] == Heads(p, off + 4, n - 1);
    }
  }

  lemma HeaderMatch(p: Bytes, start: nat, m: Message)
    requires m.mask < 32 && |m.ixs| < 256 && |m.keys| < 256 && |m.lifetime| == 32 && start + TX_V1_HDR <= |p|
    ensures Holds(p, start, Header(m)) <==>
            && p[start] == TX_V1_PREFIX
            && p[start + 1] == m.nsig && p[start + 2] == m.roSigned && p[start + 3] == m.roUnsigned
            && MaskAt(p, start) == m.mask && p[start + 8..start + 40] == m.lifetime
            && p[start + 40] == |m.ixs| && p[start + 41] == |m.keys|
  {
    var front: Bytes, back: Bytes :=
      [TX_V1_PREFIX, m.nsig, m.roSigned, m.roUnsigned, m.mask, 0, 0, 0], [|m.ixs|, |m.keys|];
    assert Header(m) == front + m.lifetime + back;
    HoldsConcat(p, start, front + m.lifetime, back);
    HoldsConcat(p, start, front, m.lifetime);
    Eight(p, start, front);
    var w := p[start + 40..start + 42];
    assert w[0] == p[start + 40] && w[1] == p[start + 41];
    assert w == [p[start + 40], p[start + 41]];
  }

  lemma Eight(p: Bytes, off: nat, x: Bytes)
    requires |x| == 8 && off + 8 <= |p|
    ensures Holds(p, off, x) <==>
            && p[off] == x[0] && p[off + 1] == x[1] && p[off + 2] == x[2] && p[off + 3] == x[3]
            && p[off + 4] == x[4] && p[off + 5] == x[5] && p[off + 6] == x[6] && p[off + 7] == x[7]
  {
    var w := p[off..off + 8];
    assert w[0] == p[off] && w[1] == p[off + 1] && w[2] == p[off + 2] && w[3] == p[off + 3];
    assert w[4] == p[off + 4] && w[5] == p[off + 5] && w[6] == p[off + 6] && w[7] == p[off + 7];
  }

  // ---- the two directions ----

  function BodySize(m: Message): nat { Pay(HeadsOf(m.ixs)) }

  /** The sections of a message tile it: each begins where the one before it ends. */
  lemma Tiles(p: Bytes, start: nat, m: Message)
    requires |m.lifetime| == 32 && Whole(m.keys) && AllFit(m.ixs, |m.keys|)
    ensures var k := start + TX_V1_HDR; var c := k + 32 * |m.keys|; var h := c + |m.config|;
            var b := h + 4 * |m.ixs|; var s := b + BodySize(m);
            && |Serialize(m)| == s + |m.sigs| - start
            && (Holds(p, start, Serialize(m)) <==>
                && Holds(p, start, Header(m)) && Holds(p, k, Flat(m.keys)) && Holds(p, c, m.config)
                && Holds(p, h, AllHeadBytes(m.ixs)) && Holds(p, b, BodyBytes(m.ixs)) && Holds(p, s, m.sigs))
  {
    hide Flat, AllHeadBytes, BodyBytes, Holds, Pay, HeadsOf, Keys, Heads, Bodies, ProgsIn, Whole, AllFit;
    var k := start + TX_V1_HDR;
    var c := k + 32 * |m.keys|;
    var h := c + |m.config|;
    var b := h + 4 * |m.ixs|;
    assert |Header(m)| == TX_V1_HDR;
    hide Header;
    KeysMatch(p, k, m.keys);
    HeadsMatch(p, h, m.ixs, |m.keys|);
    BodiesMatch(p, b, m.ixs, |m.keys|);
    var w5 := BodyBytes(m.ixs) + m.sigs;
    var w4 := AllHeadBytes(m.ixs) + w5;
    var w3 := m.config + w4;
    var w2 := Flat(m.keys) + w3;
    HoldsConcat(p, start, Header(m), w2);
    HoldsConcat(p, k, Flat(m.keys), w3);
    HoldsConcat(p, c, m.config, w4);
    HoldsConcat(p, h, AllHeadBytes(m.ixs), w5);
    HoldsConcat(p, b, BodyBytes(m.ixs), m.sigs);
  }

  /** Parsing undoes serializing, wherever the message stands and whatever follows it. */
  lemma RoundTrip(p: Bytes, start: nat, m: Message)
    requires WellFormed(m) && Holds(p, start, Serialize(m))
    ensures ParseV1(p, start) == Framed(View(m), start + |Serialize(m)|)
  {
    hide Serialize, Header, Flat, AllHeadBytes, BodyBytes, Pay, HeadsOf, Keys, Heads, Bodies, Distinct, ProgsIn,
         HeaderOk, MaskAt, Bits, AllFit, Whole, WellFormed;
    RulesAgree(m);
    var k := start + TX_V1_HDR;
    var c := k + 32 * |m.keys|;
    var h := c + |m.config|;
    var b := h + 4 * |m.ixs|;
    Tiles(p, start, m);
    HeaderMatch(p, start, m);
    KeysMatch(p, k, m.keys);
    HeadsMatch(p, h, m.ixs, |m.keys|);
    BodiesMatch(p, b, m.ixs, |m.keys|);
    assert HeaderFault(p, start) == None;
    hide HeaderFault;
    assert ParseBodies(p, start, b, m.keys, HeadsOf(m.ixs)) == Framed(View(m), start + |Serialize(m)|);
    hide ParseBodies;
    assert ParseHeads(p, start, c, m.keys) == ParseBodies(p, start, b, m.keys, HeadsOf(m.ixs));
  }

  // ---- the converse ----

  /** A message v that ends at end, read section by section. */
  ghost predicate Sections(p: Bytes, start: nat, v: Parsed, end: nat) {
    && start + TX_V1_HDR <= |p| && v.V1? && p[start] == TX_V1_PREFIX && HeaderFault(p, start) == None
    && v.nsig == p[start + 1] && v.mask == MaskAt(p, start)
    && var k, n: nat := start + TX_V1_HDR, p[start + 41];
       && k + 32 * n <= |p| && v.keys == Keys(p, k, n) && Distinct(v.keys)
       && SectionsAfter(p, start, v, end, k + 32 * n)
  }

  ghost predicate SectionsAfter(p: Bytes, start: nat, v: Parsed, end: nat, c: nat)
    requires start + TX_V1_HDR <= |p| && v.V1?
  {
    var h, n: nat := c + 4 * Bits(v.mask), p[start + 40];
    var b := h + 4 * n;
    && b <= |p|
    && var heads := Heads(p, h, n);
       && ProgsIn(heads, |v.keys|) && b - start + Pay(heads) + 64 * v.nsig <= TX_V1_MAX
       && 64 * v.nsig <= end <= |p| && Bodies(p, b, heads, |v.keys|) == Payload(v.ixs, end - 64 * v.nsig)
  }

  lemma FramedShape(p: Bytes, start: nat)
    ensures ParseV1(p, start).Framed? ==> Sections(p, start, ParseV1(p, start).msg, ParseV1(p, start).end)
  {
    hide Keys, Distinct, Heads, ProgsIn, Pay, Bodies, Bits, HeaderFault, MaskAt;
  }

  /** The message that a framed verdict read, with the bytes the parser skipped. */
  ghost function Extract(p: Bytes, start: nat, v: Parsed, end: nat): Message
    requires Sections(p, start, v, end)
  {
    hide Keys, Heads, Pay, Bodies, Bits, HeaderFault;
    var c := start + TX_V1_HDR + 32 * p[start + 41] as int;
    var s := end - 64 * v.nsig;
    Message(p[start + 1], p[start + 2], p[start + 3], v.mask, p[start + 8..start + 40], v.keys,
            p[c..c + 4 * Bits(v.mask)], v.ixs, p[s..end])
  }

  /** The extracted message is well formed and stands where it was read. */
  lemma ExtractStands(p: Bytes, start: nat, v: Parsed, end: nat)
    requires Sections(p, start, v, end)
    ensures var m := Extract(p, start, v, end);
            WellFormed(m) && v == View(m) && Holds(p, start, Serialize(m)) && end == start + |Serialize(m)|
  {
    hide Bits, Serialize, Header, Flat, AllHeadBytes, BodyBytes, Pay, HeadsOf, Keys, Heads, Bodies, Distinct, ProgsIn,
         HeaderOk, MaskAt, AllFit, Whole, Small, WellFormed;
    var m := Extract(p, start, v, end);
    RulesAgree(m);
    var k := start + TX_V1_HDR;
    var n: nat := p[start + 41];
    var c := k + 32 * n;
    var h := c + |m.config|;
    var b := h + 4 * p[start + 40] as int;
    KeysWhole(p, k, n);
    HeadsSmall(p, h, p[start + 40]);
    BodiesShape(p, b, Heads(p, h, p[start + 40]), |m.keys|);
    HeadsOfLength(m.ixs);
    Tiles(p, start, m);
    HeaderMatch(p, start, m);
    KeysMatch(p, k, m.keys);
    HeadsMatch(p, h, m.ixs, |m.keys|);
  }

  /** Every framed verdict comes from the bytes of a well-formed message that stands there. */
  lemma FramedIsSerialized(p: Bytes, start: nat)
    requires ParseV1(p, start).Framed?
    ensures var f := ParseV1(p, start);
            Sections(p, start, f.msg, f.end)
            && var m := Extract(p, start, f.msg, f.end);
               WellFormed(m) && f.msg == View(m) && Holds(p, start, Serialize(m)) && f.end == start + |Serialize(m)|
  {
    hide ParseV1, Sections, Extract, WellFormed, Serialize, View, Holds;
    FramedShape(p, start);
    ExtractStands(p, start, ParseV1(p, start).msg, ParseV1(p, start).end);
  }

  lemma {:induction false} HeadsOfLength(ixs: seq<Ix>)
    ensures |HeadsOf(ixs)| == |ixs|
    decreases |ixs|
  {
    if ixs == [] {
    } else {
      HeadsOfLength(ixs[1..]);
    }
  }

  /** The framer accepts exactly the bytes of well-formed messages. */
  lemma FramedIff(p: Bytes, start: nat)
    ensures ParseV1(p, start).Framed? <==> exists m :: WellFormed(m) && Holds(p, start, Serialize(m))
  {
    hide ParseV1, WellFormed, Holds, Serialize;
    if ParseV1(p, start).Framed? {
      FramedIsSerialized(p, start);
    }
    if m :| WellFormed(m) && Holds(p, start, Serialize(m)) {
      RoundTrip(p, start, m);
    }
  }

  /** The bytes the parser skips, where a message stands. */
  lemma SkippedBytes(p: Bytes, start: nat, m: Message)
    requires WellFormed(m) && Holds(p, start, Serialize(m))
    ensures var c := start + TX_V1_HDR + 32 * |m.keys|; var end := start + |Serialize(m)|;
            && c + |m.config| <= |p| && start + TX_V1_HDR <= |p| && 0 <= end - |m.sigs| <= end <= |p|
            && p[start + 1] == m.nsig && p[start + 2] == m.roSigned && p[start + 3] == m.roUnsigned
            && p[start + 41] == |m.keys|
            && p[start + 8..start + 40] == m.lifetime && p[c..c + |m.config|] == m.config
            && p[end - |m.sigs|..end] == m.sigs
  {
    hide Serialize, Header, Flat, AllHeadBytes, BodyBytes, BodySize, Bits, Distinct, HeaderOk,
      MaskAt, AllFit, Whole, WellFormed;
    RulesAgree(m);
    Tiles(p, start, m);
    HeaderMatch(p, start, m);
  }

  /** A message that stands at a place is the one extracted there, so no bytes have two readings. */
  lemma ExtractUnique(p: Bytes, start: nat, m: Message)
    requires WellFormed(m) && Holds(p, start, Serialize(m))
    ensures Sections(p, start, View(m), start + |Serialize(m)|)
    ensures Extract(p, start, View(m), start + |Serialize(m)|) == m
  {
    hide ParseV1, Serialize, Holds, Bits, Distinct, HeaderOk, MaskAt, AllFit, Whole, WellFormed, SectionsAfter, Keys;
    RulesAgree(m);
    RoundTrip(p, start, m);
    FramedShape(p, start);
    SkippedBytes(p, start, m);
  }

  /** No framed message is longer than the maximum. */
  lemma SizeBound(p: Bytes, start: nat)
    requires ParseV1(p, start).Framed?
    ensures start < ParseV1(p, start).end <= |p| && ParseV1(p, start).end - start <= 4096
  {
    FramedIsSerialized(p, start);
    FramedShape(p, start);
    hide ParseV1, Extract, Serialize, SectionsAfter;
  }
}
