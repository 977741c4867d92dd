/** What both transaction framers share: compact integers, the header rule and the verdict. */
module Wire {
  type Byte = b: int | 0 <= b < 256
  type Bytes = seq<Byte>

  const TX_SIG_MAX: int := 12
  const TX_KEY_MAX: int := 64
  const TX_INSTR_MAX: int := 64
  const TX_V1_PREFIX: int := 0x81

  datatype Ix = Ix(prog: Byte, acc: Bytes, data: Bytes)

  datatype Parsed =
    | V1(nsig: nat, mask: nat, keys: seq<Bytes>, ixs: seq<Ix>)
    | Old(versioned: bool, nsig: nat, keys: seq<Bytes>, ixs: seq<Ix>)

  datatype Why =
    | TruncatedPrefix | TruncatedHdr | TruncatedKeys | TruncatedCfg | TruncatedIxHdr | TruncatedPayload | TruncatedSigs
    | TruncatedNsig | TruncatedNkeys | TruncatedIx | IxAcc | TruncatedAcc | IxData | TruncatedData
    | Lut | TruncatedAlt | AltIdx | TruncatedAltIdx
    | NotV1 | UnknownMask | PartialPriorityFee | BadNinstr | BadHeader | DuplicateAddress | ProgIdx | Oversize | AccIdx
    | BadNsig | NsigRange | BadVersion | HdrNsig | BadNkeys | BadIx | TooManyLuts

  datatype Outcome = Framed(msg: Parsed, end: nat) | Incomplete(why: Why) | Invalid(why: Why)

  predicate HeaderOk(nsig: nat, roSigned: nat, roUnsigned: nat, nkeys: nat) {
    1 <= nsig <= TX_SIG_MAX && roSigned < nsig && nsig <= nkeys <= TX_KEY_MAX && nsig + roUnsigned <= nkeys
  }

  /** The bytes x stand in p at off. */
  predicate Holds(p: Bytes, off: nat, x: Bytes) { off + |x| <= |p| && p[off..off + |x|] == x }

  lemma HoldsConcat(p: Bytes, off: nat, x: Bytes, y: Bytes)
    ensures Holds(p, off, x + y) <==> Holds(p, off, x) && Holds(p, off + |x|, y)
  {
    var n, m := |x|, |y|;
    if off + n + m <= |p| {
      var s := p[off..off + n + m];
      assert s[..n] == p[off..off + n] && s[n..] == p[off + n..off + n + m];
      assert s == s[..n] + s[n..];
      assert (x + y)[..n] == x && (x + y)[n..] == y;
    }
  }

  // ---- compact integers ----

  datatype Compact = Short | Bad | Value(n: nat, next: nat)

  /** A compact u16: seven bits a byte, low bits first, the high bit set on every byte but the last.
      The source composes the parts with a bitwise or of disjoint bits, which is their sum. */
  function Cu16(b: Bytes, off: nat): Compact {
    if off >= |b| then Short
    else
      var b0: int := b[off];
      if b0 < 128 then Value(b0, off + 1)
      else if off + 1 >= |b| then Short
      else
        var b1: int := b[off + 1];
        if b1 < 128 then if b1 == 0 then Bad else Value(b0 - 128 + 128 * b1, off + 2)
        else if off + 2 >= |b| then Short
        else
          var b2: int := b[off + 2];
          if b2 >= 4 || b2 == 0 then Bad else Value(b0 - 128 + 128 * (b1 - 128) + 16384 * b2, off + 3)
  }

  /** The shortest compact encoding. */
  function Encode16(n: nat): (e: Bytes)
    requires n < 65536
    ensures 1 <= |e| <= 3
  {
    if n < 128 then [n]
    else if n < 16384 then [n % 128 + 128, n / 128]
    else [n % 128 + 128, n / 128 % 128 + 128, n / 16384]
  }

  lemma Cu16Undoes(b: Bytes, off: nat, n: nat)
    requires n < 65536 && Holds(b, off, Encode16(n))
    ensures Cu16(b, off) == Value(n, off + |Encode16(n)|)
  {
    var e := Encode16(n);
    var w := b[off..off + |e|];
    assert w[0] == b[off];
    assert |e| > 1 ==> w[1] == b[off + 1];
    assert |e| > 2 ==> w[2] == b[off + 2];
  }

  lemma Cu16Shortest(b: Bytes, off: nat)
    requires Cu16(b, off).Value?
    ensures var v := Cu16(b, off);
            v.n < 65536 && off < v.next <= |b| && b[off..v.next] == Encode16(v.n)
  {
  }

  /** The decoder accepts exactly the shortest encodings of 16-bit numbers, and undoes them. */
  lemma Cu16Canonical(b: Bytes, off: nat, n: nat, next: nat)
    ensures Cu16(b, off) == Value(n, next) <==> n < 65536 && Holds(b, off, Encode16(n)) && next == off + |Encode16(n)|
  {
    hide Cu16, Encode16;
    if n < 65536 && Holds(b, off, Encode16(n)) {
      Cu16Undoes(b, off, n);
    }
    if Cu16(b, off) == Value(n, next) {
      Cu16Shortest(b, off);
    }
  }

  /** A verdict on a compact integer is not changed by appended bytes. */
  lemma Cu16Stable(b: Bytes, more: Bytes, off: nat)
    requires !Cu16(b, off).Short?
    ensures Cu16(b + more, off) == Cu16(b, off)
    ensures Cu16(b, off).Value? ==> off < Cu16(b, off).next <= |b|
  {
  }


  /** Low bits first, seven a byte. */
  lemma Encode16Is(n: nat)
    requires n < 65536
    ensures var e := Encode16(n);
            && (forall i :: 0 <= i < |e| - 1 ==> e[i] >= 128) && e[|e| - 1] < 128
            && (|e| == 1 ==> e[0] == n)
            && (|e| == 2 ==> e[1] > 0 && n == e[0] - 128 + 128 * e[1] as int)
            && (|e| == 3 ==> e[2] > 0 && n == e[0] - 128 + 128 * (e[1] - 128) as int + 16_384 * e[2] as int)
  {
  }
}
