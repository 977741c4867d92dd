/** Base 58 text of byte strings: change of base that keeps leading zeros, and its inverse. */
module Base58 {
  import opened Rounding
  import opened Wire

  const ALPH: string := "123456789ABCDEFGH" + "JKLMNPQRSTUVWXYZ" + "abcdefghijkmnopqrstuvwxyz"

  // ---- positional numbers, most significant digit first ----

  type Base = b: int | 2 <= b witness 2

  predicate DigitsOf(ds: seq<nat>, base: Base) { forall i :: 0 <= i < |ds| ==> ds[i] < base }

  function Val(ds: seq<nat>, base: Base): nat {
    if ds == [] then 0 else Val(ds[..|ds| - 1], base) * base + ds[|ds| - 1]
  }

  /** The shortest numeral; empty for zero. */
  function Numeral(n: nat, base: Base): (ds: seq<nat>)
    ensures DigitsOf(ds, base) && (ds != [] ==> ds[0] != 0)
    ensures n > 0 ==> ds != []
  {
    if n == 0 then []
    else
      DivSmaller(n, base);
      Numeral(n / base, base) + [n % base]
  }

  lemma DivSmaller(n: nat, base: Base)
    requires n > 0
    ensures 0 <= n / base < n && n == n / base * base + n % base && 0 <= n % base < base
  {
    var q, r := n / base, n % base;
    assert n == q * base + r;
    assert q * base >= q * 2;
  }

  lemma {:induction false} ValOfNumeral(n: nat, base: Base)
    ensures Val(Numeral(n, base), base) == n
    decreases n
  {
    if n == 0 {
    } else {
      DivSmaller(n, base);
      ValOfNumeral(n / base, base);
      var ds := Numeral(n, base);
      assert ds[..|ds| - 1] == Numeral(n / base, base);
    }
  }

  function Zeros(k: nat): (z: seq<nat>)
    ensures |z| == k
  {
    seq(k, i => 0)
  }

  /** How many zeros a digit string begins with. */
  function Leading(ds: seq<nat>): (k: nat)
    ensures k <= |ds|
    ensures forall i :: 0 <= i < k ==> ds[i] == 0
    ensures k < |ds| ==> ds[k] != 0
  {
    if ds == [] || ds[0] != 0 then 0 else 1 + Leading(ds[1..])
  }

  lemma LeadingIs(ds: seq<nat>, k: nat)
    requires k <= |ds| && (forall i :: 0 <= i < k ==> ds[i] == 0) && (k < |ds| ==> ds[k] != 0)
    ensures Leading(ds) == k
  {
  }

  lemma {:induction false} ValSkipsZeros(k: nat, ds: seq<nat>, base: Base)
    ensures Val(Zeros(k) + ds, base) == Val(ds, base)
    decreases |ds|, k
  {
    var all := Zeros(k) + ds;
    if ds != [] {
      assert all[..|all| - 1] == Zeros(k) + ds[..|ds| - 1];
      ValSkipsZeros(k, ds[..|ds| - 1], base);
    } else if k > 0 {
      assert all[..|all| - 1] == Zeros(k - 1) + [];
      ValSkipsZeros(k - 1, [], base);
    } else {
      assert all == [];
    }
  }

  lemma {:induction false} ValPositive(ds: seq<nat>, base: Base)
    requires ds != [] && ds[0] != 0
    ensures Val(ds, base) > 0
    decreases |ds|
  {
    if |ds| == 1 {
    } else {
      ValPositive(ds[..|ds| - 1], base);
    }
  }

  /** A numeral without a leading zero is the shortest numeral of its value. */
  lemma {:induction false} NumeralOfVal(ds: seq<nat>, base: Base)
    requires DigitsOf(ds, base) && (ds != [] ==> ds[0] != 0)
    ensures Numeral(Val(ds, base), base) == ds
    decreases |ds|
  {
    if ds == [] {
    } else {
      var front, last := ds[..|ds| - 1], ds[|ds| - 1];
      ValPositive(ds, base);
      NumeralOfVal(front, base);
      DivUnique(Val(ds, base), base, Val(front, base), last);
      assert ds == front + [last];
    }
  }

  /** Any digit string is its leading zeros and the shortest numeral of its value. */
  lemma Split(ds: seq<nat>, base: Base)
    requires DigitsOf(ds, base)
    ensures ds == Zeros(Leading(ds)) + Numeral(Val(ds, base), base)
  {
    var k := Leading(ds);
    var tail := ds[k..];
    assert ds == Zeros(k) + tail;
    ValSkipsZeros(k, tail, base);
    NumeralOfVal(tail, base);
  }

  /** Change of base, leading zeros kept one for one. */
  function Rebase(ds: seq<nat>, from: Base, to: Base): (r: seq<nat>)
    ensures DigitsOf(r, to)
  {
    Zeros(Leading(ds)) + Numeral(Val(ds, from), to)
  }

  /** Changing the base and changing it back is the identity on every digit string. */
  lemma RebaseInverse(ds: seq<nat>, from: Base, to: Base)
    requires DigitsOf(ds, from)
    ensures Rebase(Rebase(ds, from, to), to, from) == ds
  {
    var k, n := Leading(ds), Val(ds, from);
    var t := Numeral(n, to);
    LeadingIs(Zeros(k) + t, k);
    ValSkipsZeros(k, t, to);
    ValOfNumeral(n, to);
    Split(ds, from);
  }

  // ---- the alphabet ----

  function Letter(d: nat): char
    requires d < 58
  {
    if d < 9 then '1' + d as char
    else if d < 17 then 'A' + (d - 9) as char
    else if d < 22 then 'J' + (d - 17) as char
    else if d < 33 then 'P' + (d - 22) as char
    else if d < 44 then 'a' + (d - 33) as char
    else 'm' + (d - 44) as char
  }

  function Index(c: char): Option<nat> {
    if '1' <= c <= '9' then Some((c - '1') as nat)
    else if 'A' <= c <= 'H' then Some((c - 'A') as nat + 9)
    else if 'J' <= c <= 'N' then Some((c - 'J') as nat + 17)
    else if 'P' <= c <= 'Z' then Some((c - 'P') as nat + 22)
    else if 'a' <= c <= 'k' then Some((c - 'a') as nat + 33)
    else if 'm' <= c <= 'z' then Some((c - 'm') as nat + 44)
    else None
  }

  lemma LetterIndex(c: char, d: nat)
    ensures Index(c) == Some(d) <==> d < 58 && Letter(d) == c
  {
  }

  /** The arithmetic letters are the alphabet, in order. */
  lemma AlphabetLetters(d: nat)
    requires d < 58
    ensures |ALPH| == 58 && ALPH[d] == Letter(d)
  {
  }

  // ---- the codec ----

  function Text(ds: seq<nat>): (s: string)
    requires DigitsOf(ds, 58)
    ensures |s| == |ds|
  {
    seq(|ds|, i requires 0 <= i < |ds| => Letter(ds[i]))
  }

  predicate IsText(s: string) { forall c :: c in s ==> Index(c).Some? }

  function Indexes(s: string): (ds: seq<nat>)
    requires IsText(s)
    ensures |ds| == |s|
  {
    seq(|s|, i requires 0 <= i < |s| => Index(s[i]).value)
  }

  function Encode(raw: Bytes): string { Text(Rebase(raw, 256, 58)) }

  function AsBytes(ds: seq<nat>): (b: Bytes)
    requires DigitsOf(ds, 256)
    ensures b == ds
  {
    if ds == [] then [] else [ds[0]] + AsBytes(ds[1..])
  }

  /** None stands for the error raised on a character outside the alphabet. */
  function Decode(s: string): Option<Bytes> {
    if !IsText(s) then None
    else
      IndexesAreDigits(s);
      Some(AsBytes(Rebase(Indexes(s), 58, 256)))
  }

  lemma IndexesAreDigits(s: string)
    requires IsText(s)
    ensures DigitsOf(Indexes(s), 58)
  {
    forall i | 0 <= i < |s| ensures Index(s[i]).value < 58 {
      LetterIndex(s[i], Index(s[i]).value);
    }
  }

  lemma IndexesOfText(ds: seq<nat>)
    requires DigitsOf(ds, 58)
    ensures IsText(Text(ds)) && Indexes(Text(ds)) == ds
  {
    hide Index, Letter;
    var s := Text(ds);
    forall i | 0 <= i < |ds| ensures Index(s[i]) == Some(ds[i]) {
      LetterIndex(s[i], ds[i]);
    }
    assert IsText(s);
  }

  lemma TextOfIndexes(s: string)
    requires IsText(s)
    ensures DigitsOf(Indexes(s), 58) && Text(Indexes(s)) == s
  {
    IndexesAreDigits(s);
    hide Index, Letter;
    forall i | 0 <= i < |s| ensures Letter(Indexes(s)[i]) == s[i] {
      LetterIndex(s[i], Index(s[i]).value);
    }
  }

  /** Decoding undoes encoding, on every byte string. */
  lemma DecodeEncode(raw: Bytes)
    ensures Decode(Encode(raw)) == Some(raw)
  {
    hide Rebase, Text, IsText;
    IndexesOfText(Rebase(raw, 256, 58));
    RebaseInverse(raw, 256, 58);
  }

  /** Encoding undoes decoding, on every string over the alphabet; other strings do not decode. */
  lemma EncodeDecode(s: string)
    ensures Decode(s).Some? <==> forall i :: 0 <= i < |s| ==> s[i] in ALPH
    ensures Decode(s).Some? ==> Encode(Decode(s).value) == s
  {
    AlphabetIff(s);
    hide Rebase, Text, IsText, ALPH;
    if IsText(s) {
      TextOfIndexes(s);
      RebaseInverse(Indexes(s), 58, 256);
    }
  }

  lemma AlphabetIff(s: string)
    ensures IsText(s) <==> forall i :: 0 <= i < |s| ==> s[i] in ALPH
  {
    hide Index, Letter, ALPH;
    forall i | 0 <= i < |s| ensures Index(s[i]).Some? <==> s[i] in ALPH {
      InAlphabet(s[i]);
    }
    assert forall i :: 0 <= i < |s| ==> s[i] in s;
  }

  lemma InAlphabet(c: char)
    ensures Index(c).Some? <==> c in ALPH
  {
    hide Index, Letter, ALPH;
    AlphabetLetters(0);
    if Index(c).Some? {
      LetterIndex(c, Index(c).value);
      AlphabetLetters(Index(c).value);
    }
    if c in ALPH {
      var d :| 0 <= d < |ALPH| && ALPH[d] == c;
      AlphabetLetters(d);
      LetterIndex(c, d);
    }
  }

  // ---- the loops ----

  lemma TextAppend(a: seq<nat>, d: nat)
    requires DigitsOf(a, 58) && d < 58
    ensures DigitsOf(a + [d], 58) && Text(a + [d]) == Text(a) + [Letter(d)]
  {
    hide Letter;
  }

  lemma TextConcat(a: seq<nat>, b: seq<nat>)
    requires DigitsOf(a, 58) && DigitsOf(b, 58)
    ensures DigitsOf(a + b, 58) && Text(a + b) == Text(a) + Text(b)
  {
    hide Letter;
  }

  lemma NumeralStep(n: nat, base: Base)
    requires n > 0
    ensures n / base < n && n % base < base && Numeral(n, base) == Numeral(n / base, base) + [n % base]
  {
    DivSmaller(n, base);
  }

  lemma Regroup(a: string, b: string, c: string)
    ensures (a + b) + c == a + (b + c)
  {
  }

  lemma EncodeStep(n: nat, out: string)
    requires n > 0
    ensures |ALPH| == 58 && n / 58 < n
    ensures Text(Numeral(n, 58)) + out == Text(Numeral(n / 58, 58)) + ([ALPH[n % 58]] + out)
  {
    hide Letter, Text, ALPH, Numeral;
    NumeralStep(n, 58);
    AlphabetLetters(n % 58);
    TextAppend(Numeral(n / 58, 58), n % 58);
    Regroup(Text(Numeral(n / 58, 58)), [ALPH[n % 58]], out);
  }

  method ComputeEncode(raw: Bytes) returns (s: string)
    ensures s == Encode(raw)
  {
    hide Letter, ALPH, Numeral;
    var n, out := Val(raw, 256), "";
    ghost var all := Numeral(n, 58);
    while n != 0
      invariant Text(Numeral(n, 58)) + out == Text(all)
      decreases n
    {
      hide Text;
      EncodeStep(n, out);
      out := [ALPH[n % 58]] + out;
      n := n / 58;
    }
    assert Text(all) == out by { NumeralNone(58); }
    var pad := CountLeading(raw);
    TextConcat(Zeros(pad), all);
    assert Text(Zeros(pad)) == seq(pad, i => '1') by { LetterIndex('1', 0); }
    s := seq(pad, i => '1') + out;
  }

  lemma NumeralNone(base: Base)
    ensures Numeral(0, base) == []
  {
  }

  method CountLeading(ds: seq<nat>) returns (pad: nat)
    ensures pad == Leading(ds)
  {
    pad := 0;
    while pad < |ds| && ds[pad] == 0
      invariant pad <= |ds| && forall i :: 0 <= i < pad ==> ds[i] == 0
    {
      pad := pad + 1;
    }
    LeadingIs(ds, pad);
  }

  method ComputeDecode(s: string) returns (r: Option<Bytes>)
    ensures r == Decode(s)
  {
    hide Index;
    var n := 0;
    for i := 0 to |s|
      invariant IsText(s[..i]) && n == Val(Indexes(s[..i]), 58)
    {
      var d := Index(s[i]);
      assert s[..i + 1] == s[..i] + [s[i]];
      if d.None? {
        assert s[i] in s;
        return None;
      }
      assert Indexes(s[..i + 1])[..i] == Indexes(s[..i]);
      n := n * 58 + d.value;
    }
    assert s[..|s|] == s;
    var pad := 0;
    while pad < |s| && s[pad] == '1'
      invariant pad <= |s| && forall i :: 0 <= i < pad ==> s[i] == '1'
    {
      pad := pad + 1;
    }
    OnesAreZeros(s);
    LeadingIs(Indexes(s), pad);
    IndexesAreDigits(s);
    r := Some(AsBytes(Zeros(pad) + Numeral(n, 256)));
  }

  lemma OnesAreZeros(s: string)
    requires IsText(s)
    ensures forall i :: 0 <= i < |s| ==> (s[i] == '1' <==> Indexes(s)[i] == 0)
  {
    forall i | 0 <= i < |s| ensures s[i] == '1' <==> Indexes(s)[i] == 0 {
      assert s[i] in s;
    }
  }


  // ---- in plain numbers ----

  function Power(base: nat, k: nat): nat { if k == 0 then 1 else base * Power(base, k - 1) }

  /** The value of a digit string is positional, most significant digit first. */
  lemma {:induction false} ValIsPositional(d: nat, rest: seq<nat>, base: Base)
    ensures Val([], base) == 0
    ensures Val([d] + rest, base) == d * Power(base, |rest|) + Val(rest, base)
    decreases |rest|
  {
    var all := [d] + rest;
    if rest == [] {
      assert all[..0] == [];
    } else {
      var n := |rest| - 1;
      ValIsPositional(d, rest[..n], base);
      assert all[..n + 1] == [d] + rest[..n];
      var v := Val(rest[..n], base);
      assert Power(base, n + 1) == base * Power(base, n);
      Distributes(d, Power(base, n), v, base);
    }
  }

  lemma Distributes(d: nat, p: nat, v: nat, base: nat)
    ensures (d * p + v) * base == d * (base * p) + v * base
  {
  }

  /** Text and bytes stand for the same number, and begin with as many ones as zero bytes. */
  lemma EncodeIs(raw: Bytes)
    ensures var s := Encode(raw);
            && IsText(s) && Val(Indexes(s), 58) == Val(raw, 256)
            && Leading(Indexes(s)) == Leading(raw)
  {
    var k, n := Leading(raw), Val(raw, 256);
    var t := Numeral(n, 58);
    IndexesOfText(Rebase(raw, 256, 58));
    LeadingIs(Zeros(k) + t, k);
    ValSkipsZeros(k, t, 58);
    ValOfNumeral(n, 58);
  }
}
