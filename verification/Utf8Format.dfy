/** UTF-8 text: the encoding of a code point, and the byte sequences section 4 of RFC 3629 allows. */
module Utf8Format {
  import opened Bytes

  const U32 := 0x1_0000_0000

  // ---------- encoding ----------

  function Tail(x: nat): byte {
    (0x80 + x % 64) as byte
  }

  /** The bytes of one code point; none for a number beyond the last plane. */
  function Enc(ch: nat): seq<byte> {
    if ch < 0x80 then [ch as byte]
    else if ch < 0x800 then [(0xC0 + ch / 64) as byte, Tail(ch)]
    else if ch < 0x10000 then [(0xE0 + ch / 4096) as byte, Tail(ch / 64), Tail(ch)]
    else if ch < 0x110000 then [(0xF0 + ch / 262144) as byte, Tail(ch / 4096), Tail(ch / 64), Tail(ch)]
    else []
  }

  function EncAll(cps: seq<nat>): seq<byte> {
    if cps == [] then [] else Enc(cps[0]) + EncAll(cps[1..])
  }

  predicate CodePoints(cps: seq<nat>) {
    forall i :: 0 <= i < |cps| ==> cps[i] < 0x110000
  }

  predicate NoZero(cps: seq<nat>) {
    forall i :: 0 <= i < |cps| ==> cps[i] != 0
  }

  lemma {:induction false} EncSplit(a: seq<nat>, b: seq<nat>)
    ensures EncAll(a + b) == EncAll(a) + EncAll(b)
  {
    if a == [] {
      assert a + b == b;
    } else {
      assert (a + b)[0] == a[0] && (a + b)[1..] == a[1..] + b;
      EncSplit(a[1..], b);
      ConcatAssociates(Enc(a[0]), EncAll(a[1..]), EncAll(b));
    }
  }

  lemma EncOne(ch: nat)
    ensures EncAll([ch]) == Enc(ch)
  {
    assert [ch][1..] == [];
  }

  lemma EncSnoc(cps: seq<nat>, ch: nat)
    ensures EncAll(cps + [ch]) == EncAll(cps) + Enc(ch)
  {
    EncSplit(cps, [ch]);
    EncOne(ch);
  }

  // ---------- decoding one character ----------

  /** `trailingBytesForUTF8`. */
  function Trailing(b: byte): nat {
    if b < 0xC0 then 0
    else if b < 0xE0 then 1
    else if b < 0xF0 then 2
    else if b < 0xF8 then 3
    else if b < 0xFC then 4
    else 5
  }

  /** `offsetsFromUTF8`: what the marker bits of a lead byte and its tails add up to, modulo 2^32. */
  const OFFSETS: seq<nat> := [0, 0x3080, 0xE2080, 0x3C82080, 0xFA082080, 0x82082080]

  /** Shifting six bits a byte, in 32 bits. */
  function Folded(b: seq<byte>): nat {
    if b == [] then 0 else (Folded(b[..|b| - 1]) * 64 + b[|b| - 1] as nat) % U32
  }

  function Value(b: seq<byte>): nat
    requires 1 <= |b| <= 6
  {
    (Folded(b) - OFFSETS[|b| - 1]) % U32
  }

  /** `isutf`: not a continuation byte. */
  predicate IsUtf(b: byte) {
    b / 64 != 2
  }

  lemma Folded1(a: byte)
    ensures Folded([a]) == a as nat
  {
    assert [a][..0] == [];
  }

  lemma Folded2(a: byte, b: byte)
    ensures Folded([a, b]) == a as nat * 64 + b as nat
  {
    Folded1(a);
    assert [a, b][..1] == [a];
  }

  lemma Folded3(a: byte, b: byte, c: byte)
    ensures Folded([a, b, c]) == a as nat * 4096 + b as nat * 64 + c as nat
  {
    Folded2(a, b);
    assert [a, b, c][..2] == [a, b];
  }

  lemma Folded4(a: byte, b: byte, c: byte, d: byte)
    ensures Folded([a, b, c, d]) == a as nat * 262144 + b as nat * 4096 + c as nat * 64 + d as nat
  {
    Folded3(a, b, c);
    assert [a, b, c, d][..3] == [a, b, c];
  }

  /** The six-bit digits of a number. */
  lemma SixBitDigits(x: nat)
    ensures x / 64 / 64 == x / 4096 && x / 4096 / 64 == x / 262144
    ensures x == x / 64 * 64 + x % 64
    ensures x / 64 == x / 4096 * 64 + x / 64 % 64
    ensures x / 4096 == x / 262144 * 64 + x / 4096 % 64
  {
  }

  lemma FromSixBits(hi: nat, lo: nat)
    requires lo < 64
    ensures (hi * 64 + lo) / 64 == hi && (hi * 64 + lo) % 64 == lo
  {
  }

  lemma FoldedEnc(ch: nat)
    requires ch < 0x110000
    ensures 1 <= |Enc(ch)| <= 4 && Folded(Enc(ch)) == ch + OFFSETS[|Enc(ch)| - 1]
  {
    hide Folded;
    var b := Enc(ch);
    SixBitDigits(ch);
    if ch < 0x80 {
      Folded1(b[0]);
    } else if ch < 0x800 {
      Folded2(b[0], b[1]);
    } else if ch < 0x10000 {
      Folded3(b[0], b[1], b[2]);
    } else {
      Folded4(b[0], b[1], b[2], b[3]);
    }
  }

  /** The offsets undo the marker bits; the lead byte gives the length; only the lead byte is one. */
  lemma EncodedChar(ch: nat)
    requires ch < 0x110000
    ensures var b := Enc(ch); 1 <= |b| <= 4 && Value(b) == ch && Trailing(b[0]) == |b| - 1
    ensures IsUtf(Enc(ch)[0]) && forall j :: 1 <= j < |Enc(ch)| ==> !IsUtf(Enc(ch)[j])
    ensures ch != 0 ==> forall j :: 0 <= j < |Enc(ch)| ==> Enc(ch)[j] != 0
  {
    FoldedEnc(ch);
  }

  // ---------- well-formed text ----------

  /** Unicode scalar values: code points that are no surrogates. */
  predicate Scalar(ch: nat) {
    ch < 0x110000 && !(0xD800 <= ch < 0xE000)
  }

  predicate IsTail(b: byte) {
    0x80 <= b <= 0xBF
  }

  /** UTF8-char in the grammar of section 4 of RFC 3629. */
  predicate RfcChar(b: seq<byte>) {
    match |b|
    case 1 => b[0] <= 0x7F
    case 2 => 0xC2 <= b[0] <= 0xDF && IsTail(b[1])
    case 3 =>
      && IsTail(b[2])
      && ( || (b[0] == 0xE0 && 0xA0 <= b[1] <= 0xBF)
           || (0xE1 <= b[0] <= 0xEC && IsTail(b[1]))
           || (b[0] == 0xED && 0x80 <= b[1] <= 0x9F)
           || (0xEE <= b[0] <= 0xEF && IsTail(b[1])))
    case 4 =>
      && IsTail(b[2]) && IsTail(b[3])
      && ( || (b[0] == 0xF0 && 0x90 <= b[1] <= 0xBF)
           || (0xF1 <= b[0] <= 0xF3 && IsTail(b[1]))
           || (b[0] == 0xF4 && 0x80 <= b[1] <= 0x8F))
    case _ => false
  }

  /** UTF8-octets in that grammar: any number of such characters. */
  ghost predicate WellFormed(s: seq<byte>)
    decreases |s|
  {
    s == [] || exists n :: 0 < n <= |s| && RfcChar(s[..n]) && WellFormed(s[n..])
  }

  lemma EncIsRfcChar(ch: nat)
    requires Scalar(ch)
    ensures RfcChar(Enc(ch))
  {
    SixBitDigits(ch);
    if 0x800 <= ch < 0x10000 {
      assert Enc(ch)[0] == 0xED ==> ch / 64 < 0x360;
    }
  }

  lemma RfcChar1(a: byte)
    requires a <= 0x7F
    ensures Value([a]) == a as int && Enc(a as int) == [a]
  {
    Folded1(a);
  }

  lemma RfcChar2(a: byte, b: byte)
    requires 0xC2 <= a <= 0xDF && IsTail(b)
    ensures var v := (a as int - 0xC0) * 64 + (b as int - 0x80); Value([a, b]) == v && Enc(v) == [a, b]
  {
    hide Folded;
    Folded2(a, b);
    FromSixBits(a as int - 0xC0, b as int - 0x80);
  }

  lemma RfcChar3(a: byte, b: byte, c: byte)
    requires 0xE0 <= a <= 0xEF && IsTail(b) && IsTail(c) && (a == 0xE0 ==> 0xA0 <= b)
    ensures var v := ((a as int - 0xE0) * 64 + (b as int - 0x80)) * 64 +
        (c as int - 0x80); Value([a, b, c]) == v && Enc(v) == [a, b, c]
  {
    hide Folded;
    Folded3(a, b, c);
    var hi := (a as int - 0xE0) * 64 + (b as int - 0x80);
    FromSixBits(hi, c as int - 0x80);
    FromSixBits(a as int - 0xE0, b as int - 0x80);
    SixBitDigits(hi * 64 + (c as int - 0x80));
  }

  lemma RfcChar4(a: byte, b: byte, c: byte, d: byte)
    requires 0xF0 <= a <= 0xF4 && IsTail(b) && IsTail(c) && IsTail(d) && (a == 0xF0 ==> 0x90 <= b) &&
        (a == 0xF4 ==> b <= 0x8F)
    ensures var v := (((a as int - 0xF0) * 64 + (b as int - 0x80)) * 64 + (c as int - 0x80)) * 64 + (d as int - 0x80);
            Value([a, b, c, d]) == v && Enc(v) == [a, b, c, d]
  {
    hide Folded;
    Folded4(a, b, c, d);
    var top := (a as int - 0xF0) * 64 + (b as int - 0x80);
    var mid := top * 64 + (c as int - 0x80);
    FromSixBits(mid, d as int - 0x80);
    FromSixBits(top, c as int - 0x80);
    FromSixBits(a as int - 0xF0, b as int - 0x80);
    SixBitDigits(mid * 64 + (d as int - 0x80));
  }

  /** The grammar's characters are the encodings of scalar values, and decode to them. */
  lemma RfcCharIsEnc(b: seq<byte>)
    requires RfcChar(b)
    ensures |b| <= 6 && Scalar(Value(b)) && Enc(Value(b)) == b
  {
    hide Folded, Value, Enc;
    match |b|
    case 1 => assert b == [b[0]]; RfcChar1(b[0]);
    case 2 => assert b == [b[0], b[1]]; RfcChar2(b[0], b[1]);
    case 3 => assert b == [b[0], b[1], b[2]]; RfcChar3(b[0], b[1], b[2]);
    case _ => assert b == [b[0], b[1], b[2], b[3]]; RfcChar4(b[0], b[1], b[2], b[3]);
  }

  predicate Scalars(cps: seq<nat>) {
    forall i :: 0 <= i < |cps| ==> Scalar(cps[i])
  }

  lemma {:induction false} EncIsWellFormed(cps: seq<nat>)
    requires Scalars(cps)
    ensures WellFormed(EncAll(cps))
  {
    if cps != [] {
      var b, rest := Enc(cps[0]), EncAll(cps[1..]);
      EncIsRfcChar(cps[0]);
      EncIsWellFormed(cps[1..]);
      assert (b + rest)[..|b|] == b && (b + rest)[|b|..] == rest;
    }
  }

  /** The scalar values a well-formed text stands for. */
  lemma {:induction false} WellFormedIsEnc(s: seq<byte>) returns (cps: seq<nat>)
    requires WellFormed(s)
    ensures Scalars(cps) && EncAll(cps) == s
    decreases |s|
  {
    hide RfcChar, Value, Enc, Folded, Scalar;
    cps := [];
    if s != [] {
      var n :| 0 < n <= |s| && RfcChar(s[..n]) && WellFormed(s[n..]);
      RfcCharIsEnc(s[..n]);
      var rest := WellFormedIsEnc(s[n..]);
      cps := [Value(s[..n])] + rest;
      assert cps[1..] == rest && s == s[..n] + s[n..];
    }
  }

  ghost predicate EncodesScalars(s: seq<byte>) {
    exists cps :: Scalars(cps) && EncAll(cps) == s
  }

  /** Well-formed under the grammar means exactly: the encoding of some scalar values. */
  lemma WellFormedIff(s: seq<byte>)
    ensures WellFormed(s) <==> EncodesScalars(s)
  {
    if WellFormed(s) {
      var cps := WellFormedIsEnc(s);
    }
    if EncodesScalars(s) {
      var cps :| Scalars(cps) && EncAll(cps) == s;
      EncIsWellFormed(cps);
    }
  }

  // ---------- boundaries ----------

  /** Where the k-th character starts. */
  function Bound(cps: seq<nat>, k: nat): nat
    requires k <= |cps|
  {
    |EncAll(cps[..k])|
  }

  /** Around the k-th character: what is before it, itself, what is after it. */
  lemma CharAt(cps: seq<nat>, k: nat)
    requires k < |cps|
    ensures EncAll(cps) == EncAll(cps[..k]) + (Enc(cps[k]) + EncAll(cps[k + 1..]))
    ensures EncAll(cps[k..]) == Enc(cps[k]) + EncAll(cps[k + 1..])
    ensures Bound(cps, k + 1) == Bound(cps, k) + |Enc(cps[k])| <= |EncAll(cps)|
  {
    assert cps == cps[..k] + cps[k..] && cps[..k + 1] == cps[..k] + [cps[k]];
    assert cps[k..][0] == cps[k] && cps[k..][1..] == cps[k + 1..];
    EncSplit(cps[..k], cps[k..]);
    EncSnoc(cps[..k], cps[k]);
  }

  lemma LastBound(cps: seq<nat>)
    ensures Bound(cps, |cps|) == |EncAll(cps)| && Bound(cps, 0) == 0
  {
    assert cps[..|cps|] == cps && cps[..0] == [];
  }

  /** The bytes of a text at the k-th character. */
  lemma BytesAt(cps: seq<nat>, k: nat)
    requires k < |cps| && CodePoints(cps)
    ensures 0 < |Enc(cps[k])| && Bound(cps, k + 1) == Bound(cps, k) + |Enc(cps[k])| <= |EncAll(cps)|
    ensures EncAll(cps)[Bound(cps, k)..Bound(cps, k + 1)] == Enc(cps[k])
    ensures forall j :: 0 <= j < |Enc(cps[k])| ==> EncAll(cps)[Bound(cps, k) + j] == Enc(cps[k])[j]
  {
    hide Enc, EncAll, Value;
    CharAt(cps, k);
    EncodedChar(cps[k]);
    MiddleOf(EncAll(cps[..k]), Enc(cps[k]), EncAll(cps[k + 1..]));
  }

  lemma MiddleOf(a: seq<byte>, b: seq<byte>, c: seq<byte>)
    ensures (a + (b + c))[|a|..|a| + |b|] == b
    ensures forall j :: 0 <= j < |b| ==> (a + (b + c))[|a| + j] == b[j]
  {
  }

  lemma BoundsGrow(cps: seq<nat>, k: nat, n: nat)
    requires k <= n <= |cps| && CodePoints(cps)
    ensures Bound(cps, k) + (n - k) <= Bound(cps, n) <= |EncAll(cps)|
    decreases n - k
  {
    if k < n {
      BytesAt(cps, k);
      BoundsGrow(cps, k + 1, n);
    } else if n < |cps| {
      CharAt(cps, n);
    } else {
      LastBound(cps);
    }
  }
}
