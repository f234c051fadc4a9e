/** Escape sequences: printing a text in ASCII, and reading it back. */
module Utf8Escape {
  import opened Bytes
  import opened Utf8Format

  const BACKSLASH: byte := '\\' as byte
  const QUOTE: byte := '"' as byte

  // ---------- digits ----------

  predicate IsOctal(b: byte) {
    '0' as byte <= b <= '7' as byte
  }

  predicate IsHex(b: byte) {
    || '0' as byte <= b <= '9' as byte
    || 'A' as byte <= b <= 'F' as byte
    || 'a' as byte <= b <= 'f' as byte
  }

  predicate IsDigit(b: byte, base: nat) {
    if base == 8 then IsOctal(b) else IsHex(b)
  }

  function DigitValue(b: byte): nat {
    if b < 'A' as byte then (if b < '0' as byte then 0 else (b - '0' as byte) as nat)
    else if b < 'a' as byte then (b - 'A' as byte) as nat + 10
    else (b - 'a' as byte) as nat + 10
  }

  function HexDigit(n: nat): byte
    requires n < 16
  {
    if n < 10 then '0' as byte + n as byte else 'A' as byte + (n - 10) as byte
  }

  /** `n` in `k` upper-case digits. */
  function Hex(n: nat, k: nat): seq<byte> {
    if k == 0 then [] else Hex(n / 16, k - 1) + [HexDigit(n % 16)]
  }

  /** What `strtol` makes of digits. */
  function Number(d: seq<byte>, base: nat): nat {
    if d == [] then 0 else Number(d[..|d| - 1], base) * base + DigitValue(d[|d| - 1])
  }

  /** How many digits lead `s`, counting no further than `most`. */
  function Run(s: seq<byte>, base: nat, most: nat): (n: nat)
    ensures n <= |s| && n <= most
  {
    if most == 0 || s == [] || !IsDigit(s[0], base) then 0 else 1 + Run(s[1..], base, most - 1)
  }

  lemma {:induction false} HexIsHex(n: nat, k: nat)
    ensures |Hex(n, k)| == k && forall i :: 0 <= i < k ==> IsHex(Hex(n, k)[i])
  {
    if k > 0 {
      HexIsHex(n / 16, k - 1);
    }
  }

  function Pow16(k: nat): nat {
    if k == 0 then 1 else 16 * Pow16(k - 1)
  }

  lemma {:induction false} NumberOfHex(n: nat, k: nat)
    requires n < Pow16(k)
    ensures Number(Hex(n, k), 16) == n
  {
    if k > 0 {
      NumberOfHex(n / 16, k - 1);
      var d := Hex(n, k);
      assert d[..|d| - 1] == Hex(n / 16, k - 1);
    }
  }

  /** A run of digits ends where the digits do, or when it is as long as it may be. */
  lemma {:induction false} RunOf(d: seq<byte>, rest: seq<byte>, base: nat, most: nat)
    requires |d| <= most && forall i :: 0 <= i < |d| ==> IsDigit(d[i], base)
    requires |d| < most && rest != [] ==> !IsDigit(rest[0], base)
    ensures Run(d + rest, base, most) == |d| && (d + rest)[..|d|] == d
  {
    hide IsDigit;
    if d == [] {
      assert d + rest == rest;
    } else {
      assert (d + rest)[1..] == d[1..] + rest;
      RunOf(d[1..], rest, base, most - 1);
    }
  }

  // ---------- reading ----------

  /** `\x`, `\u`, `\U`: up to `most` hex digits; without any, the letter itself. */
  function HexEscape(s: seq<byte>, most: nat): (r: (nat, nat))
    requires s != []
    ensures 1 <= r.1 <= |s|
  {
    var n := Run(s[1..], 16, most);
    if n == 0 then (s[0] as nat, 1) else (Number(s[1..1 + n], 16), 1 + n)
  }

  /** A plain `char` turned into 32 bits: bytes from 0x80 on are negative. */
  function SignExtended(b: byte): nat {
    if b < 0x80 then b as nat else U32 - 0x100 + b as nat
  }

  /** The character after a backslash, and how many bytes say it. */
  function ReadEscape(s: seq<byte>): (r: (nat, nat))
    requires s != []
    ensures 1 <= r.1 <= |s|
  {
    var c := s[0];
    if c == 'n' as byte then (10, 1)
    else if c == 't' as byte then (9, 1)
    else if c == 'r' as byte then (13, 1)
    else if c == 'b' as byte then (8, 1)
    else if c == 'f' as byte then (12, 1)
    else if c == 'v' as byte then (11, 1)
    else if c == 'a' as byte then (7, 1)
    else if IsOctal(c) then
      var n := Run(s, 8, 3);
      (Number(s[..n], 8), n)
    else if c == 'x' as byte then HexEscape(s, 2)
    else if c == 'u' as byte then HexEscape(s, 4)
    else if c == 'U' as byte then HexEscape(s, 8)
    else (SignExtended(c), 1)
  }

  /** The characters of an escaped text. */
  function UnescapeChars(s: seq<byte>): seq<nat> {
    if s == [] then []
    else if s[0] != BACKSLASH then [SignExtended(s[0])] + UnescapeChars(s[1..])
    else if |s| == 1 then []
    else
      var r := ReadEscape(s[1..]);
      [r.0] + UnescapeChars(s[1 + r.1..])
  }

  /** No backslash is left without anything after it. */
  predicate NoneDangling(s: seq<byte>) {
    if s == [] then true
    else if s[0] != BACKSLASH then NoneDangling(s[1..])
    else |s| > 1 && NoneDangling(s[1 + ReadEscape(s[1..]).1..])
  }

  // ---------- printing ----------

  function EscapeChar(ch: nat): seq<byte> {
    if ch == 10 then [BACKSLASH, 'n' as byte]
    else if ch == 9 then [BACKSLASH, 't' as byte]
    else if ch == 13 then [BACKSLASH, 'r' as byte]
    else if ch == 8 then [BACKSLASH, 'b' as byte]
    else if ch == 12 then [BACKSLASH, 'f' as byte]
    else if ch == 11 then [BACKSLASH, 'v' as byte]
    else if ch == 7 then [BACKSLASH, 'a' as byte]
    else if ch == BACKSLASH as nat then [BACKSLASH, BACKSLASH]
    else if ch < 32 || ch == 0x7F then [BACKSLASH, 'x' as byte] + Hex(ch, if ch < 16 then 1 else 2)
    else if ch > 0xFFFF then [BACKSLASH, 'U' as byte] + Hex(ch, 8)
    else if ch >= 0x80 then [BACKSLASH, 'u' as byte] + Hex(ch, 4)
    else [ch as byte]
  }

  function EscapeOne(ch: nat, quotes: bool): seq<byte> {
    if quotes && ch == QUOTE as nat then [BACKSLASH, QUOTE] else EscapeChar(ch)
  }

  function EscapeAll(cps: seq<nat>, quotes: bool): seq<byte> {
    if cps == [] then [] else EscapeOne(cps[0], quotes) + EscapeAll(cps[1..], quotes)
  }

  // ---------- what reading makes of printing ----------

  /** Printed as `\x` with a single digit. */
  predicate Short(ch: nat) {
    1 <= ch <= 6 || 14 <= ch <= 15
  }

  predicate IsHexChar(ch: nat) {
    ch < 0x80 && IsHex(ch as byte)
  }

  /** The single digit and the character after it read as one two-digit number. */
  predicate Merges(cps: seq<nat>) {
    |cps| >= 2 && Short(cps[0]) && IsHexChar(cps[1])
  }

  function Merged(cps: seq<nat>): seq<nat> {
    if cps == [] then []
    else if Merges(cps) then [cps[0] * 16 + DigitValue(cps[1] as byte)] + Merged(cps[2..])
    else [cps[0]] + Merged(cps[1..])
  }

  lemma AfterBackslash(s: seq<byte>)
    requires |s| > 1 && s[0] == BACKSLASH
    ensures UnescapeChars(s) == [ReadEscape(s[1..]).0] + UnescapeChars(s[1 + ReadEscape(s[1..]).1..])
    ensures NoneDangling(s) <==> NoneDangling(s[1 + ReadEscape(s[1..]).1..])
  {
    hide ReadEscape;
  }

  lemma BackslashStep(t: seq<byte>)
    requires t != []
    ensures UnescapeChars([BACKSLASH] + t) == [ReadEscape(t).0] + UnescapeChars(t[ReadEscape(t).1..])
    ensures NoneDangling([BACKSLASH] + t) <==> NoneDangling(t[ReadEscape(t).1..])
  {
    hide ReadEscape, UnescapeChars, NoneDangling;
    var s := [BACKSLASH] + t;
    AfterBackslash(s);
    assert s[1..] == t;
    var amt := ReadEscape(t).1;
    assert s[1 + amt..] == t[amt..];
  }

  lemma BackslashLetter(c: byte, rest: seq<byte>)
    requires c !in [0x78, 0x75, 0x55] && !IsOctal(c)
    ensures UnescapeChars([BACKSLASH, c] + rest) == [ReadEscape([c]).0] + UnescapeChars(rest)
    ensures NoneDangling([BACKSLASH, c] + rest) <==> NoneDangling(rest)
  {
    var s := [BACKSLASH, c] + rest;
    assert s[1..] == [c] + rest && s[1 + 1..] == rest;
  }

  function MostDigits(letter: byte): nat {
    if letter == 'x' as byte then 2 else if letter == 'u' as byte then 4 else 8
  }

  lemma AfterLetter(letter: byte, d: seq<byte>, rest: seq<byte>)
    ensures var t := [letter] + (d + rest); t[1..] == d + rest && t[1..1 + |d|] == d
  {
  }

  lemma ReadsDigits(letter: byte, d: seq<byte>, rest: seq<byte>)
    requires 1 <= |d| <= MostDigits(letter) && forall i :: 0 <= i < |d| ==> IsHex(d[i])
    requires |d| < MostDigits(letter) && rest != [] ==> !IsHex(rest[0])
    ensures HexEscape([letter] + (d + rest), MostDigits(letter)) == (Number(d, 16), 1 + |d|)
  {
    hide Number, Run, MostDigits, IsHex;
    var t, most := [letter] + (d + rest), MostDigits(letter);
    RunOf(d, rest, 16, most);
    AfterLetter(letter, d, rest);
    assert Run(t[1..], 16, most) == |d|;
  }

  lemma BackslashLetterIs(letter: byte, d: seq<byte>, rest: seq<byte>)
    requires letter in ['x' as byte, 'u' as byte, 'U' as byte]
    ensures ReadEscape([letter] + (d + rest)) == HexEscape([letter] + (d + rest), MostDigits(letter))
  {
    hide HexEscape, Run, Number;
  }

  /** A hex escape whose digits end: nothing of what follows is read with it. */
  lemma BackslashDigits(letter: byte, d: seq<byte>, rest: seq<byte>)
    requires letter in ['x' as byte, 'u' as byte, 'U' as byte]
    requires 1 <= |d| <= MostDigits(letter) && forall i :: 0 <= i < |d| ==> IsHex(d[i])
    requires |d| < MostDigits(letter) && rest != [] ==> !IsHex(rest[0])
    ensures UnescapeChars([BACKSLASH, letter] + d + rest) == [Number(d, 16)] + UnescapeChars(rest)
    ensures NoneDangling([BACKSLASH, letter] + d + rest) <==> NoneDangling(rest)
  {
    hide Number, Run, HexEscape, ReadEscape, IsHex, MostDigits, UnescapeChars, NoneDangling;
    var s, t := [BACKSLASH, letter] + d + rest, [letter] + (d + rest);
    ReadsDigits(letter, d, rest);
    BackslashLetterIs(letter, d, rest);
    assert s == [BACKSLASH] + t && t[1 + |d|..] == rest;
    BackslashStep(t);
  }

  lemma BackslashHex(letter: byte, n: nat, k: nat, rest: seq<byte>)
    requires letter in ['x' as byte, 'u' as byte, 'U' as byte]
    requires 1 <= k <= MostDigits(letter) && n < Pow16(k) && (k < MostDigits(letter) && rest != [] ==> !IsHex(rest[0]))
    ensures UnescapeChars([BACKSLASH, letter] + Hex(n, k) + rest) == [n] + UnescapeChars(rest)
    ensures NoneDangling([BACKSLASH, letter] + Hex(n, k) + rest) <==> NoneDangling(rest)
  {
    hide Hex, Number, UnescapeChars, NoneDangling, Pow16, MostDigits, IsHex;
    HexIsHex(n, k);
    NumberOfHex(n, k);
    BackslashDigits(letter, Hex(n, k), rest);
  }

  lemma PlainByte(b: byte, rest: seq<byte>)
    requires b < 0x80 && b != BACKSLASH
    ensures UnescapeChars([b] + rest) == [b as nat] + UnescapeChars(rest)
    ensures NoneDangling([b] + rest) <==> NoneDangling(rest)
  {
    assert ([b] + rest)[1..] == rest;
  }

  /** Reading one printed character, when a single digit is not followed by another. */
  lemma ReadsOne(ch: nat, quotes: bool, rest: seq<byte>)
    requires 0 < ch < 0x110000 && (Short(ch) && rest != [] ==> !IsHex(rest[0]))
    ensures UnescapeChars(EscapeOne(ch, quotes) + rest) == [ch] + UnescapeChars(rest)
    ensures NoneDangling(EscapeOne(ch, quotes) + rest) <==> NoneDangling(rest)
  {
    hide UnescapeChars, NoneDangling, Hex, IsHex;
    PowersOf16();
    if quotes && ch == QUOTE as nat {
      BackslashLetter(QUOTE, rest);
    } else if 7 <= ch <= 13 || ch == BACKSLASH as nat {
      BackslashLetter(EscapeChar(ch)[1], rest);
    } else if ch < 32 || ch == 0x7F {
      BackslashHex('x' as byte, ch, if ch < 16 then 1 else 2, rest);
    } else if ch > 0xFFFF {
      BackslashHex('U' as byte, ch, 8, rest);
    } else if ch >= 0x80 {
      BackslashHex('u' as byte, ch, 4, rest);
    } else {
      PlainByte(ch as byte, rest);
    }
  }

  lemma PowersOf16()
    ensures Pow16(1) == 16 && Pow16(2) == 0x100 && Pow16(4) == 0x1_0000 && Pow16(8) == U32
  {
    assert Pow16(3) == 0x1000 && Pow16(5) == 0x10_0000 && Pow16(6) == 0x100_0000 && Pow16(7) == 0x1000_0000;
  }

  /** A printed character starts with a hex digit only if it is one. */
  lemma FirstByte(ch: nat, quotes: bool, rest: seq<byte>)
    requires 0 < ch < 0x110000
    ensures EscapeOne(ch, quotes) != []
    ensures IsHex((EscapeOne(ch, quotes) + rest)[0]) <==> IsHexChar(ch)
    ensures IsHexChar(ch) ==> EscapeOne(ch, quotes) == [ch as byte]
  {
  }

  /** Reading a single digit together with the hex digit after it. */
  lemma ReadsTwo(a: nat, b: nat, quotes: bool, rest: seq<byte>)
    requires Short(a) && 0 < b && IsHexChar(b)
    ensures UnescapeChars(EscapeOne(a, quotes) + (EscapeOne(b, quotes) + rest))
         == [a * 16 + DigitValue(b as byte)] + UnescapeChars(rest)
    ensures NoneDangling(EscapeOne(a, quotes) + (EscapeOne(b, quotes) + rest)) <==> NoneDangling(rest)
  {
    hide UnescapeChars, NoneDangling, Number, Hex, IsHex, DigitValue;
    FirstByte(b, quotes, rest);
    HexIsHex(a, 1);
    PowersOf16();
    NumberOfHex(a, 1);
    var h := Hex(a, 1)[0];
    var d := [h, b as byte];
    assert Hex(a, 1) == [h];
    assert EscapeOne(a, quotes) + (EscapeOne(b, quotes) + rest) == [BACKSLASH, 'x' as byte] + d + rest;
    NumberOfTwo(h, b as byte);
    BackslashDigits('x' as byte, d, rest);
  }

  lemma NumberOfTwo(h: byte, b: byte)
    ensures Number([h, b], 16) == Number([h], 16) * 16 + DigitValue(b)
  {
    assert [h, b][..1] == [h];
  }

  predicate Printable(cps: seq<nat>) {
    forall i :: 0 <= i < |cps| ==> 0 < cps[i] < 0x110000
  }

  /** Whatever was printed reads back with such pairs merged, and otherwise unchanged. */
  lemma {:induction false} ReadsMerged(cps: seq<nat>, quotes: bool)
    requires Printable(cps)
    ensures UnescapeChars(EscapeAll(cps, quotes)) == Merged(cps)
    ensures NoneDangling(EscapeAll(cps, quotes))
  {
    hide UnescapeChars, NoneDangling, EscapeOne, IsHex, DigitValue, Short;
    if cps == [] {
      NothingToRead();
    } else if Merges(cps) {
      var rest := cps[2..];
      assert cps[1..][0] == cps[1] && cps[1..][1..] == rest;
      ReadsMerged(rest, quotes);
      ReadsTwo(cps[0], cps[1], quotes, EscapeAll(rest, quotes));
    } else {
      var rest := cps[1..];
      ReadsMerged(rest, quotes);
      if rest != [] {
        FirstByte(rest[0], quotes, EscapeAll(rest[1..], quotes));
      }
      ReadsOne(cps[0], quotes, EscapeAll(rest, quotes));
    }
  }

  lemma NothingToRead()
    ensures UnescapeChars([]) == [] && NoneDangling([])
  {
  }

  // ---------- when the text itself comes back ----------

  /** A control byte printed with a single digit, directly before a hex digit. */
  predicate PairAt(s: seq<byte>, i: nat) {
    i + 1 < |s| && Short(s[i] as nat) && IsHex(s[i + 1])
  }

  predicate NoPairs(s: seq<byte>) {
    forall i :: 0 <= i < |s| ==> !PairAt(s, i)
  }

  /** The bytes of a character: itself when it is ASCII, none in that range otherwise. */
  lemma AsciiOrNot(ch: nat)
    requires ch < 0x110000
    ensures if ch < 0x80 then Enc(ch) == [ch as byte]
            else |Enc(ch)| > 1 && forall j :: 0 <= j < |Enc(ch)| ==> Enc(ch)[j] >= 0x80
  {
  }

  /** The first character is part of no pair. */
  lemma NoPairInFirst(cps: seq<nat>, i: nat)
    requires cps != [] && Printable(cps) && !Merges(cps) && i < |Enc(cps[0])|
    ensures !PairAt(EncAll(cps), i)
  {
    hide Short, IsHex, Enc;
    var b, r := Enc(cps[0]), EncAll(cps[1..]);
    AsciiOrNot(cps[0]);
    NotShort();
    assert EncAll(cps) == b + r;
    if cps[0] >= 0x80 {
      assert EncAll(cps)[i] == b[i];
    } else if |cps| > 1 {
      AsciiOrNot(cps[1]);
      assert r == Enc(cps[1]) + EncAll(cps[1..][1..]);
      assert EncAll(cps)[1] == r[0] == Enc(cps[1])[0];
    } else {
      assert r == [];
    }
  }

  lemma NotShort()
    ensures (forall b: byte :: b >= 0x80 ==> !IsHex(b)) && (forall n: nat :: n >= 0x80 ==> !Short(n))
  {
  }

  lemma PairsInRest(cps: seq<nat>)
    requires cps != [] && Printable(cps) && !Merges(cps)
    ensures NoPairs(EncAll(cps)) <==> NoPairs(EncAll(cps[1..]))
  {
    hide Short, IsHex, Merges;
    var b, r, s := Enc(cps[0]), EncAll(cps[1..]), EncAll(cps);
    assert s == b + r;
    forall i | 0 <= i < |r| ensures PairAt(s, |b| + i) <==> PairAt(r, i) {
      assert s[|b| + i] == r[i] && (i + 1 < |r| ==> s[|b| + i + 1] == r[i + 1]);
    }
    if NoPairs(s) {
      forall i | 0 <= i < |r| ensures !PairAt(r, i) {
        assert !PairAt(s, |b| + i);
      }
    }
    if NoPairs(r) {
      forall i | 0 <= i < |s| ensures !PairAt(s, i) {
        if i < |b| {
          NoPairInFirst(cps, i);
        } else {
          assert !PairAt(r, i - |b|);
        }
      }
    }
  }

  /** Two digits are more than one: the merged character differs from the first byte of the pair. */
  lemma MergeShows(cps: seq<nat>)
    requires Printable(cps) && Merges(cps)
    ensures PairAt(EncAll(cps), 0) && EncAll(Merged(cps)) != EncAll(cps)
  {
    AsciiOrNot(cps[0]);
    AsciiOrNot(cps[1]);
    assert EncAll(cps) == [cps[0] as byte] + ([cps[1] as byte] + EncAll(cps[1..][1..]));
    var v := cps[0] * 16 + DigitValue(cps[1] as byte);
    assert 16 <= v < 0x100;
    AsciiOrNot(v);
    assert Merged(cps)[0] == v && EncAll(Merged(cps))[0] == Enc(v)[0];
  }

  /** The printed text reads back as itself iff no such pair occurs in it. */
  lemma {:induction false} SameIffNoPairs(cps: seq<nat>)
    requires Printable(cps)
    ensures EncAll(Merged(cps)) == EncAll(cps) <==> NoPairs(EncAll(cps))
  {
    hide Enc, PairAt, Merges;
    if cps != [] {
      if Merges(cps) {
        MergeShows(cps);
        assert !NoPairs(EncAll(cps));
      } else {
        var rest := cps[1..];
        SameIffNoPairs(rest);
        PairsInRest(cps);
        assert Merged(cps)[1..] == Merged(rest);
        SameTail(Enc(cps[0]), EncAll(Merged(rest)), EncAll(rest));
      }
    }
  }

  lemma SameTail(b: seq<byte>, x: seq<byte>, y: seq<byte>)
    ensures b + x == b + y <==> x == y
  {
    if b + x == b + y {
      assert x == (b + x)[|b|..] == (b + y)[|b|..] == y;
    }
  }

  // ---------- sizes ----------

  lemma {:induction false} EscapeIsShort(cps: seq<nat>, quotes: bool)
    requires Printable(cps)
    ensures |EscapeAll(cps, quotes)| <= 4 * |EncAll(cps)|
  {
    hide Hex;
    if cps != [] {
      var ch := cps[0];
      HexIsHex(ch, if ch < 16 then 1 else 2);
      HexIsHex(ch, 4);
      HexIsHex(ch, 8);
      EscapeIsShort(cps[1..], quotes);
    }
  }

  lemma {:induction false} MergedIsShort(cps: seq<nat>)
    requires Printable(cps)
    ensures |EncAll(Merged(cps))| <= |EncAll(cps)| && CodePoints(Merged(cps))
  {
    hide IsHex, Short;
    if cps != [] {
      if Merges(cps) {
        var rest := cps[2..];
        assert cps[1..][1..] == rest && Merged(cps)[1..] == Merged(rest);
        MergedIsShort(rest);
        DigitIsSmall(cps[0], cps[1]);
      } else {
        MergedIsShort(cps[1..]);
        assert Merged(cps)[1..] == Merged(cps[1..]);
      }
    }
  }

  lemma DigitIsSmall(a: nat, b: nat)
    requires Short(a) && IsHexChar(b)
    ensures a * 16 + DigitValue(b as byte) < 0x100 && |Enc(a * 16 + DigitValue(b as byte))| <= 2
  {
  }

  // ---------- text that was not escaped ----------

  /** A byte from 0x80 on is read as a number no encoding exists for. */
  function AsciiOnly(s: seq<byte>): seq<byte> {
    if s == [] then [] else (if s[0] < 0x80 then [s[0]] else []) + AsciiOnly(s[1..])
  }

  lemma {:induction false} AsciiOnlyIsAll(s: seq<byte>)
    ensures |AsciiOnly(s)| <= |s| && (AsciiOnly(s) == s <==> forall i :: 0 <= i < |s| ==> s[i] < 0x80)
  {
    if s != [] {
      AsciiOnlyIsAll(s[1..]);
      assert s == [s[0]] + s[1..];
      assert s[0] < 0x80 ==> AsciiOnly(s)[1..] == AsciiOnly(s[1..]);
      forall i | 0 <= i < |s| - 1 ensures s[1..][i] == s[i + 1] {
      }
    }
  }

  /** Reading a text without backslashes keeps its ASCII and loses every other byte. */
  lemma {:induction false} PlainTextKeepsAscii(s: seq<byte>)
    requires BACKSLASH !in s
    ensures EncAll(UnescapeChars(s)) == AsciiOnly(s) && NoneDangling(s)
  {
    hide ReadEscape;
    if s != [] {
      PlainTextKeepsAscii(s[1..]);
      assert UnescapeChars(s)[1..] == UnescapeChars(s[1..]);
    }
  }

  predicate IsAscii(s: seq<byte>) {
    forall i :: 0 <= i < |s| ==> s[i] < 0x80
  }

  /** So it gives the text back iff the text is ASCII. */
  lemma PlainTextSurvivesIffAscii(s: seq<byte>)
    requires BACKSLASH !in s
    ensures EncAll(UnescapeChars(s)) == s <==> IsAscii(s)
    ensures |EncAll(UnescapeChars(s))| <= |s|
  {
    PlainTextKeepsAscii(s);
    AsciiOnlyIsAll(s);
  }

  /** The two bytes of U+00E9 come back as nothing. */
  lemma LosesAccent()
    ensures var s: seq<byte> := [0xC3, 0xA9]; WellFormed(s) && BACKSLASH !in s && EncAll(UnescapeChars(s)) == []
  {
    var s: seq<byte> := [0xC3, 0xA9];
    assert s[..2] == s && s[2..] == [];
    assert RfcChar(s[..2]) && WellFormed(s[2..]);
    PlainTextKeepsAscii(s);
    assert s[1..] == [0xA9] && s[1..][1..] == [];
  }
}
