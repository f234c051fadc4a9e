/**
  What escapes look like, in literal bytes (92 is the backslash, 34 the quote mark): every form that is read, and
  everything that is printed.
 */
module Utf8EscapeForms {
  import opened Bytes
  import opened Utf8Format
  import opened Utf8Escape

  // ---------- numerals ----------

  /** What a digit is worth, in either case; -1 for any other byte. */
  function Worth(b: byte): int {
    if 48 <= b <= 57 then b as int - 48
    else if 65 <= b <= 70 then b as int - 55
    else if 97 <= b <= 102 then b as int - 87
    else -1
  }

  /** The last digit is the remainder, the digits before it are those of the quotient. */
  predicate Numeral(d: seq<byte>, n: nat, base: nat)
    requires base == 8 || base == 16
  {
    if d == [] then n == 0
    else Worth(d[|d| - 1]) == n % base && Numeral(d[..|d| - 1], n / base, base)
  }

  predicate UpperCase(d: seq<byte>) {
    forall i :: 0 <= i < |d| ==> d[i] <= 70
  }

  lemma DigitsAreWorth(b: byte)
    ensures (IsOctal(b) <==> 0 <= Worth(b) < 8) && (IsHex(b) <==> 0 <= Worth(b) < 16)
    ensures IsHex(b) ==> DigitValue(b) == Worth(b)
  {
  }

  /** What `strtol` makes of a numeral is the number. */
  lemma {:induction false} NumeralIsNumber(d: seq<byte>, n: nat, base: nat)
    requires (base == 8 || base == 16) && Numeral(d, n, base)
    ensures Number(d, base) == n && forall i :: 0 <= i < |d| ==> IsDigit(d[i], base)
  {
    hide IsHex, IsOctal, Worth, DigitValue;
    if d != [] {
      NumeralIsNumber(d[..|d| - 1], n / base, base);
      DigitsAreWorth(d[|d| - 1]);
      forall i | 0 <= i < |d| ensures IsDigit(d[i], base) {
        assert i < |d| - 1 ==> d[i] == d[..|d| - 1][i];
      }
    }
  }

  /** Every run of digits is the numeral of some number. */
  lemma {:induction false} DigitsAreNumeral(d: seq<byte>, base: nat)
    requires (base == 8 || base == 16) && forall i :: 0 <= i < |d| ==> IsDigit(d[i], base)
    ensures Numeral(d, Number(d, base), base)
  {
    hide IsHex, IsOctal, Worth, DigitValue;
    if d != [] {
      DigitsAreNumeral(d[..|d| - 1], base);
      DigitsAreWorth(d[|d| - 1]);
    }
  }

  lemma {:induction false} HexIsNumeral(n: nat, k: nat)
    requires n < Pow16(k)
    ensures |Hex(n, k)| == k && Numeral(Hex(n, k), n, 16) && UpperCase(Hex(n, k))
  {
    if k > 0 {
      HexIsNumeral(n / 16, k - 1);
      var d := Hex(n, k);
      assert d[..|d| - 1] == Hex(n / 16, k - 1);
      assert UpperCase(d[..|d| - 1]);
    }
  }

  // ---------- every form that is read ----------

  /** The first character of `s` is `n`, and `rest` is left. */
  predicate Reads(s: seq<byte>, n: nat, rest: seq<byte>) {
    UnescapeChars(s) == [n] + UnescapeChars(rest) && (NoneDangling(s) <==> NoneDangling(rest))
  }

  /** The character a byte stands for by itself: bytes from 0x80 on are negative. */
  function Itself(b: byte): nat {
    if b < 0x80 then b as nat else 0xFFFF_FF00 + b as nat
  }

  lemma ReadsPlainByte(b: byte, rest: seq<byte>)
    requires b != 92
    ensures Reads([b] + rest, Itself(b), rest)
  {
    assert ([b] + rest)[1..] == rest;
  }

  /** `\n`, `\t`, `\r`, `\b`, `\f`, `\v`, `\a`. */
  lemma ReadsLetter(rest: seq<byte>)
    ensures Reads([92, 110] + rest, 10, rest) && Reads([92, 116] + rest, 9, rest) && Reads([92, 114] + rest, 13, rest)
    ensures Reads([92, 98] + rest, 8, rest) && Reads([92, 102] + rest, 12, rest) && Reads([92, 118] + rest, 11, rest)
    ensures Reads([92, 97] + rest, 7, rest)
  {
    hide UnescapeChars, NoneDangling, IsOctal;
    OctalDigits();
    BackslashLetter(110, rest);
    BackslashLetter(116, rest);
    BackslashLetter(114, rest);
    BackslashLetter(98, rest);
    BackslashLetter(102, rest);
    BackslashLetter(118, rest);
    BackslashLetter(97, rest);
  }

  lemma OctalDigits()
    ensures forall b: byte :: IsOctal(b) <==> 48 <= b <= 55
  {
  }

  /** One to three octal digits; fewer than three only where no octal digit follows. */
  lemma ReadsOctal(d: seq<byte>, n: nat, rest: seq<byte>)
    requires 1 <= |d| <= 3 && Numeral(d, n, 8) && (|d| < 3 && rest != [] ==> !(48 <= rest[0] <= 55))
    ensures Reads([92] + d + rest, n, rest)
  {
    hide Number, Run, UnescapeChars, NoneDangling, Numeral;
    var t := d + rest;
    NumeralIsNumber(d, n, 8);
    RunOf(d, rest, 8, 3);
    assert t[0] == d[0] && IsDigit(d[0], 8);
    assert [92] + d + rest == [BACKSLASH] + t && t[|d|..] == rest;
    BackslashStep(t);
  }

  /** So every number below 512 can be written with three. */
  lemma ReadsThreeOctal(n: nat, rest: seq<byte>)
    requires n < 512
    ensures Reads([92, (48 + n / 64) as byte, (48 + n / 8 % 8) as byte, (48 + n % 8) as byte] + rest, n, rest)
  {
    hide Reads;
    var d: seq<byte> := [(48 + n / 64) as byte, (48 + n / 8 % 8) as byte, (48 + n % 8) as byte];
    assert d[..2] == [d[0], d[1]] && d[..2][..1] == [d[0]] && [d[0]][..0] == [];
    assert Numeral([d[0]], n / 8 / 8, 8) && Numeral(d[..2], n / 8, 8) && Numeral(d, n, 8);
    ReadsOctal(d, n, rest);
    assert [92] + d + rest == [92, d[0], d[1], d[2]] + rest;
  }

  /** Up to two, four or eight hex digits after `x`, `u` or `U`; fewer only where no hex digit follows. */
  lemma ReadsHexNumeral(letter: byte, most: nat, d: seq<byte>, n: nat, rest: seq<byte>)
    requires (letter == 120 && most == 2) || (letter == 117 && most == 4) || (letter == 85 && most == 8)
    requires 1 <= |d| <= most && Numeral(d, n, 16) && (|d| < most && rest != [] ==> Worth(rest[0]) < 0)
    ensures Reads([92, letter] + d + rest, n, rest)
  {
    hide Number, UnescapeChars, NoneDangling, Numeral, Worth, IsHex;
    NumeralIsNumber(d, n, 16);
    if rest != [] {
      DigitsAreWorth(rest[0]);
    }
    BackslashDigits(letter, d, rest);
  }

  /** Such a letter without digits after it is read as itself. */
  lemma ReadsHexLetter(letter: byte, rest: seq<byte>)
    requires letter in [120, 117, 85] && (rest != [] ==> Worth(rest[0]) < 0)
    ensures Reads([92, letter] + rest, letter as nat, rest)
  {
    hide UnescapeChars, NoneDangling, Worth, IsHex, Number;
    var t := [letter] + rest;
    if rest != [] {
      DigitsAreWorth(rest[0]);
    }
    assert t[1..] == rest;
    assert [92, letter] + rest == [BACKSLASH] + t;
    BackslashStep(t);
  }

  /** So is any other byte, but for its sign. */
  lemma ReadsOther(c: byte, rest: seq<byte>)
    requires c !in [110, 116, 114, 98, 102, 118, 97, 120, 117, 85] && !(48 <= c <= 55)
    ensures Reads([92, c] + rest, Itself(c), rest)
  {
    hide UnescapeChars, NoneDangling;
    BackslashLetter(c, rest);
  }

  // ---------- everything that is printed ----------

  /** `\x`, `\u` or `\U` and the number in `k` upper-case hex digits. */
  predicate HexForm(e: seq<byte>, letter: byte, ch: nat, k: nat) {
    |e| == 2 + k && e[..2] == [92, letter] && Numeral(e[2..], ch, 16) && UpperCase(e[2..])
  }

  /** The print of one character. */
  predicate Form(e: seq<byte>, ch: nat, quotes: bool) {
    if ch == 34 then e == (if quotes then [92, 34] else [34])
    else if ch == 92 then e == [92, 92]
    else if ch == 7 then e == [92, 97]
    else if ch == 8 then e == [92, 98]
    else if ch == 9 then e == [92, 116]
    else if ch == 10 then e == [92, 110]
    else if ch == 11 then e == [92, 118]
    else if ch == 12 then e == [92, 102]
    else if ch == 13 then e == [92, 114]
    else if ch < 16 then HexForm(e, 120, ch, 1)
    else if ch < 32 || ch == 127 then HexForm(e, 120, ch, 2)
    else if ch < 127 then e == [ch as byte]
    else if ch < 0x1_0000 then HexForm(e, 117, ch, 4)
    else HexForm(e, 85, ch, 8)
  }

  lemma HexFormOf(letter: byte, ch: nat, k: nat)
    requires ch < Pow16(k)
    ensures HexForm([BACKSLASH, letter] + Hex(ch, k), letter, ch, k)
  {
    HexIsNumeral(ch, k);
    var e := [BACKSLASH, letter] + Hex(ch, k);
    assert e[2..] == Hex(ch, k);
  }

  lemma EscapeOneForm(ch: nat, quotes: bool)
    requires ch < 0x110000
    ensures Form(EscapeOne(ch, quotes), ch, quotes)
  {
    hide Hex, HexForm;
    PowersOf16();
    HexFormOf(120, ch % 16, 1);
    HexFormOf(120, ch % 0x100, 2);
    HexFormOf(117, ch % 0x1_0000, 4);
    HexFormOf(85, ch, 8);
  }

  lemma {:induction false} NumeralIsUnique(d: seq<byte>, e: seq<byte>, n: nat)
    requires |d| == |e| && Numeral(d, n, 16) && Numeral(e, n, 16) && UpperCase(d) && UpperCase(e)
    ensures d == e
  {
    if d != [] {
      NumeralIsUnique(d[..|d| - 1], e[..|e| - 1], n / 16);
      assert d == d[..|d| - 1] + [d[|d| - 1]] && e == e[..|e| - 1] + [e[|e| - 1]];
    }
  }

  lemma FormIsUnique(d: seq<byte>, e: seq<byte>, ch: nat, quotes: bool)
    requires Form(d, ch, quotes) && Form(e, ch, quotes)
    ensures d == e
  {
    hide Numeral, UpperCase;
    if |d| > 2 {
      NumeralIsUnique(d[2..], e[2..], ch);
      assert d == d[..2] + d[2..] && e == e[..2] + e[2..];
    }
  }

  /** `e` is the prints of the characters, one after the other. */
  ghost predicate Forms(e: seq<byte>, cps: seq<nat>, quotes: bool) {
    if cps == [] then e == []
    else exists k: nat :: k <= |e| && Form(e[..k], cps[0], quotes) && Forms(e[k..], cps[1..], quotes)
  }

  /** That is what is printed, and nothing else is. */
  lemma {:induction false} PrintIsForms(cps: seq<nat>, quotes: bool, e: seq<byte>)
    requires CodePoints(cps)
    ensures EscapeAll(cps, quotes) == e <==> Forms(e, cps, quotes)
  {
    hide Form, EscapeOne;
    if cps != [] {
      var b, r := EscapeOne(cps[0], quotes), EscapeAll(cps[1..], quotes);
      EscapeOneForm(cps[0], quotes);
      if Forms(e, cps, quotes) {
        var k: nat :| k <= |e| && Form(e[..k], cps[0], quotes) && Forms(e[k..], cps[1..], quotes);
        FormIsUnique(e[..k], b, cps[0], quotes);
        PrintIsForms(cps[1..], quotes, e[k..]);
        assert e == e[..k] + e[k..];
      }
      if EscapeAll(cps, quotes) == e {
        PrintIsForms(cps[1..], quotes, r);
        assert e[..|b|] == b && e[|b|..] == r;
      }
    }
  }

  // ---------- printable ----------

  predicate PrintableAscii(e: seq<byte>) {
    forall i :: 0 <= i < |e| ==> 32 <= e[i] <= 126
  }

  lemma {:induction false} NumeralIsPrintable(d: seq<byte>, n: nat)
    requires Numeral(d, n, 16)
    ensures forall i :: 0 <= i < |d| ==> 48 <= d[i] <= 102 && d[i] != 92
  {
    if d != [] {
      NumeralIsPrintable(d[..|d| - 1], n / 16);
      forall i | 0 <= i < |d| ensures 48 <= d[i] <= 102 && d[i] != 92 {
        assert i < |d| - 1 ==> d[i] == d[..|d| - 1][i];
      }
    }
  }

  lemma FormIsPrintable(e: seq<byte>, ch: nat, quotes: bool)
    requires Form(e, ch, quotes)
    ensures PrintableAscii(e) && e != []
  {
    hide Numeral;
    if |e| >= 2 && Numeral(e[2..], ch, 16) {
      NumeralIsPrintable(e[2..], ch);
      assert forall i :: 2 <= i < |e| ==> e[i] == e[2..][i - 2];
    }
  }

  /** Every byte printed is printable ASCII. */
  lemma {:induction false} PrintsAscii(cps: seq<nat>, quotes: bool)
    requires CodePoints(cps)
    ensures PrintableAscii(EscapeAll(cps, quotes))
  {
    hide EscapeOne, Form;
    if cps != [] {
      EscapeOneForm(cps[0], quotes);
      FormIsPrintable(EscapeOne(cps[0], quotes), cps[0], quotes);
      PrintsAscii(cps[1..], quotes);
    }
  }

  // ---------- what prints as itself ----------

  predicate Plain(ch: nat, quotes: bool) {
    32 <= ch <= 126 && ch != 92 && !(quotes && ch == 34)
  }

  /** Printable ASCII without a backslash and, where quote marks are escaped, without those. */
  predicate NeedsNoEscape(cps: seq<nat>, quotes: bool) {
    forall i :: 0 <= i < |cps| ==> Plain(cps[i], quotes)
  }

  lemma PlainPrint(ch: nat, quotes: bool)
    requires ch < 0x110000
    ensures Plain(ch, quotes) ==> EscapeOne(ch, quotes) == Enc(ch)
    ensures !Plain(ch, quotes) ==> |Enc(ch)| < |EscapeOne(ch, quotes)|
  {
    hide Numeral;
    EscapeOneForm(ch, quotes);
  }

  lemma {:induction false} PlainOrLonger(cps: seq<nat>, quotes: bool)
    requires CodePoints(cps)
    ensures NeedsNoEscape(cps, quotes) ==> EscapeAll(cps, quotes) == EncAll(cps)
    ensures !NeedsNoEscape(cps, quotes) ==> |EncAll(cps)| < |EscapeAll(cps, quotes)|
  {
    hide EscapeOne, Enc, Plain;
    if cps != [] {
      PlainPrint(cps[0], quotes);
      PlainOrLonger(cps[1..], quotes);
      if Plain(cps[0], quotes) && NeedsNoEscape(cps[1..], quotes) {
        forall i | 0 <= i < |cps| ensures Plain(cps[i], quotes) {
          assert i > 0 ==> cps[i] == cps[1..][i - 1];
        }
      }
    }
  }

  /** A text prints as itself if and only if it needs no escape; any other print is longer. */
  lemma PrintsAsItselfIffPlain(cps: seq<nat>, quotes: bool)
    requires CodePoints(cps)
    ensures EscapeAll(cps, quotes) == EncAll(cps) <==> NeedsNoEscape(cps, quotes)
  {
    PlainOrLonger(cps, quotes);
  }

  // ---------- quote marks ----------

  /** How many backslashes stand directly before the i-th byte. */
  function BackslashesBefore(s: seq<byte>, i: nat): (n: nat)
    requires i <= |s|
    ensures n <= i
  {
    if i > 0 && s[i - 1] == 92 then 1 + BackslashesBefore(s, i - 1) else 0
  }

  /** Counting back past the start of `b`. */
  lemma {:induction false} CountsPast(a: seq<byte>, b: seq<byte>, j: nat)
    requires j <= |b|
    ensures var n := BackslashesBefore(b, j);
            BackslashesBefore(a + b, |a| + j) == if n == j then n + BackslashesBefore(a, |a|) else n
  {
    if j > 0 {
      assert (a + b)[|a| + j - 1] == b[j - 1];
      CountsPast(a, b, j - 1);
    } else {
      CountsWithin(a, b, |a|);
    }
  }

  lemma {:induction false} CountsWithin(a: seq<byte>, b: seq<byte>, i: nat)
    requires i <= |a|
    ensures BackslashesBefore(a + b, i) == BackslashesBefore(a, i)
  {
    if i > 0 {
      CountsWithin(a, b, i - 1);
    }
  }

  /** A quote mark is escaped: the number of backslashes before it is odd. */
  predicate QuoteAt(e: seq<byte>, i: nat, quotes: bool)
    requires i < |e|
  {
    e[i] == 34 ==> BackslashesBefore(e, i) % 2 == if quotes then 1 else 0
  }

  predicate QuotesAre(e: seq<byte>, quotes: bool) {
    forall i: nat :: i < |e| ==> QuoteAt(e, i, quotes)
  }

  /** One print leaves no backslash open. */
  lemma FormClosesBackslashes(e: seq<byte>, ch: nat, quotes: bool)
    requires Form(e, ch, quotes)
    ensures QuotesAre(e, quotes) && BackslashesBefore(e, |e|) % 2 == 0
  {
    hide Numeral;
    if |e| > 2 {
      NumeralIsPrintable(e[2..], ch);
      assert forall i :: 2 <= i < |e| ==> e[i] == e[2..][i - 2];
    } else if |e| == 2 {
      assert BackslashesBefore(e, 0) == 0 && BackslashesBefore(e, 1) == 1;
    }
  }

  lemma QuotesConcat(a: seq<byte>, b: seq<byte>, quotes: bool)
    requires QuotesAre(a, quotes) && QuotesAre(b, quotes) && BackslashesBefore(a, |a|) % 2 == 0
    ensures QuotesAre(a + b, quotes)
  {
    forall i: nat | i < |a + b| ensures QuoteAt(a + b, i, quotes) {
      if i < |a| {
        CountsWithin(a, b, i);
        assert QuoteAt(a, i, quotes);
      } else {
        CountsPast(a, b, i - |a|);
        assert QuoteAt(b, i - |a|, quotes);
      }
    }
  }

  /** With quote marks escaped, each one printed has an odd number of backslashes before it; otherwise an even one. */
  lemma {:induction false} QuotesAreEscapedIff(cps: seq<nat>, quotes: bool)
    requires CodePoints(cps)
    ensures QuotesAre(EscapeAll(cps, quotes), quotes)
  {
    hide EscapeOne, Form;
    if cps != [] {
      EscapeOneForm(cps[0], quotes);
      FormClosesBackslashes(EscapeOne(cps[0], quotes), cps[0], quotes);
      QuotesAreEscapedIff(cps[1..], quotes);
      QuotesConcat(EscapeOne(cps[0], quotes), EscapeAll(cps[1..], quotes), quotes);
    }
  }
}
