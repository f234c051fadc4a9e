/** The escape printer and parser as they run, over buffers of limited size. */
module Utf8Escaping {
  import opened Bytes
  import opened Utf8Format
  import opened Utf8Convert
  import opened Utf8Walk
  import opened Utf8Escape

  // ---------- reading ----------

  /** Collects leading digits from `from` on, `most` at the most. */
  method TakeDigits(s: seq<byte>, from: nat, base: nat, most: nat) returns (digs: seq<byte>)
    requires from <= |s|
    ensures |digs| == Run(s[from..], base, most) && digs == s[from..from + |digs|]
  {
    hide IsDigit, Run;
    digs := [];
    var i := from;
    while i < |s| && IsDigit(s[i], base) && |digs| < most
      invariant from <= i <= |s| && i == from + |digs| && |digs| <= most && digs == s[from..i]
      invariant Run(s[from..], base, most) == |digs| + Run(s[i..], base, most - |digs|)
    {
      RunStep(s, i, base, most - |digs|);
      digs := digs + [s[i]];
      i := i + 1;
    }
    RunStops(s, i, base, most - |digs|);
  }

  lemma RunStep(s: seq<byte>, i: nat, base: nat, most: nat)
    requires i < |s| && most > 0 && IsDigit(s[i], base)
    ensures Run(s[i..], base, most) == 1 + Run(s[i + 1..], base, most - 1)
  {
    hide IsDigit;
    assert s[i..][1..] == s[i + 1..];
  }

  lemma RunStops(s: seq<byte>, i: nat, base: nat, most: nat)
    requires i <= |s| && (i < |s| && IsDigit(s[i], base) ==> most == 0)
    ensures Run(s[i..], base, most) == 0
  {
  }

  method StrToL(digs: seq<byte>, base: nat) returns (n: nat)
    ensures n == Number(digs, base)
  {
    n := 0;
    for i := 0 to |digs|
      invariant n == Number(digs[..i], base)
    {
      assert digs[..i + 1][..i] == digs[..i];
      n := n * base + DigitValue(digs[i]);
    }
    assert digs[..|digs|] == digs;
  }

  method ReadHexEscape(s: seq<byte>, p: nat, most: nat) returns (ch: nat, amt: nat)
    requires p < |s|
    ensures (ch, amt) == HexEscape(s[p..], most)
  {
    hide Run, Number;
    ch, amt := s[p] as nat, 1;
    var digs := TakeDigits(s, p + 1, 16, most);
    assert s[p..][1..] == s[p + 1..] && s[p..][1..1 + |digs|] == digs;
    if |digs| > 0 {
      ch := StrToL(digs, 16);
      amt := 1 + |digs|;
    }
  }

  /** `p` is just after the backslash. */
  method ReadEscapeSequence(s: seq<byte>, p: nat) returns (ch: nat, amt: nat)
    requires p < |s|
    ensures (ch, amt) == ReadEscape(s[p..])
  {
    hide Run, Number, HexEscape;
    var c := s[p];
    amt := 1;
    if c == 'n' as byte { ch := 10; }
    else if c == 't' as byte { ch := 9; }
    else if c == 'r' as byte { ch := 13; }
    else if c == 'b' as byte { ch := 8; }
    else if c == 'f' as byte { ch := 12; }
    else if c == 'v' as byte { ch := 11; }
    else if c == 'a' as byte { ch := 7; }
    else if IsOctal(c) {
      var digs := TakeDigits(s, p, 8, 3);
      assert s[p..][..|digs|] == digs;
      ch := StrToL(digs, 8);
      amt := |digs|;
    }
    else if c == 'x' as byte { ch, amt := ReadHexEscape(s, p, 2); }
    else if c == 'u' as byte { ch, amt := ReadHexEscape(s, p, 4); }
    else if c == 'U' as byte { ch, amt := ReadHexEscape(s, p, 8); }
    else { ch := SignExtended(c); }
  }

  /** The next character of an escaped text, whichever way it is written. */
  method ReadNext(src: seq<byte>, p: nat) returns (ch: nat, p': nat)
    requires p < |src| && NoneDangling(src[p..])
    ensures p < p' <= |src| && NoneDangling(src[p'..])
    ensures UnescapeChars(src[p..]) == [ch] + UnescapeChars(src[p'..])
  {
    hide ReadEscape;
    if src[p] == BACKSLASH {
      assert src[p..][1..] == src[p + 1..];
      var amt;
      ch, amt := ReadEscapeSequence(src, p + 1);
      p' := p + 1 + amt;
      assert src[p..][1 + amt..] == src[p'..];
    } else {
      ch, p' := SignExtended(src[p]), p + 1;
      assert src[p..][1..] == src[p'..];
    }
  }

  /** Writes the characters of `src` while they fit whole, then a NUL if there is room; `n` counts the characters. */
  method Unescape(buf: array<byte>, sz: nat, src: seq<byte>) returns (c: nat, ghost n: nat)
    requires sz <= buf.Length && 0 !in src && NoneDangling(src)
    modifies buf
    ensures LongestFit(UnescapeChars(src), sz, n) && c == |EncAll(UnescapeChars(src)[..n])|
    ensures Filled(old(buf[..]), buf[..], EncAll(UnescapeChars(src)[..n]) + if c < sz then [0] else [])
  {
    hide Enc, EncAll, UnescapeChars, NoneDangling, Filled, LongestFit;
    ghost var u := UnescapeChars(src);
    var p: nat := 0;
    c, n := 0, 0;
    StartsEmpty(u, buf[..]);
    assert src[0..] == src;
    while p < |src| && c < sz
      invariant p <= |src| && n <= |u| && NoneDangling(src[p..]) && u == u[..n] + UnescapeChars(src[p..])
      invariant c == |EncAll(u[..n])| <= sz && Filled(old(buf[..]), buf[..], EncAll(u[..n]))
      decreases |src| - p
    {
      ghost var p0 := p;
      var ch;
      ch, p := ReadNext(src, p);
      NextOf(u, n, ch, UnescapeChars(src[p..]));
      PrefixSnoc(u, n);
      SizeOfEnc(ch);
      var temp := new byte[4];
      var amt := WcToUtf8(temp, ch);
      if amt > sz - c {
        StopsShort(u, sz, n);
        break;
      }
      assert temp[..amt] == Enc(ch);
      Append(buf, c, temp, amt, old(buf[..]), EncAll(u[..n]));
      c := c + amt;
      n := n + 1;
    }
    if !LongestFit(u, sz, n) {
      if p == |src| {
        ReadAll(u, n, src[p..]);
        FitsAll(u, sz, n);
      } else {
        n := EndsFull(u, sz, n);
      }
    }
    FitIsPrefix(u, sz, n);
    if c < sz {
      Terminate(buf, c, old(buf[..]), EncAll(u[..n]));
    } else {
      assert EncAll(u[..n]) + [] == EncAll(u[..n]);
    }
  }

  /** `t` written over a buffer at `b`. */
  function Overwritten(was: seq<byte>, b: nat, t: seq<byte>): seq<byte>
    requires b + |t| <= |was|
  {
    was[..b] + t + was[b + |t|..]
  }

  lemma OverwriteStarts(was: seq<byte>, b: nat, t: seq<byte>)
    requires b <= |was|
    ensures was == Overwritten(was, b, t[..0])
  {
  }

  lemma OverwriteStep(was: seq<byte>, now: seq<byte>, b: nat, t: seq<byte>, k: nat)
    requires k < |t| && b + k < |was| && now == Overwritten(was, b, t[..k])
    ensures |now| == |was| && now[b + k := t[k]] == Overwritten(was, b, t[..k + 1])
  {
  }

  /** `memcpy`. */
  method CopyInto(buf: array<byte>, c: nat, temp: array<byte>, amt: nat)
    requires buf != temp && amt <= temp.Length && c + amt <= buf.Length
    modifies buf
    ensures buf[..] == Overwritten(old(buf[..]), c, temp[..amt])
  {
    hide Overwritten;
    ghost var t := temp[..amt];
    OverwriteStarts(buf[..], c, t);
    for k := 0 to amt
      invariant temp[..amt] == t
      invariant buf[..] == Overwritten(old(buf[..]), c, t[..k])
    {
      OverwriteStep(old(buf[..]), buf[..], c, t, k);
      ghost var before := buf[..];
      buf[c + k] := temp[k];
      assert buf[..] == before[c + k := t[k]];
    }
    assert t[..amt] == t;
  }

  /** `memcpy` behind what the buffer was filled with before. */
  method Append(buf: array<byte>, c: nat, temp: array<byte>, amt: nat, ghost was: seq<byte>, ghost done: seq<byte>)
    requires buf != temp && amt <= temp.Length && c + amt <= buf.Length == |was|
    requires c == |done| && Filled(was, buf[..], done)
    modifies buf
    ensures Filled(was, buf[..], done + temp[..amt])
  {
    hide Filled;
    ghost var before := buf[..];
    CopyInto(buf, c, temp, amt);
    FilledMore(was, before, buf[..], done, temp[..amt]);
  }

  /** Writes the NUL. */
  method Terminate(buf: array<byte>, c: nat, ghost was: seq<byte>, ghost done: seq<byte>)
    requires c == |done| < buf.Length == |was| && Filled(was, buf[..], done)
    modifies buf
    ensures Filled(was, buf[..], done + [0])
  {
    hide Filled;
    ghost var before := buf[..];
    buf[c] := 0;
    assert buf[..] == before[c := 0];
    NulMore(was, before, buf[..], done);
  }

  lemma NextOf(u: seq<nat>, n: nat, ch: nat, rest: seq<nat>)
    requires n <= |u| && u == u[..n] + ([ch] + rest)
    ensures n < |u| && u[n] == ch && u == u[..n + 1] + rest
  {
    assert u[..n + 1] == u[..n] + [ch];
  }

  lemma ReadAll(u: seq<nat>, n: nat, s: seq<byte>)
    requires n <= |u| && u == u[..n] + UnescapeChars(s) && s == []
    ensures n == |u|
  {
    NothingToRead();
  }

  /** In a full buffer only characters without any bytes still fit. */
  lemma {:induction false} EndsFull(u: seq<nat>, room: nat, n: nat) returns (m: nat)
    requires n <= |u| && |EncAll(u[..n])| == room
    ensures LongestFit(u, room, m) && EncAll(u[..m]) == EncAll(u[..n])
    decreases |u| - n
  {
    hide Enc, EncAll;
    m := n;
    if n < |u| {
      PrefixSnoc(u, n);
      if Enc(u[n]) == [] {
        m := EndsFull(u, room, n + 1);
      }
    }
  }

  lemma FitIsPrefix(u: seq<nat>, room: nat, n: nat)
    requires LongestFit(u, room, n)
    ensures n <= |u|
  {
  }

  lemma NulMore(was: seq<byte>, before: seq<byte>, now: seq<byte>, b: seq<byte>)
    requires Filled(was, before, b) && |b| < |was| && now == before[|b| := 0]
    ensures Filled(was, now, b + [0])
  {
  }

  // ---------- printing ----------

  /** What `snprintf` puts into a buffer of `sz` bytes: as much as fits before a NUL, nothing into an empty one. */
  function Cut(text: seq<byte>, sz: nat): seq<byte> {
    if sz == 0 then [] else (if |text| < sz then text else text[..sz - 1]) + [0]
  }

  lemma CutIs(text: seq<byte>, sz: nat, fits: nat)
    requires 0 < sz && fits == if |text| < sz then |text| else sz - 1
    ensures var t := Cut(text, sz); |t| == fits + 1 && t[fits] == 0 && t[..fits] == text[..fits] && t[..fits + 1] == t
  {
  }

  lemma NothingCut(was: seq<byte>, b: nat, text: seq<byte>)
    requires b <= |was|
    ensures Cut(text, 0) == [] && was == Overwritten(was, b, [])
  {
  }

  /** `snprintf` of a text without conversions left. */
  method Snprintf(buf: array<byte>, b: nat, sz: nat, text: seq<byte>) returns (amt: nat)
    requires b + sz <= buf.Length
    modifies buf
    ensures amt == |text| && |Cut(text, sz)| <= sz
    ensures buf[..] == Overwritten(old(buf[..]), b, Cut(text, sz))
  {
    hide Cut, Overwritten;
    if sz == 0 {
      NothingCut(buf[..], b, text);
      return |text|;
    }
    var fits := if |text| < sz then |text| else sz - 1;
    ghost var t := Cut(text, sz);
    CutIs(text, sz, fits);
    OverwriteStarts(buf[..], b, t);
    for k := 0 to fits
      invariant buf[..] == Overwritten(old(buf[..]), b, t[..k])
    {
      OverwriteStep(old(buf[..]), buf[..], b, t, k);
      ghost var before := buf[..];
      assert t[k] == t[..fits][k] == text[k];
      buf[b + k] := text[k];
      assert buf[..] == before[b + k := t[k]];
    }
    OverwriteStep(old(buf[..]), buf[..], b, t, fits);
    ghost var before := buf[..];
    buf[b + fits] := 0;
    assert buf[..] == before[b + fits := 0];
    return |text|;
  }

  method EscapeWchar(buf: array<byte>, b: nat, sz: nat, ch: nat) returns (amt: nat)
    requires b + sz <= buf.Length && ch < U32
    modifies buf
    ensures amt == |EscapeChar(ch)| && |Cut(EscapeChar(ch), sz)| <= sz
    ensures buf[..] == Overwritten(old(buf[..]), b, Cut(EscapeChar(ch), sz))
  {
    hide Cut, Hex, Overwritten;
    if ch == 10 { amt := Snprintf(buf, b, sz, [BACKSLASH, 'n' as byte]); }
    else if ch == 9 { amt := Snprintf(buf, b, sz, [BACKSLASH, 't' as byte]); }
    else if ch == 13 { amt := Snprintf(buf, b, sz, [BACKSLASH, 'r' as byte]); }
    else if ch == 8 { amt := Snprintf(buf, b, sz, [BACKSLASH, 'b' as byte]); }
    else if ch == 12 { amt := Snprintf(buf, b, sz, [BACKSLASH, 'f' as byte]); }
    else if ch == 11 { amt := Snprintf(buf, b, sz, [BACKSLASH, 'v' as byte]); }
    else if ch == 7 { amt := Snprintf(buf, b, sz, [BACKSLASH, 'a' as byte]); }
    else if ch == BACKSLASH as nat { amt := Snprintf(buf, b, sz, [BACKSLASH, BACKSLASH]); }
    else if ch < 32 || ch == 0x7F {
      var digits := Hex(ch % 0x100, if ch % 0x100 < 16 then 1 else 2);
      amt := Snprintf(buf, b, sz, [BACKSLASH, 'x' as byte] + digits);
    }
    else if ch > 0xFFFF { amt := Snprintf(buf, b, sz, [BACKSLASH, 'U' as byte] + Hex(ch, 8)); }
    else if ch >= 0x80 { amt := Snprintf(buf, b, sz, [BACKSLASH, 'u' as byte] + Hex(ch % 0x1_0000, 4)); }
    else { amt := Snprintf(buf, b, sz, [ch as byte]); }
  }

  lemma {:induction false} EscapeSplit(a: seq<nat>, b: seq<nat>, quotes: bool)
    ensures EscapeAll(a + b, quotes) == EscapeAll(a, quotes) + EscapeAll(b, quotes)
  {
    hide EscapeOne;
    if a == [] {
      assert a + b == b;
    } else {
      assert (a + b)[0] == a[0] && (a + b)[1..] == a[1..] + b;
      EscapeSplit(a[1..], b, quotes);
      ConcatAssociates(EscapeOne(a[0], quotes), EscapeAll(a[1..], quotes), EscapeAll(b, quotes));
    }
  }

  lemma EscapeSnoc(cps: seq<nat>, k: nat, quotes: bool)
    requires k < |cps|
    ensures EscapeAll(cps[..k + 1], quotes) == EscapeAll(cps[..k], quotes) + EscapeOne(cps[k], quotes)
  {
    assert cps[..k + 1] == cps[..k] + [cps[k]] && [cps[k]][1..] == [];
    EscapeSplit(cps[..k], [cps[k]], quotes);
    assert EscapeAll([cps[k]], quotes) == EscapeOne(cps[k], quotes) + EscapeAll([cps[k]][1..], quotes);
  }

  /** The buffer after `k` characters, of which `e` is the print. */
  predicate Printing(was: seq<byte>, now: seq<byte>, e: seq<byte>, sz: nat, k: nat) {
    if k == 0 then now == was && e == [] else sz > 0 && Filled(was, now, Cut(e, sz))
  }

  lemma EscapeStarts(cps: seq<nat>, quotes: bool, was: seq<byte>, sz: nat)
    ensures |EscapeAll(cps[..0], quotes)| == 0 && Printing(was, was, EscapeAll(cps[..0], quotes), sz, 0)
  {
  }

  lemma CutSplit(e: seq<byte>, more: seq<byte>, sz: nat)
    requires |e| < sz
    ensures Cut(e + more, sz) == e + Cut(more, sz - |e|) && Cut(e, sz) == e + [0]
  {
  }

  lemma PrintsMore(was: seq<byte>, before: seq<byte>, now: seq<byte>, e: seq<byte>, more: seq<byte>, sz: nat, k: nat)
    requires Printing(was, before, e, sz, k) && |e| < sz <= |was| == |before|
    requires var cut := Cut(more, sz - |e|); |e| + |cut| <= sz && now == before[..|e|] + cut + before[|e| + |cut|..]
    ensures Printing(was, now, e + more, sz, k + 1)
  {
    hide Cut;
    var cut := Cut(more, sz - |e|);
    CutSplit(e, more, sz);
    CutIsNotEmpty(more, sz - |e|);
    assert before[..|e|] == e;
    assert before[|e| + |cut|..] == was[|e| + |cut|..];
  }

  lemma CutIsNotEmpty(text: seq<byte>, sz: nat)
    requires sz > 0
    ensures 0 < |Cut(text, sz)| <= sz
  {
  }

  lemma PrintEnds(was: seq<byte>, before: seq<byte>, now: seq<byte>, e: seq<byte>, sz: nat, k: nat)
    requires Printing(was, before, e, sz, k) && |e| < sz <= |was| == |before| && now == before[|e| := 0]
    ensures Filled(was, now, Cut(e, sz))
  {
    hide Cut;
    CutSplit(e, [], sz);
  }

  lemma PrintFull(was: seq<byte>, now: seq<byte>, e: seq<byte>, sz: nat, k: nat)
    requires Printing(was, now, e, sz, k) && |e| >= sz
    ensures if sz == 0 then now == was else Filled(was, now, Cut(e, sz))
  {
  }

  /** Stopping once the buffer is full leaves the same cut of the whole print. */
  lemma PrintIsCut(cps: seq<nat>, k: nat, quotes: bool, sz: nat)
    requires k <= |cps| && 0 < sz && (k < |cps| ==> |EscapeAll(cps[..k], quotes)| >= sz)
    ensures Cut(EscapeAll(cps[..k], quotes), sz) == Cut(EscapeAll(cps, quotes), sz)
  {
    assert cps == cps[..k] + cps[k..];
    EscapeSplit(cps[..k], cps[k..], quotes);
    if k == |cps| {
      assert cps[..k] == cps;
    }
  }

  lemma CutShows(was: seq<byte>, now: seq<byte>, e: seq<byte>, sz: nat)
    requires 0 < sz <= |was| && Filled(was, now, Cut(e, sz))
    ensures var m := if |e| < sz then |e| else sz - 1;
            m < |now| == |was| && now[..m] == e[..m] && now[m] == 0 && now[m + 1..] == was[m + 1..]
  {
    hide Cut;
    CutIs(e, sz, if |e| < sz then |e| else sz - 1);
  }

  /** What the printer sees at the start of a character. */
  lemma CharStarts(cps: seq<nat>, k: nat)
    requires Printable(cps) && k < |cps|
    ensures var s, p := EncAll(cps), Bound(cps, k);
            && p < |s| && (exists j: nat :: j <= p + 6 && IsNextStart(s, p, j))
            && (s[p] == QUOTE <==> cps[k] == QUOTE as nat)
            && (cps[k] == QUOTE as nat ==> Bound(cps, k + 1) == p + 1)
  {
    hide Enc, EncAll, Bound, IsNextStart;
    StartsAtBounds(cps, k);
    NextIsNextBound(cps, k, Bound(cps, k + 1));
    BytesAt(cps, k);
    AsciiOrNot(cps[k]);
    assert EncAll(cps)[Bound(cps, k) + 0] == Enc(cps[k])[0];
  }

  /** Prints the k-th character, and moves to the next. */
  method PrintNext(buf: array<byte>, b: nat, sz: nat, src: seq<byte>, i: nat, quotes: bool,
                   ghost cps: seq<nat>, ghost k: nat)
    returns (amt: nat, next: nat)
    requires b + sz <= buf.Length && Printable(cps) && src == EncAll(cps) && k < |cps| && i == Bound(cps, k)
    modifies buf
    ensures amt == |EscapeOne(cps[k], quotes)| && next == Bound(cps, k + 1)
    ensures |Cut(EscapeOne(cps[k], quotes), sz)| <= sz
    ensures buf[..] == Overwritten(old(buf[..]), b, Cut(EscapeOne(cps[k], quotes), sz))
  {
    hide Enc, EncAll, EscapeChar, Bound, Cut, IsNextStart, Overwritten;
    CharStarts(cps, k);
    if quotes && src[i] == QUOTE {
      amt := Snprintf(buf, b, sz, [BACKSLASH, QUOTE]);
      next := i + 1;
    } else {
      var ch;
      ch, next := NextChar(src, i);
      ScanAgreesWithTable(cps, k, next);
      amt := EscapeWchar(buf, b, sz, ch);
    }
  }

  method PutNul(buf: array<byte>, c: nat)
    requires c < buf.Length
    modifies buf
    ensures buf[..] == old(buf[..])[c := 0]
  {
    buf[c] := 0;
  }

  /** Prints the text in ASCII; a buffer too small holds as much of it as fits before a NUL. */
  method Escape(buf: array<byte>, sz: nat, src: seq<byte>, quotes: bool, ghost cps: seq<nat>)
    returns (c: nat, ghost k: nat)
    requires sz <= buf.Length && Printable(cps) && src == EncAll(cps)
    modifies buf
    ensures sz == 0 ==> c == 0 && buf[..] == old(buf[..])
    ensures sz > 0 ==> Filled(old(buf[..]), buf[..], Cut(EscapeAll(cps, quotes), sz))
    ensures sz > 0 ==>
      var e := EscapeAll(cps, quotes);
      var m := if |e| < sz then |e| else sz - 1;
      buf[..m] == e[..m] && buf[m] == 0 && buf[m + 1..] == old(buf[m + 1..])
    ensures k <= |cps| && c == |EscapeAll(cps[..k], quotes)| && (k < |cps| ==> c >= sz)
    ensures k > 0 ==> |EscapeAll(cps[..k - 1], quotes)| < sz
  {
    hide Enc, EncAll, EscapeChar, EscapeAll, Bound, Filled, Cut, IsNextStart, Printing;
    var i: nat := 0;
    c, k := 0, 0;
    EscapeStarts(cps, quotes, buf[..], sz);
    LastBound(cps);
    StartOrEnd(cps, 0);
    while i < |src| && c < sz
      invariant k <= |cps| && i == Bound(cps, k) <= |src| && (i < |src| <==> k < |cps|)
      invariant c == |EscapeAll(cps[..k], quotes)| && (k > 0 ==> |EscapeAll(cps[..k - 1], quotes)| < sz)
      invariant Printing(old(buf[..]), buf[..], EscapeAll(cps[..k], quotes), sz, k)
      decreases |cps| - k
    {
      ghost var before := buf[..];
      var amt, next := PrintNext(buf, c, sz - c, src, i, quotes, cps, k);
      i := next;
      EscapeSnoc(cps, k, quotes);
      CutIsNotEmpty(EscapeOne(cps[k], quotes), sz - c);
      PrintsMore(old(buf[..]), before, buf[..], EscapeAll(cps[..k], quotes), EscapeOne(cps[k], quotes), sz, k);
      c := c + amt;
      k := k + 1;
      StartOrEnd(cps, k);
    }
    if c < sz {
      ghost var before := buf[..];
      PutNul(buf, c);
      PrintEnds(old(buf[..]), before, buf[..], EscapeAll(cps[..k], quotes), sz, k);
    } else {
      PrintFull(old(buf[..]), buf[..], EscapeAll(cps[..k], quotes), sz, k);
    }
    if sz > 0 {
      PrintIsCut(cps, k, quotes, sz);
      CutShows(old(buf[..]), buf[..], EscapeAll(cps, quotes), sz);
    }
  }

  // ---------- printing, then reading ----------

  /** Through both routines with buffers that are large enough: the text comes back iff it has no such pair. */
  method EscapeRoundTrip(s: seq<byte>, quotes: bool) returns (back: seq<byte>)
    requires WellFormed(s) && 0 !in s
    ensures back == s <==> NoPairs(s)
  {
    hide EncAll, EscapeAll, Merged, WellFormed, UnescapeChars, NoneDangling, NoPairs, Cut;
    ghost var cps := PrintableText(s);
    EscapeIsShort(cps, quotes);
    var printed := new byte[4 * |s| + 1];
    var size;
    ghost var k;
    size, k := Escape(printed, printed.Length, s, quotes, cps);
    ghost var e := EscapeAll(cps, quotes);
    WholePrint(cps, k, quotes, printed.Length);
    assert printed[..size] == e;
    ReadsMerged(cps, quotes);
    PrintHasNoNul(cps, quotes);
    var again := new byte[|s|];
    ghost var n;
    size, n := Unescape(again, |s|, printed[..size]);
    MergedIsShort(cps);
    AllFit(Merged(cps), |s|, n);
    back := again[..size];
    assert back == EncAll(Merged(cps));
    SameIffNoPairs(cps);
  }

  lemma PrintableText(s: seq<byte>) returns (cps: seq<nat>)
    requires WellFormed(s) && 0 !in s
    ensures Printable(cps) && EncAll(cps) == s
  {
    cps := WellFormedIsEnc(s);
    ZeroIsNul(cps);
  }

  lemma WholePrint(cps: seq<nat>, k: nat, quotes: bool, sz: nat)
    requires k <= |cps| && |EscapeAll(cps, quotes)| < sz
    requires k < |cps| ==> |EscapeAll(cps[..k], quotes)| >= sz
    ensures cps[..k] == cps && Cut(EscapeAll(cps, quotes), sz) == EscapeAll(cps, quotes) + [0]
  {
    EscapeSplit(cps[..k], cps[k..], quotes);
    assert cps == cps[..k] + cps[k..];
  }

  lemma {:induction false} PrintHasNoNul(cps: seq<nat>, quotes: bool)
    requires Printable(cps)
    ensures 0 !in EscapeAll(cps, quotes)
  {
    if cps != [] {
      PrintHasNoNul(cps[1..], quotes);
      CharHasNoNul(cps[0], quotes);
    }
  }

  lemma CharHasNoNul(ch: nat, quotes: bool)
    requires 0 < ch < 0x110000
    ensures 0 !in EscapeOne(ch, quotes)
  {
    hide Hex;
    HexIsHex(ch, if ch < 16 then 1 else 2);
    HexIsHex(ch, 4);
    HexIsHex(ch, 8);
  }

  // ---------- reading what was not printed ----------

  /** A text without backslashes, given a large enough buffer, comes back iff it is ASCII. */
  method UnescapePlainText(s: seq<byte>) returns (back: seq<byte>)
    requires BACKSLASH !in s && 0 !in s
    ensures back == s <==> IsAscii(s)
  {
    hide EncAll, UnescapeChars, NoneDangling, IsAscii, LongestFit;
    PlainTextKeepsAscii(s);
    PlainTextSurvivesIffAscii(s);
    var buf := new byte[|s|];
    var size;
    ghost var n;
    size, n := Unescape(buf, |s|, s);
    AllFit(UnescapeChars(s), |s|, n);
    back := buf[..size];
    assert back == EncAll(UnescapeChars(s));
  }
}
