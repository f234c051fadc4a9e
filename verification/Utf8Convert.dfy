/** Conversion between UTF-8 and 32-bit characters, into buffers of limited size. */
module Utf8Convert {
  import opened Bytes
  import opened Utf8Format

  /** A byte of a C string; the NUL follows the last one. */
  function At(s: seq<byte>, p: nat): byte
    requires p <= |s|
  {
    if p == |s| then 0 else s[p]
  }

  // ---------- from UTF-8 ----------

  /** How far the source pointer moves for a lead byte; not at all for the leads of five- and six-byte forms. */
  function Took(nb: nat): nat {
    if nb <= 3 then nb + 1 else 0
  }

  function CharOf(src: seq<byte>, p: nat): nat
    requires p <= |src| && p + Took(Trailing(At(src, p))) <= |src|
  {
    var nb := Trailing(At(src, p));
    (Folded(src[p..p + Took(nb)]) - OFFSETS[nb]) % U32
  }

  /** The conversion stops at the NUL, or before a character that does not end inside the source. */
  predicate Stops(src: seq<byte>, p: nat, end: nat, zt: bool)
    requires p <= |src|
  {
    p + Trailing(At(src, p)) >= end || (zt && At(src, p) == 0)
  }

  /** The characters from `p` on, at most `room` of them. */
  function UcsFrom(src: seq<byte>, p: nat, end: nat, zt: bool, room: nat): seq<nat>
    requires p <= |src| && end <= |src|
    decreases room
  {
    if room == 0 || Stops(src, p, end, zt) then []
    else [CharOf(src, p)] + UcsFrom(src, p + Took(Trailing(At(src, p))), end, zt, room - 1)
  }

  /** `ch += *src; ch <<= 6`, in 32 bits. */
  function Shifted(ch: nat, b: byte): (r: nat)
    ensures ch < 0x100_0000 ==> r == (ch + b as nat) * 64
  {
    (ch + b as nat) * 64 % U32
  }

  /** The fall-through switch: `ch += *src++; ch <<= 6` for every byte but the last. */
  method ReadChar(src: seq<byte>, p: nat) returns (ch: nat, p': nat)
    requires p < |src| && p + Trailing(src[p]) < |src|
    ensures ch == CharOf(src, p) && p' == p + Took(Trailing(src[p]))
  {
    hide Folded, Shifted, Trailing;
    TrailingIsShort(src[p]);
    var nb := Trailing(src[p]);
    ch, p' := 0, p;
    if nb == 3 { ch, p' := Shifted(ch, src[p']), p' + 1; }
    assert ch < 0x1_0000 && (nb == 3 || ch == 0);
    if 2 <= nb <= 3 { ch, p' := Shifted(ch, src[p']), p' + 1; }
    assert ch < 0x100_0000 && (nb == 2 || nb == 3 || ch == 0);
    if 1 <= nb <= 3 { ch, p' := Shifted(ch, src[p']), p' + 1; }
    if nb <= 3 { ch, p' := ch + src[p'] as nat, p' + 1; }
    FoldedSlice(src, p, Took(nb));
    ch := (ch - OFFSETS[nb]) % U32;
  }

  lemma TrailingIsShort(b: byte)
    ensures 0 <= Trailing(b) <= 5
  {
  }

  /** Up to four bytes, shifted together. */
  lemma FoldedSlice(src: seq<byte>, p: nat, n: nat)
    requires n <= 4 && p + n <= |src|
    ensures Folded(src[p..p + n]) ==
            if n == 0 then 0
            else if n == 1 then src[p] as nat
            else if n == 2 then src[p] as nat * 64 + src[p + 1] as nat
            else if n == 3 then src[p] as nat * 4096 + src[p + 1] as nat * 64 + src[p + 2] as nat
            else src[p] as nat * 262144 + src[p + 1] as nat * 4096 + src[p + 2] as nat * 64 + src[p + 3] as nat
  {
    hide Folded;
    if n == 0 {
      assert src[p..p + n] == [];
      FoldedNone();
    } else if n == 1 {
      assert src[p..p + n] == [src[p]];
      Folded1(src[p]);
    } else if n == 2 {
      assert src[p..p + n] == [src[p], src[p + 1]];
      Folded2(src[p], src[p + 1]);
    } else if n == 3 {
      assert src[p..p + n] == [src[p], src[p + 1], src[p + 2]];
      Folded3(src[p], src[p + 1], src[p + 2]);
    } else {
      assert src[p..p + n] == [src[p], src[p + 1], src[p + 2], src[p + 3]];
      Folded4(src[p], src[p + 1], src[p + 2], src[p + 3]);
    }
  }

  lemma FoldedNone()
    ensures Folded([]) == 0
  {
  }

  /** `srcsz` is -1 for a NUL-terminated source, which must then hold whole characters. */
  method ToUcs(dest: array<nat>, sz: int, src: seq<byte>, srcsz: int, ghost cps: seq<nat>) returns (i: nat)
    requires 1 <= dest.Length && sz <= dest.Length
    requires if srcsz == -1 then CodePoints(cps) && src == EncAll(cps) else 0 <= srcsz <= |src|
    modifies dest
    ensures var u := UcsFrom(src, 0, if srcsz == -1 then |src| else srcsz, srcsz == -1, if sz > 1 then sz - 1 else 0);
            i == |u| < dest.Length && dest[..i] == u && dest[i] == 0 && dest[i + 1..] == old(dest[i + 1..])
    ensures Meant(dest[..i], src, srcsz, if sz > 1 then sz - 1 else 0, cps)
  {
    hide CharOf, EncAll, Trailing, UcsFrom, Stops, AtBound, Stored, Meant;
    ghost var zt := srcsz == -1;
    ghost var end: nat, room: nat := if zt then |src| else srcsz, if sz > 1 then sz - 1 else 0;
    ghost var u := UcsFrom(src, 0, end, zt, room);
    ghost var k: nat, got: seq<nat>, was := 0, [], dest[..];
    var p: nat := 0;
    i := 0;
    StartsAtBound(cps);
    NothingStored(was);
    while i < sz - 1
      invariant p <= |src| && i <= room < dest.Length && (zt ==> AtBound(cps, k, p))
      invariant |got| == i && Stored(was, dest[..], got) && u == got + UcsFrom(src, p, end, zt, room - i)
    {
      UcsStep(src, p, end, zt, room - i);
      var stop := StopsAt(src, srcsz, p, cps, k);
      if stop { break; }
      k := k + 1;
      var ch, next := ReadChar(src, p);
      Store(dest, i, ch, was, got);
      Appends(got, ch, UcsFrom(src, next, end, zt, room - i - 1));
      p, i, got := next, i + 1, got + [ch];
    }
    UcsEnds(src, p, end, zt, room - i);
    Store(dest, i, 0, was, got);
    assert u == got;
    UcsIsMeant(src, srcsz, room, cps);
    StoredParts(was, dest[..], got);
  }

  /** `dest[i] = ch`. */
  method Store(dest: array<nat>, i: nat, ch: nat, ghost was: seq<nat>, ghost got: seq<nat>)
    requires i == |got| < dest.Length == |was| && Stored(was, dest[..], got)
    modifies dest
    ensures Stored(was, dest[..], got + [ch])
  {
    hide Stored;
    StoresMore(was, dest[..], got, ch);
    ghost var before := dest[..];
    dest[i] := ch;
    assert dest[..] == before[i := ch];
  }

  /** The buffer starts with `got` and is otherwise as it was. */
  predicate Stored(was: seq<nat>, now: seq<nat>, got: seq<nat>) {
    |got| <= |was| && now == got + was[|got|..]
  }

  lemma NothingStored(was: seq<nat>)
    ensures Stored(was, was, [])
  {
  }

  lemma StoresMore(was: seq<nat>, now: seq<nat>, got: seq<nat>, ch: nat)
    requires Stored(was, now, got) && |got| < |was|
    ensures |now| == |was| && Stored(was, now[|got| := ch], got + [ch])
  {
  }

  lemma StoredParts(was: seq<nat>, now: seq<nat>, got: seq<nat>)
    requires Stored(was, now, got + [0])
    ensures |got| < |now| == |was| && now[..|got|] == got && now[|got|] == 0 && now[|got| + 1..] == was[|got| + 1..]
  {
  }

  predicate AtBound(cps: seq<nat>, k: nat, p: nat) {
    k <= |cps| && p == Bound(cps, k)
  }

  lemma StartsAtBound(cps: seq<nat>)
    ensures AtBound(cps, 0, 0)
  {
    LastBound(cps);
  }

  /** The test that ends the loop, for both kinds of source; the k-th character of a NUL-terminated one is next. */
  method StopsAt(src: seq<byte>, srcsz: int, p: nat, ghost cps: seq<nat>, ghost k: nat) returns (stop: bool)
    requires p <= |src|
    requires if srcsz == -1 then CodePoints(cps) && src == EncAll(cps) && AtBound(cps, k, p) else 0 <= srcsz <= |src|
    ensures stop <==> Stops(src, p, if srcsz == -1 then |src| else srcsz, srcsz == -1)
    ensures !stop ==> p < |src| && p + Trailing(src[p]) < |src|
    ensures !stop && srcsz == -1 ==> AtBound(cps, k + 1, p + Took(Trailing(src[p])))
  {
    hide EncAll, Bound;
    var nb := Trailing(At(src, p));
    if srcsz == -1 {
      WholeChar(src, cps, k);
      stop := At(src, p) == 0;
    } else {
      stop := p + nb >= srcsz;
    }
  }

  lemma UcsStep(src: seq<byte>, p: nat, end: nat, zt: bool, room: nat)
    requires p <= |src| && end <= |src| && room > 0
    ensures UcsFrom(src, p, end, zt, room) ==
            if Stops(src, p, end, zt) then []
            else [CharOf(src, p)] + UcsFrom(src, p + Took(Trailing(At(src, p))), end, zt, room - 1)
  {
  }

  lemma UcsEnds(src: seq<byte>, p: nat, end: nat, zt: bool, room: nat)
    requires p <= |src| && end <= |src| && (room == 0 || Stops(src, p, end, zt))
    ensures UcsFrom(src, p, end, zt, room) == []
  {
  }

  lemma Appends(done: seq<nat>, ch: nat, rest: seq<nat>)
    ensures done + ([ch] + rest) == (done + [ch]) + rest
  {
  }

  /** At the start of a character of a NUL-terminated text: all its bytes are there, or it is the end. */
  lemma WholeChar(src: seq<byte>, cps: seq<nat>, k: nat)
    requires CodePoints(cps) && src == EncAll(cps) && k <= |cps|
    ensures Bound(cps, k) <= |src| && (At(src, Bound(cps, k)) != 0 ==> k < |cps|)
    ensures k < |cps| ==>
      && Trailing(At(src, Bound(cps, k))) <= 3
      && Bound(cps, k + 1) == Bound(cps, k) + Trailing(At(src, Bound(cps, k))) + 1 <= |src|
    ensures k == |cps| ==> At(src, Bound(cps, k)) == 0
  {
    hide Enc, Bound, EncAll, Value, Trailing;
    BoundsGrow(cps, k, |cps|);
    LastBound(cps);
    if k < |cps| {
      BytesAt(cps, k);
      EncodedChar(cps[k]);
    }
  }

  /** On the encoding of some characters the conversion gives them back, as many as there is room for. */
  lemma {:induction false} UcsFromEnc(cps: seq<nat>, k: nat, zt: bool, room: nat)
    requires CodePoints(cps) && (zt ==> NoZero(cps)) && k <= |cps| && Bound(cps, k) <= |EncAll(cps)|
    ensures var n := if room < |cps| - k then room else |cps| - k;
            UcsFrom(EncAll(cps), Bound(cps, k), |EncAll(cps)|, zt, room) == cps[k..k + n]
    decreases room
  {
    hide Enc, Bound, EncAll, Value, Trailing, CharOf;
    WholeChar(EncAll(cps), cps, k);
    LastBound(cps);
    if room > 0 && k < |cps| {
      CharOfEnc(cps, k);
      UcsFromEnc(cps, k + 1, zt, room - 1);
    }
  }

  lemma CharOfEnc(cps: seq<nat>, k: nat)
    requires CodePoints(cps) && k < |cps|
    ensures var s, p := EncAll(cps), Bound(cps, k);
            && p < |s| && p + Took(Trailing(At(s, p))) <= |s| && CharOf(s, p) == cps[k]
            && (cps[k] != 0 ==> At(s, p) != 0)
  {
    hide Enc, Bound, EncAll, Folded, Trailing;
    BytesAt(cps, k);
    EncodedChar(cps[k]);
  }

  // ---------- sources that are part of a longer buffer ----------

  /** The first `n` characters end by `end`, and the next one does not. */
  predicate LastWhole(cps: seq<nat>, end: nat, n: nat) {
    n <= |cps| && Bound(cps, n) <= end && (n < |cps| ==> end < Bound(cps, n + 1))
  }

  /** The buffer starts with the text, and the source is as much of the text as `end` bytes are. */
  predicate PartOf(cps: seq<nat>, src: seq<byte>, end: nat) {
    CodePoints(cps) && EncAll(cps) <= src && end <= |EncAll(cps)|
  }

  function Least(a: nat, b: nat): nat {
    if a < b then a else b
  }

  /** Some number of characters is the largest that ends by `end`. */
  lemma SomeAreWhole(cps: seq<nat>, end: nat) returns (n: nat)
    ensures LastWhole(cps, end, n)
  {
    hide EncAll;
    LastBound(cps);
    n := 0;
    while n < |cps| && Bound(cps, n + 1) <= end
      invariant n <= |cps| && Bound(cps, n) <= end
    {
      n := n + 1;
    }
  }

  lemma SameInPart(s: seq<byte>, src: seq<byte>, p: nat)
    requires s <= src && p < |s| && p + Took(Trailing(At(s, p))) <= |s|
    ensures At(src, p) == At(s, p) && CharOf(src, p) == CharOf(s, p)
  {
    hide Folded, Trailing;
    var q := p + Took(Trailing(At(s, p)));
    assert src[p..q] == s[p..q];
  }

  /** A sized source is its bytes: what follows them in the buffer does not matter. */
  lemma {:induction false} SourceEndsAtSize(src: seq<byte>, p: nat, end: nat, room: nat)
    requires p <= end <= |src|
    ensures UcsFrom(src, p, end, false, room) == UcsFrom(src[..end], p, end, false, room)
    decreases room
  {
    hide CharOf, Trailing;
    var nb := Trailing(At(src, p));
    if room > 0 && p + nb < end {
      SameInPart(src[..end], src, p);
      SourceEndsAtSize(src, p + Took(nb), end, room - 1);
    }
  }

  lemma CharOfPart(cps: seq<nat>, src: seq<byte>, k: nat)
    requires CodePoints(cps) && EncAll(cps) <= src && k < |cps|
    ensures var p := Bound(cps, k);
            && p < |src| && p + Trailing(At(src, p)) + 1 == Bound(cps, k + 1) <= |src|
            && Trailing(At(src, p)) <= 3 && CharOf(src, p) == cps[k]
  {
    hide Enc, Bound, EncAll, Folded, Trailing, CharOf, Value;
    CharOfEnc(cps, k);
    BytesAt(cps, k);
    EncodedChar(cps[k]);
    SameInPart(EncAll(cps), src, Bound(cps, k));
  }

  /** A text of which `end` bytes are the source: its whole characters come back, a cut one is left out. */
  lemma {:induction false} UcsFromPart(cps: seq<nat>, src: seq<byte>, k: nat, end: nat, n: nat, room: nat)
    requires PartOf(cps, src, end) && LastWhole(cps, end, n) && k <= n && Bound(cps, k) <= |src|
    ensures UcsFrom(src, Bound(cps, k), end, false, room) == cps[k..k + Least(room, n - k)]
    decreases room
  {
    hide Enc, Bound, EncAll, Trailing, CharOf;
    LastBound(cps);
    if room > 0 && k < |cps| {
      CharOfPart(cps, src, k);
      if k < n {
        BoundsGrow(cps, k + 1, n);
        UcsFromPart(cps, src, k + 1, end, n, room - 1);
      }
    }
  }

  /** What is written, said of the text that the source is or is a part of. */
  ghost predicate Meant(u: seq<nat>, src: seq<byte>, srcsz: int, room: nat, cps: seq<nat>)
    requires srcsz <= |src|
  {
    if srcsz < 0 then NoZero(cps) ==> u == cps[..Least(room, |cps|)]
    else
      && u == UcsFrom(src[..srcsz], 0, srcsz, false, room)
      && forall n :: PartOf(cps, src, srcsz) && LastWhole(cps, srcsz, n) ==> u == cps[..Least(room, n)]
  }

  lemma UcsIsMeant(src: seq<byte>, srcsz: int, room: nat, cps: seq<nat>)
    requires if srcsz == -1 then CodePoints(cps) && src == EncAll(cps) else 0 <= srcsz <= |src|
    ensures Meant(UcsFrom(src, 0, if srcsz == -1 then |src| else srcsz, srcsz == -1, room), src, srcsz, room, cps)
  {
    hide EncAll, UcsFrom, Bound;
    LastBound(cps);
    if srcsz == -1 {
      if NoZero(cps) {
        UcsFromEnc(cps, 0, true, room);
      }
    } else {
      SourceEndsAtSize(src, 0, srcsz, room);
      forall n | PartOf(cps, src, srcsz) && LastWhole(cps, srcsz, n)
        ensures UcsFrom(src, 0, srcsz, false, room) == cps[..Least(room, n)]
      {
        UcsFromPart(cps, src, 0, srcsz, n, room);
      }
    }
  }

  /** A lead byte of a five- or six-byte form is not passed: its offset alone is written until the room is used up. */
  lemma {:induction false} LongLeadsRepeat(src: seq<byte>, p: nat, end: nat, room: nat)
    requires p < |src| && end <= |src| && 0xF8 <= src[p] && p + (if src[p] < 0xFC then 4 else 5) < end
    ensures UcsFrom(src, p, end, false, room) == seq(room, _ => if src[p] < 0xFC then 0x05F7_DF80 else 0x7DF7_DF80)
  {
    if room > 0 {
      LongLeadsRepeat(src, p, end, room - 1);
      FoldedNone();
      assert src[p..p] == [];
    }
  }

  // ---------- to UTF-8 ----------

  /** `(x & 0x3F) | 0x80`. */
  function TailOf(x: nat): (b: byte)
    ensures b == Tail(x)
  {
    OrUnder64(x % 64, 0x80);
    Or(x % 64, 0x80) as byte
  }

  /** `x | mark`, for the bits a lead byte of two, three or four has free. */
  function LeadOf(x: nat, mark: nat): (b: byte)
    requires (mark == 0xC0 && x < 32) || (mark == 0xE0 && x < 16) || (mark == 0xF0 && x < 8)
    ensures b as nat == mark + x
  {
    if mark == 0xC0 then OrUnder64(x, 0xC0); Or(x, 0xC0) as byte
    else if mark == 0xE0 then OrUnder16(x, 0xE0); Or(x, 0xE0) as byte
    else OrUnder8(x, 0xF0); Or(x, 0xF0) as byte
  }

  method PutChar(dest: array<byte>, d: nat, ch: nat) returns (amt: nat)
    requires d + |Enc(ch)| <= dest.Length
    modifies dest
    ensures amt == |Enc(ch)| && dest[..] == old(dest[..d]) + Enc(ch) + old(dest[d + |Enc(ch)|..])
  {
    hide TailOf, LeadOf, Tail;
    if ch < 0x80 {
      dest[d] := ch as byte;
      return 1;
    }
    if ch < 0x800 {
      dest[d], dest[d + 1] := LeadOf(ch / 64, 0xC0), TailOf(ch);
      return 2;
    }
    if ch < 0x10000 {
      dest[d], dest[d + 1], dest[d + 2] := LeadOf(ch / 4096, 0xE0), TailOf(ch / 64), TailOf(ch);
      return 3;
    }
    if ch < 0x110000 {
      dest[d], dest[d + 1] := LeadOf(ch / 262144, 0xF0), TailOf(ch / 4096);
      dest[d + 2], dest[d + 3] := TailOf(ch / 64), TailOf(ch);
      return 4;
    }
    return 0;
  }

  /** `u8_wc_toutf8`. */
  method WcToUtf8(dest: array<byte>, ch: nat) returns (amt: nat)
    requires |Enc(ch)| <= dest.Length
    modifies dest
    ensures amt == |Enc(ch)| && dest[..] == Enc(ch) + old(dest[amt..])
  {
    amt := PutChar(dest, 0, ch);
  }

  /** The first `n` characters fit and, unless they are all, one more does not. */
  predicate LongestFit(cps: seq<nat>, room: nat, n: nat) {
    && n <= |cps| && |EncAll(cps[..n])| <= room
    && (n < |cps| ==> |EncAll(cps[..n + 1])| > room)
  }

  /** The characters a source stands for: up to its first zero, or all `srcsz` of them. */
  function UpToZero(src: seq<nat>): seq<nat> {
    if src == [] || src[0] == 0 then [] else [src[0]] + UpToZero(src[1..])
  }

  function Given(src: seq<nat>, srcsz: int): seq<nat>
    requires srcsz <= |src|
  {
    if srcsz < 0 then UpToZero(src) else src[..srcsz]
  }

  lemma {:induction false} UpToZeroIs(src: seq<nat>)
    ensures var n := |UpToZero(src)|;
            && n <= |src| && UpToZero(src) == src[..n] && NoZero(src[..n])
            && (n < |src| ==> src[n] == 0)
  {
    if src != [] && src[0] != 0 {
      UpToZeroIs(src[1..]);
      var n := |UpToZero(src)|;
      assert src[..n] == [src[0]] + src[1..][..n - 1];
    }
  }

  /** The buffer starts with `b` and is otherwise as it was. */
  predicate Filled(was: seq<byte>, now: seq<byte>, b: seq<byte>) {
    |b| <= |was| && now == b + was[|b|..]
  }

  /** Writes the encoding of the longest prefix of whole characters that fits, and a NUL only after all of them. */
  method ToUtf8(dest: array<byte>, sz: nat, src: seq<nat>, srcsz: int) returns (i: nat)
    requires sz <= dest.Length && srcsz <= |src|
    modifies dest
    ensures LongestFit(Given(src, srcsz), sz, i)
    ensures Filled(old(dest[..]), dest[..], Written(Given(src, srcsz), sz, i))
  {
    hide Enc, EncAll, Filled, LongestFit, Given, Written;
    ghost var cps := Given(src, srcsz);
    GivenIs(src, srcsz);
    var d: nat := 0;
    i := 0;
    StartsEmpty(cps, dest[..]);
    while if srcsz < 0 then i < |src| && src[i] != 0 else i < srcsz
      invariant i <= |cps| && d <= sz && |EncAll(cps[..i])| == d
      invariant Filled(old(dest[..]), dest[..], EncAll(cps[..i]))
      decreases |src| - i
    {
      var ch := src[i];
      PrefixSnoc(cps, i);
      SizeOfEnc(ch);
      ghost var cut := d + |Enc(ch)| > sz;
      if cut { StopsShort(cps, sz, i); }
      if ch < 0x80 {
        if d >= sz { return; }
      } else if ch < 0x800 {
        if d >= sz - 1 { return; }
      } else if ch < 0x10000 {
        if d >= sz - 2 { return; }
      } else if ch < 0x110000 {
        if d >= sz - 3 { return; }
      }
      ghost var before := dest[..];
      var amt := PutChar(dest, d, ch);
      FilledMore(old(dest[..]), before, dest[..], EncAll(cps[..i]), Enc(ch));
      d := d + amt;
      i := i + 1;
    }
    FitsAll(cps, sz, i);
    if d < sz {
      ghost var before := dest[..];
      dest[d] := 0;
      assert dest[..] == before[d := 0];
      NulAfter(old(dest[..]), before, dest[..], cps, sz, i);
    }
  }

  /** What the first `n` characters put in the buffer: a NUL only when they are all and there is room for it. */
  function Written(cps: seq<nat>, room: nat, n: nat): seq<byte>
    requires n <= |cps|
  {
    EncAll(cps[..n]) + if n == |cps| && |EncAll(cps)| < room then [0] else []
  }

  lemma GivenIs(src: seq<nat>, srcsz: int)
    requires srcsz <= |src|
    ensures var cps := Given(src, srcsz);
            && |cps| <= |src| && (forall j :: 0 <= j < |cps| ==> cps[j] == src[j])
            && (if srcsz < 0 then NoZero(cps) && (|cps| < |src| ==> src[|cps|] == 0) else |cps| == srcsz)
  {
    UpToZeroIs(src);
  }

  lemma StartsEmpty(cps: seq<nat>, was: seq<byte>)
    ensures EncAll(cps[..0]) == [] && Filled(was, was, EncAll(cps[..0]))
  {
  }

  lemma StopsShort(cps: seq<nat>, sz: nat, i: nat)
    requires i < |cps| && |EncAll(cps[..i])| <= sz < |EncAll(cps[..i + 1])|
    ensures LongestFit(cps, sz, i) && Written(cps, sz, i) == EncAll(cps[..i])
  {
  }

  lemma FitsAll(cps: seq<nat>, sz: nat, i: nat)
    requires i == |cps| && |EncAll(cps[..i])| <= sz
    ensures cps[..i] == cps && LongestFit(cps, sz, i)
    ensures |EncAll(cps)| == sz ==> Written(cps, sz, i) == EncAll(cps[..i])
  {
    assert cps[..i] == cps;
  }

  lemma FilledMore(was: seq<byte>, before: seq<byte>, now: seq<byte>, b: seq<byte>, more: seq<byte>)
    requires Filled(was, before, b) && |b| + |more| <= |was| && now == before[..|b|] + more + before[|b| + |more|..]
    ensures Filled(was, now, b + more)
  {
  }

  lemma NulAfter(was: seq<byte>, before: seq<byte>, now: seq<byte>, cps: seq<nat>, sz: nat, i: nat)
    requires i == |cps| && |EncAll(cps[..i])| < sz <= |was| && Filled(was, before, EncAll(cps[..i]))
    requires now == before[|EncAll(cps[..i])| := 0]
    ensures Filled(was, now, Written(cps, sz, i))
  {
    assert cps[..i] == cps;
  }

  lemma PrefixSnoc(cps: seq<nat>, i: nat)
    requires i < |cps|
    ensures EncAll(cps[..i + 1]) == EncAll(cps[..i]) + Enc(cps[i])
  {
    assert cps[..i + 1] == cps[..i] + [cps[i]];
    EncSnoc(cps[..i], cps[i]);
  }

  lemma SizeOfEnc(ch: nat)
    ensures |Enc(ch)| ==
            if ch < 0x80 then 1
            else if ch < 0x800 then 2
            else if ch < 0x10000 then 3
            else if ch < 0x110000 then 4
            else 0
  {
  }

  // ---------- round trips ----------

  /** Decoding what was encoded, whatever the code points. */
  lemma DecodesEncoded(cps: seq<nat>, zt: bool)
    requires CodePoints(cps) && (zt ==> NoZero(cps))
    ensures |cps| <= |EncAll(cps)|
    ensures UcsFrom(EncAll(cps), 0, |EncAll(cps)|, zt, |EncAll(cps)|) == cps
  {
    BoundsGrow(cps, 0, |cps|);
    LastBound(cps);
    UcsFromEnc(cps, 0, zt, |EncAll(cps)|);
    assert cps[0..0 + |cps|] == cps;
  }

  /** Encoding what was decoded, for every text well formed under section 4 of RFC 3629. */
  lemma EncodesDecoded(s: seq<byte>, zt: bool)
    requires WellFormed(s) && (zt ==> 0 !in s)
    ensures EncAll(UcsFrom(s, 0, |s|, zt, |s|)) == s
  {
    var cps := WellFormedIsEnc(s);
    if zt {
      ZeroIsNul(cps);
    }
    DecodesEncoded(cps, zt);
  }

  lemma EncOfZero()
    ensures Enc(0) == [0]
  {
  }

  /** A zero among the characters is a NUL among the bytes. */
  lemma {:induction false} ZeroIsNul(cps: seq<nat>)
    requires 0 !in EncAll(cps)
    ensures NoZero(cps)
  {
    if cps != [] {
      EncOfZero();
      ZeroIsNul(cps[1..]);
    }
  }

  /** Through both routines: any code points come back, in buffers with no byte to spare. */
  method CodePointsRoundTrip(cps: seq<nat>) returns (back: seq<nat>)
    requires CodePoints(cps)
    ensures back == cps
  {
    hide EncAll, UcsFrom, Enc;
    var len := |EncAll(cps)|;
    var bytes := new byte[len];
    var n := ToUtf8(bytes, len, cps, |cps|);
    assert cps[..|cps|] == cps;
    AllFit(cps, len, n);
    assert bytes[..] == EncAll(cps);
    DecodesEncoded(cps, false);
    var ucs := new nat[len + 1];
    var m := ToUcs(ucs, len + 1, bytes[..], len, []);
    back := ucs[..m];
  }

  /** And any well-formed text does. */
  method TextRoundTrip(s: seq<byte>) returns (back: seq<byte>)
    requires WellFormed(s)
    ensures back == s
  {
    hide EncAll, UcsFrom, Enc;
    ghost var cps := WellFormedIsEnc(s);
    DecodesEncoded(cps, false);
    var ucs := new nat[|s| + 1];
    var m := ToUcs(ucs, |s| + 1, s, |s|, []);
    assert ucs[..m] == cps;
    var bytes := new byte[|s|];
    var n := ToUtf8(bytes, |s|, ucs[..m], m);
    assert ucs[..m][..m] == cps;
    AllFit(cps, |s|, n);
    back := bytes[..];
  }

  lemma PrefixIsShort(cps: seq<nat>, m: nat)
    requires m <= |cps|
    ensures |EncAll(cps[..m])| <= |EncAll(cps)|
  {
    EncSplit(cps[..m], cps[m..]);
    assert cps == cps[..m] + cps[m..];
  }

  lemma AllFit(cps: seq<nat>, room: nat, n: nat)
    requires LongestFit(cps, room, n) && |EncAll(cps)| <= room
    ensures n == |cps| && cps[..n] == cps
  {
    if n < |cps| {
      PrefixIsShort(cps, n + 1);
    }
  }
}
