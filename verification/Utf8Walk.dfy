/**
  Moving through UTF-8 text by looking for continuation bytes, and why that finds the characters the lead bytes
  announce.
*/
module Utf8Walk {
  import opened Bytes
  import opened Utf8Format
  import opened Utf8Convert

  // ---------- boundaries seen by scanning ----------

  /** `j` is the first place after `i` that holds no continuation byte; the terminating NUL is none. */
  predicate IsNextStart(s: seq<byte>, i: nat, j: nat) {
    i < j <= |s| && IsUtf(At(s, j)) && forall k :: i < k < j ==> !IsUtf(At(s, k))
  }

  /** Where `u8_inc` goes: at most four bytes on. */
  predicate IsInc(s: seq<byte>, i: nat, j: nat) {
    && i < j <= |s| && j <= i + 4
    && (forall k :: i < k < j ==> !IsUtf(At(s, k)))
    && (j < i + 4 ==> IsUtf(At(s, j)))
  }

  /** Where `u8_dec` goes: at most four bytes back. */
  predicate IsDec(s: seq<byte>, i: nat, j: nat) {
    && j < i <= |s| && i <= j + 4
    && (forall k :: j < k < i ==> !IsUtf(At(s, k)))
    && (i < j + 4 ==> IsUtf(At(s, j)))
  }

  /** In a text: a boundary holds no continuation byte, and between boundaries there is nothing else. */
  lemma StartsAtBounds(cps: seq<nat>, k: nat)
    requires CodePoints(cps) && k <= |cps|
    ensures var s := EncAll(cps); Bound(cps, k) <= |s| && IsUtf(At(s, Bound(cps, k)))
    ensures k < |cps| ==> var s := EncAll(cps);
            && Bound(cps, k) < Bound(cps, k + 1) <= Bound(cps, k) + 4 && Bound(cps, k + 1) <= |s|
            && forall j :: Bound(cps, k) < j < Bound(cps, k + 1) ==> !IsUtf(At(s, j))
  {
    hide Enc, EncAll, Bound, Value, IsUtf;
    BoundsGrow(cps, k, |cps|);
    LastBound(cps);
    NulIsStart();
    if k < |cps| {
      BytesAt(cps, k);
      EncodedChar(cps[k]);
      var s, p := EncAll(cps), Bound(cps, k);
      assert s[p] == s[p + 0];
      forall j | p < j < Bound(cps, k + 1) ensures !IsUtf(At(s, j)) {
        assert s[p + (j - p)] == Enc(cps[k])[j - p];
      }
    }
  }

  lemma NulIsStart()
    ensures IsUtf(0)
  {
  }

  /** The scan from one character stops at the next. */
  lemma NextIsNextBound(cps: seq<nat>, k: nat, j: nat)
    requires CodePoints(cps) && k < |cps|
    ensures IsNextStart(EncAll(cps), Bound(cps, k), j) <==> j == Bound(cps, k + 1)
  {
    hide EncAll, Bound, IsUtf;
    StartsAtBounds(cps, k);
    StartsAtBounds(cps, k + 1);
  }

  lemma IncIsNextBound(cps: seq<nat>, k: nat, j: nat)
    requires CodePoints(cps) && k < |cps|
    ensures IsInc(EncAll(cps), Bound(cps, k), j) <==> j == Bound(cps, k + 1)
  {
    hide EncAll, Bound, IsUtf;
    StartsAtBounds(cps, k);
    StartsAtBounds(cps, k + 1);
  }

  /** The scan back from a character stops at the one before. */
  lemma DecIsPreviousBound(cps: seq<nat>, k: nat, j: nat)
    requires CodePoints(cps) && k < |cps|
    ensures IsDec(EncAll(cps), Bound(cps, k + 1), j) <==> j == Bound(cps, k)
  {
    hide EncAll, Bound, IsUtf;
    StartsAtBounds(cps, k);
    StartsAtBounds(cps, k + 1);
  }

  lemma DecUndoesInc(cps: seq<nat>, k: nat, j: nat, i: nat)
    requires CodePoints(cps) && k < |cps|
    requires IsInc(EncAll(cps), Bound(cps, k), j) && IsDec(EncAll(cps), j, i)
    ensures i == Bound(cps, k)
  {
    hide IsInc, IsDec;
    IncIsNextBound(cps, k, j);
    DecIsPreviousBound(cps, k, i);
  }

  /** Lead-byte table and continuation-byte scan agree, on boundaries and on values. */
  lemma ScanAgreesWithTable(cps: seq<nat>, k: nat, j: nat)
    requires CodePoints(cps) && k < |cps| && IsNextStart(EncAll(cps), Bound(cps, k), j)
    ensures var s, p := EncAll(cps), Bound(cps, k);
            && p < |s| && j == p + Took(Trailing(At(s, p))) == Bound(cps, k + 1) <= p + 4
            && Value(s[p..j]) == CharOf(s, p) == cps[k]
  {
    hide EncAll, Bound, IsNextStart, Enc, Folded;
    NextIsNextBound(cps, k, j);
    StartsAtBounds(cps, k);
    BytesAt(cps, k);
    EncodedChar(cps[k]);
    CharOfEnc(cps, k);
    WholeChar(EncAll(cps), cps, k);
  }

  // ---------- the routines ----------

  /** `u8_nextchar`: shifts bytes together until the next one starts a character. */
  method NextChar(s: seq<byte>, i: nat) returns (ch: nat, i': nat)
    requires i < |s| && exists j: nat :: j <= i + 6 && IsNextStart(s, i, j)
    ensures IsNextStart(s, i, i') && i' <= i + 6 && ch == Value(s[i..i'])
  {
    hide IsUtf;
    ch, i' := s[i] as nat, i + 1;
    assert s[i..i + 1] == [s[i]];
    Folded1(s[i]);
    while i' < |s| && !IsUtf(s[i'])
      invariant i < i' <= |s| && ch == Folded(s[i..i']) && ch < U32
      invariant forall k :: i < k < i' ==> !IsUtf(At(s, k))
      decreases |s| - i'
    {
      FoldedMore(s, i, i');
      ch := (ch * 64 % U32 + s[i'] as nat) % U32;
      i' := i' + 1;
    }
    NulIsStart();
    ch := (ch - OFFSETS[i' - i - 1]) % U32;
  }

  lemma FoldedMore(s: seq<byte>, i: nat, j: nat)
    requires i <= j < |s|
    ensures Folded(s[i..j + 1]) == (Folded(s[i..j]) * 64 % U32 + s[j] as nat) % U32
  {
    var b := s[i..j + 1];
    assert b[..|b| - 1] == s[i..j];
    ShiftInTwoSteps(Folded(s[i..j]), s[j] as nat);
  }

  lemma ShiftInTwoSteps(x: nat, b: nat)
    ensures (x * 64 + b) % U32 == (x * 64 % U32 + b) % U32
  {
  }

  method Inc(s: seq<byte>, i: nat) returns (i': nat)
    requires i < |s|
    ensures IsInc(s, i, i')
  {
    NulIsStart();
    i' := i + 1;
    if IsUtf(At(s, i')) { return; }
    i' := i' + 1;
    if IsUtf(At(s, i')) { return; }
    i' := i' + 1;
    if IsUtf(At(s, i')) { return; }
    i' := i' + 1;
  }

  /** The index must not run off the front: four bytes are there, or the text starts with a character. */
  method Dec(s: seq<byte>, i: nat) returns (i': nat)
    requires 0 < i <= |s| && (i >= 4 || IsUtf(s[0]))
    ensures IsDec(s, i, i')
  {
    i' := i - 1;
    if IsUtf(At(s, i')) { return; }
    i' := i' - 1;
    if IsUtf(At(s, i')) { return; }
    i' := i' - 1;
    if IsUtf(At(s, i')) { return; }
    i' := i' - 1;
  }

  /** Character number to byte offset; past the last character, the end of the text. */
  method Offset(s: seq<byte>, charnum: int, ghost cps: seq<nat>) returns (offs: nat)
    requires CodePoints(cps) && NoZero(cps) && s == EncAll(cps)
    ensures offs == Bound(cps, if charnum < 0 then 0 else if charnum < |cps| then charnum else |cps|)
  {
    hide EncAll, Bound, IsInc;
    ghost var k: nat := 0;
    var left := charnum;
    offs := 0;
    LastBound(cps);
    StartOrEnd(cps, 0);
    while left > 0 && At(s, offs) != 0
      invariant k <= |cps| && offs == Bound(cps, k) <= |s| && (At(s, offs) == 0 <==> k == |cps|)
      invariant if charnum < 0 then k == 0 else left >= 0 && k + left == charnum
      decreases left
    {
      offs := Inc(s, offs);
      IncIsNextBound(cps, k, offs);
      k := k + 1;
      StartOrEnd(cps, k);
      left := left - 1;
    }
  }

  /** Byte offset to character number: how many characters start before the offset. */
  method CharNum(s: seq<byte>, offset: int, ghost cps: seq<nat>) returns (charnum: nat)
    requires CodePoints(cps) && NoZero(cps) && s == EncAll(cps)
    ensures charnum <= |cps| && forall k :: 0 <= k < |cps| ==> (k < charnum <==> Bound(cps, k) < offset)
    ensures forall k :: 0 <= k <= |cps| && offset == Bound(cps, k) ==> charnum == k
  {
    hide EncAll, Bound, IsInc;
    var offs := 0;
    charnum := 0;
    LastBound(cps);
    StartOrEnd(cps, 0);
    while offs < offset && At(s, offs) != 0
      invariant charnum <= |cps| && 0 <= offs == Bound(cps, charnum) <= |s| && (At(s, offs) == 0 <==> charnum == |cps|)
      invariant charnum > 0 ==> Bound(cps, charnum - 1) < offset
      decreases |cps| - charnum
    {
      offs := Inc(s, offs);
      IncIsNextBound(cps, charnum, offs);
      charnum := charnum + 1;
      StartOrEnd(cps, charnum);
    }
    BoundsInOrder(cps);
  }

  /** At a boundary of a text without NULs: a NUL means the end. */
  lemma StartOrEnd(cps: seq<nat>, k: nat)
    requires CodePoints(cps) && NoZero(cps) && k <= |cps|
    ensures Bound(cps, k) <= |EncAll(cps)| && (At(EncAll(cps), Bound(cps, k)) == 0 <==> k == |cps|)
  {
    hide EncAll, Bound;
    WholeChar(EncAll(cps), cps, k);
    if k < |cps| {
      CharOfEnc(cps, k);
    }
  }

  lemma BoundsInOrder(cps: seq<nat>)
    requires CodePoints(cps)
    ensures forall k, n :: 0 <= k < n <= |cps| ==> Bound(cps, k) < Bound(cps, n)
  {
    forall k, n | 0 <= k < n <= |cps| ensures Bound(cps, k) < Bound(cps, n) {
      BoundsGrow(cps, k, n);
    }
  }
}
