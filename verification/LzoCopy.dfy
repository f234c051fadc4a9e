/** Copying into a buffer that is written in place: literals, and matches that overlap what they produce. */
module LzoCopy {
  import opened Bytes
  import opened LzoFormat

  // ---------- match copies ----------

  /** One more byte copied from `off` bytes back. */
  lemma RepeatsByte(before: seq<byte>, after: seq<byte>, from: nat, off: nat)
    requires off <= from <= |before| && |after| == |before| + 1 && after[..|before|] == before
    requires Repeats(before, from, |before|, off) && after[|before|] == after[|before| - off]
    ensures Repeats(after, from, |after|, off)
  {
    assert Echoes(after, |before|, off);
    RepeatsFurther(before, after, from, |before|, |after|, off);
  }

  lemma RepeatsFurther(before: seq<byte>, after: seq<byte>, from: nat, mid: nat, to: nat, off: nat)
    requires |before| == mid <= |after| && after[..mid] == before
    requires Repeats(before, from, mid, off) && Repeats(after, mid, to, off)
    ensures Repeats(after, from, to, off)
  {
    forall k | from <= k < to ensures Echoes(after, k, off) {
      if k < mid {
        assert Echoes(before, k, off);
        assert after[..mid][k] == before[k] && after[..mid][k - off] == before[k - off];
      }
    }
  }

  /** `COPY4(op, m_pos)` inside a match that starts at `from` and ends at `end`: one 32-bit load and one store. */
  method Copy4Back(out: array<byte>, from: nat, op: nat, mPos: nat, end: nat)
    requires mPos + 4 <= op && from <= op && op + 4 <= end <= out.Length
    requires Repeats(out[..op], from, op, op - mPos)
    modifies out
    ensures Repeats(out[..op + 4], from, op + 4, op - mPos)
    ensures out[..from] == old(out[..from]) && out[end..] == old(out[end..])
  {
    ghost var done, off := out[..op], op - mPos;
    out[op], out[op + 1], out[op + 2], out[op + 3] := out[mPos], out[mPos + 1], out[mPos + 2], out[mPos + 3];
    ghost var r := out[..op + 4];
    assert r[..op] == done;
    assert forall k :: op <= k < op + 4 ==> Echoes(r, k, off);
    RepeatsFurther(done, r, from, op, op + 4, off);
  }

  /** `do *op++ = *m_pos++; while (--t > 0)`, for the last `n` bytes of a match that starts at `op`. */
  method CopyBackwards(out: array<byte>, op: nat, at: nat, mPos: nat, n: nat)
    requires mPos < at && op <= at && at + n <= out.Length
    requires Repeats(out[..at], op, at, at - mPos)
    modifies out
    ensures Repeats(out[..at + n], op, at + n, at - mPos)
    ensures out[..at] == old(out[..at]) && out[at + n..] == old(out[at + n..])
  {
    ghost var before, after := out[..at], out[at + n..];
    var k := 0;
    while k < n
      invariant k <= n
      invariant out[..at] == before && out[at + n..] == after
      invariant Repeats(out[..at + k], op, at + k, at - mPos)
    {
      ghost var done := out[..at + k];
      out[at + k] := out[mPos + k];
      RepeatsByte(done, out[..at + k + 1], op, at - mPos);
      k := k + 1;
    }
  }

  /** The label `copy_match`: byte by byte. */
  method CopyMatchBytes(out: array<byte>, op: nat, mPos: nat, len: nat)
    requires mPos < op && op + len <= out.Length
    modifies out
    ensures out[..op + len] == CopyBack(old(out[..op]), op - mPos, len)
    ensures out[op + len..] == old(out[op + len..])
  {
    ghost var before := out[..op];
    CopyBackwards(out, op, op, mPos, len);
    assert out[..op + len][..op] == before;
    RepeatsIsCopy(before, op - mPos, out[..op + len]);
  }

  /** The wide copy: four bytes at a time, then the rest one by one. */
  method CopyMatchWide(out: array<byte>, op: nat, mPos: nat, len: nat)
    requires mPos + 4 <= op && op + len <= out.Length && 8 <= len
    modifies out
    ensures out[..op + len] == CopyBack(old(out[..op]), op - mPos, len)
    ensures out[op + len..] == old(out[op + len..])
  {
    ghost var before, after := out[..op], out[op + len..];
    Copy4Back(out, op, op, mPos, op + len);
    var k, t := 4, len - 4;
    while t >= 4
      invariant k + t == len && 4 <= k
      invariant out[..op] == before && out[op + len..] == after
      invariant Repeats(out[..op + k], op, op + k, op - mPos)
    {
      Copy4Back(out, op, op + k, mPos + k, op + len);
      k, t := k + 4, t - 4;
    }
    ghost var done := out[..op + k];
    CopyBackwards(out, op, op + k, mPos + k, t);
    SamePrefix(done, out[..op + k], op);
    assert out[..op + len][..op] == before;
    RepeatsIsCopy(before, op - mPos, out[..op + len]);
  }

  lemma SamePrefix(a: seq<byte>, b: seq<byte>, k: nat)
    requires a == b && k <= |a|
    ensures a[..k] == b[..k]
  {
  }

  lemma SliceSplit(s: seq<byte>, a: nat, b: nat, c: nat)
    requires a <= b <= c <= |s|
    ensures s[a..c] == s[a..b] + s[b..c]
  {
  }

  // ---------- literal copies ----------

  /** `do *op++ = *ip++; while (--t > 0)`. */
  method CopyLiterals(src: seq<byte>, ip: nat, out: array<byte>, op: nat, n: nat)
    requires ip + n <= |src| && op + n <= out.Length
    modifies out
    ensures out[..op + n] == old(out[..op]) + src[ip..ip + n]
    ensures out[op + n..] == old(out[op + n..])
  {
    ghost var before, after := out[..op], out[op + n..];
    var k := 0;
    while k < n
      invariant k <= n
      invariant out[..op + k] == before + src[ip..ip + k] && out[op + n..] == after
    {
      out[op + k] := src[ip + k];
      k := k + 1;
    }
  }

  /** `COPY4(op, ip)` inside a run that started at `from` after `before` and ends at `end` in the output. */
  method Copy4From(src: seq<byte>, ip: nat, out: array<byte>, op: nat, end: nat, ghost before: seq<byte>,
                   ghost from: nat)
    requires from <= ip && ip + 4 <= |src| && op + 4 <= end <= out.Length
    requires out[..op] == before + src[from..ip]
    modifies out
    ensures out[..op + 4] == before + src[from..ip + 4]
    ensures out[end..] == old(out[end..])
  {
    ghost var done := out[..op];
    out[op], out[op + 1], out[op + 2], out[op + 3] := src[ip], src[ip + 1], src[ip + 2], src[ip + 3];
    assert out[..op + 4] == done + src[ip..ip + 4];
    SliceSplit(src, from, ip, ip + 4);
  }

  /** The literal run of `n = t + 3` bytes: `COPY4` first, the last one to three bytes singly. */
  method CopyRun(src: seq<byte>, ip: nat, out: array<byte>, op: nat, n: nat)
    requires 4 <= n && ip + n <= |src| && op + n <= out.Length
    modifies out
    ensures out[..op + n] == old(out[..op]) + src[ip..ip + n]
    ensures out[op + n..] == old(out[op + n..])
  {
    ghost var before, after := out[..op], out[op + n..];
    Copy4From(src, ip, out, op, op + n, before, ip);
    var k, t := 4, n - 4;
    while t >= 4
      invariant k + t == n && 4 <= k
      invariant out[..op + k] == before + src[ip..ip + k]
      invariant out[op + n..] == after
    {
      Copy4From(src, ip + k, out, op + k, op + n, before, ip);
      k, t := k + 4, t - 4;
    }
    SliceSplit(src, ip, ip + k, ip + n);
    CopyLiterals(src, ip + k, out, op + k, t);
  }
}
