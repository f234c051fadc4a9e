/** What the compressor has written so far, as a growing program: its invariant and its size. */
module LzoWriting {
  import opened Bytes
  import opened LzoFormat
  import opened LzoParse

  // ---------- the invariant ----------

  /** `b` encodes a program for `src[..n]` that starts with a literal run. */
  predicate Open(src: seq<byte>, n: nat, b: seq<byte>, prog: seq<Instr>) {
    && n <= |src|
    && prog != [] && prog[0].Run?
    && WellFormed(prog, Top, []) && Expand(prog, Top, []) == src[..n]
    && ProgBytes(prog) == b
  }

  /** `b` encodes the program for `src[..n]` that these matches make. */
  predicate IsOpen(src: seq<byte>, n: nat, b: seq<byte>, ms: seq<Match>) {
    Chained(src, ms, n) && Open(src, n, b, Program(src, ms, n))
  }

  predicate Emitted(kind: Kind, len: nat, off: nat) {
    FieldsFit(kind, len, off) && !kind.M1? && !kind.M1Far?
  }

  predicate Encodable(m: Match) {
    Emitted(PickKind(m.len, m.off), m.len, m.off)
  }

  /** A match, written with `count` literals to follow. */
  function PendingBytes(m: Match, count: nat): (s: seq<byte>)
    requires Encodable(m) && count <= 3
    ensures 2 <= |s|
  {
    MatchBytes(PickKind(m.len, m.off), m.len, m.off, count)
  }

  predicate GoodMatch(src: seq<byte>, m: Match) {
    && Encodable(m)
    && m.off <= m.at && m.at + m.len <= |src|
    && Repeats(src, m.at, m.at + m.len, m.off)
  }

  /** `b0` and then the last match, its literal count still open, stand for `src[..n]`; or nothing is written yet. */
  predicate Written(src: seq<byte>, n: nat, b0: seq<byte>, ms: seq<Match>) {
    && n <= |src|
    && if ms == [] then n == 0 && b0 == []
       else
         var m := ms[|ms| - 1];
         GoodMatch(src, m) && m.at + m.len == n && IsOpen(src, m.at, b0, ms[..|ms| - 1])
  }

  function DraftBytes(ms: seq<Match>): seq<byte>
    requires ms != [] ==> Encodable(ms[|ms| - 1])
  {
    if ms == [] then [] else PendingBytes(ms[|ms| - 1], 0)
  }

  // ---------- one more instruction ----------

  /** `Append` in the words of the invariant. */
  lemma OpenAppend(src: seq<byte>, n: nat, b: seq<byte>, prog: seq<Instr>, i: Instr, n': nat, bi: seq<byte>)
    requires Open(src, n, b, prog)
    requires Allowed(i, EndContext(prog, Top)) && (i.Copy? ==> i.off <= n)
    requires n' <= |src| && Apply(src[..n], i) == src[..n'] && bi == InstrBytes(i)
    ensures Open(src, n', b + bi, prog + [i])
  {
    AppendExpands(prog, Top, [], i);
    AppendBytes(prog, i);
  }

  /** A literal count goes into the two low bits of the second-to-last byte of a match. */
  predicate Patched(m: seq<byte>, m': seq<byte>, count: nat) {
    |m| >= 2 && count <= 3 && m[|m| - 2] % 4 == 0 && m' == m[|m| - 2 := (m[|m| - 2] as int + count) as byte]
  }

  lemma CountIsPatched(kind: Kind, len: nat, off: nat, count: nat)
    requires Emitted(kind, len, off) && count <= 3
    ensures Patched(MatchBytes(kind, len, off, 0), MatchBytes(kind, len, off, count), count)
  {
    match kind
    case M2 => M2IsPatched(len, off, count);
    case M3 => TailIsPatched(LongHead(M3_MARKER, M3_MAX_LEN, len), off - 1, count);
    case M4 => TailIsPatched(LongHead(M4Marker(off - 0x4000), M4_MAX_LEN, len), off - 0x4000, count);
  }

  lemma M2IsPatched(len: nat, off: nat, count: nat)
    requires FieldsFit(M2, len, off) && count <= 3
    ensures Patched(MatchBytes(M2, len, off, 0), MatchBytes(M2, len, off, count), count)
  {
    var x := (off - 1) % 8;
    assert (len - 1) * 32 + x * 4 == 4 * ((len - 1) * 8 + x);
  }

  lemma TailIsPatched(head: seq<byte>, d: nat, count: nat)
    requires count <= 3
    ensures Patched(head + OffsetBytes(d, 0), head + OffsetBytes(d, count), count)
  {
  }

  /** Patching the last match patches the whole output. */
  lemma PatchedAtEnd(b0: seq<byte>, m: seq<byte>, m': seq<byte>, count: nat)
    requires Patched(m, m', count)
    ensures Patched(b0 + m, b0 + m', count)
  {
  }

  lemma CopiedSoFar(src: seq<byte>, n: nat, off: nat, len: nat)
    requires 1 <= off <= n && n + len <= |src| && Repeats(src, n, n + len, off)
    ensures CopyBack(src[..n], off, len) == src[..n + len]
  {
    assert src[..n + len][..n] == src[..n];
    var r := src[..n + len];
    forall k | n <= k < n + len ensures Echoes(r, k, off) {
      assert Echoes(src, k, off);
    }
    RepeatsIsCopy(src[..n], off, r);
  }

  lemma AppliesToPrefix(src: seq<byte>, n: nat, n': nat, i: Instr)
    requires i.Copy? && 1 <= i.off && i.off + i.len <= n <= n' <= |src|
    requires Repeats(src, n - i.len, n, i.off) && i.lits == src[n..n']
    ensures Apply(src[..n - i.len], i) == src[..n']
  {
    CopiedSoFar(src, n - i.len, i.off, i.len);
    assert src[..n'] == src[..n] + src[n..n'];
  }

  /** A match with the literals `src[n..n']` after it. */
  function Closed(src: seq<byte>, m: Match, n: nat, n': nat): Instr
    requires n <= n' <= |src|
  {
    Copy(PickKind(m.len, m.off), m.len, m.off, src[n..n'])
  }

  /** The last match is written with up to three literals. */
  lemma CloseAppends(src: seq<byte>, m: Match, n': nat, b0: seq<byte>, prog: seq<Instr>)
    requires GoodMatch(src, m) && Open(src, m.at, b0, prog)
    requires m.at + m.len <= n' <= m.at + m.len + 3 && n' <= |src|
    ensures var i := Closed(src, m, m.at + m.len, n'); Shaped(i) && Open(src, n', b0 + InstrBytes(i), prog + [i])
  {
    hide InstrBytes;
    var i := Closed(src, m, m.at + m.len, n');
    AppliesToPrefix(src, m.at + m.len, n', i);
    OpenAppend(src, m.at, b0, prog, i, n', InstrBytes(i));
  }

  lemma Close(src: seq<byte>, n: nat, n': nat, b0: seq<byte>, ms: seq<Match>)
    requires ms != [] && Written(src, n, b0, ms) && n <= n' <= n + 3 && n' <= |src|
    ensures var i := Closed(src, ms[|ms| - 1], n, n'); Shaped(i) && IsOpen(src, n', b0 + InstrBytes(i), ms)
  {
    hide InstrBytes, Open;
    var m, init := ms[|ms| - 1], ms[..|ms| - 1];
    CloseAppends(src, m, n', b0, Program(src, init, m.at));
  }

  lemma FirstRun(src: seq<byte>, n: nat)
    requires 4 <= n <= |src|
    ensures IsOpen(src, n, RunHeader(n) + src[..n], [])
  {
    Prepend(Run(src[..n]), [], Top, []);
    assert [] + src[..n] == src[..n];
    assert [Run(src[..n])] + [] == [Run(src[..n])];
    assert Open(src, n, RunHeader(n) + src[..n], [Run(src[..n])]);
  }

  lemma RunAppends(src: seq<byte>, n: nat, n': nat, b: seq<byte>, prog: seq<Instr>)
    requires Open(src, n, b, prog) && EndContext(prog, Top) == Top && n + 4 <= n' <= |src|
    ensures Open(src, n', b + (RunHeader(n' - n) + src[n..n']), prog + [Run(src[n..n'])])
  {
    hide Expand, ProgBytes, RunHeader, WellFormed;
    assert src[..n'] == src[..n] + src[n..n'];
    OpenAppend(src, n, b, prog, Run(src[n..n']), n', RunHeader(n' - n) + src[n..n']);
  }

  /** A literal run with a header of its own. */
  lemma AddRun(src: seq<byte>, n: nat, n': nat, b0: seq<byte>, ms: seq<Match>)
    requires Written(src, n, b0, ms) && n + 4 <= n' <= |src|
    ensures IsOpen(src, n', b0 + DraftBytes(ms) + (RunHeader(n' - n) + src[n..n']), ms)
  {
    hide Open, RunHeader, MatchBytes;
    if ms == [] {
      FirstRun(src, n');
      assert b0 + DraftBytes(ms) + (RunHeader(n' - n) + src[n..n']) == RunHeader(n') + src[..n'];
    } else {
      var m, init := ms[|ms| - 1], ms[..|ms| - 1];
      var prog, i := Program(src, init, m.at), Closed(src, m, n, n);
      CloseAppends(src, m, n, b0, prog);
      assert InstrBytes(i) == DraftBytes(ms) + src[n..n] == DraftBytes(ms);
      EndsAtTop(prog, i);
      RunAppends(src, n, n', b0 + DraftBytes(ms), prog + [i]);
      assert prog + [i] + [Run(src[n..n'])] == prog + [i, Run(src[n..n'])];
    }
  }

  lemma EndsAtTop(prog: seq<Instr>, i: Instr)
    requires i.Copy? && i.lits == []
    ensures EndContext(prog + [i], Top) == Top
  {
  }

  // ---------- size ----------

  /** What `n` input bytes may take up before the end code. */
  function Room(n: nat): nat {
    n + n / 16
  }

  lemma RunHeaderSize(n: nat)
    requires 4 <= n
    ensures |RunHeader(n)| <= 1 + n / 16
  {
    if n > 18 {
      ExtLength(n - 18);
    }
  }

  /** No other encoding of the match takes fewer bytes. */
  lemma PickIsShortest(kind: Kind, len: nat, off: nat)
    requires Emitted(kind, len, off)
    ensures Emitted(PickKind(len, off), len, off)
    ensures |MatchBytes(PickKind(len, off), len, off, 0)| <= |MatchBytes(kind, len, off, 0)|
  {
  }

  /** Every match the compressor takes is at least one byte shorter than what it stands for. */
  lemma MatchSaves(len: nat, off: nat)
    requires 3 <= len && 1 <= off <= M4_MAX_OFFSET && (M2_MAX_OFFSET < off ==> 4 <= len)
    ensures Emitted(PickKind(len, off), len, off)
    ensures |MatchBytes(PickKind(len, off), len, off, 0)| <= len - 1
  {
    if len > M3_MAX_LEN {
      ExtLength(len - M3_MAX_LEN);
    }
    if len > M4_MAX_LEN {
      ExtLength(len - M4_MAX_LEN);
    }
  }
}
