/**
  The LZO1X byte format, described without reference to the code that reads or
  writes it: instructions, the bytes that denote them and the output they stand for.
 */
module LzoFormat {
  import opened Bytes

  const M1_MAX_OFFSET := 0x400
  const M2_MAX_OFFSET := 0x800
  const M3_MAX_OFFSET := 0x4000
  const M4_MAX_OFFSET := 0xbfff
  const M2_MAX_LEN := 8
  const M3_MAX_LEN := 33
  const M4_MAX_LEN := 9
  const M3_MARKER := 32
  const M4_MARKER := 16

  /** The encodings of a match. `M1Far` is the three-byte match that only follows a literal run. */
  datatype Kind = M1 | M1Far | M2 | M3 | M4

  datatype Instr =
    | Run(bytes: seq<byte>)                                  // a literal run with a header of its own
    | Copy(kind: Kind, len: nat, off: nat, lits: seq<byte>)  // a match, then up to three literals

  /** What came just before an instruction; it decides what a first byte below 16 means. */
  datatype Context = Top | AfterShort | AfterRun

  predicate FieldsFit(kind: Kind, len: nat, off: nat) {
    match kind
    case M1 => len == 2 && 1 <= off <= M1_MAX_OFFSET
    case M1Far => len == 3 && M2_MAX_OFFSET < off <= M2_MAX_OFFSET + M1_MAX_OFFSET
    case M2 => 3 <= len <= M2_MAX_LEN && 1 <= off <= M2_MAX_OFFSET
    case M3 => 3 <= len && 1 <= off <= M3_MAX_OFFSET
    case M4 => 3 <= len && M3_MAX_OFFSET < off <= M4_MAX_OFFSET
  }

  predicate Shaped(i: Instr) {
    match i
    case Run(bytes) => 4 <= |bytes|
    case Copy(kind, len, off, lits) => FieldsFit(kind, len, off) && |lits| <= 3
  }

  predicate AllShaped(prog: seq<Instr>) {
    forall k :: 0 <= k < |prog| ==> Shaped(prog[k])
  }

  predicate Allowed(i: Instr, ctx: Context) {
    && Shaped(i)
    && (i.Run? ==> ctx.Top?)
    && (i.Copy? && i.kind.M1? ==> ctx.AfterShort?)
    && (i.Copy? && i.kind.M1Far? ==> ctx.AfterRun?)
  }

  function Next(i: Instr): Context {
    match i
    case Run(_) => AfterRun
    case Copy(_, _, _, lits) => if lits == [] then Top else AfterShort
  }

  /** The context in which the instruction after `prog` stands. */
  function EndContext(prog: seq<Instr>, ctx: Context): Context {
    if prog == [] then ctx else Next(prog[|prog| - 1])
  }

  // ---------- meaning: the output an instruction sequence produces ----------

  /** The overlapping LZ copy: each byte is the one `off` places back, until there are `end` of them. */
  function CopyUntil(out: seq<byte>, off: nat, end: nat): (r: seq<byte>)
    requires 1 <= off <= |out| <= end
    ensures |r| == end
    decreases end - |out|
  {
    if |out| == end then out else CopyUntil(out + [out[|out| - off]], off, end)
  }

  function CopyBack(out: seq<byte>, off: nat, len: nat): (r: seq<byte>)
    requires 1 <= off <= |out|
    ensures |r| == |out| + len
  {
    CopyUntil(out, off, |out| + len)
  }

  predicate Echoes(s: seq<byte>, k: nat, off: nat) {
    off <= k < |s| && s[k] == s[k - off]
  }

  /** `s[from..to]` repeats what lies `off` bytes before it. */
  predicate Repeats(s: seq<byte>, from: nat, to: nat, off: nat) {
    off <= from && to <= |s| && forall k :: from <= k < to ==> Echoes(s, k, off)
  }

  lemma {:induction false} CopyRepeats(out: seq<byte>, off: nat, end: nat)
    requires 1 <= off <= |out| <= end
    ensures CopyUntil(out, off, end)[..|out|] == out
    ensures Repeats(CopyUntil(out, off, end), |out|, end, off)
    decreases end - |out|
  {
    if |out| < end {
      var next := out + [out[|out| - off]];
      CopyRepeats(next, off, end);
      var r := CopyUntil(next, off, end);
      assert r[..|out|] == r[..|next|][..|out|];
      assert r[|out|] == r[..|next|][|out|] && r[|out| - off] == r[..|next|][|out| - off];
      assert Echoes(r, |out|, off);
    }
  }

  /** Repetition determines the copy: any way of filling the buffer that repeats is the byte-by-byte copy. */
  lemma {:induction false} RepeatsIsCopy(out: seq<byte>, off: nat, r: seq<byte>)
    requires 1 <= off <= |out| <= |r| && r[..|out|] == out
    requires Repeats(r, |out|, |r|, off)
    ensures r == CopyUntil(out, off, |r|)
    decreases |r| - |out|
  {
    if |out| < |r| {
      assert Echoes(r, |out|, off);
      assert r[|out| - off] == r[..|out|][|out| - off];
      assert r[..|out| + 1] == out + [out[|out| - off]];
      RepeatsIsCopy(out + [out[|out| - off]], off, r);
    }
  }

  function Apply(out: seq<byte>, i: Instr): (r: seq<byte>)
    requires i.Copy? ==> 1 <= i.off <= |out|
    ensures |out| <= |r|
  {
    match i
    case Run(bytes) => out + bytes
    case Copy(_, len, off, lits) => CopyBack(out, off, len) + lits
  }

  /** Every instruction stands where it may stand and only looks back into the output before it. */
  predicate WellFormed(prog: seq<Instr>, ctx: Context, out: seq<byte>): (b: bool)
    ensures b ==> AllShaped(prog)
  {
    prog == [] ||
    (var i := prog[0];
     && Allowed(i, ctx)
     && (i.Copy? ==> i.off <= |out|)
     && WellFormed(prog[1..], Next(i), Apply(out, i)))
  }

  function Expand(prog: seq<Instr>, ctx: Context, out: seq<byte>): (r: seq<byte>)
    requires WellFormed(prog, ctx, out)
    ensures |out| <= |r|
  {
    if prog == [] then out
    else Expand(prog[1..], Next(prog[0]), Apply(out, prog[0]))
  }

  // ---------- bytes ----------

  /** A positive number as a run of zero bytes (255 each) and a closing non-zero byte. */
  function Ext(n: nat): (s: seq<byte>)
    requires n > 0
    ensures |s| > 0
  {
    if n > 255 then [0] + Ext(n - 255) else [n as byte]
  }

  lemma {:induction false} ExtLength(n: nat)
    requires n > 0
    ensures |Ext(n)| == 1 + (n - 1) / 255
  {
    if n > 255 {
      ExtLength(n - 255);
    }
  }

  function RunHeader(n: nat): seq<byte>
    requires 4 <= n
  {
    if n <= 18 then [(n - 3) as byte] else [0] + Ext(n - 18)
  }

  /** An M3 or M4 marker with the longest match its length field holds. */
  predicate IsMarker(marker: nat, maxLen: nat) {
    if marker == M3_MARKER then maxLen == M3_MAX_LEN else (marker == 16 || marker == 24) && maxLen == M4_MAX_LEN
  }

  /** The first part of an M3 or M4 match: marker and length. */
  function LongHead(marker: nat, maxLen: nat, len: nat): (s: seq<byte>)
    requires IsMarker(marker, maxLen)
    requires 3 <= len
    ensures |s| > 0
  {
    if len <= maxLen then [(marker + (len - 2)) as byte] else [marker as byte] + Ext(len - maxLen)
  }

  /** Six low bits of a distance above a two-bit literal count, then the next eight bits. */
  function OffsetBytes(d: nat, count: nat): seq<byte>
    requires count <= 3
  {
    [((d % 64) * 4 + count) as byte, ((d / 64) % 256) as byte]
  }

  function M4Marker(d: nat): nat
    requires d < 0x8000
  {
    M4_MARKER + 8 * (d / 0x4000)
  }

  /** A match with the number of literals that follow it. */
  function MatchBytes(kind: Kind, len: nat, off: nat, count: nat): (s: seq<byte>)
    requires FieldsFit(kind, len, off) && count <= 3
    ensures |s| >= 2
  {
    match kind
    case M1 => [(((off - 1) % 4) * 4 + count) as byte, ((off - 1) / 4) as byte]
    case M1Far => var d := off - M2_MAX_OFFSET - 1; [((d % 4) * 4 + count) as byte, (d / 4) as byte]
    case M2 => [((len - 1) * 32 + ((off - 1) % 8) * 4 + count) as byte, ((off - 1) / 8) as byte]
    case M3 => LongHead(M3_MARKER, M3_MAX_LEN, len) + OffsetBytes(off - 1, count)
    case M4 =>
      var d := off - 0x4000;
      LongHead(M4Marker(d), M4_MAX_LEN, len) + OffsetBytes(d, count)
  }

  function InstrBytes(i: Instr): (s: seq<byte>)
    requires Shaped(i)
    ensures |s| >= 2
  {
    match i
    case Run(bytes) => RunHeader(|bytes|) + bytes
    case Copy(kind, len, off, lits) => MatchBytes(kind, len, off, |lits|) + lits
  }

  function ProgBytes(prog: seq<Instr>): seq<byte>
    requires AllShaped(prog)
  {
    if prog == [] then [] else InstrBytes(prog[0]) + ProgBytes(prog[1..])
  }

  /** An M4 match at distance zero ends the stream. The compressor writes `EofBytes(3, 0)`: 17, 0, 0. */
  function EofBytes(len: nat, low: nat): (s: seq<byte>)
    requires 3 <= len && low <= 3
    ensures |s| >= 3
  {
    LongHead(M4_MARKER, M4_MAX_LEN, len) + OffsetBytes(0, low)
  }

  /** A whole compressed block. `lead` are the literals announced by a first byte above 17. */
  datatype Stream = Stream(lead: seq<byte>, prog: seq<Instr>, eofLen: nat, eofLow: nat) {
    function Context0(): Context {
      if lead == [] then Top else if |lead| <= 3 then AfterShort else AfterRun
    }

    predicate Valid() {
      && |lead| <= 238
      && WellFormed(prog, Context0(), lead)
      && 3 <= eofLen && eofLow <= 3
      && (lead == [] ==> Body()[0] <= 17)
    }

    function Body(): (s: seq<byte>)
      requires WellFormed(prog, Context0(), lead) && 3 <= eofLen && eofLow <= 3
      ensures |s| >= 3
    {
      ProgBytes(prog) + EofBytes(eofLen, eofLow)
    }

    function ToBytes(): (s: seq<byte>)
      requires Valid()
      ensures |s| >= 3
    {
      if lead == [] then Body() else [(17 + |lead|) as byte] + lead + Body()
    }

    /** The data the block stands for. */
    function Data(): seq<byte>
      requires Valid()
    {
      Expand(prog, Context0(), lead)
    }
  }

  // ---------- programs grow at either end ----------

  lemma Prepend(i: Instr, rest: seq<Instr>, ctx: Context, out: seq<byte>)
    requires Allowed(i, ctx) && (i.Copy? ==> i.off <= |out|) && WellFormed(rest, Next(i), Apply(out, i))
    ensures WellFormed([i] + rest, ctx, out)
    ensures Expand([i] + rest, ctx, out) == Expand(rest, Next(i), Apply(out, i))
    ensures ProgBytes([i] + rest) == InstrBytes(i) + ProgBytes(rest)
  {
    assert ([i] + rest)[1..] == rest;
  }

  lemma {:induction false} AppendExpands(prog: seq<Instr>, ctx: Context, out: seq<byte>, i: Instr)
    requires WellFormed(prog, ctx, out)
    requires Allowed(i, EndContext(prog, ctx))
    requires i.Copy? ==> i.off <= |Expand(prog, ctx, out)|
    ensures WellFormed(prog + [i], ctx, out)
    ensures Expand(prog + [i], ctx, out) == Apply(Expand(prog, ctx, out), i)
    decreases |prog|
  {
    if prog == [] {
      assert [i][1..] == [];
      assert [] + [i] == [i];
    } else {
      assert (prog + [i])[1..] == prog[1..] + [i];
      AppendExpands(prog[1..], Next(prog[0]), Apply(out, prog[0]), i);
    }
  }

  lemma {:induction false} AppendBytes(prog: seq<Instr>, i: Instr)
    requires AllShaped(prog) && Shaped(i)
    ensures ProgBytes(prog + [i]) == ProgBytes(prog) + InstrBytes(i)
  {
    if prog == [] {
      assert [i][1..] == [];
      assert [] + [i] == [i];
    } else {
      assert (prog + [i])[1..] == prog[1..] + [i];
      AppendBytes(prog[1..], i);
      ConcatAssociates(InstrBytes(prog[0]), ProgBytes(prog[1..]), InstrBytes(i));
    }
  }
}
