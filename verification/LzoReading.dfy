/**
  The decoder reads the format: on the bytes of an instruction it does what the
  instruction means, and on the bytes of a whole stream it returns the stream's data.
 */
module LzoReading {
  import opened Bytes
  import opened LzoFormat
  import opened LzoMachine

  /** The bytes `b` stand at `ip`. */
  predicate Holds(src: seq<byte>, ip: nat, b: seq<byte>) {
    ip + |b| <= |src| && forall k :: 0 <= k < |b| ==> SameAt(src, ip, b, k)
  }

  predicate SameAt(src: seq<byte>, ip: nat, b: seq<byte>, k: nat) {
    ip + k < |src| && k < |b| && b[k] == src[ip + k]
  }

  lemma HoldsSlice(src: seq<byte>, ip: nat, b: seq<byte>)
    requires ip + |b| <= |src|
    ensures Holds(src, ip, b) <==> src[ip..ip + |b|] == b
  {
    if Holds(src, ip, b) {
      forall k | 0 <= k < |b| ensures src[ip..ip + |b|][k] == b[k] {
        assert SameAt(src, ip, b, k);
      }
    }
  }

  lemma HoldsParts(src: seq<byte>, ip: nat, a: seq<byte>, b: seq<byte>)
    ensures Holds(src, ip, a + b) <==> Holds(src, ip, a) && Holds(src, ip + |a|, b)
  {
    if Holds(src, ip, a + b) {
      forall k | 0 <= k < |a| ensures SameAt(src, ip, a, k) {
        assert SameAt(src, ip, a + b, k);
      }
      var mid := ip + |a|;
      forall k | 0 <= k < |b| ensures SameAt(src, mid, b, k) {
        assert SameAt(src, ip, a + b, |a| + k);
      }
    }
    if Holds(src, ip, a) && Holds(src, ip + |a|, b) {
      var c := a + b;
      forall k | 0 <= k < |c| ensures SameAt(src, ip, c, k) {
        assert if k < |a| then SameAt(src, ip, a, k) else SameAt(src, ip + |a|, b, k - |a|);
      }
    }
  }

  lemma HoldsAt(src: seq<byte>, ip: nat, b: seq<byte>, k: nat)
    requires Holds(src, ip, b) && k < |b|
    ensures src[ip + k] == b[k]
  {
    assert SameAt(src, ip, b, k);
  }

  /** Where the decoder stands when the next instruction, in context `ctx`, starts at `ip`. */
  function Ready(c: Config, ctx: Context, ip: nat, out: seq<byte>): State
    requires ip < |c.src|
  {
    match ctx
    case Top => State(ip, out, LoopTop)
    case AfterRun => State(ip, out, FirstLiteralRun)
    case AfterShort => State(ip + 1, out, Match(c.At(ip)))
  }

  /** The safe decoder, with `ip` inside the block it is given. */
  predicate Within(c: Config, ip: nat) {
    c.safe && ip <= c.inLen <= |c.src|
  }

  /** As above, with the two bytes of the shortest match still to come. */
  predicate BeforeMore(c: Config, ip: nat) {
    Within(c, ip + 2)
  }

  /** The safe decoder, where only the two offset bytes before `end` may be past the block: they are not tested. */
  predicate Fetches(c: Config, end: nat) {
    c.safe && 2 <= end <= c.inLen + 2 && c.inLen <= |c.src| && end <= |c.src|
  }

  // ---------- lengths ----------

  lemma {:induction false} ReadsExt(c: Ideal, ip: nat, n: nat, t: nat)
    requires n > 0 && Holds(c.src, ip, Ext(n)) && Within(c, ip + |Ext(n)|)
    ensures c.ReadLength(ip, t) == Got(ip + |Ext(n)|, t + n)
    decreases n
  {
    HoldsAt(c.src, ip, Ext(n), 0);
    if n > 255 {
      HoldsParts(c.src, ip, [0], Ext(n - 255));
      ReadsExt(c, ip + 1, n - 255, t + 255);
    }
  }

  lemma ReadsHead(c: Ideal, ip: nat, marker: nat, maxLen: nat, len: nat)
    requires IsMarker(marker, maxLen)
    requires 3 <= len
    requires Holds(c.src, ip, LongHead(marker, maxLen, len)) && Within(c, ip + |LongHead(marker, maxLen, len)|)
    ensures var field := if len <= maxLen then len - 2 else 0;
            && c.At(ip) == marker + field
            && c.FieldOrLength(field, ip + 1, maxLen - 2) == Got(ip + |LongHead(marker, maxLen, len)|, len - 2)
  {
    HoldsAt(c.src, ip, LongHead(marker, maxLen, len), 0);
    if len > maxLen {
      HoldsParts(c.src, ip, [marker as byte], Ext(len - maxLen));
      ReadsExt(c, ip + 1, len - maxLen, maxLen - 2);
    }
  }

  lemma ReadsOffset(c: Ideal, ip: nat, d: nat, count: nat)
    requires count <= 3 && Holds(c.src, ip, OffsetBytes(d, count))
    ensures c.Offset14(ip) == d % 0x4000
    ensures c.At(ip) % 4 == count
  {
    hide Holds;
    HoldsAt(c.src, ip, OffsetBytes(d, count), 0);
    HoldsAt(c.src, ip, OffsetBytes(d, count), 1);
    OffsetDigits(d, count);
  }

  /** Six bits of the distance above the literal count, eight more in the next byte. */
  lemma OffsetDigits(d: nat, count: nat)
    requires count <= 3
    ensures ((d % 64) * 4 + count) / 4 == d % 64 && ((d % 64) * 4 + count) % 4 == count
    ensures d % 0x4000 == d % 64 + 64 * ((d / 64) % 256)
  {
  }

  /** Marker, length and offset bytes of an M3 or M4 match, or of the end code. */
  lemma ReadsLong(c: Ideal, ip: nat, marker: nat, maxLen: nat, len: nat, d: nat, count: nat, end: nat)
    requires IsMarker(marker, maxLen)
    requires 3 <= len && count <= 3
    requires Holds(c.src, ip, LongHead(marker, maxLen, len) + OffsetBytes(d, count))
    requires end == ip + |LongHead(marker, maxLen, len)| + 2 && Fetches(c, end)
    ensures ip + 3 <= end
    ensures var field := if len <= maxLen then len - 2 else 0;
            c.At(ip) == marker + field && c.FieldOrLength(field, ip + 1, maxLen - 2) == Got(end - 2, len - 2)
    ensures c.Offset14(end - 2) == d % 0x4000
    ensures c.At(end - 2) % 4 == count
  {
    var head := LongHead(marker, maxLen, len);
    HoldsParts(c.src, ip, head, OffsetBytes(d, count));
    ReadsHead(c, ip, marker, maxLen, len);
    ReadsOffset(c, end - 2, d, count);
  }

  // ---------- matches ----------

  /** The state after a match, before its literal count is looked at. */
  function Copied(ip: nat, out: seq<byte>, off: nat, len: nat): State
    requires 1 <= off <= |out|
  {
    State(ip, CopyBack(out, off, len), MatchDone)
  }

  predicate Copies(c: Config, out: seq<byte>, off: nat, len: nat) {
    1 <= off <= |out| && |out| + len <= c.cap
  }

  /** The tests and the copy of a match whose bytes end at `ip`. */
  function Tried(c: Config, ip: nat, out: seq<byte>, off: nat, len: nat): State {
    c.CopyMatch(State(ip, out, MatchDone), off, len)
  }

  lemma CopiesInside(c: Ideal, ip: nat, out: seq<byte>, off: nat, len: nat)
    requires Copies(c, out, off, len)
    ensures Tried(c, ip, out, off, len) == Copied(ip, out, off, len)
  {
  }

  /** With its length and offset bytes read, an M3 or M4 match is tried. */
  lemma TriesLong(c: Ideal, s: State, field: nat, lenBase: nat, base: nat, m4: bool, len: nat, off: nat, end: nat)
    requires s.ip <= end - 2 && end <= |c.src| && 3 <= len
    requires c.FieldOrLength(field, s.ip, lenBase) == Got(end - 2, len - 2)
    requires base + c.Offset14(end - 2) == if m4 then off - 0x4000 else off
    requires m4 ==> 0x4000 < off
    ensures c.AtLongMatch(s, field, lenBase, base, m4) == Tried(c, end, s.out, off, len)
  {
  }

  lemma ReadsM3(c: Ideal, ip: nat, out: seq<byte>, len: nat, off: nat, count: nat, end: nat)
    requires FieldsFit(M3, len, off) && count <= 3
    requires Holds(c.src, ip, LongHead(M3_MARKER, M3_MAX_LEN, len) + OffsetBytes(off - 1, count))
    requires end == ip + |LongHead(M3_MARKER, M3_MAX_LEN, len)| + 2 && Fetches(c, end)
    ensures ip + 2 <= end && c.At(end - 2) % 4 == count
    ensures 32 <= c.At(ip) < 64
    ensures c.AtMatch(State(ip + 1, out, Match(c.At(ip))), c.At(ip)) == Tried(c, end, out, off, len)
  {
    hide Holds, Tried, LongHead, OffsetBytes, Config.AtLongMatch, Config.FieldOrLength;
    ReadsLong(c, ip, M3_MARKER, M3_MAX_LEN, len, off - 1, count, end);
    var t := c.At(ip);
    assert t % 32 == if len <= M3_MAX_LEN then len - 2 else 0;
    TriesLong(c, State(ip + 1, out, Match(c.At(ip))), t % 32, 31, 1, false, len, off, end);
  }

  lemma M4Distance(d: nat)
    requires d < 0x8000
    ensures ((M4Marker(d) / 8) % 2) * 0x4000 + d % 0x4000 == d
    ensures IsMarker(M4Marker(d), M4_MAX_LEN)
  {
  }

  /** Distance bit and length field of the first byte come apart again. */
  lemma M4Fields(d: nat, field: nat)
    requires d < 0x8000 && field < 8
    ensures var t := M4Marker(d) + field;
            16 <= t < 32 && t % 8 == field && (t / 8) % 2 == (M4Marker(d) / 8) % 2
  {
  }

  lemma ReadsM4(c: Ideal, ip: nat, out: seq<byte>, len: nat, d: nat, count: nat, end: nat)
    requires 3 <= len && 0 < d < 0x8000 && count <= 3
    requires IsMarker(M4Marker(d), M4_MAX_LEN)
    requires Holds(c.src, ip, LongHead(M4Marker(d), M4_MAX_LEN, len) + OffsetBytes(d, count))
    requires end == ip + |LongHead(M4Marker(d), M4_MAX_LEN, len)| + 2 && Fetches(c, end)
    ensures ip + 2 <= end && c.At(end - 2) % 4 == count
    ensures 16 <= c.At(ip) < 32
    ensures c.AtMatch(State(ip + 1, out, Match(c.At(ip))), c.At(ip)) == Tried(c, end, out, d + 0x4000, len)
  {
    hide Holds, Tried, LongHead, OffsetBytes, Config.AtLongMatch, Config.FieldOrLength;
    M4Distance(d);
    ReadsLong(c, ip, M4Marker(d), M4_MAX_LEN, len, d, count, end);
    var t := c.At(ip);
    M4Fields(d, if len <= M4_MAX_LEN then len - 2 else 0);
    TriesLong(c, State(ip + 1, out, Match(c.At(ip))), t % 8, 7, ((t / 8) % 2) * 0x4000, true, len, d + 0x4000, end);
  }

  lemma M2Splits(len: nat, x: nat, count: nat)
    requires 3 <= len <= M2_MAX_LEN && x < M2_MAX_OFFSET && count <= 3
    ensures var t := (len - 1) * 32 + (x % 8) * 4 + count; t / 32 == len - 1 && (t / 4) % 8 == x % 8 && t % 4 == count
    ensures x % 8 + (x / 8) * 8 == x
  {
    var t := (len - 1) * 32 + (x % 8) * 4 + count;
    assert t / 4 == (len - 1) * 8 + x % 8;
  }

  lemma ReadsM2(c: Ideal, ip: nat, out: seq<byte>, len: nat, off: nat, count: nat)
    requires FieldsFit(M2, len, off) && count <= 3
    requires Holds(c.src, ip, MatchBytes(M2, len, off, count)) && Fetches(c, ip + 2)
    ensures 64 <= c.At(ip)
    ensures c.AtMatch(State(ip + 1, out, Match(c.At(ip))), c.At(ip)) == Tried(c, ip + 2, out, off, len)
    ensures c.At(ip) % 4 == count
  {
    hide Holds;
    HoldsAt(c.src, ip, MatchBytes(M2, len, off, count), 0);
    HoldsAt(c.src, ip, MatchBytes(M2, len, off, count), 1);
    M2Splits(len, off - 1, count);
    assert c.At(ip) == (len - 1) * 32 + ((off - 1) % 8) * 4 + count && c.At(ip + 1) == (off - 1) / 8;
  }

  /** A quotient and a two-bit remainder above a two-bit count come apart again. */
  lemma SplitFields(x: nat, count: nat)
    requires count <= 3
    ensures ((x % 4) * 4 + count) / 4 == x % 4 && ((x % 4) * 4 + count) % 4 == count
    ensures x % 4 + (x / 4) * 4 == x
  {
  }

  lemma ReadsM1(c: Ideal, ip: nat, out: seq<byte>, len: nat, off: nat, count: nat)
    requires FieldsFit(M1, len, off) && count <= 3
    requires Holds(c.src, ip, MatchBytes(M1, len, off, count)) && Fetches(c, ip + 2)
    ensures c.At(ip) < 16
    ensures c.AtMatch(State(ip + 1, out, Match(c.At(ip))), c.At(ip)) == Tried(c, ip + 2, out, off, len)
    ensures c.At(ip) % 4 == count
  {
    HoldsAt(c.src, ip, MatchBytes(M1, len, off, count), 0);
    HoldsAt(c.src, ip, MatchBytes(M1, len, off, count), 1);
    SplitFields(off - 1, count);
    assert c.At(ip) == ((off - 1) % 4) * 4 + count && c.At(ip + 1) == (off - 1) / 4;
  }

  lemma ReadsM1Far(c: Ideal, ip: nat, out: seq<byte>, len: nat, off: nat, count: nat)
    requires FieldsFit(M1Far, len, off) && count <= 3
    requires Holds(c.src, ip, MatchBytes(M1Far, len, off, count)) && Fetches(c, ip + 2)
    ensures c.At(ip) < 16
    ensures c.AtFirstLiteralRun(State(ip, out, FirstLiteralRun)) == Tried(c, ip + 2, out, off, len)
    ensures |MatchBytes(M1Far, len, off, count)| == 2
    ensures c.At(ip) % 4 == count
  {
    HoldsAt(c.src, ip, MatchBytes(M1Far, len, off, count), 0);
    HoldsAt(c.src, ip, MatchBytes(M1Far, len, off, count), 1);
    var d := off - M2_MAX_OFFSET - 1;
    SplitFields(d, count);
    assert c.At(ip) == (d % 4) * 4 + count && c.At(ip + 1) == d / 4;
  }

  /** At the label `match`: everything but the far M1 match. */
  lemma ReadsAtMatch(c: Ideal, ip: nat, out: seq<byte>, kind: Kind, len: nat, off: nat, count: nat, end: nat)
    requires FieldsFit(kind, len, off) && !kind.M1Far? && count <= 3
    requires Holds(c.src, ip, MatchBytes(kind, len, off, count))
    requires end == ip + |MatchBytes(kind, len, off, count)| && Fetches(c, end)
    ensures ip + 2 <= end && c.At(end - 2) % 4 == count
    ensures !kind.M1? ==> 16 <= c.At(ip)
    ensures c.AtMatch(State(ip + 1, out, Match(c.At(ip))), c.At(ip)) == Tried(c, end, out, off, len)
  {
    hide Holds, Config.AtMatch;
    match kind {
      case M1 => ReadsM1(c, ip, out, len, off, count);
      case M2 => ReadsM2(c, ip, out, len, off, count);
      case M3 => ReadsM3(c, ip, out, len, off, count, end);
      case M4 => M4Distance(off - 0x4000); ReadsM4(c, ip, out, len, off - 0x4000, count, end);
    }
  }

  /** A first byte of at least 16 reaches the label `match` from every context. */
  lemma ReachesMatch(c: Ideal, ctx: Context, ip: nat, out: seq<byte>)
    requires Fetches(c, ip + 2) && ip < c.inLen && (ctx.AfterShort? || c.At(ip) >= 16)
    ensures c.Run(Ready(c, ctx, ip, out)) == c.Run(State(ip + 1, out, Match(c.At(ip))))
  {
  }

  /** From any context the bytes of a match lead to its tests and its copy. */
  lemma ReadsMatch(c: Ideal, ctx: Context, ip: nat, out: seq<byte>, kind: Kind, len: nat, off: nat, count: nat,
                   end: nat)
    requires FieldsFit(kind, len, off) && count <= 3
    requires (kind.M1? ==> ctx.AfterShort?) && (kind.M1Far? ==> ctx.AfterRun?)
    requires Holds(c.src, ip, MatchBytes(kind, len, off, count))
    requires end == ip + |MatchBytes(kind, len, off, count)| && Fetches(c, end) && ip < c.inLen
    ensures c.Run(Ready(c, ctx, ip, out)) == c.Run(Tried(c, end, out, off, len))
    ensures ip + 2 <= end && c.At(end - 2) % 4 == count
  {
    hide Holds, Tried, MatchBytes, Config.AtMatch, Config.AtFirstLiteralRun;
    if kind.M1Far? {
      ReadsM1Far(c, ip, out, len, off, count);
    } else {
      ReadsAtMatch(c, ip, out, kind, len, off, count, end);
      ReachesMatch(c, ctx, ip, out);
      assert c.Step(State(ip + 1, out, Match(c.At(ip)))) == Tried(c, end, out, off, len);
    }
  }

  lemma TakesLiterals(c: Ideal, s: State, lits: seq<byte>, next: Label)
    requires Holds(c.src, s.ip, lits) && BeforeMore(c, s.ip + |lits|) && |s.out| + |lits| <= c.cap
    ensures c.Literals(s, |lits|, next) == State(s.ip + |lits|, s.out + lits, next)
  {
    HoldsSlice(c.src, s.ip, lits);
  }

  /** After a match: its literals, found through the low bits of the second-to-last byte read. */
  lemma ReadsShortLiterals(c: Ideal, ip: nat, out: seq<byte>, lits: seq<byte>)
    requires 2 <= ip && |lits| <= 3 && |out| + |lits| <= c.cap
    requires Holds(c.src, ip, lits) && BeforeMore(c, ip + |lits|) && c.At(ip - 2) % 4 == |lits|
    ensures c.Run(State(ip, out, MatchDone))
         == c.Run(Ready(c, if lits == [] then Top else AfterShort, ip + |lits|, out + lits))
  {
    var s := State(ip, out, MatchDone);
    if lits == [] {
      assert out + lits == out;
      assert c.Step(s) == State(ip, out, LoopTop);
    } else {
      assert c.Step(s) == State(ip, out, MatchNext(|lits|));
      TakesLiterals(c, State(ip, out, MatchNext(|lits|)), lits, MatchDone);
      assert c.Step(c.Step(s)) == Ready(c, AfterShort, ip + |lits|, out + lits);
    }
  }

  lemma ReadsRunHeader(c: Ideal, ip: nat, n: nat)
    requires 4 <= n && Holds(c.src, ip, RunHeader(n)) && Within(c, ip + |RunHeader(n)|)
    ensures c.At(ip) < 16
    ensures c.FieldOrLength(c.At(ip), ip + 1, 15) == Got(ip + |RunHeader(n)|, n - 3)
  {
    HoldsAt(c.src, ip, RunHeader(n), 0);
    if n > 18 {
      HoldsParts(c.src, ip, [0], Ext(n - 18));
      ReadsExt(c, ip + 1, n - 18, 15);
    }
  }

  lemma TakesRun(c: Ideal, ip: nat, out: seq<byte>, mid: nat, bytes: seq<byte>)
    requires 4 <= |bytes| && |out| + |bytes| <= c.cap && ip < c.inLen && ip < |c.src|
    requires c.At(ip) < 16 && c.FieldOrLength(c.At(ip), ip + 1, 15) == Got(mid, |bytes| - 3)
    requires Holds(c.src, mid, bytes) && BeforeMore(c, mid + |bytes|)
    ensures c.Step(State(ip, out, LoopTop)) == State(mid + |bytes|, out + bytes, FirstLiteralRun)
  {
    TakesLiterals(c, State(mid, out, LoopTop), bytes, FirstLiteralRun);
  }

  lemma ReadsRun(c: Ideal, ip: nat, out: seq<byte>, bytes: seq<byte>)
    requires 4 <= |bytes| && |out| + |bytes| <= c.cap
    requires Holds(c.src, ip, InstrBytes(Run(bytes))) && BeforeMore(c, ip + |InstrBytes(Run(bytes))|)
    ensures c.Run(Ready(c, Top, ip, out)) == c.Run(Ready(c, AfterRun, ip + |InstrBytes(Run(bytes))|, out + bytes))
  {
    hide Holds, RunHeader, Config.Step;
    var n := |bytes|;
    HoldsParts(c.src, ip, RunHeader(n), bytes);
    ReadsRunHeader(c, ip, n);
    TakesRun(c, ip, out, ip + |RunHeader(n)|, bytes);
  }

  /** One instruction: the decoder moves past its bytes and applies it. */
  lemma ReadsInstr(c: Ideal, ctx: Context, ip: nat, out: seq<byte>, i: Instr)
    requires Allowed(i, ctx) && (i.Copy? ==> i.off <= |out|) && |Apply(out, i)| <= c.cap
    requires Holds(c.src, ip, InstrBytes(i)) && BeforeMore(c, ip + |InstrBytes(i)|)
    ensures c.Run(Ready(c, ctx, ip, out)) == c.Run(Ready(c, Next(i), ip + |InstrBytes(i)|, Apply(out, i)))
  {
    hide Holds, MatchBytes, Tried, Config.Step, Config.Run;
    match i {
      case Run(bytes) => ReadsRun(c, ip, out, bytes);
      case Copy(kind, len, off, lits) =>
        var b := MatchBytes(kind, len, off, |lits|);
        HoldsParts(c.src, ip, b, lits);
        ReadsMatch(c, ctx, ip, out, kind, len, off, |lits|, ip + |b|);
        CopiesInside(c, ip + |b|, out, off, len);
        ReadsShortLiterals(c, ip + |b|, CopyBack(out, off, len), lits);
    }
  }

  lemma ReadsEofCode(c: Ideal, ip: nat, out: seq<byte>, len: nat, low: nat)
    requires 3 <= len && low <= 3 && c.safe
    requires Holds(c.src, ip, EofBytes(len, low)) && ip + |EofBytes(len, low)| == c.inLen <= |c.src|
    ensures 16 <= c.At(ip) < 32
    ensures c.AtMatch(State(ip + 1, out, Match(c.At(ip))), c.At(ip)) == State(c.inLen, out, Stopped(Ok))
  {
    hide Holds;
    ReadsLong(c, ip, M4_MARKER, M4_MAX_LEN, len, 0, low, c.inLen);
    var t := c.At(ip);
    assert t / 8 == 2 && t % 8 == (if len <= M4_MAX_LEN then len - 2 else 0);
  }

  lemma ReadsEof(c: Ideal, ctx: Context, ip: nat, out: seq<byte>, len: nat, low: nat)
    requires 3 <= len && low <= 3 && c.safe
    requires Holds(c.src, ip, EofBytes(len, low)) && ip + |EofBytes(len, low)| == c.inLen <= |c.src|
    ensures var r := c.Run(Ready(c, ctx, ip, out)); r.at == Stopped(Ok) && r.out == out
  {
    hide Holds, EofBytes, Config.AtMatch;
    ReadsEofCode(c, ip, out, len, low);
    ReachesMatch(c, ctx, ip, out);
    assert c.Step(State(ip + 1, out, Match(c.At(ip)))) == State(c.inLen, out, Stopped(Ok));
  }

  /** From the start of a program to what follows it. */
  lemma {:induction false} ReadsPart(c: Ideal, ctx: Context, ip: nat, out: seq<byte>, prog: seq<Instr>)
    requires WellFormed(prog, ctx, out) && |Expand(prog, ctx, out)| <= c.cap
    requires Holds(c.src, ip, ProgBytes(prog)) && BeforeMore(c, ip + |ProgBytes(prog)|)
    ensures c.Run(Ready(c, ctx, ip, out))
         == c.Run(Ready(c, EndContext(prog, ctx), ip + |ProgBytes(prog)|, Expand(prog, ctx, out)))
    decreases |prog|
  {
    hide Holds, InstrBytes, Ready, Apply, Allowed, Next, Config.Step, Config.Run;
    if prog != [] {
      var b, mid := InstrBytes(prog[0]), Apply(out, prog[0]);
      HoldsParts(c.src, ip, b, ProgBytes(prog[1..]));
      ReadsInstr(c, ctx, ip, out, prog[0]);
      ReadsPart(c, Next(prog[0]), ip + |b|, mid, prog[1..]);
    }
  }

  /** A whole program followed by the end code. */
  lemma ReadsProg(c: Ideal, ctx: Context, ip: nat, out: seq<byte>, prog: seq<Instr>, len: nat, low: nat, end: State)
    requires c.safe && 3 <= len && low <= 3 && c.inLen <= |c.src|
    requires WellFormed(prog, ctx, out) && |Expand(prog, ctx, out)| <= c.cap
    requires Holds(c.src, ip, ProgBytes(prog)) && Holds(c.src, ip + |ProgBytes(prog)|, EofBytes(len, low))
    requires ip + |ProgBytes(prog)| + |EofBytes(len, low)| == c.inLen
    requires end == c.Run(Ready(c, ctx, ip, out))
    ensures end.at == Stopped(Ok) && end.out == Expand(prog, ctx, out)
  {
    hide Holds, InstrBytes, ProgBytes, EofBytes, Expand, WellFormed, Config.Step, Config.Run;
    ReadsPart(c, ctx, ip, out, prog);
    ReadsEof(c, EndContext(prog, ctx), ip + |ProgBytes(prog)|, Expand(prog, ctx, out), len, low);
  }
}
