/**
  The converse of `LzoReading`: whatever a decoder accepts is a stream of the format,
  and what it has written is that stream's data.
 */
module LzoParsing {
  import opened Bytes
  import opened LzoFormat
  import opened LzoMachine
  import opened LzoSafety
  import opened LzoReading

  lemma {:induction false} LengthIsExt(c: Ideal, ip: nat, t: nat)
    requires c.ReadLength(ip, t).Got?
    ensures var r := c.ReadLength(ip, t); Holds(c.src, ip, Ext(r.t - t)) && r.ip == ip + |Ext(r.t - t)|
    decreases |c.src| - ip
  {
    if c.At(ip) == 0 {
      LengthIsExt(c, ip + 1, t + 255);
      var n := c.ReadLength(ip, t).t - t;
      HoldsParts(c.src, ip, [0], Ext(n - 255));
    }
  }

  lemma ExtIsHead(src: seq<byte>, ip: nat, marker: nat, maxLen: nat, n: nat)
    requires IsMarker(marker, maxLen) && n > 0
    requires ip < |src| && src[ip] as int == marker && Holds(src, ip + 1, Ext(n))
    ensures Holds(src, ip, LongHead(marker, maxLen, maxLen + n))
    ensures |LongHead(marker, maxLen, maxLen + n)| == 1 + |Ext(n)|
  {
    assert LongHead(marker, maxLen, maxLen + n) == [marker as byte] + Ext(n);
    HoldsParts(src, ip, [marker as byte], Ext(n));
  }

  lemma FieldIsHead(c: Ideal, ip: nat, marker: nat, maxLen: nat, field: nat)
    requires IsMarker(marker, maxLen)
    requires ip < |c.src| && field <= maxLen - 2 && c.At(ip) == marker + field
    requires c.FieldOrLength(field, ip + 1, maxLen - 2).Got?
    ensures var r := c.FieldOrLength(field, ip + 1, maxLen - 2);
            Holds(c.src, ip, LongHead(marker, maxLen, r.t + 2)) && r.ip == ip + |LongHead(marker, maxLen, r.t + 2)|
  {
    if field == 0 {
      LengthIsExt(c, ip + 1, maxLen - 2);
      ExtIsHead(c.src, ip, marker, maxLen, c.ReadLength(ip + 1, maxLen - 2).t - (maxLen - 2));
    }
  }

  lemma BytesAreOffset(c: Ideal, ip: nat, d: nat)
    requires ip + 2 <= |c.src| && d % 0x4000 == c.Offset14(ip)
    ensures Holds(c.src, ip, OffsetBytes(d, c.At(ip) % 4))
  {
    var a, b := c.At(ip), c.At(ip + 1);
    assert d % 64 == a / 4 && (d / 64) % 256 == b;
    assert OffsetBytes(d, a % 4) == [a as byte, b as byte];
  }

  /** Marker, length and offset bytes of an M3 or M4 match, or of the end code. */
  lemma ParsesLong(c: Ideal, ip: nat, marker: nat, maxLen: nat, field: nat, d: nat)
    requires IsMarker(marker, maxLen)
    requires ip < |c.src| && field <= maxLen - 2 && c.At(ip) == marker + field
    requires var r := c.FieldOrLength(field, ip + 1, maxLen - 2);
             r.Got? && r.ip + 2 <= |c.src| && d % 0x4000 == c.Offset14(r.ip)
    ensures var r := c.FieldOrLength(field, ip + 1, maxLen - 2);
            && Holds(c.src, ip, LongHead(marker, maxLen, r.t + 2) + OffsetBytes(d, c.At(r.ip) % 4))
            && r.ip == ip + |LongHead(marker, maxLen, r.t + 2)|
  {
    var r := c.FieldOrLength(field, ip + 1, maxLen - 2);
    FieldIsHead(c, ip, marker, maxLen, field);
    BytesAreOffset(c, r.ip, d);
    HoldsParts(c.src, ip, LongHead(marker, maxLen, r.t + 2), OffsetBytes(d, c.At(r.ip) % 4));
  }

  /** A match at `ip`, ending at `end`, that the label `match` copies. */
  predicate IsMatch(c: Config, ip: nat, out: seq<byte>, kind: Kind, len: nat, off: nat, end: nat) {
    && FieldsFit(kind, len, off) && off <= |out|
    && ip + 2 <= end <= |c.src|
    && Holds(c.src, ip, MatchBytes(kind, len, off, c.At(end - 2) % 4))
    && end == ip + |MatchBytes(kind, len, off, c.At(end - 2) % 4)|
  }

  /** An end code at `ip` that closes the block. */
  predicate IsEof(c: Config, ip: nat, len: nat, low: nat) {
    && 3 <= len && low <= 3
    && Holds(c.src, ip, EofBytes(len, low))
    && ip + |EofBytes(len, low)| == c.inLen
  }

  lemma M3Fields(t: nat, d14: nat)
    requires 32 <= t < 64 && d14 < 0x4000
    ensures t == M3_MARKER + t % 32 && d14 % 0x4000 == d14
  {
  }

  lemma ParsesM3(c: Ideal, ip: nat, out: seq<byte>) returns (len: nat, off: nat, end: nat)
    requires ip < |c.src| && 32 <= c.At(ip) < 64
    requires !c.AtMatch(State(ip + 1, out, Match(c.At(ip))), c.At(ip)).at.Stopped?
    ensures 3 <= len && 1 <= off <= M3_MAX_OFFSET && ip + 3 <= end <= |c.src|
    ensures Holds(c.src, ip, LongHead(M3_MARKER, M3_MAX_LEN, len) + OffsetBytes(off - 1, c.At(end - 2) % 4))
    ensures end == ip + |LongHead(M3_MARKER, M3_MAX_LEN, len)| + 2
    ensures c.AtMatch(State(ip + 1, out, Match(c.At(ip))), c.At(ip)) ==
        c.CopyMatch(State(end, out, MatchDone), off, len)
  {
    var t := c.At(ip);
    var field := t % 32;
    var r := c.FieldOrLength(field, ip + 1, 31);
    assert r.Got? && r.ip + 2 <= |c.src|;
    len, off, end := r.t + 2, 1 + c.Offset14(r.ip), r.ip + 2;
    M3Fields(t, c.Offset14(r.ip));
    ParsesLong(c, ip, M3_MARKER, M3_MAX_LEN, field, off - 1);
  }

  lemma M4Bits(t: nat, d14: nat)
    requires 16 <= t < 32 && d14 < 0x4000
    ensures var d := ((t / 8) % 2) * 0x4000 + d14; M4Marker(d) == 16 + 8 * ((t / 8) % 2) && d % 0x4000 == d14
    ensures t == 16 + 8 * ((t / 8) % 2) + t % 8
  {
  }

  /** The head, distance and end position of an M4 match or end code. */
  lemma ParsesM4Fields(c: Ideal, ip: nat, out: seq<byte>) returns (len: nat, d: nat, end: nat)
    requires ip < |c.src| && 16 <= c.At(ip) < 32
    requires Fine(c.AtMatch(State(ip + 1, out, Match(c.At(ip))), c.At(ip)))
    ensures 3 <= len && d < 0x8000 && ip + 3 <= end <= |c.src|
    ensures Holds(c.src, ip, LongHead(M4Marker(d), M4_MAX_LEN, len) + OffsetBytes(d, c.At(end - 2) % 4))
    ensures end == ip + |LongHead(M4Marker(d), M4_MAX_LEN, len)| + 2
    ensures c.AtMatch(State(ip + 1, out, Match(c.At(ip))), c.At(ip))
         == var s := State(end, out, MatchDone);
            if d == 0 then c.Stop(s, c.EofFound(end)) else c.CopyMatch(s, d + 0x4000, len)
  {
    var t := c.At(ip);
    var field, high := t % 8, (t / 8) % 2;
    var r := c.FieldOrLength(field, ip + 1, 7);
    NoLengthIsNotOk(c, ip + 1, 7);
    assert r.Got? && r.ip + 2 <= |c.src|;
    len, d, end := r.t + 2, high * 0x4000 + c.Offset14(r.ip), r.ip + 2;
    M4Bits(t, c.Offset14(r.ip));
    ParsesLong(c, ip, M4Marker(d), M4_MAX_LEN, field, d);
  }

  lemma M2Fields(t: nat, b: nat)
    requires 64 <= t < 256 && b < 256
    ensures 3 <= t / 32 + 1 <= M2_MAX_LEN && (t / 4) % 8 + b * 8 < M2_MAX_OFFSET
    ensures ((t / 4) % 8 + b * 8) % 8 == (t / 4) % 8 && ((t / 4) % 8 + b * 8) / 8 == b
    ensures (t / 32) * 32 + ((t / 4) % 8) * 4 + t % 4 == t
  {
  }

  lemma ParsesM2(c: Ideal, ip: nat, out: seq<byte>) returns (len: nat, off: nat)
    requires ip < |c.src| && 64 <= c.At(ip)
    requires !c.AtMatch(State(ip + 1, out, Match(c.At(ip))), c.At(ip)).at.Stopped?
    ensures var r := c.AtMatch(State(ip + 1, out, Match(c.At(ip))), c.At(ip));
            IsMatch(c, ip, out, M2, len, off, r.ip) && r == Copied(r.ip, out, off, len)
  {
    var t, b := c.At(ip), c.At(ip + 1);
    len, off := t / 32 + 1, 1 + (t / 4) % 8 + b * 8;
    M2Fields(t, b);
    assert MatchBytes(M2, len, off, t % 4) == [t as byte, b as byte];
  }

  lemma ParsesM1(c: Ideal, ip: nat, out: seq<byte>) returns (len: nat, off: nat)
    requires ip < |c.src| && c.At(ip) < 16
    requires !c.AtMatch(State(ip + 1, out, Match(c.At(ip))), c.At(ip)).at.Stopped?
    ensures var r := c.AtMatch(State(ip + 1, out, Match(c.At(ip))), c.At(ip));
            IsMatch(c, ip, out, M1, len, off, r.ip) && r == Copied(r.ip, out, off, len)
  {
    var t, b := c.At(ip), c.At(ip + 1);
    len, off := 2, 1 + t / 4 + b * 4;
    assert (off - 1) % 4 == t / 4 && (off - 1) / 4 == b;
    assert MatchBytes(M1, len, off, t % 4) == [t as byte, b as byte];
  }

  lemma ParsesM1Far(c: Ideal, ip: nat, out: seq<byte>) returns (len: nat, off: nat)
    requires ip < |c.src| && c.At(ip) < 16
    requires !c.AtFirstLiteralRun(State(ip, out, FirstLiteralRun)).at.Stopped?
    ensures var r := c.AtFirstLiteralRun(State(ip, out, FirstLiteralRun));
            IsMatch(c, ip, out, M1Far, len, off, r.ip) && r == Copied(r.ip, out, off, len)
  {
    var t, b := c.At(ip), c.At(ip + 1);
    len, off := 3, 1 + M2_MAX_OFFSET + t / 4 + b * 4;
    assert (off - 1 - M2_MAX_OFFSET) % 4 == t / 4 && (off - 1 - M2_MAX_OFFSET) / 4 == b;
    assert MatchBytes(M1Far, len, off, t % 4) == [t as byte, b as byte];
  }

  lemma M3IsMatch(c: Ideal, ip: nat, out: seq<byte>) returns (len: nat, off: nat)
    requires ip < |c.src| && 32 <= c.At(ip) < 64
    requires !c.AtMatch(State(ip + 1, out, Match(c.At(ip))), c.At(ip)).at.Stopped?
    ensures var r := c.AtMatch(State(ip + 1, out, Match(c.At(ip))), c.At(ip));
            IsMatch(c, ip, out, M3, len, off, r.ip) && r == Copied(r.ip, out, off, len)
  {
    hide Holds, Config.AtMatch;
    var end;
    len, off, end := ParsesM3(c, ip, out);
    assert MatchBytes(M3, len, off, c.At(end - 2) % 4)
        == LongHead(M3_MARKER, M3_MAX_LEN, len) + OffsetBytes(off - 1, c.At(end - 2) % 4);
  }

  lemma M4IsMatchOrEof(c: Ideal, ip: nat, out: seq<byte>) returns (len: nat, off: nat)
    requires ip < |c.src| && 16 <= c.At(ip) < 32
    requires Fine(c.AtMatch(State(ip + 1, out, Match(c.At(ip))), c.At(ip)))
    ensures var r := c.AtMatch(State(ip + 1, out, Match(c.At(ip))), c.At(ip));
            if r.at.Stopped? then r.out == out && IsEof(c, ip, len, off)
            else IsMatch(c, ip, out, M4, len, off, r.ip) && r == Copied(r.ip, out, off, len)
  {
    hide Holds, Config.AtMatch;
    var d, end;
    len, d, end := ParsesM4Fields(c, ip, out);
    if d == 0 {
      off := c.At(end - 2) % 4;
      assert LongHead(M4Marker(d), M4_MAX_LEN, len) + OffsetBytes(d, off) == EofBytes(len, off);
    } else {
      off := d + 0x4000;
      assert MatchBytes(M4, len, off, c.At(end - 2) % 4)
          == LongHead(M4Marker(d), M4_MAX_LEN, len) + OffsetBytes(d, c.At(end - 2) % 4);
    }
  }

  /** Below 16 and above 31 a first byte can only stand for a match. */
  lemma OnlyM4Ends(c: Ideal, s: State, t: nat)
    requires Fine(c.AtMatch(s, t)) && (t < 16 || 32 <= t)
    ensures !c.AtMatch(s, t).at.Stopped?
  {
    NoLengthIsNotOk(c, s.ip, 31);
  }

  /** At the label `match`: a match that was copied, or an end code that closes the block. */
  lemma ParsesAtMatch(c: Ideal, ip: nat, out: seq<byte>) returns (kind: Kind, len: nat, off: nat)
    requires ip < |c.src|
    requires Fine(c.AtMatch(State(ip + 1, out, Match(c.At(ip))), c.At(ip)))
    ensures kind.M1? <==> c.At(ip) < 16
    ensures !kind.M1Far?
    ensures var r := c.AtMatch(State(ip + 1, out, Match(c.At(ip))), c.At(ip));
            if r.at.Stopped? then r.out == out && IsEof(c, ip, len, off)
            else IsMatch(c, ip, out, kind, len, off, r.ip) && r == Copied(r.ip, out, off, len)
  {
    if 16 <= c.At(ip) < 32 {
      kind := M4;
      len, off := M4IsMatchOrEof(c, ip, out);
    } else {
      OnlyM4Ends(c, State(ip + 1, out, Match(c.At(ip))), c.At(ip));
      if c.At(ip) >= 64 {
        kind := M2;
        len, off := ParsesM2(c, ip, out);
      } else if c.At(ip) >= 32 {
        kind := M3;
        len, off := M3IsMatch(c, ip, out);
      } else {
        kind := M1;
        len, off := ParsesM1(c, ip, out);
      }
    }
  }

  /** The instruction a decoder that succeeds reads at `ip`, and where that leaves it. */
  predicate IsNext(c: Config, ctx: Context, ip: nat, out: seq<byte>, i: Instr, end: State) {
    && Allowed(i, ctx) && (i.Copy? ==> i.off <= |out|)
    && Holds(c.src, ip, InstrBytes(i))
    && ip + |InstrBytes(i)| < |c.src|
    && end == c.Run(Ready(c, Next(i), ip + |InstrBytes(i)|, Apply(out, i)))
  }

  lemma IsNextFromParts(c: Ideal, ctx: Context, ip: nat, out: seq<byte>, i: Instr, b: seq<byte>, out': seq<byte>,
                        end: State)
    requires Allowed(i, ctx) && (i.Copy? ==> i.off <= |out|)
    requires b == InstrBytes(i) && out' == Apply(out, i)
    requires Holds(c.src, ip, b) && ip + |b| < |c.src|
    requires end == c.Run(Ready(c, Next(i), ip + |b|, out'))
    ensures IsNext(c, ctx, ip, out, i, end)
  {
    hide Holds, InstrBytes, Apply, Allowed, Next, Config.Step, Config.Run;
  }

  /** At the label `match_next`: literals and the next first byte, or a failure. */
  lemma MatchNextReads(c: Ideal, ip: nat, out: seq<byte>, n: nat)
    ensures var r := c.AtMatchNext(State(ip, out, MatchNext(n)), n);
            if r.at.Stopped? then r.at.rc != Ok
            else ip + n < |c.src| && r == Ready(c, AfterShort, ip + n, out + c.src[ip..ip + n])
  {
  }

  /** After a match, the literals its last bytes announce. */
  lemma ParsesShortLiterals(c: Ideal, ip: nat, out: seq<byte>, end: State) returns (lits: seq<byte>)
    requires 2 <= ip <= |c.src| && end == c.Run(State(ip, out, MatchDone)) && end.at.rc == Ok
    ensures |lits| == c.At(ip - 2) % 4
    ensures Holds(c.src, ip, lits) && ip + |lits| < |c.src|
    ensures end == c.Run(Ready(c, if lits == [] then Top else AfterShort, ip + |lits|, out + lits))
  {
    hide Holds, Config.AtMatchNext, Config.AtMatch, Config.AtFirstLiteralRun, Config.Literals, Config.FieldOrLength;
    var count := c.At(ip - 2) % 4;
    var s1 := c.Step(State(ip, out, MatchDone));
    assert end == c.Run(s1) && end == c.Run(c.Step(s1));
    if count == 0 {
      lits := [];
      assert out + lits == out;
      assert s1 == State(ip, out, LoopTop);
    } else {
      assert s1 == State(ip, out, MatchNext(count));
      MatchNextReads(c, ip, out, count);
      lits := c.src[ip..ip + count];
    }
    HoldsSlice(c.src, ip, lits);
  }

  /** A match at `ip`, whatever the context, with its literals. */
  lemma ParsesCopy(c: Ideal, ctx: Context, ip: nat, out: seq<byte>, end: State, kind: Kind, len: nat, off: nat,
                   next: nat)
    returns (i: Instr)
    requires IsMatch(c, ip, out, kind, len, off, next)
    requires (kind.M1? ==> ctx.AfterShort?) && (kind.M1Far? ==> ctx.AfterRun?)
    requires end == c.Run(Copied(next, out, off, len)) && end.at.rc == Ok
    ensures IsNext(c, ctx, ip, out, i, end)
  {
    hide Holds, MatchBytes, Config.Step;
    var mid := CopyBack(out, off, len);
    var lits := ParsesShortLiterals(c, next, mid, end);
    i := Copy(kind, len, off, lits);
    var b := MatchBytes(kind, len, off, |lits|);
    HoldsParts(c.src, ip, b, lits);
    IsNextFromParts(c, ctx, ip, out, i, b + lits, mid + lits, end);
  }

  /** From the label `match`. */
  lemma ParsesFromMatch(c: Ideal, ctx: Context, ip: nat, out: seq<byte>, end: State)
    returns (last: bool, i: Instr, len: nat, low: nat)
    requires ip < |c.src| && (c.At(ip) < 16 ==> ctx.AfterShort?)
    requires end == c.Run(State(ip + 1, out, Match(c.At(ip)))) && end.at.rc == Ok
    ensures if last then IsEof(c, ip, len, low) && end.out == out else IsNext(c, ctx, ip, out, i, end)
  {
    var s := State(ip + 1, out, Match(c.At(ip)));
    var r := c.AtMatch(s, c.At(ip));
    assert c.Step(s) == r && end == c.Run(r);
    var kind;
    kind, len, low := ParsesAtMatch(c, ip, out);
    last, i := r.at.Stopped?, Run([]);
    if !last {
      i := ParsesCopy(c, ctx, ip, out, end, kind, len, low, r.ip);
    }
  }

  lemma ParsesRunHeader(c: Ideal, ip: nat)
    requires ip < |c.src| && c.At(ip) < 16 && c.FieldOrLength(c.At(ip), ip + 1, 15).Got?
    ensures var r := c.FieldOrLength(c.At(ip), ip + 1, 15);
            Holds(c.src, ip, RunHeader(r.t + 3)) && r.ip == ip + |RunHeader(r.t + 3)|
  {
    if c.At(ip) == 0 {
      LengthIsExt(c, ip + 1, 15);
      var n := c.ReadLength(ip + 1, 15).t - 15;
      assert RunHeader(n + 18) == [0] + Ext(n);
      HoldsParts(c.src, ip, [0], Ext(n));
    }
  }

  /** A decoder that succeeds from the top of the loop, on a first byte below 16, gets past a literal run. */
  lemma TopTakesRun(c: Ideal, ip: nat, out: seq<byte>, end: State)
    requires ip < |c.src| && c.At(ip) < 16
    requires end == c.Run(State(ip, out, LoopTop)) && end.at.rc == Ok
    ensures var r := c.FieldOrLength(c.At(ip), ip + 1, 15);
            && r.Got? && r.ip + r.t + 3 < |c.src|
            && end == c.Run(State(r.ip + r.t + 3, out + c.src[r.ip..r.ip + r.t + 3], FirstLiteralRun))
  {
    hide Config.ReadLength, Config.AtMatch, Config.AtMatchNext, Config.AtMatchDone, Config.CopyMatch;
    var s1 := c.Step(State(ip, out, LoopTop));
    assert s1 == c.AtLoopTop(State(ip, out, LoopTop)) && end == c.Run(s1);
    NoLengthIsNotOk(c, ip + 1, 15);
    assert !s1.at.Stopped?;
    assert end == c.Run(c.Step(s1));
  }

  /** A literal run at the top of the loop. */
  lemma ParsesRun(c: Ideal, ip: nat, out: seq<byte>, end: State) returns (i: Instr)
    requires ip < |c.src| && c.At(ip) < 16
    requires end == c.Run(State(ip, out, LoopTop)) && end.at.rc == Ok
    ensures IsNext(c, Top, ip, out, i, end)
  {
    hide Config.Step, Config.Run, Config.FieldOrLength, Holds, MatchBytes, RunHeader;
    TopTakesRun(c, ip, out, end);
    ParsesRunHeader(c, ip);
    var r := c.FieldOrLength(c.At(ip), ip + 1, 15);
    var head, bytes := RunHeader(r.t + 3), c.src[r.ip..r.ip + r.t + 3];
    i := Run(bytes);
    HoldsSlice(c.src, r.ip, bytes);
    HoldsParts(c.src, ip, head, bytes);
    IsNextFromParts(c, Top, ip, out, i, head + bytes, out + bytes, end);
  }

  /** From every context: a next instruction, or the end code. */
  lemma ParsesInstr(c: Ideal, ctx: Context, ip: nat, out: seq<byte>, end: State)
    returns (last: bool, i: Instr, len: nat, low: nat)
    requires ip < |c.src| && end == c.Run(Ready(c, ctx, ip, out)) && end.at.rc == Ok
    ensures if last then IsEof(c, ip, len, low) && end.out == out else IsNext(c, ctx, ip, out, i, end)
  {
    last, i, len, low := false, Run([]), 0, 0;
    var s := Ready(c, ctx, ip, out);
    if ctx.AfterShort? || c.At(ip) >= 16 {
      assert ctx.AfterShort? || end == c.Run(c.Step(s));
      last, i, len, low := ParsesFromMatch(c, ctx, ip, out, end);
    } else if ctx.Top? {
      i := ParsesRun(c, ip, out, end);
    } else {
      var r := c.Step(s);
      assert end == c.Run(r) && !r.at.Stopped?;
      len, low := ParsesM1Far(c, ip, out);
      i := ParsesCopy(c, ctx, ip, out, end, M1Far, len, low, r.ip);
    }
  }

  /** A program that starts at `ip`, is followed by the end code and expands to `data`. */
  predicate IsProg(c: Config, ctx: Context, ip: nat, out: seq<byte>, prog: seq<Instr>, len: nat, low: nat,
                   data: seq<byte>) {
    && WellFormed(prog, ctx, out) && data == Expand(prog, ctx, out)
    && Holds(c.src, ip, ProgBytes(prog)) && IsEof(c, ip + |ProgBytes(prog)|, len, low)
  }

  lemma EmptyIsProg(c: Ideal, ctx: Context, ip: nat, out: seq<byte>, len: nat, low: nat)
    requires IsEof(c, ip, len, low)
    ensures IsProg(c, ctx, ip, out, [], len, low, out)
  {
  }

  lemma ProgFromParts(c: Ideal, ctx: Context, ip: nat, out: seq<byte>, i: Instr, rest: seq<Instr>,
                      len: nat, low: nat, end: State)
    requires IsNext(c, ctx, ip, out, i, end)
    requires IsProg(c, Next(i), ip + |InstrBytes(i)|, Apply(out, i), rest, len, low, end.out)
    ensures IsProg(c, ctx, ip, out, [i] + rest, len, low, end.out)
  {
    hide Holds, InstrBytes, Config.Step;
    Prepend(i, rest, ctx, out);
    HoldsParts(c.src, ip, InstrBytes(i), ProgBytes(rest));
  }

  ghost predicate Parses(c: Config, ctx: Context, ip: nat, out: seq<byte>, data: seq<byte>) {
    exists prog: seq<Instr>, len: nat, low: nat :: IsProg(c, ctx, ip, out, prog, len, low, data)
  }

  lemma ParsesCons(c: Ideal, ctx: Context, ip: nat, out: seq<byte>, i: Instr, end: State)
    requires IsNext(c, ctx, ip, out, i, end)
    requires Parses(c, Next(i), ip + |InstrBytes(i)|, Apply(out, i), end.out)
    ensures Parses(c, ctx, ip, out, end.out)
  {
    var rest, len, low :| IsProg(c, Next(i), ip + |InstrBytes(i)|, Apply(out, i), rest, len, low, end.out);
    ProgFromParts(c, ctx, ip, out, i, rest, len, low, end);
  }

  /** From every context: a whole program and its end code. */
  lemma {:induction false} ParsesProg(c: Ideal, ctx: Context, ip: nat, out: seq<byte>, end: State)
    requires ip < |c.src| && end == c.Run(Ready(c, ctx, ip, out)) && end.at.rc == Ok
    ensures Parses(c, ctx, ip, out, end.out)
    decreases |c.src| - ip
  {
    hide Holds, InstrBytes, Config.Step;
    var last, i, len, low := ParsesInstr(c, ctx, ip, out, end);
    if last {
      EmptyIsProg(c, ctx, ip, out, len, low);
    } else {
      ParsesProg(c, Next(i), ip + |InstrBytes(i)|, Apply(out, i), end);
      ParsesCons(c, ctx, ip, out, i, end);
    }
  }
}
