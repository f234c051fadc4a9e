/**
  The result codes other than LZO_E_OK, said of the input and not of the decoder: a block that ends before or after
  the input does, a block whose data does not fit, a match that looks too far back, an input without an end code.
 */
module LzoCodes {
  import opened Bytes
  import opened LzoFormat
  import opened LzoMachine
  import opened LzoSafety
  import opened LzoRegisters
  import opened LzoReading
  import opened LzoExactness

  // ---------- blocks that end elsewhere ----------

  /** `q` reads the same bytes as `c` and passes the tests that `c` passes inside its block. */
  predicate Looser(q: Config, c: Config) {
    && q.src == c.src && q.word == c.word
    && (q.safe ==> c.safe && q.cap == c.cap && c.inLen <= q.inLen && (c.word == 0 || (Sized(c) && Sized(q))))
  }

  /** Still going, or stopped by an end code. */
  predicate Whole(c: Config, s: State) {
    s.at.Stopped? ==> s.at.rc == Ok || s.at.rc == InputNotConsumed || (!c.safe && s.at.rc == InputOverrun)
  }

  /** The same state for a call that counts another number of bytes as the block. */
  function Recount(q: Config, s: State): State {
    if s.at.Stopped? then s.(at := Stopped(q.EofFound(s.ip))) else s
  }

  lemma NoLengthCodes(c: Config, ip: nat, t: nat)
    ensures var r := c.ReadLength(ip, t);
            r.NoLength? ==> r.rc == Undefined || (c.safe && r.rc == InputOverrun)
    decreases |c.src| - ip
  {
  }

  /** Where NEED_IP passes for a block it passes for a longer one. */
  lemma InputStaysLong(c: Config, q: Config, ip: nat, x: nat)
    requires Looser(q, c) && !c.InputShort(ip, x) && (q.safe ==> ip <= c.inLen)
    ensures !q.InputShort(ip, x)
  {
    if q.safe && c.word != 0 {
      ShortIsExact(c, c.inLen, ip, x);
      ShortIsExact(q, q.inLen, ip, x);
    }
  }

  lemma {:induction false} LengthLoosens(c: Config, q: Config, ip: nat, t: nat)
    requires Looser(q, c) && c.ReadLength(ip, t).Got? && (q.safe ==> c.ReadLength(ip, t).ip <= c.inLen)
    ensures q.ReadLength(ip, t) == c.ReadLength(ip, t)
    decreases |c.src| - ip
  {
    hide Config.InputShort, Config.Reg;
    InputStaysLong(c, q, ip, 1);
    assert c.Reg(t + 255) == q.Reg(t + 255) && c.Reg(t + c.At(ip)) == q.Reg(t + c.At(ip)) by {
      RegsAgree(c, q, t + 255);
      RegsAgree(c, q, t + c.At(ip));
    }
    if c.src[ip] == 0 {
      LengthLoosens(c, q, ip + 1, c.Reg(t + 255));
    }
  }

  lemma RegsAgree(c: Config, q: Config, x: nat)
    requires c.word == q.word
    ensures c.Reg(x) == q.Reg(x)
  {
  }

  lemma LiteralsLoosen(c: Config, q: Config, s: State, n: nat, next: Label)
    requires Looser(q, c) && !next.Stopped? && Whole(c, c.Literals(s, n, next)) && (q.safe ==> s.ip <= c.inLen)
    ensures !c.Literals(s, n, next).at.Stopped? && q.Literals(s, n, next) == c.Literals(s, n, next)
  {
    hide Config.InputShort;
    InputStaysOr(c, q, s.ip, c.Reg(n + 1));
  }

  lemma InputStaysOr(c: Config, q: Config, ip: nat, x: nat)
    requires Looser(q, c) && (q.safe ==> ip <= c.inLen)
    ensures c.InputShort(ip, x) || !q.InputShort(ip, x)
    ensures c.InputShort(ip, x) ==> c.safe
  {
    if !c.InputShort(ip, x) {
      InputStaysLong(c, q, ip, x);
    }
  }

  lemma CopyLoosens(c: Config, q: Config, s: State, off: nat, len: nat)
    requires Looser(q, c) && Whole(c, c.CopyMatch(s, off, len))
    ensures !c.CopyMatch(s, off, len).at.Stopped? && q.CopyMatch(s, off, len) == c.CopyMatch(s, off, len)
  {
  }

  lemma LongMatchLoosens(c: Config, q: Config, s: State, field: nat, lenBase: nat, base: nat, m4: bool)
    requires Looser(q, c) && Whole(c, c.AtLongMatch(s, field, lenBase, base, m4))
    requires q.safe ==> c.AtLongMatch(s, field, lenBase, base, m4).ip <= c.inLen
    ensures var r := c.AtLongMatch(s, field, lenBase, base, m4);
            && q.AtLongMatch(s, field, lenBase, base, m4) == Recount(q, r)
            && (r.at.Stopped? ==> r.at.rc == c.EofFound(r.ip))
  {
    hide Config.Reg, Config.Short, Config.ReadLength, Config.CopyMatch;
    NoLengthCodes(c, s.ip, lenBase);
    var r := c.FieldOrLength(field, s.ip, lenBase);
    var d := base + c.Offset14(r.ip);
    if !(m4 && d == 0) {
      var off := if m4 then d + 0x4000 else d;
      CopyMatchGrows(c, State(r.ip + 2, s.out, MatchDone), off, c.Turns(r.t) + 2);
      CopyLoosens(c, q, State(r.ip + 2, s.out, MatchDone), off, c.Turns(r.t) + 2);
    }
    if field == 0 {
      LengthLoosens(c, q, s.ip, lenBase);
    }
  }

  lemma LoopTopLoosens(c: Config, q: Config, s: State)
    requires Looser(q, c) && Whole(c, c.AtLoopTop(s)) && (q.safe ==> c.AtLoopTop(s).ip <= c.inLen)
    ensures !c.AtLoopTop(s).at.Stopped? && q.AtLoopTop(s) == c.AtLoopTop(s)
  {
    hide Config.Reg, Config.Short, Config.ReadLength, Config.Literals;
    NoLengthCodes(c, s.ip + 1, 15);
    var t := c.At(s.ip);
    if t < 16 {
      var r := c.FieldOrLength(t, s.ip + 1, 15);
      LiteralsGrow(c, State(r.ip, s.out, LoopTop), c.Turns(r.t) + 3, FirstLiteralRun);
      if t == 0 {
        LengthLoosens(c, q, s.ip + 1, 15);
      }
      LiteralsLoosen(c, q, State(r.ip, s.out, LoopTop), c.Turns(r.t) + 3, FirstLiteralRun);
    }
  }

  lemma LiteralsGrow(c: Config, s: State, n: nat, next: Label)
    ensures s.ip <= c.Literals(s, n, next).ip
  {
  }

  lemma MatchLoosens(c: Config, q: Config, s: State, t: nat)
    requires Looser(q, c) && Whole(c, c.AtMatch(s, t)) && (q.safe ==> c.AtMatch(s, t).ip <= c.inLen)
    ensures var r := c.AtMatch(s, t);
            q.AtMatch(s, t) == Recount(q, r) && (r.at.Stopped? ==> r.at.rc == c.EofFound(r.ip))
  {
    hide Config.AtLongMatch, Config.CopyMatch, Config.EofFound;
    if t >= 64 {
      CopyLoosens(c, q, State(s.ip + 1, s.out, MatchDone), 1 + (t / 4) % 8 + c.At(s.ip) * 8, t / 32 - 1 + 2);
    } else if t >= 32 {
      LongMatchLoosens(c, q, s, t % 32, 31, 1, false);
    } else if t >= 16 {
      LongMatchLoosens(c, q, s, t % 8, 7, ((t / 8) % 2) * 0x4000, true);
    } else {
      CopyLoosens(c, q, State(s.ip + 1, s.out, MatchDone), 1 + t / 4 + c.At(s.ip) * 4, 2);
    }
  }

  lemma FirstLiteralRunLoosens(c: Config, q: Config, s: State)
    requires Looser(q, c) && Whole(c, c.AtFirstLiteralRun(s))
    ensures !c.AtFirstLiteralRun(s).at.Stopped? && q.AtFirstLiteralRun(s) == c.AtFirstLiteralRun(s)
  {
    hide Config.CopyMatch;
    var t := c.At(s.ip);
    if t < 16 {
      CopyLoosens(c, q, State(s.ip + 2, s.out, MatchDone), 1 + M2_MAX_OFFSET + t / 4 + c.At(s.ip + 1) * 4, 3);
    }
  }

  lemma MatchNextLoosens(c: Config, q: Config, s: State, n: nat)
    requires Looser(q, c) && Whole(c, c.AtMatchNext(s, n)) && (q.safe ==> s.ip <= c.inLen)
    ensures !c.AtMatchNext(s, n).at.Stopped? && q.AtMatchNext(s, n) == c.AtMatchNext(s, n)
  {
    hide Config.Literals;
    LiteralsLoosen(c, q, s, n, MatchDone);
  }

  lemma StepLoosens(c: Config, q: Config, s: State)
    requires Looser(q, c) && c.Runnable(s) && !s.at.Stopped? && Whole(c, c.Step(s))
    requires q.safe ==> s.ip <= c.Step(s).ip <= c.inLen
    ensures var r := c.Step(s); q.Step(s) == Recount(q, r) && (r.at.Stopped? ==> r.at.rc == c.EofFound(r.ip))
  {
    hide Config.AtMatch, Config.AtLoopTop, Config.AtFirstLiteralRun, Config.AtMatchNext, Config.EofFound, Sized;
    match s.at
    case LoopTop => LoopTopLoosens(c, q, s);
    case FirstLiteralRun => FirstLiteralRunLoosens(c, q, s);
    case Match(t) => MatchLoosens(c, q, s, t);
    case MatchDone =>
    case MatchNext(n) => MatchNextLoosens(c, q, s, n);
  }

  lemma StartLoosens(c: Config, q: Config)
    requires Looser(q, c) && Whole(c, c.Start()) && (q.safe ==> 1 <= c.inLen)
    ensures !c.Start().at.Stopped? && q.Start() == c.Start()
  {
    hide Config.Literals, Sized;
    if c.At(0) >= 21 {
      LiteralsLoosen(c, q, State(1, [], LoopTop), c.At(0) - 17, FirstLiteralRun);
    }
  }

  /** A run that ends at an end code ends there for any other count, with the code for that count. */
  lemma {:induction false} RunLoosens(c: Config, q: Config, s: State)
    requires Looser(q, c) && c.Runnable(s) && !s.at.Stopped? && Whole(c, c.Run(s))
    requires q.safe ==> c.Run(s).at.rc == Ok
    ensures q.Run(s) == Recount(q, c.Run(s)) && c.Run(s).at.rc == c.EofFound(c.Run(s).ip)
    decreases c.Fuel(s)
  {
    hide Config.Step, Sized, Config.EofFound;
    var r := c.Step(s);
    StepGrows(c, s);
    if !r.at.Stopped? {
      if q.safe {
        GoodRunStaysInside(c, r);
      }
      RunLoosens(c, q, r);
    }
    StepLoosens(c, q, s);
  }

  lemma CallLoosens(c: Config, q: Config)
    requires Looser(q, c) && Whole(c, c.Run(c.Start())) && (q.safe ==> c.Run(c.Start()).at.rc == Ok && 1 <= c.inLen)
    ensures q.Run(q.Start()) == Recount(q, c.Run(c.Start()))
    ensures var end := c.Run(c.Start()); end.at.rc == c.EofFound(end.ip)
  {
    hide Config.Step, Config.EofFound, Sized;
    StartLoosens(c, q);
    RunLoosens(c, q, c.Start());
  }

  /** The first `n` bytes are a block that stands for `data`. */
  ghost predicate BlockOf(src: seq<byte>, n: nat, data: seq<byte>) {
    n <= |src| && Denotes(src[..n], data)
  }

  lemma BlocksAreNotEmpty(src: seq<byte>, n: nat, data: seq<byte>)
    requires BlockOf(src, n, data)
    ensures 3 <= n
  {
  }

  /** A block of `n` bytes, in a call that counts another number: the code says on which side the end is. */
  lemma BlockEndsAt(c: Config, n: nat, data: seq<byte>)
    requires BlockOf(c.src, n, data) && (c.safe ==> n <= c.inLen && |data| <= c.cap)
    requires c.word == 0 || (Sized(c) && n < c.word && |data| < c.word)
    ensures n < c.inLen ==> c.Decode() == (InputNotConsumed, data)
    ensures n == c.inLen ==> c.Decode() == (Ok, data)
    ensures c.inLen < n ==> c.Decode() == (InputOverrun, data)
  {
    hide Denotes, Config.Step, Config.Run, Config.Start, Config.Reg, Config.Short;
    var p := c.(inLen := n);
    BlocksAreNotEmpty(c.src, n, data);
    BlocksDecode(p, data);
    CallLoosens(p, c);
  }

  /** Conversely, where a call stops at an end code, the bytes up to there are a block. */
  lemma StopsAtBlock(c: Config) returns (n: nat)
    requires Whole(c, c.Run(c.Start())) && (c.word == 0 || Fits(c.(inLen := |c.src|, safe := false)))
    ensures BlockOf(c.src, n, c.Decode().1) && c.Decode().0 == c.EofFound(n)
  {
    hide Denotes, Config.Step, Config.Start, Config.Reg, Config.Short;
    StartFits(c);
    n := c.Run(c.Start()).ip;
    var p := c.(safe := false, inLen := n);
    CallLoosens(c, p);
    OnlyBlocksDecode(p);
  }

  ghost predicate EndsBefore(src: seq<byte>, inLen: nat, data: seq<byte>) {
    exists n: nat :: n < inLen && BlockOf(src, n, data)
  }

  ghost predicate EndsAfter(src: seq<byte>, inLen: nat, data: seq<byte>) {
    exists n: nat :: inLen < n && BlockOf(src, n, data)
  }

  /** What fits the registers of a call, with everything that can be read counted. */
  predicate AllFits(c: Config) {
    c.inLen <= |c.src| && Fits(c) && Fits(c.(inLen := |c.src|))
  }

  /** LZO_E_INPUT_NOT_CONSUMED, from either decoder: a block ends before the input does. */
  lemma NotConsumedIsExact(c: Config, data: seq<byte>)
    requires AllFits(c) && (c.word == 0 || |data| < c.word)
    ensures c.Decode() == (InputNotConsumed, data)
       <==> EndsBefore(c.src, c.inLen, data) && (c.safe ==> |data| <= c.cap)
  {
    hide BlockOf, Config.Step, Config.Start, Config.Reg, Config.Short;
    if c.Decode() == (InputNotConsumed, data) {
      var n := StopsAtBlock(c);
      if c.safe {
        StartFits(c);
        OutputFits(c, c.Start());
      }
    }
    if EndsBefore(c.src, c.inLen, data) && (c.safe ==> |data| <= c.cap) {
      var n: nat :| n < c.inLen && BlockOf(c.src, n, data);
      BlockEndsAt(c, n, data);
    }
  }

  lemma StartFits(c: Config)
    ensures c.Runnable(c.Start()) && (c.safe ==> |c.Start().out| <= c.cap)
  {
  }

  /** LZO_E_INPUT_OVERRUN from the plain decoder, which only looks at the end: the block ends after the input does. */
  lemma PlainOverrunIsExact(c: Config, data: seq<byte>)
    requires !c.safe && AllFits(c) && (c.word == 0 || |data| < c.word)
    ensures c.Decode() == (InputOverrun, data) <==> EndsAfter(c.src, c.inLen, data)
  {
    hide BlockOf, Config.Step, Config.Start, Config.Reg, Config.Short;
    if c.Decode() == (InputOverrun, data) {
      var n := StopsAtBlock(c);
    }
    if EndsAfter(c.src, c.inLen, data) {
      var n: nat :| c.inLen < n && BlockOf(c.src, n, data);
      BlockIsInside(c.src, n, data);
      BlockEndsAt(c, n, data);
    }
  }

  lemma BlockIsInside(src: seq<byte>, n: nat, data: seq<byte>)
    requires BlockOf(src, n, data)
    ensures n <= |src|
  {
  }

  /** The block of the empty input, in calls that count one byte too many or one too few. */
  lemma OneByteOff(safe: bool)
    ensures Config([17, 0, 0, 0], 4, 0, safe, 0).Decode() == (InputNotConsumed, [])
    ensures Config([17, 0, 0, 0], 2, 0, false, 0).Decode() == (InputOverrun, [])
  {
    hide Config.Decode;
    var src: seq<byte> := [17, 0, 0, 0];
    var st := Stream([], [], 3, 0);
    assert EofBytes(3, 0) == [17, 0, 0];
    assert st.Valid() && st.ToBytes() == src[..3] && st.Data() == [];
    BlockEndsAt(Config(src, 4, 0, safe, 0), 3, []);
    BlockEndsAt(Config(src, 2, 0, false, 0), 3, []);
  }

  // ---------- data that does not fit ----------

  /** The same call of the safe decoder with less room. */
  predicate Tighter(c: Config, p: Config) {
    c.safe && c == p.(cap := c.cap) && c.cap < p.cap && (p.word == 0 || Sized(p))
  }

  /** What a step comes to with less room: the same, or LZO_E_OUTPUT_OVERRUN with nothing more written. */
  predicate SameOrFull(c: Config, s: State, r: State, q: State) {
    if |q.out| <= c.cap then r == q else r.at == Stopped(OutputOverrun) && r.out == s.out
  }

  /** Inside both capacities NEED_OP compares what it should. */
  lemma OutputTightens(c: Config, p: Config, out: seq<byte>, n: nat)
    requires Tighter(c, p) && |out| <= c.cap && |out| + n <= p.cap
    ensures c.OutputShort(out, c.Reg(n)) <==> |out| + n > c.cap
  {
    if c.word != 0 {
      RegIsExact(c, n);
      ShortIsExact(c, c.cap, |out|, n);
    }
  }

  lemma LiteralsTighten(c: Config, p: Config, s: State, n: nat, next: Label)
    requires Tighter(c, p) && !next.Stopped? && |s.out| <= c.cap && Whole(p, p.Literals(s, n, next))
    ensures !p.Literals(s, n, next).at.Stopped?
    ensures SameOrFull(c, s, c.Literals(s, n, next), p.Literals(s, n, next))
  {
    hide Config.OutputShort, Sized;
    OutputTightens(c, p, s.out, n);
    RegsAgree(c, p, n + 1);
  }

  lemma CopyTightens(c: Config, p: Config, s: State, off: nat, len: nat)
    requires Tighter(c, p) && |s.out| <= c.cap && Whole(p, p.CopyMatch(s, off, len))
    ensures !p.CopyMatch(s, off, len).at.Stopped?
    ensures SameOrFull(c, s, c.CopyMatch(s, off, len), p.CopyMatch(s, off, len))
  {
    hide Config.OutputShort, Sized;
    OutputTightens(c, p, s.out, len);
  }

  lemma {:induction false} LengthTightens(c: Config, p: Config, ip: nat, t: nat)
    requires c == p.(cap := c.cap)
    ensures c.ReadLength(ip, t) == p.ReadLength(ip, t)
    decreases |c.src| - ip
  {
    if ip < |c.src| && c.src[ip] == 0 && !c.InputShort(ip, 1) {
      LengthTightens(c, p, ip + 1, c.Reg(t + 255));
    }
  }

  lemma LongMatchTightens(c: Config, p: Config, s: State, field: nat, lenBase: nat, base: nat, m4: bool)
    requires Tighter(c, p) && |s.out| <= c.cap && Whole(p, p.AtLongMatch(s, field, lenBase, base, m4))
    ensures SameOrFull(c, s, c.AtLongMatch(s, field, lenBase, base, m4), p.AtLongMatch(s, field, lenBase, base, m4))
  {
    hide Config.Reg, Config.Short, Config.ReadLength, Config.CopyMatch, Sized;
    NoLengthCodes(p, s.ip, lenBase);
    LengthTightens(c, p, s.ip, lenBase);
    var r := p.FieldOrLength(field, s.ip, lenBase);
    var d := base + p.Offset14(r.ip);
    if !(m4 && d == 0) {
      CopyTightens(c, p, State(r.ip + 2, s.out, MatchDone), if m4 then d + 0x4000 else d, p.Turns(r.t) + 2);
    }
  }

  lemma LoopTopTightens(c: Config, p: Config, s: State)
    requires Tighter(c, p) && |s.out| <= c.cap && Whole(p, p.AtLoopTop(s))
    ensures SameOrFull(c, s, c.AtLoopTop(s), p.AtLoopTop(s))
  {
    hide Config.Reg, Config.Short, Config.ReadLength, Config.Literals, Sized;
    NoLengthCodes(p, s.ip + 1, 15);
    LengthTightens(c, p, s.ip + 1, 15);
    var t := p.At(s.ip);
    if t < 16 {
      var r := p.FieldOrLength(t, s.ip + 1, 15);
      LiteralsTighten(c, p, State(r.ip, s.out, LoopTop), p.Turns(r.t) + 3, FirstLiteralRun);
    }
  }

  lemma MatchTightens(c: Config, p: Config, s: State, t: nat)
    requires Tighter(c, p) && |s.out| <= c.cap && Whole(p, p.AtMatch(s, t))
    ensures SameOrFull(c, s, c.AtMatch(s, t), p.AtMatch(s, t))
  {
    hide Config.AtLongMatch, Config.CopyMatch, Sized;
    if t >= 64 {
      CopyTightens(c, p, State(s.ip + 1, s.out, MatchDone), 1 + (t / 4) % 8 + c.At(s.ip) * 8, t / 32 - 1 + 2);
    } else if t >= 32 {
      LongMatchTightens(c, p, s, t % 32, 31, 1, false);
    } else if t >= 16 {
      LongMatchTightens(c, p, s, t % 8, 7, ((t / 8) % 2) * 0x4000, true);
    } else {
      CopyTightens(c, p, State(s.ip + 1, s.out, MatchDone), 1 + t / 4 + c.At(s.ip) * 4, 2);
    }
  }

  lemma FirstLiteralRunTightens(c: Config, p: Config, s: State)
    requires Tighter(c, p) && |s.out| <= c.cap && Whole(p, p.AtFirstLiteralRun(s))
    ensures SameOrFull(c, s, c.AtFirstLiteralRun(s), p.AtFirstLiteralRun(s))
  {
    hide Config.CopyMatch, Sized;
    var t := c.At(s.ip);
    if t < 16 {
      CopyTightens(c, p, State(s.ip + 2, s.out, MatchDone), 1 + M2_MAX_OFFSET + t / 4 + c.At(s.ip + 1) * 4, 3);
    }
  }

  lemma MatchNextTightens(c: Config, p: Config, s: State, n: nat)
    requires Tighter(c, p) && |s.out| <= c.cap && Whole(p, p.AtMatchNext(s, n))
    ensures SameOrFull(c, s, c.AtMatchNext(s, n), p.AtMatchNext(s, n))
  {
    hide Config.Literals, Sized;
    LiteralsTighten(c, p, s, n, MatchDone);
  }

  lemma StepTightens(c: Config, p: Config, s: State)
    requires Tighter(c, p) && c.Runnable(s) && !s.at.Stopped? && |s.out| <= c.cap && Whole(p, p.Step(s))
    ensures SameOrFull(c, s, c.Step(s), p.Step(s))
  {
    hide Config.AtMatch, Config.AtLoopTop, Config.AtFirstLiteralRun, Config.AtMatchNext, Sized;
    match s.at
    case LoopTop => LoopTopTightens(c, p, s);
    case FirstLiteralRun => FirstLiteralRunTightens(c, p, s);
    case Match(t) => MatchTightens(c, p, s, t);
    case MatchDone =>
    case MatchNext(n) => MatchNextTightens(c, p, s, n);
  }

  lemma StartTightens(c: Config, p: Config)
    requires Tighter(c, p) && Whole(p, p.Start())
    ensures SameOrFull(c, State(0, [], LoopTop), c.Start(), p.Start())
  {
    hide Config.Literals, Sized;
    if c.At(0) >= 21 {
      LiteralsTighten(c, p, State(1, [], LoopTop), c.At(0) - 17, FirstLiteralRun);
    }
  }

  /** A run that writes more than fits stops with LZO_E_OUTPUT_OVERRUN on the way. */
  lemma {:induction false} RunTightens(c: Config, p: Config, s: State)
    requires Tighter(c, p) && c.Runnable(s) && !s.at.Stopped? && |s.out| <= c.cap < |p.Run(s).out| && Whole(p, p.Run(s))
    ensures c.Run(s).at == Stopped(OutputOverrun) && c.Run(s).out <= p.Run(s).out
    decreases c.Fuel(s)
  {
    hide Config.Step, Sized;
    StepGrows(p, s);
    var r := p.Step(s);
    RunGrows(p, r);
    StepTightens(c, p, s);
    if |r.out| <= c.cap {
      RunTightens(c, p, r);
    }
  }

  /** LZO_E_OUTPUT_OVERRUN: the data of a block does not fit the capacity. What has been written is its beginning. */
  lemma DataDoesNotFit(c: Config, n: nat, data: seq<byte>)
    requires c.safe && BlockOf(c.src, n, data) && n <= c.inLen && c.cap < |data|
    requires c.word == 0 || (Sized(c) && |data| < c.word)
    ensures c.Decode().0 == OutputOverrun && c.Decode().1 <= data
  {
    hide Denotes, Config.Step, Config.Reg, Config.Short, Config.Literals;
    var p := c.(cap := |data|);
    BlockEndsAt(p, n, data);
    StartTightens(c, p);
    if !p.Start().at.Stopped? && |p.Start().out| <= c.cap {
      StartFits(c);
      RunTightens(c, p, p.Start());
    }
  }

  // ---------- matches that look too far back ----------

  /** A block as far as the end of `prog`. */
  predicate Opens(src: seq<byte>, lead: seq<byte>, prog: seq<Instr>) {
    && |lead| <= 238 && WellFormed(prog, Context0(lead), lead)
    && Holds(src, 0, OpeningBytes(lead, prog))
    && (lead == [] && src != [] ==> src[0] <= 17)
  }

  function Context0(lead: seq<byte>): Context {
    Stream(lead, [], 3, 0).Context0()
  }

  function OpeningBytes(lead: seq<byte>, prog: seq<Instr>): seq<byte>
    requires |lead| <= 238 && AllShaped(prog)
  {
    LeadBytes(lead) + ProgBytes(prog)
  }

  function LeadBytes(lead: seq<byte>): seq<byte>
    requires |lead| <= 238
  {
    if lead == [] then [] else [(17 + |lead|) as byte] + lead
  }

  /** The data of an opening, and the context of what follows it. */
  function Written(lead: seq<byte>, prog: seq<Instr>): seq<byte>
    requires WellFormed(prog, Context0(lead), lead)
  {
    Expand(prog, Context0(lead), lead)
  }

  function After(lead: seq<byte>, prog: seq<Instr>): Context {
    EndContext(prog, Context0(lead))
  }

  lemma LeadIsRead(c: Ideal, lead: seq<byte>)
    requires 1 <= |lead| <= 238 && Holds(c.src, 0, LeadBytes(lead)) && BeforeMore(c, 1 + |lead|) && |lead| <= c.cap
    ensures c.Run(c.Start()) == c.Run(Ready(c, Context0(lead), 1 + |lead|, lead))
  {
    hide Holds, Config.Step, Config.Run;
    HoldsAt(c.src, 0, LeadBytes(lead), 0);
    HoldsParts(c.src, 0, [(17 + |lead|) as byte], lead);
    ReadsLead(c, lead);
  }

  /** From the start of a block to what follows `prog`. */
  lemma OpeningIsRead(c: Ideal, lead: seq<byte>, prog: seq<Instr>)
    requires Opens(c.src, lead, prog) && BeforeMore(c, |OpeningBytes(lead, prog)|)
    requires |Written(lead, prog)| <= c.cap
    ensures c.Run(c.Start()) == c.Run(Ready(c, After(lead, prog), |OpeningBytes(lead, prog)|, Written(lead, prog)))
  {
    hide Holds, WellFormed, Expand, ProgBytes, Config.Step, Config.Run;
    HoldsParts(c.src, 0, LeadBytes(lead), ProgBytes(prog));
    if lead != [] {
      LeadIsRead(c, lead);
    }
    ReadsPart(c, Context0(lead), |LeadBytes(lead)|, lead, prog);
  }

  lemma LookbehindStops(c: Ideal, ip: nat, out: seq<byte>, off: nat, len: nat)
    requires c.safe && ip <= |c.src| && |out| < off
    ensures var r := c.Run(Tried(c, ip, out, off, len)); r.at == Stopped(LookbehindOverrun) && r.out == out
  {
  }

  /** LZO_E_LOOKBEHIND_OVERRUN: a match goes back beyond the data before it, which is what has been written. */
  lemma MatchLooksTooFar(c: Config, lead: seq<byte>, prog: seq<Instr>, m: Instr)
    requires Guarded(c) && Fits(c) && Opens(c.src, lead, prog)
    requires m.Copy? && Allowed(m, After(lead, prog))
    requires var ip, b := |OpeningBytes(lead, prog)|, MatchBytes(m.kind, m.len, m.off, |m.lits|);
             Holds(c.src, ip, b) && ip + 2 <= c.inLen && ip + |b| <= c.inLen + 2
    requires |Written(lead, prog)| <= c.cap && |Written(lead, prog)| < m.off
    ensures c.Decode() == (LookbehindOverrun, Written(lead, prog))
  {
    hide OpeningBytes, Holds, Written, After, WellFormed, MatchBytes, Config.Step, Config.Run;
    var p, data := c.Ideally(), Written(lead, prog);
    var ip := |OpeningBytes(lead, prog)|;
    var end := ip + |MatchBytes(m.kind, m.len, m.off, |m.lits|)|;
    SafeRegistersSuffice(c);
    OpeningIsRead(p, lead, prog);
    ReadsMatch(p, After(lead, prog), ip, data, m.kind, m.len, m.off, |m.lits|, end);
    LookbehindStops(p, end, data, m.off, m.len);
  }

  // ---------- blocks without an end ----------

  /** Two more labels and the run is over. */
  lemma StopsInTwo(c: Config, s: State)
    requires c.Runnable(s) && !s.at.Stopped? && !c.Step(s).at.Stopped? && c.Step(c.Step(s)).at.Stopped?
    ensures c.Run(s) == c.Step(c.Step(s))
  {
    hide Config.Step;
    assert c.Run(s) == c.Run(c.Step(s));
  }

  /** After a match that ends at `ip`: the input ends before that, there, among its literals, or a byte after them. */
  lemma EndsAfterMatch(c: Ideal, ip: nat, out: seq<byte>, lits: seq<byte>)
    requires c.safe && 2 <= ip <= c.inLen + 2 && ip + |lits| < |c.src| && |lits| <= 3 && |out| + |lits| <= c.cap
    requires c.At(ip - 2) % 4 == |lits| && Holds(c.src, ip, lits)
    ensures var r := c.Run(State(ip, out, MatchDone));
            && (c.inLen < ip ==> r.at == Stopped(EofNotFound) && r.out == out + lits)
            && (lits == [] && ip == c.inLen ==> r.at == Stopped(EofNotFound) && r.out == out)
            && (lits != [] && ip <= c.inLen <= ip + |lits| ==> r.at == Stopped(InputOverrun) && r.out == out)
            && (lits != [] && c.inLen == ip + |lits| + 1 ==> r.at == Stopped(EofNotFound) && r.out == out + lits)
  {
    hide Config.Run;
    var s := State(ip, out, MatchDone);
    HoldsSlice(c.src, ip, lits);
    if lits == [] {
      assert out + lits == out;
      if c.inLen <= ip {
        assert c.Step(s) == State(ip, out, LoopTop);
        StopsInTwo(c, s);
      }
    } else if c.inLen <= ip + |lits| + 1 {
      assert c.Step(s) == State(ip, out, MatchNext(|lits|));
      StopsInTwo(c, s);
    }
  }

  lemma EndsAfterRun(c: Ideal, ip: nat, out: seq<byte>, bytes: seq<byte>)
    requires c.safe && 4 <= |bytes| && |out| + |bytes| <= c.cap && Holds(c.src, ip, InstrBytes(Run(bytes)))
    requires ip + |RunHeader(|bytes|)| <= c.inLen <= ip + |InstrBytes(Run(bytes))| && c.inLen < |c.src|
    ensures var r := c.Run(State(ip, out, LoopTop)); r.at == Stopped(InputOverrun) && r.out == out
  {
    hide Holds, RunHeader;
    HoldsParts(c.src, ip, RunHeader(|bytes|), bytes);
    ReadsRunHeader(c, ip, |bytes|);
    HeaderIsNotEmpty(|bytes|);
  }

  lemma HeaderIsNotEmpty(n: nat)
    requires 4 <= n
    ensures |RunHeader(n)| >= 1
  {
  }

  lemma {:induction false} LengthRunsOut(c: Ideal, ip: nat, n: nat, t: nat)
    requires c.safe && n > 0 && Holds(c.src, ip, Ext(n)) && ip <= c.inLen < ip + |Ext(n)|
    ensures c.ReadLength(ip, t) == NoLength(InputOverrun)
    decreases n
  {
    HoldsAt(c.src, ip, Ext(n), 0);
    if n > 255 {
      HoldsParts(c.src, ip, [0], Ext(n - 255));
      if ip < c.inLen {
        LengthRunsOut(c, ip + 1, n - 255, t + 255);
      }
    }
  }

  /** A first byte that a run-length follows: of a run, an M3 match, or an M4 match or end code. */
  predicate TakesLength(b: byte, ctx: Context) {
    (b == 0 && ctx.Top?) || b in [16, 24, 32]
  }

  lemma LengthStops(c: Ideal, ctx: Context, ip: nat, out: seq<byte>, b: byte, n: nat)
    requires c.safe && c.inLen <= |c.src| && TakesLength(b, ctx) && n > 0 && Holds(c.src, ip, [b] + Ext(n))
    requires ip + 2 <= c.inLen < ip + 1 + |Ext(n)|
    ensures var r := c.Run(Ready(c, ctx, ip, out)); r.at == Stopped(InputOverrun) && r.out == out
  {
    hide Holds, Config.Literals, Config.CopyMatch, Config.ReadLength;
    HoldsAt(c.src, ip, [b] + Ext(n), 0);
    HoldsParts(c.src, ip, [b], Ext(n));
    LengthRunsOut(c, ip + 1, n, if b == 0 then 15 else if b == 32 then 31 else 7);
    if b == 0 {
      assert c.Step(State(ip, out, LoopTop)).at == Stopped(InputOverrun);
    } else {
      ReachesMatch(c, ctx, ip, out);
      assert c.Step(State(ip + 1, out, Match(b as nat))).at == Stopped(InputOverrun);
    }
  }

  /** LZO_E_INPUT_OVERRUN: the input ends inside the length of a run, a match or an end code. */
  lemma InputEndsInLength(c: Config, lead: seq<byte>, prog: seq<Instr>, b: byte, n: nat)
    requires Guarded(c) && Fits(c) && Opens(c.src, lead, prog) && |Written(lead, prog)| <= c.cap
    requires TakesLength(b, After(lead, prog)) && n > 0
    requires var ip := |OpeningBytes(lead, prog)|;
             Holds(c.src, ip, [b] + Ext(n)) && ip + 2 <= c.inLen < ip + 1 + |Ext(n)|
    ensures c.Decode() == (InputOverrun, Written(lead, prog))
  {
    hide OpeningBytes, Holds, Written, After, WellFormed, TakesLength, Config.Step, Config.Run;
    var p, ip := c.Ideally(), |OpeningBytes(lead, prog)|;
    SafeRegistersSuffice(c);
    OpeningIsRead(p, lead, prog);
    LengthStops(p, After(lead, prog), ip, Written(lead, prog), b, n);
  }

  /** LZO_E_INPUT_OVERRUN: the input ends among the literals announced by the first byte, or right after them. */
  lemma InputEndsInLead(c: Config, lead: seq<byte>)
    requires Guarded(c) && Fits(c) && 1 <= |lead| <= 238 && |lead| <= c.cap
    requires Holds(c.src, 0, LeadBytes(lead)) && c.inLen <= 1 + |lead|
    ensures c.Decode() == (InputOverrun, [])
  {
    hide Holds, Config.Step, Config.Run;
    SafeRegistersSuffice(c);
    HoldsAt(c.src, 0, LeadBytes(lead), 0);
    LeadStops(c.Ideally(), |lead|);
  }

  lemma LeadStops(c: Ideal, n: nat)
    requires Guarded(c) && 1 <= n <= 238 && c.At(0) == 17 + n && n <= c.cap && c.inLen <= 1 + n
    ensures var r := c.Run(c.Start()); r.at == Stopped(InputOverrun) && r.out == []
  {
    if n < 4 {
      assert c.Start() == State(1, [], MatchNext(n));
      assert c.Step(c.Start()).at == Stopped(InputOverrun);
    }
  }

  /** LZO_E_INPUT_OVERRUN: the input ends among the literals of a run, or right after them. None are written. */
  lemma InputEndsInRun(c: Config, lead: seq<byte>, prog: seq<Instr>, bytes: seq<byte>)
    requires Guarded(c) && Fits(c) && Opens(c.src, lead, prog) && After(lead, prog).Top? && 4 <= |bytes|
    requires |Written(lead, prog)| + |bytes| <= c.cap
    requires var ip := |OpeningBytes(lead, prog)|;
             && Holds(c.src, ip, RunHeader(|bytes|) + bytes)
             && ip + 2 <= c.inLen && ip + |RunHeader(|bytes|)| <= c.inLen <= ip + |RunHeader(|bytes|)| + |bytes|
    ensures c.Decode() == (InputOverrun, Written(lead, prog))
  {
    hide OpeningBytes, Holds, Written, After, WellFormed, RunHeader, Config.Step, Config.Run;
    var p, ip := c.Ideally(), |OpeningBytes(lead, prog)|;
    SafeRegistersSuffice(c);
    OpeningIsRead(p, lead, prog);
    assert InstrBytes(Run(bytes)) == RunHeader(|bytes|) + bytes;
    EndsAfterRun(p, ip, Written(lead, prog), bytes);
  }

  /**
    The end of the input at a match. LZO_E_EOF_NOT_FOUND in its offset bytes, which are not tested; at the first byte of
    the next instruction; or, when the match has literals, right after that byte. Among its literals
    LZO_E_INPUT_OVERRUN.
   */
  lemma InputEndsAtMatch(c: Config, lead: seq<byte>, prog: seq<Instr>, m: Instr)
    requires Guarded(c) && Fits(c) && Opens(c.src, lead, prog)
    requires m.Copy? && Allowed(m, After(lead, prog)) && m.off <= |Written(lead, prog)|
    requires Holds(c.src, |OpeningBytes(lead, prog)|, InstrBytes(m))
    requires var ip := |OpeningBytes(lead, prog)|;
             ip + 2 <= c.inLen && ip + |MatchBytes(m.kind, m.len, m.off, |m.lits|)| <= c.inLen + 2
    requires |Apply(Written(lead, prog), m)| <= c.cap
    ensures var data, mid := Written(lead, prog), |OpeningBytes(lead, prog)| + |InstrBytes(m)| - |m.lits|;
            && (c.inLen < mid ==> c.Decode() == (EofNotFound, Apply(data, m)))
            && (m.lits == [] && c.inLen == mid ==> c.Decode() == (EofNotFound, Apply(data, m)))
            && (m.lits != [] && mid <= c.inLen <= mid + |m.lits| ==>
                c.Decode() == (InputOverrun, CopyBack(data, m.off, m.len)))
            && (m.lits != [] && c.inLen == mid + |m.lits| + 1 ==> c.Decode() == (EofNotFound, Apply(data, m)))
  {
    hide OpeningBytes, Holds, Written, After, WellFormed, MatchBytes, Config.Step, Config.Run;
    var p, data, ip := c.Ideally(), Written(lead, prog), |OpeningBytes(lead, prog)|;
    var b, out := MatchBytes(m.kind, m.len, m.off, |m.lits|), CopyBack(data, m.off, m.len);
    assert out + [] == out;
    SafeRegistersSuffice(c);
    OpeningIsRead(p, lead, prog);
    HoldsParts(c.src, ip, b, m.lits);
    ReadsMatch(p, After(lead, prog), ip, data, m.kind, m.len, m.off, |m.lits|, ip + |b|);
    CopiesInside(p, ip + |b|, data, m.off, m.len);
    MatchIsReadable(c, ip, m);
    EndsAfterMatch(p, ip + |b|, out, m.lits);
  }

  lemma MatchIsReadable(c: Config, ip: nat, m: Instr)
    requires m.Copy? && Shaped(m) && Guarded(c) && Holds(c.src, ip, InstrBytes(m))
    requires ip + |MatchBytes(m.kind, m.len, m.off, |m.lits|)| <= c.inLen + 2
    ensures |InstrBytes(m)| == |MatchBytes(m.kind, m.len, m.off, |m.lits|)| + |m.lits|
    ensures ip + |InstrBytes(m)| < |c.src|
  {
  }
}
