/** The decoders in `lzo_uint` registers: when they are the decoders with unbounded ones, and when they are not. */
module LzoRegisters {
  import opened Bytes
  import opened LzoFormat
  import opened LzoMachine
  import opened LzoSafety

  const MIN_WORD := 0x1_0000

  /** Both lengths of the call are `lzo_uint` values. */
  predicate Sized(c: Config) {
    MIN_WORD <= c.word && c.inLen < c.word && (c.safe ==> c.cap < c.word)
  }

  /** The longest run-length a block of this size can hold, and the 4 NEED_IP adds to it, fit a register. */
  predicate LengthFits(word: nat, inLen: nat) {
    255 * inLen < word + 236
  }

  /** What keeps every register of a call from wrapping. */
  predicate Fits(c: Config) {
    c.word == 0 || (Sized(c) && LengthFits(c.word, c.inLen))
  }

  // ---------- run-lengths ----------

  /** A run-length grows by at most 255 for each byte read. */
  lemma {:induction false} LengthIsBounded(p: Ideal, ip: nat, t: nat)
    ensures var r := p.ReadLength(ip, t); r.Got? ==> r.t <= t + 255 * (r.ip - ip)
    decreases |p.src| - ip
  {
    if ip < |p.src| && p.src[ip] == 0 && !p.InputShort(ip, 1) {
      LengthIsBounded(p, ip + 1, t + 255);
    }
  }

  /** Inside the block NEED_IP compares what it should. */
  lemma ShortIsExact(c: Config, end: nat, pos: nat, x: nat)
    requires pos <= end && end - pos < c.word
    ensures c.Short(end, pos, x) <==> end - pos < x
  {
  }

  lemma RegIsExact(c: Config, x: nat)
    requires x < c.word
    ensures c.Reg(x) == x
  {
  }

  /** Inside the block a run-length ends at the same byte, whatever the registers hold. */
  predicate EndsTheSame(r: Length, q: Length) {
    if r.Got? then q.Got? && q.ip == r.ip else r == q
  }

  predicate EndsInside(c: Config, r: Length) {
    r.Got? && r.ip <= c.inLen
  }

  lemma {:induction false} LengthEndsTheSame(c: Config, ip: nat, t: nat, u: nat)
    requires Sized(c) && ip <= c.inLen
    requires c.safe || EndsInside(c, c.ReadLength(ip, t)) || EndsInside(c, c.Ideally().ReadLength(ip, u))
    ensures EndsTheSame(c.ReadLength(ip, t), c.Ideally().ReadLength(ip, u))
    decreases |c.src| - ip
  {
    hide Config.Reg, Config.Short;
    ShortIsExact(c, c.inLen, ip, 1);
    if ip < c.inLen && ip < |c.src| && c.src[ip] == 0 {
      LengthEndsTheSame(c, ip + 1, c.Reg(t + 255), u + 255);
    }
  }

  /** A run-length inside the block that fits a register is what the register holds. */
  lemma {:induction false} LengthFitsRegister(c: Config, ip: nat, t: nat)
    requires Sized(c)
    requires var r := c.Ideally().ReadLength(ip, t); r.Got? && r.ip <= c.inLen && r.t < c.word
    ensures c.ReadLength(ip, t) == c.Ideally().ReadLength(ip, t)
    decreases |c.src| - ip
  {
    hide Config.Reg, Config.Short;
    ShortIsExact(c, c.inLen, ip, 1);
    if c.src[ip] == 0 {
      RegIsExact(c, t + 255);
      LengthFitsRegister(c, ip + 1, t + 255);
    } else {
      RegIsExact(c, t + c.At(ip));
    }
  }

  /** So is every run-length that ends by `end`, if all the bytes up to there cannot make it wrap. */
  lemma {:induction false} ShortBlockKeepsLength(c: Config, ip: nat, t: nat, end: nat)
    requires Sized(c) && ip <= end <= c.inLen && t + 255 * (end - ip) < c.word
    requires (c.safe && end == c.inLen) || (c.ReadLength(ip, t).Got? && c.ReadLength(ip, t).ip <= end)
    ensures c.ReadLength(ip, t) == c.Ideally().ReadLength(ip, t)
    decreases |c.src| - ip
  {
    hide Config.Reg, Config.Short;
    ShortIsExact(c, c.inLen, ip, 1);
    if ip < end && ip < |c.src| {
      if c.src[ip] == 0 {
        RegIsExact(c, t + 255);
        ShortBlockKeepsLength(c, ip + 1, t + 255, end);
      } else {
        RegIsExact(c, t + c.At(ip));
      }
    }
  }

  // ---------- steps ----------

  /** Literals that stay inside both buffers are copied in either kind of register. */
  lemma LiteralsFit(c: Config, s: State, n: nat, next: Label)
    requires Sized(c) && n + 1 < c.word && s.ip <= c.inLen && (c.safe ==> |s.out| <= c.cap)
    ensures c.Literals(s, n, next) == c.Ideally().Literals(s, n, next)
  {
    hide Config.Reg, Config.Short;
    RegIsExact(c, n);
    RegIsExact(c, n + 1);
    ShortIsExact(c, c.inLen, s.ip, n + 1);
    if c.safe {
      ShortIsExact(c, c.cap, |s.out|, n);
    }
  }

  lemma CopyFits(c: Config, s: State, off: nat, len: nat)
    requires Sized(c) && len < c.word && (c.safe ==> |s.out| <= c.cap)
    ensures c.CopyMatch(s, off, len) == c.Ideally().CopyMatch(s, off, len)
  {
    hide Config.Reg, Config.Short;
    RegIsExact(c, len);
    if c.safe {
      ShortIsExact(c, c.cap, |s.out|, len);
    }
  }

  /** A length of a literal run that is the same in either kind of register, and 4 more still fit. */
  predicate RunSame(c: Config, ip: nat)
    requires ip <= |c.src|
  {
    var r := c.ReadLength(ip, 15);
    r == c.Ideally().ReadLength(ip, 15) && (r.Got? ==> r.ip <= c.inLen && r.t + 4 < c.word)
  }

  lemma LoopTopSame(c: Config, s: State)
    requires Sized(c) && (c.safe ==> |s.out| <= c.cap)
    requires s.ip < c.inLen && s.ip < |c.src| && (c.At(s.ip) == 0 ==> RunSame(c, s.ip + 1))
    ensures c.AtLoopTop(s) == c.Ideally().AtLoopTop(s)
  {
    hide Config.Reg, Config.Short, Config.ReadLength, Config.Literals;
    var t := c.At(s.ip);
    if t < 16 {
      var r := c.FieldOrLength(t, s.ip + 1, 15);
      if r.Got? {
        LiteralsFit(c, State(r.ip, s.out, LoopTop), r.t + 3, FirstLiteralRun);
      }
    }
  }

  /** Both decoders go on alike after the length of a match. */
  predicate MatchSame(c: Config, ip: nat, base: nat)
    requires ip <= |c.src|
  {
    EndsTheSame(c.ReadLength(ip, base), c.Ideally().ReadLength(ip, base))
  }

  /** The length is the same and 2 more still fit. */
  predicate CountSame(c: Config, ip: nat, base: nat)
    requires ip <= |c.src|
  {
    var r := c.ReadLength(ip, base);
    r == c.Ideally().ReadLength(ip, base) && (r.Got? ==> r.t + 2 < c.word)
  }

  /** The two offset bytes after the length are those of an end code. */
  predicate EndCodeFollows(c: Config, ip: nat, base: nat, high: nat)
    requires ip <= |c.src|
  {
    var r := c.ReadLength(ip, base);
    r.Got? && r.ip + 2 <= |c.src| && high + c.Offset14(r.ip) == 0
  }

  lemma NothingToLookBackTo(c: Config, s: State, off: nat, len: nat, len': nat)
    requires c.safe && s.out == [] && 1 <= off
    ensures c.CopyMatch(s, off, len) == c.Ideally().CopyMatch(s, off, len')
  {
  }

  /** Lengths that may differ do not matter: before any output, and in the end code. */
  lemma LongMatchSame(c: Config, s: State, field: nat, lenBase: nat, base: nat, m4: bool)
    requires Sized(c) && (c.safe ==> |s.out| <= c.cap) && s.ip <= |c.src|
    requires field < 32 && (!m4 ==> 1 <= base)
    requires field == 0 ==> MatchSame(c, s.ip, lenBase)
    requires field == 0 ==>
      CountSame(c, s.ip, lenBase) || (c.safe && s.out == []) || (m4 && EndCodeFollows(c, s.ip, lenBase, base))
    ensures c.AtLongMatch(s, field, lenBase, base, m4) == c.Ideally().AtLongMatch(s, field, lenBase, base, m4)
  {
    hide Config.Reg, Config.Short, Config.ReadLength, Config.CopyMatch;
    var r, q := c.FieldOrLength(field, s.ip, lenBase), c.Ideally().FieldOrLength(field, s.ip, lenBase);
    if r.Got? && r.ip + 2 <= |c.src| {
      var d := base + c.Offset14(r.ip);
      var off := if m4 then d + 0x4000 else d;
      if r.t == q.t && r.t + 2 < c.word {
        CopyFits(c, State(r.ip + 2, s.out, MatchDone), off, r.t + 2);
      } else if c.safe && s.out == [] {
        NothingToLookBackTo(c, State(r.ip + 2, s.out, MatchDone), off, c.Turns(r.t) + 2, q.t + 2);
      }
    }
  }

  /** What is asked of the run-length of an M3 match, or of an M4 match or end code. */
  predicate FieldSame(c: Config, s: State, base: nat, m4: bool, high: nat)
    requires s.ip <= |c.src|
  {
    && MatchSame(c, s.ip, base)
    && (CountSame(c, s.ip, base) || (c.safe && s.out == []) || (m4 && EndCodeFollows(c, s.ip, base, high)))
  }

  lemma MatchStepSame(c: Config, s: State, t: nat)
    requires Sized(c) && (c.safe ==> |s.out| <= c.cap) && s.ip <= |c.src| && t < 256
    requires 32 <= t < 64 && t % 32 == 0 ==> FieldSame(c, s, 31, false, 1)
    requires 16 <= t < 32 && t % 8 == 0 ==> FieldSame(c, s, 7, true, ((t / 8) % 2) * 0x4000)
    ensures c.AtMatch(s, t) == c.Ideally().AtMatch(s, t)
  {
    hide Config.CopyMatch, Config.AtLongMatch, MatchSame, CountSame, EndCodeFollows;
    if s.ip < |c.src| {
      if t >= 64 {
        CopyFits(c, State(s.ip + 1, s.out, MatchDone), 1 + (t / 4) % 8 + c.At(s.ip) * 8, t / 32 - 1 + 2);
      } else if t < 16 {
        CopyFits(c, State(s.ip + 1, s.out, MatchDone), 1 + t / 4 + c.At(s.ip) * 4, 2);
      }
    }
    if 32 <= t < 64 {
      LongMatchSame(c, s, t % 32, 31, 1, false);
    } else if 16 <= t < 32 {
      LongMatchSame(c, s, t % 8, 7, ((t / 8) % 2) * 0x4000, true);
    }
  }

  lemma FirstLiteralRunSame(c: Config, s: State)
    requires Sized(c) && (c.safe ==> |s.out| <= c.cap)
    ensures c.AtFirstLiteralRun(s) == c.Ideally().AtFirstLiteralRun(s)
  {
    hide Config.CopyMatch;
    if s.ip + 1 < |c.src| {
      var t := c.At(s.ip);
      CopyFits(c, State(s.ip + 2, s.out, MatchDone), 1 + M2_MAX_OFFSET + t / 4 + c.At(s.ip + 1) * 4, 3);
    }
  }

  /** A little past the end there is plenty left. */
  lemma PlentyPastEnd(c: Config, pos: nat, x: nat)
    requires Sized(c) && c.inLen < pos <= c.inLen + 8 && x <= 0x1000
    ensures !c.Short(c.inLen, pos, x)
  {
    var d := pos - c.inLen;
    assert (0 - d) % c.word == c.word - d;
  }

  lemma MatchNextSame(c: Config, s: State, n: nat)
    requires Sized(c) && (c.safe ==> |s.out| <= c.cap) && s.ip <= c.inLen + 8 && n <= 3
    ensures c.AtMatchNext(s, n) == c.Ideally().AtMatchNext(s, n)
  {
    hide Config.Reg, Config.Short;
    RegIsExact(c, n);
    RegIsExact(c, n + 1);
    if c.safe {
      ShortIsExact(c, c.cap, |s.out|, n);
    }
    if s.ip <= c.inLen {
      ShortIsExact(c, c.inLen, s.ip, n + 1);
    } else {
      PlentyPastEnd(c, s.ip, n + 1);
    }
  }

  // ---------- a run that succeeds ----------

  /** What the step of a run that ends with LZO_E_OK comes to: inside the block, with no more output than fits. */
  predicate Going(c: Config, s: State, r: State) {
    Fine(r) && s.ip <= r.ip <= c.inLen && |s.out| <= |r.out| < c.word
  }

  /** The values labels carry come from single bytes. */
  predicate FromBytes(s: State) {
    (s.at.Match? ==> s.at.t < 256) && (s.at.MatchNext? ==> s.at.count <= 3)
  }

  lemma StepsFromBytes(c: Config, s: State)
    requires c.Runnable(s) && !s.at.Stopped?
    ensures FromBytes(c.Step(s))
  {
    hide Config.Reg, Config.Short, Config.ReadLength;
  }

  /** What registers hold of such a step is exact. */
  lemma GoodStepFits(c: Config, s: State)
    requires Sized(c) && c.Runnable(s) && !s.at.Stopped? && (c.safe ==> |s.out| <= c.cap) && FromBytes(s)
    requires Going(c, s, c.Ideally().Step(s))
    ensures c.Step(s) == c.Ideally().Step(s)
  {
    hide Config.Reg, Config.Short, Config.ReadLength;
    match s.at
    case LoopTop => GoodLoopTop(c, s);
    case FirstLiteralRun => FirstLiteralRunSame(c, s);
    case Match(t) => GoodMatch(c, s, t);
    case MatchDone =>
    case MatchNext(n) => MatchNextSame(c, s, n);
  }

  lemma GoodLoopTop(c: Config, s: State)
    requires Sized(c) && s.ip <= |c.src| && (c.safe ==> |s.out| <= c.cap)
    requires Going(c, s, c.Ideally().AtLoopTop(s))
    ensures c.AtLoopTop(s) == c.Ideally().AtLoopTop(s)
  {
    hide Config.Reg, Config.Short, Config.ReadLength;
    var p := c.Ideally();
    NoLengthIsNotOk(p, s.ip + 1, 15);
    if c.At(s.ip) == 0 {
      LengthFitsRegister(c, s.ip + 1, 15);
    }
    LoopTopSame(c, s);
  }

  lemma GoodMatch(c: Config, s: State, t: nat)
    requires Sized(c) && 1 <= s.ip <= |c.src| && (c.safe ==> |s.out| <= c.cap) && t < 256
    requires Going(c, s, c.Ideally().AtMatch(s, t))
    ensures c.AtMatch(s, t) == c.Ideally().AtMatch(s, t)
  {
    hide Config.AtLongMatch, Config.CopyMatch, FieldSame;
    if 32 <= t < 64 && t % 32 == 0 {
      GoodField(c, s, 31, false, 1);
    } else if 16 <= t < 32 && t % 8 == 0 {
      GoodField(c, s, 7, true, ((t / 8) % 2) * 0x4000);
    }
    MatchStepSame(c, s, t);
  }

  lemma GoodField(c: Config, s: State, lenBase: nat, m4: bool, high: nat)
    requires Sized(c) && s.ip <= c.inLen && s.ip <= |c.src| && (m4 || 1 <= high)
    requires Going(c, s, c.Ideally().AtLongMatch(s, 0, lenBase, high, m4))
    ensures FieldSame(c, s, lenBase, m4, high)
  {
    hide Config.Reg, Config.Short, Config.ReadLength;
    var p := c.Ideally();
    NoLengthIsNotOk(p, s.ip, lenBase);
    LengthEndsTheSame(c, s.ip, lenBase, lenBase);
    if p.ReadLength(s.ip, lenBase).t + 2 < c.word {
      LengthFitsRegister(c, s.ip, lenBase);
    }
  }

  /** A run that ends with LZO_E_OK stays inside the block all the way. */
  lemma {:induction false} GoodRunStaysInside(c: Config, s: State)
    requires c.Runnable(s) && !s.at.Stopped? && c.Run(s).at.rc == Ok
    ensures s.ip <= c.Run(s).ip == c.inLen && s.out <= c.Run(s).out
    decreases c.Fuel(s)
  {
    hide Config.Step;
    StepGrows(c, s);
    var r := c.Step(s);
    if !r.at.Stopped? {
      GoodRunStaysInside(c, r);
    }
  }

  lemma {:induction false} GoodRunFits(c: Config, s: State)
    requires Sized(c) && c.Runnable(s) && !s.at.Stopped? && (c.safe ==> |s.out| <= c.cap) && FromBytes(s)
    requires c.Ideally().Run(s).at.rc == Ok && |c.Ideally().Run(s).out| < c.word
    ensures c.Run(s) == c.Ideally().Run(s)
    decreases c.Fuel(s)
  {
    hide Config.Step;
    var p := c.Ideally();
    var r := p.Step(s);
    StepGrows(p, s);
    StepsFromBytes(p, s);
    if c.safe {
      StepOutputFits(p, s);
    }
    if !r.at.Stopped? {
      GoodRunStaysInside(p, r);
    }
    GoodStepFits(c, s);
    if !r.at.Stopped? {
      GoodRunFits(c, r);
    }
  }

  lemma StartSame(c: Config)
    requires Sized(c)
    ensures c.Start() == c.Ideally().Start() && FromBytes(c.Start())
  {
    hide Config.Reg, Config.Short, Config.Literals;
    if |c.src| > 0 && c.At(0) > 17 {
      LeadSame(c, c.At(0) - 17);
    }
  }

  /** Literals announced by the first byte, even in a block of no bytes. */
  lemma LeadSame(c: Config, n: nat)
    requires Sized(c) && n < 0x100
    ensures var s := State(1, [], LoopTop);
            c.Literals(s, n, FirstLiteralRun) == c.Ideally().Literals(s, n, FirstLiteralRun)
    ensures FromBytes(c.Literals(State(1, [], LoopTop), n, FirstLiteralRun))
  {
    hide Config.Reg, Config.Short;
    var s := State(1, [], LoopTop);
    if c.inLen > 0 {
      LiteralsFit(c, s, n, FirstLiteralRun);
    } else {
      RegIsExact(c, n);
      RegIsExact(c, n + 1);
      PlentyPastEnd(c, 1, n + 1);
      if c.safe {
        ShortIsExact(c, c.cap, 0, n);
      }
    }
  }

  /** A call that succeeds with unbounded registers succeeds in any whose size its lengths and its output fit. */
  lemma GoodCallsFit(c: Config)
    requires Sized(c) && c.Ideally().Decode().0 == Ok && |c.Ideally().Decode().1| < c.word
    ensures c.Decode() == c.Ideally().Decode()
  {
    hide Config.Step, Config.Reg, Config.Short;
    StartSame(c);
    if !c.Start().at.Stopped? {
      GoodRunFits(c, c.Start());
    }
  }

  // ---------- short enough blocks ----------

  /** In a short enough block no run-length wraps inside the block; M3 and M4 matches have room to spare. */
  lemma ShortBlockRun(c: Config, ip: nat)
    requires Sized(c) && LengthFits(c.word, c.inLen) && 1 <= ip <= c.inLen && ip <= |c.src|
    requires c.safe || EndsInside(c, c.ReadLength(ip, 15))
    ensures c.ReadLength(ip, 15).Got? && c.safe ==> EndsInside(c, c.ReadLength(ip, 15))
    ensures RunSame(c, ip)
  {
    hide Config.Reg, Config.Short, Config.ReadLength;
    ShortBlockKeepsLength(c, ip, 15, c.inLen);
    LengthIsBounded(c.Ideally(), ip, 15);
    if c.safe {
      SafeLengthEndsInside(c, ip, 15);
    }
  }

  lemma {:induction false} SafeLengthEndsInside(c: Config, ip: nat, t: nat)
    requires Sized(c) && c.safe && ip <= c.inLen
    ensures c.ReadLength(ip, t).Got? ==> c.ReadLength(ip, t).ip <= c.inLen
    decreases |c.src| - ip
  {
    hide Config.Reg, Config.Short;
    ShortIsExact(c, c.inLen, ip, 1);
    if ip < c.inLen && ip < |c.src| && c.src[ip] == 0 {
      SafeLengthEndsInside(c, ip + 1, c.Reg(t + 255));
    }
  }

  /** The length of a match with its two offset bytes inside the block. */
  lemma ShortBlockField(c: Config, s: State, lenBase: nat, m4: bool, high: nat)
    requires Sized(c) && LengthFits(c.word, c.inLen) && 1 <= s.ip <= |c.src| && lenBase <= 31
    requires var r := c.ReadLength(s.ip, lenBase); r.Got? && r.ip + 2 <= c.inLen
    ensures FieldSame(c, s, lenBase, m4, high)
  {
    hide Config.Reg, Config.Short, Config.ReadLength;
    ShortBlockKeepsLength(c, s.ip, lenBase, c.inLen - 2);
    LengthIsBounded(c.Ideally(), s.ip, lenBase);
  }

  /** The length of any match that the safe decoder reads, once there is output to match. */
  lemma SafeField(c: Config, s: State, lenBase: nat, m4: bool, high: nat)
    requires Sized(c) && LengthFits(c.word, c.inLen) && c.safe && s.ip <= c.inLen && s.ip <= |c.src| && lenBase <= 31
    requires s.out != [] ==> 2 <= s.ip
    ensures FieldSame(c, s, lenBase, m4, high)
  {
    hide Config.Reg, Config.Short, Config.ReadLength;
    LengthEndsTheSame(c, s.ip, lenBase, lenBase);
    if s.out != [] {
      ShortBlockKeepsLength(c, s.ip, lenBase, c.inLen);
      LengthIsBounded(c.Ideally(), s.ip, lenBase);
      SafeLengthEndsInside(c, s.ip, lenBase);
    }
  }

  /** The step of a run that ends with LZO_E_OK, seen from the registers. */
  lemma ShortBlockStepFits(c: Config, s: State)
    requires Sized(c) && LengthFits(c.word, c.inLen) && FromBytes(s)
    requires c.Runnable(s) && !s.at.Stopped? && (c.safe ==> |s.out| <= c.cap)
    requires Fine(c.Step(s)) && s.ip <= c.Step(s).ip <= c.inLen
    ensures c.Step(s) == c.Ideally().Step(s)
  {
    hide Config.Reg, Config.Short, Config.ReadLength;
    match s.at
    case LoopTop => ShortBlockLoopTop(c, s);
    case FirstLiteralRun => FirstLiteralRunSame(c, s);
    case Match(t) => ShortBlockMatch(c, s, t);
    case MatchDone =>
    case MatchNext(n) => MatchNextSame(c, s, n);
  }

  lemma ShortBlockLoopTop(c: Config, s: State)
    requires Sized(c) && LengthFits(c.word, c.inLen) && s.ip <= |c.src| && (c.safe ==> |s.out| <= c.cap)
    requires Fine(c.AtLoopTop(s)) && s.ip <= c.AtLoopTop(s).ip <= c.inLen
    ensures c.AtLoopTop(s) == c.Ideally().AtLoopTop(s)
  {
    hide Config.Reg, Config.Short, Config.ReadLength;
    NoLengthIsNotOk(c, s.ip + 1, 15);
    if c.At(s.ip) == 0 {
      ShortBlockRun(c, s.ip + 1);
    }
    LoopTopSame(c, s);
  }

  lemma ShortBlockMatch(c: Config, s: State, t: nat)
    requires Sized(c) && LengthFits(c.word, c.inLen) && 1 <= s.ip <= |c.src| && (c.safe ==> |s.out| <= c.cap) && t < 256
    requires Fine(c.AtMatch(s, t)) && s.ip <= c.AtMatch(s, t).ip <= c.inLen
    ensures c.AtMatch(s, t) == c.Ideally().AtMatch(s, t)
  {
    hide Config.Reg, Config.Short, Config.ReadLength, FieldSame;
    NoLengthIsNotOk(c, s.ip, 31);
    NoLengthIsNotOk(c, s.ip, 7);
    if 32 <= t < 64 && t % 32 == 0 {
      ShortBlockField(c, s, 31, false, 1);
    } else if 16 <= t < 32 && t % 8 == 0 {
      ShortBlockField(c, s, 7, true, ((t / 8) % 2) * 0x4000);
    }
    MatchStepSame(c, s, t);
  }

  lemma {:induction false} ShortBlockRunFits(c: Config, s: State)
    requires Sized(c) && LengthFits(c.word, c.inLen) && FromBytes(s)
    requires c.Runnable(s) && !s.at.Stopped? && (c.safe ==> |s.out| <= c.cap) && c.Run(s).at.rc == Ok
    ensures c.Run(s) == c.Ideally().Run(s)
    decreases c.Fuel(s)
  {
    hide Config.Step;
    var r := c.Step(s);
    StepGrows(c, s);
    StepsFromBytes(c, s);
    if c.safe {
      StepOutputFits(c, s);
    }
    if !r.at.Stopped? {
      GoodRunStaysInside(c, r);
    }
    ShortBlockStepFits(c, s);
    if !r.at.Stopped? {
      ShortBlockRunFits(c, r);
    }
  }

  /** A success in registers is a success without bounds, on every short enough block. */
  lemma ShortBlockSuccess(c: Config)
    requires Fits(c) && c.Decode().0 == Ok
    ensures c.Decode() == c.Ideally().Decode()
  {
    hide Config.Step, Config.Reg, Config.Short;
    if c.word != 0 {
      StartSame(c);
      if !c.Start().at.Stopped? {
        ShortBlockRunFits(c, c.Start());
      }
    }
  }

  // ---------- the safe decoder on any short enough block ----------

  /** Output comes from input: there is none before the second byte. */
  predicate Fed(s: State) {
    && (s.out != [] ==> 2 <= s.ip)
    && (s.at.MatchNext? ==> 1 <= s.at.count && 1 <= s.ip)
  }

  lemma MatchFeeds(p: Ideal, s: State, t: nat)
    requires Fed(s)
    ensures Fed(p.AtMatch(s, t))
  {
    hide Config.ReadLength;
    MatchGrows(p, s, t);
  }

  lemma StepFeeds(p: Ideal, s: State)
    requires p.Runnable(s) && !s.at.Stopped? && Fed(s)
    ensures Fed(p.Step(s))
  {
    hide Config.ReadLength, Config.AtMatch;
    match s.at
    case Match(t) => MatchFeeds(p, s, t);
    case _ =>
  }

  lemma SafeStepFits(c: Config, s: State)
    requires c.safe && Fits(c) && c.word != 0 && Guarded(c.Ideally()) && c.Runnable(s) && !s.at.Stopped?
    requires InBounds(c.Ideally(), s) && FromBytes(s) && Fed(s)
    ensures c.Step(s) == c.Ideally().Step(s)
  {
    hide Config.Reg, Config.Short, Config.ReadLength;
    match s.at
    case LoopTop =>
      if s.ip < c.inLen {
        if c.At(s.ip) == 0 {
          ShortBlockRun(c, s.ip + 1);
        }
        LoopTopSame(c, s);
      }
    case FirstLiteralRun => FirstLiteralRunSame(c, s);
    case Match(t) =>
      if 32 <= t < 64 && t % 32 == 0 {
        SafeField(c, s, 31, false, 1);
      } else if 16 <= t < 32 && t % 8 == 0 {
        SafeField(c, s, 7, true, ((t / 8) % 2) * 0x4000);
      }
      MatchStepSame(c, s, t);
    case MatchDone =>
    case MatchNext(n) => MatchNextSame(c, s, n);
  }

  lemma {:induction false} SafeRunFits(c: Config, s: State)
    requires c.safe && Fits(c) && c.word != 0 && Guarded(c.Ideally()) && c.Runnable(s)
    requires InBounds(c.Ideally(), s) && FromBytes(s) && Fed(s)
    ensures c.Run(s) == c.Ideally().Run(s)
    decreases if s.at.Stopped? then 0 else 1 + c.Fuel(s)
  {
    hide Config.Step, Config.Reg, Config.Short, Config.ReadLength, InBounds, Fed;
    if !s.at.Stopped? {
      var p := c.Ideally();
      SafeStepFits(c, s);
      StepInBounds(p, s);
      StepsFromBytes(p, s);
      StepFeeds(p, s);
      SafeRunFits(c, p.Step(s));
    }
  }

  /** On every short enough block the registers never wrap: the safe decoder does what it does without bounds. */
  lemma SafeRegistersSuffice(c: Config)
    requires Guarded(c) && Fits(c)
    ensures c.Decode() == c.Ideally().Decode()
  {
    hide Config.Step, Config.Run;
    if c.word != 0 {
      StartSame(c);
      StartIsInBounds(c.Ideally());
      SafeRunFits(c, c.Start());
    }
  }

  lemma StartIsInBounds(p: Ideal)
    requires Guarded(p)
    ensures InBounds(p, p.Start()) && Fed(p.Start())
  {
  }

  /** So it makes no forbidden access, and never writes past its capacity. */
  lemma SafeStaysInBounds(c: Config)
    requires Guarded(c) && Fits(c)
    ensures c.Decode().0 != Undefined
    ensures |c.Decode().1| <= c.cap
  {
    hide Config.Decode;
    SafeRegistersSuffice(c);
    IdealStaysInBounds(c.Ideally());
    DecodedFits(c);
  }

  lemma DecodedFits(c: Config)
    requires Guarded(c)
    ensures |c.Decode().1| <= c.cap
  {
    hide Config.Reg, Config.Short, Config.Step, Config.Run;
    OutputFits(c, c.Start());
  }

  // ---------- blocks that are too long ----------

  /** A literal run at the start: `zeros` zero bytes after the first, then `last`. */
  predicate LongRun(c: Config, zeros: nat, last: nat) {
    && zeros + 2 <= c.inLen <= |c.src| && 1 <= last < 256 && c.At(zeros + 1) == last
    && forall k :: 0 <= k <= zeros ==> c.src[k] == 0
  }

  lemma {:induction false} LongRunLength(c: Config, zeros: nat, last: nat, ip: nat)
    requires LongRun(c, zeros, last) && 1 <= ip <= zeros + 1
    requires c.word == 0 || (Sized(c) && 15 + 255 * zeros + last < c.word)
    ensures c.ReadLength(ip, 15 + 255 * (ip - 1)) == Got(zeros + 2, 15 + 255 * zeros + last)
    decreases zeros + 1 - ip
  {
    hide Config.Reg, Config.Short;
    var t := 15 + 255 * (ip - 1);
    if c.word != 0 {
      ShortIsExact(c, c.inLen, ip, 1);
      RegIsExact(c, if ip <= zeros then t + 255 else t + last);
    }
    if ip <= zeros {
      LongRunLength(c, zeros, last, ip + 1);
    }
  }

  /** NEED_OP and NEED_IP pass on wrapped amounts, and the copy leaves the buffers. */
  lemma LongRunEscapes(c: Config, zeros: nat, last: nat)
    requires LongRun(c, zeros, last) && Sized(c) && c.safe && |c.src| <= c.inLen + GUARD
    requires var t := 15 + 255 * zeros + last;
             && c.word - 4 <= t < c.word && zeros + 2 + c.Reg(t + 4) <= c.inLen && c.Reg(t + 3) <= c.cap
    ensures var t := 15 + 255 * zeros + last;
            && c.ReadLength(1, 15) == Got(zeros + 2, t)
            && !c.OutputShort([], c.Reg(t + 3)) && !c.InputShort(zeros + 2, c.Reg(t + 4))
    ensures c.Decode().0 == Undefined
  {
    hide Config.Reg, Config.Short;
    var t := 15 + 255 * zeros + last;
    LongRunLength(c, zeros, last, 1);
    ShortIsExact(c, c.cap, 0, c.Reg(t + 3));
    ShortIsExact(c, c.inLen, zeros + 2, c.Reg(t + 4));
    var s := State(0, [], LoopTop);
    assert c.Start() == s;
    assert c.AtLoopTop(s) == c.Literals(State(zeros + 2, [], LoopTop), t + 3, FirstLiteralRun);
    assert c.AtLoopTop(s).at == Stopped(Undefined);
    assert c.Run(s) == c.Step(s);
  }

  lemma RegWraps(c: Config, x: nat)
    requires x < c.word
    ensures c.Reg(c.word + x) == x
  {
    assert (c.word + x) % c.word == x % c.word;
  }

  /** The safe decoder, in registers of this size, makes no forbidden access on any block of this length. */
  ghost predicate AlwaysInside(word: nat, inLen: nat) {
    forall c: Config :: c.word == word && c.inLen == inLen && Guarded(c) && Sized(c) ==> c.Decode().0 != Undefined
  }

  lemma LongRunOf(word: nat, inLen: nat, cap: nat, zeros: nat, last: byte) returns (c: Config)
    requires zeros + 2 <= inLen && 1 <= last
    ensures LongRun(c, zeros, last as nat) && Guarded(c) && |c.src| == inLen + GUARD
    ensures c.word == word && c.inLen == inLen && c.cap == cap
  {
    var src := seq(inLen + GUARD, k => if k == zeros + 1 then last else 0);
    c := Config(src, inLen, cap, true, word);
  }

  /** The bound on the length is exact: one byte more, and some block escapes. */
  lemma LengthFitsIsExact(word: nat, inLen: nat)
    requires MIN_WORD <= word && 1 <= inLen < word
    ensures AlwaysInside(word, inLen) <==> LengthFits(word, inLen)
  {
    if LengthFits(word, inLen) {
      forall c: Config | c.word == word && c.inLen == inLen && Guarded(c) && Sized(c)
        ensures c.Decode().0 != Undefined
      {
        SafeStaysInBounds(c);
      }
    } else {
      var zeros := (word - 20) / 255;
      var last := word - 19 - 255 * zeros;
      var c := LongRunOf(word, inLen, word - 1, zeros, last as byte);
      RegIsExact(c, word - 1);
      RegWraps(c, 0);
      LongRunEscapes(c, zeros, last);
    }
  }

  /** With 32 bits: a block of some 16 megabytes overflows a buffer of two bytes that it should be too long for. */
  lemma OverflowsTwoBytes() returns (c: Config)
    ensures c.word == 0x1_0000_0000 && c.inLen == 16_843_190 && c.cap == 2 && Guarded(c) && Sized(c)
    ensures c.ReadLength(1, 15) == Got(16_843_010, 0xFFFF_FFFF)
    ensures var copied := 0xFFFF_FFFF + 3;
            && !c.OutputShort([], c.Reg(copied)) && !c.InputShort(16_843_010, c.Reg(copied + 1))
            && c.Overflows([], copied)
    ensures c.Decode().0 == Undefined && c.Ideally().Decode().0 == OutputOverrun
  {
    hide Config.Reg, Config.Short, Config.ReadLength, Config.Decode;
    var zeros, last := 16_843_008, 240;
    c := LongRunOf(0x1_0000_0000, 16_843_190, 2, zeros, last as byte);
    RegWraps(c, 2);
    RegWraps(c, 3);
    LongRunEscapes(c, zeros, last);
    LongRunStops(c.Ideally(), zeros, last);
  }

  lemma LongRunStops(p: Ideal, zeros: nat, last: nat)
    requires LongRun(p, zeros, last) && p.safe && p.cap < 255 * zeros
    ensures p.Decode().0 == OutputOverrun
  {
    LongRunLength(p, zeros, last, 1);
    var s := State(0, [], LoopTop);
    assert p.Start() == s;
    assert p.AtLoopTop(s).at == Stopped(OutputOverrun);
    assert p.Run(s) == p.Step(s);
  }
}
