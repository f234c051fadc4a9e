/**
  What the overrun tests buy while registers do not wrap: bounds. And in any registers: the safe decoder refines
  the plain one.
*/
module LzoSafety {
  import opened LzoFormat
  import opened LzoMachine

  /** Readable bytes the unguarded fetches can touch after the block. */
  const GUARD := 6

  /** Where `ip` and `op` can be at each label. */
  predicate InBounds(c: Config, s: State) {
    && |s.out| <= c.cap
    && match s.at
       case Match(_) => s.ip <= c.inLen
       case FirstLiteralRun => s.ip < c.inLen
       case Stopped(rc) => rc != Undefined
       case _ => s.ip <= c.inLen + 2
  }

  predicate Guarded(c: Config) {
    c.safe && 1 <= c.inLen && c.inLen + GUARD <= |c.src|
  }

  lemma {:induction false} LengthInBounds(c: Ideal, ip: nat, t: nat)
    requires Guarded(c) && ip <= c.inLen
    ensures var r := c.ReadLength(ip, t); if r.Got? then r.ip <= c.inLen else r.rc != Undefined
    decreases c.inLen - ip
  {
    if ip < c.inLen && c.src[ip] == 0 {
      LengthInBounds(c, ip + 1, t + 255);
    }
  }

  lemma LongMatchInBounds(c: Ideal, s: State, field: nat, lenBase: nat, base: nat, m4: bool)
    requires Guarded(c) && |s.out| <= c.cap && s.ip <= c.inLen
    ensures InBounds(c, c.AtLongMatch(s, field, lenBase, base, m4))
  {
    LengthInBounds(c, s.ip, lenBase);
  }

  lemma MatchInBounds(c: Ideal, s: State)
    requires Guarded(c) && InBounds(c, s) && s.at.Match?
    ensures InBounds(c, c.AtMatch(s, s.at.t))
  {
    hide Config.AtLongMatch, Config.FieldOrLength;
    var t: int := s.at.t;
    LongMatchInBounds(c, s, t % 32, 31, 1, false);
    LongMatchInBounds(c, s, t % 8, 7, ((t / 8) % 2) * 0x4000, true);
  }

  lemma LoopTopInBounds(c: Ideal, s: State)
    requires Guarded(c) && InBounds(c, s) && s.at.LoopTop?
    ensures InBounds(c, c.AtLoopTop(s))
  {
    if s.ip < c.inLen {
      LengthInBounds(c, s.ip + 1, 15);
    }
  }

  lemma StepInBounds(c: Ideal, s: State)
    requires Guarded(c) && c.Runnable(s) && InBounds(c, s) && !s.at.Stopped?
    requires s.at.MatchNext? ==> s.at.count <= 3
    ensures InBounds(c, c.Step(s))
    ensures c.Step(s).at.MatchNext? ==> c.Step(s).at.count <= 3
  {
    hide Config.FieldOrLength;
    match s.at
    case LoopTop => LoopTopInBounds(c, s);
    case Match(_) => MatchInBounds(c, s);
    case _ =>
  }

  lemma {:induction false} RunInBounds(c: Ideal, s: State)
    requires Guarded(c) && c.Runnable(s) && InBounds(c, s)
    requires s.at.MatchNext? ==> s.at.count <= 3
    ensures InBounds(c, c.Run(s))
    decreases if s.at.Stopped? then 0 else 1 + c.Fuel(s)
  {
    if !s.at.Stopped? {
      StepInBounds(c, s);
      RunInBounds(c, c.Step(s));
    }
  }

  /** With unbounded registers the safe decoder makes no forbidden access on any non-empty input. */
  lemma IdealStaysInBounds(c: Ideal)
    requires Guarded(c)
    ensures c.Decode().0 != Undefined
  {
    RunInBounds(c, c.Start());
  }

  // ---------- capacity ----------

  lemma StepOutputFits(c: Config, s: State)
    requires c.safe && c.Runnable(s) && !s.at.Stopped? && |s.out| <= c.cap
    ensures |c.Step(s).out| <= c.cap
  {
  }

  lemma {:induction false} OutputFits(c: Config, s: State)
    requires c.safe && c.Runnable(s) && |s.out| <= c.cap
    ensures |c.Run(s).out| <= c.cap
    decreases if s.at.Stopped? then 0 else 1 + c.Fuel(s)
  {
    if !s.at.Stopped? {
      StepOutputFits(c, s);
      OutputFits(c, c.Step(s));
    }
  }

  // ---------- progress ----------

  lemma CopyMatchGrows(c: Config, s: State, off: nat, len: nat)
    ensures var r := c.CopyMatch(s, off, len); r.ip == s.ip && s.out <= r.out && r.at != Stopped(Ok)
  {
    if 1 <= off <= |s.out| {
      CopyRepeats(s.out, off, |s.out| + len);
    }
  }

  lemma LongMatchGrows(c: Config, s: State, field: nat, lenBase: nat, base: nat, m4: bool)
    ensures var r := c.AtLongMatch(s, field, lenBase, base, m4);
            && s.ip <= r.ip && s.out <= r.out && (r.at == Stopped(Ok) ==> r.ip == c.inLen)
  {
    hide Config.Reg, Config.Short, Config.ReadLength, Config.CopyMatch;
    NoLengthIsNotOk(c, s.ip, lenBase);
    if s.ip <= |c.src| {
      var r := c.FieldOrLength(field, s.ip, lenBase);
      if r.Got? && r.ip + 2 <= |c.src| {
        var d := base + c.Offset14(r.ip);
        CopyMatchGrows(c, State(r.ip + 2, s.out, MatchDone), if m4 then d + 0x4000 else d, c.Turns(r.t) + 2);
      }
    }
  }

  lemma MatchGrows(c: Config, s: State, t: nat)
    ensures var r := c.AtMatch(s, t); s.ip <= r.ip && s.out <= r.out && (r.at == Stopped(Ok) ==> r.ip == c.inLen)
  {
    hide Config.Reg, Config.Short, Config.AtLongMatch, Config.CopyMatch;
    if s.ip < |c.src| {
      CopyMatchGrows(c, State(s.ip + 1, s.out, MatchDone), 1 + (t / 4) % 8 + c.At(s.ip) * 8, t / 32 - 1 + 2);
      CopyMatchGrows(c, State(s.ip + 1, s.out, MatchDone), 1 + t / 4 + c.At(s.ip) * 4, 2);
    }
    LongMatchGrows(c, s, t % 32, 31, 1, false);
    LongMatchGrows(c, s, t % 8, 7, ((t / 8) % 2) * 0x4000, true);
  }

  /** Nothing is taken back, neither input nor output; and LZO_E_OK is returned at the end of the block only. */
  lemma StepGrows(c: Config, s: State)
    requires c.Runnable(s) && !s.at.Stopped?
    ensures var r := c.Step(s); s.ip <= r.ip && s.out <= r.out && (r.at == Stopped(Ok) ==> r.ip == c.inLen)
  {
    hide Config.Reg, Config.Short, Config.ReadLength, Config.AtMatch;
    match s.at
    case LoopTop => NoLengthIsNotOk(c, s.ip + 1, 15);
    case Match(t) => MatchGrows(c, s, t);
    case FirstLiteralRun =>
      if s.ip + 1 < |c.src| {
        var off := 1 + M2_MAX_OFFSET + c.At(s.ip) / 4 + c.At(s.ip + 1) * 4;
        CopyMatchGrows(c, State(s.ip + 2, s.out, MatchDone), off, 3);
      }
    case _ =>
  }

  lemma {:induction false} RunGrows(c: Config, s: State)
    requires c.Runnable(s)
    ensures s.out <= c.Run(s).out
    decreases if s.at.Stopped? then 0 else 1 + c.Fuel(s)
  {
    hide Config.Step;
    if !s.at.Stopped? {
      StepGrows(c, s);
      RunGrows(c, c.Step(s));
    }
  }

  // ---------- refinement ----------

  /** `p` is the plain decoder on the same input; the capacity it is told does not matter. */
  predicate PlainOf(p: Config, c: Config) {
    p.src == c.src && p.inLen == c.inLen && p.word == c.word && !p.safe
  }

  /** Good ends: still going, or finished with LZO_E_OK. */
  predicate Fine(s: State) {
    s.at.Stopped? ==> s.at.rc == Ok
  }

  lemma {:induction false} LengthAgrees(c: Config, p: Config, ip: nat, t: nat)
    requires PlainOf(p, c) && c.ReadLength(ip, t).Got?
    ensures p.ReadLength(ip, t) == c.ReadLength(ip, t)
    decreases |c.src| - ip
  {
    if c.src[ip] == 0 {
      LengthAgrees(c, p, ip + 1, c.Reg(t + 255));
    }
  }

  lemma NoLengthIsNotOk(c: Config, ip: nat, t: nat)
    ensures var r := c.ReadLength(ip, t); r.NoLength? ==> r.rc != Ok
    decreases |c.src| - ip
  {
  }

  lemma LongMatchAgrees(c: Config, p: Config, s: State, field: nat, lenBase: nat, base: nat, m4: bool)
    requires PlainOf(p, c) && Fine(c.AtLongMatch(s, field, lenBase, base, m4))
    ensures p.AtLongMatch(s, field, lenBase, base, m4) == c.AtLongMatch(s, field, lenBase, base, m4)
  {
    hide Config.Reg, Config.Short, Config.ReadLength;
    NoLengthIsNotOk(c, s.ip, lenBase);
    if c.ReadLength(s.ip, lenBase).Got? {
      LengthAgrees(c, p, s.ip, lenBase);
    }
  }

  lemma LiteralsAgree(c: Config, p: Config, s: State, n: nat, next: Label)
    requires PlainOf(p, c) && Fine(c.Literals(s, n, next))
    ensures p.Literals(s, n, next) == c.Literals(s, n, next)
  {
  }

  lemma LoopTopAgrees(c: Config, p: Config, s: State)
    requires PlainOf(p, c) && Fine(c.AtLoopTop(s))
    ensures p.AtLoopTop(s) == c.AtLoopTop(s)
  {
    hide Config.Literals;
    var t := c.At(s.ip);
    if t < 16 {
      NoLengthIsNotOk(c, s.ip + 1, 15);
      var r := c.FieldOrLength(t, s.ip + 1, 15);
      if t == 0 {
        LengthAgrees(c, p, s.ip + 1, 15);
      }
      LiteralsAgree(c, p, State(r.ip, s.out, LoopTop), c.Turns(r.t) + 3, FirstLiteralRun);
    }
  }

  lemma MatchAgrees(c: Config, p: Config, s: State, t: nat)
    requires PlainOf(p, c) && Fine(c.AtMatch(s, t))
    ensures p.AtMatch(s, t) == c.AtMatch(s, t)
  {
    if 32 <= t < 64 {
      LongMatchAgrees(c, p, s, t % 32, 31, 1, false);
    } else if 16 <= t < 32 {
      LongMatchAgrees(c, p, s, t % 8, 7, ((t / 8) % 2) * 0x4000, true);
    }
  }

  lemma StepAgrees(c: Config, p: Config, s: State)
    requires PlainOf(p, c) && c.Runnable(s) && !s.at.Stopped? && Fine(c.Step(s))
    ensures p.Step(s) == c.Step(s)
  {
    match s.at
    case LoopTop => LoopTopAgrees(c, p, s);
    case Match(t) => MatchAgrees(c, p, s, t);
    case _ =>
  }

  lemma {:induction false} RunAgrees(c: Config, p: Config, s: State)
    requires PlainOf(p, c) && c.Runnable(s) && c.Run(s).at.rc == Ok
    ensures p.Run(s) == c.Run(s)
    decreases if s.at.Stopped? then 0 else 1 + c.Fuel(s)
  {
    if !s.at.Stopped? {
      StepAgrees(c, p, s);
      RunAgrees(c, p, c.Step(s));
    }
  }

  /** Whenever the safe decoder succeeds, the plain one succeeds with the same output. */
  lemma SafeRefinesPlain(c: Config, p: Config)
    requires PlainOf(p, c) && c.Decode().0 == Ok
    ensures p.Decode() == c.Decode()
  {
    hide Config.Step, Config.Reg, Config.Short;
    RunAgrees(c, p, c.Start());
  }
}
