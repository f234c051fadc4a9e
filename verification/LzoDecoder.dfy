/** The decoders as they run: moving positions in an input and an output buffer that is written in place. */
module LzoDecoder {
  import opened Bytes
  import opened LzoFormat
  import opened LzoMachine
  import opened LzoSafety
  import opened LzoRegisters
  import opened LzoCopy

  // ---------- the labels ----------

  /** `while (*ip == 0) { t += 255; ip++; }  t += *ip++`, behind NEED_IP(1). */
  method ReadRunLength(c: Config, ip: nat, base: nat) returns (r: Length)
    requires c.ReadLength(ip, base) != NoLength(Undefined)
    ensures r == c.ReadLength(ip, base)
  {
    var i: nat, t: nat := ip, base;
    if c.InputShort(i, 1) { return NoLength(InputOverrun); }
    while c.At(i) == 0
      invariant c.ReadLength(i, t) == c.ReadLength(ip, base)
      invariant !c.InputShort(i, 1)
      decreases |c.src| - i
    {
      i, t := i + 1, c.Reg(t + 255);
      if c.InputShort(i, 1) { return NoLength(InputOverrun); }
    }
    return Got(i + 1, c.Reg(t + c.At(i)));
  }

  /** What a label must establish: its step of the machine, in place, leaving the rest of the buffer alone. */
  twostate predicate Stepped(out: array<byte>, want: State, ip: nat, op: nat, at: Label)
    reads out
  {
    op <= out.Length && State(ip, out[..op], at) == want && out[op..] == old(out[op..])
  }

  /** A step the C code may take, into a buffer large enough for it. */
  predicate Doable(out: array<byte>, want: State) {
    |want.out| <= out.Length && want.at != Stopped(Undefined)
  }

  /** NEED_OP(n); NEED_IP(n + 1); then `n` literals, four at a time when `wide`. */
  method DoLiterals(c: Config, out: array<byte>, ip: nat, op: nat, n: nat, next: Label, wide: bool)
    returns (ip': nat, op': nat, at: Label)
    requires op <= out.Length && (wide ==> 4 <= n)
    requires Doable(out, c.Literals(State(ip, out[..op], LoopTop), n, next))
    modifies out
    ensures Stepped(out, c.Literals(State(ip, old(out[..op]), LoopTop), n, next), ip', op', at)
  {
    ip', op' := ip, op;
    if c.safe && c.Short(c.cap, op, c.Reg(n)) { return ip, op, Stopped(OutputOverrun); }
    if c.InputShort(ip, c.Reg(n + 1)) { return ip, op, Stopped(InputOverrun); }
    if wide {
      CopyRun(c.src, ip, out, op, n);
    } else {
      CopyLiterals(c.src, ip, out, op, n);
    }
    return ip + n, op + n, next;
  }

  /** TEST_LB(m_pos); NEED_OP(len); the copy, wide where the source allows it and the distance is at least four. */
  method DoCopy(c: Config, out: array<byte>, ip: nat, op: nat, off: nat, len: nat, mayBeWide: bool)
    returns (op': nat, at: Label)
    requires op <= out.Length
    requires Doable(out, c.CopyMatch(State(ip, out[..op], MatchDone), off, len))
    modifies out
    ensures Stepped(out, c.CopyMatch(State(ip, old(out[..op]), MatchDone), off, len), ip, op', at)
  {
    var mPos := op - off;
    if c.safe && (mPos < 0 || mPos >= op) { return op, Stopped(LookbehindOverrun); }
    if c.safe && c.Short(c.cap, op, c.Reg(len)) { return op, Stopped(OutputOverrun); }
    if mayBeWide && len >= 2 * 4 && op - mPos >= 4 {
      CopyMatchWide(out, op, mPos, len);
    } else {
      CopyMatchBytes(out, op, mPos, len);
    }
    return op + len, MatchDone;
  }

  method DoLoopTop(c: Config, out: array<byte>, ip: nat, op: nat) returns (ip': nat, op': nat, at: Label)
    requires ip <= |c.src| && op <= out.Length
    requires Doable(out, c.AtLoopTop(State(ip, out[..op], LoopTop)))
    modifies out
    ensures Stepped(out, c.AtLoopTop(State(ip, old(out[..op]), LoopTop)), ip', op', at)
  {
    ip', op' := ip, op;
    if c.safe && ip >= c.inLen { return ip, op, Stopped(EofNotFound); }
    var t := c.At(ip);
    if t >= 16 { return ip + 1, op, Match(t); }
    var r := Got(ip + 1, t);
    if t == 0 {
      r := ReadRunLength(c, ip + 1, 15);
      if r.NoLength? { return ip, op, Stopped(r.rc); }
    }
    ip', op', at := DoLiterals(c, out, r.ip, op, c.Turns(r.t) + 3, FirstLiteralRun, true);
  }

  method DoFirstLiteralRun(c: Config, out: array<byte>, ip: nat, op: nat) returns (ip': nat, op': nat, at: Label)
    requires ip <= |c.src| && op <= out.Length
    requires Doable(out, c.AtFirstLiteralRun(State(ip, out[..op], FirstLiteralRun)))
    modifies out
    ensures Stepped(out, c.AtFirstLiteralRun(State(ip, old(out[..op]), FirstLiteralRun)), ip', op', at)
  {
    var t := c.At(ip);
    if t >= 16 { return ip + 1, op, Match(t); }
    ip' := ip + 2;
    op', at := DoCopy(c, out, ip', op, 1 + M2_MAX_OFFSET + t / 4 + c.At(ip + 1) * 4, 3, false);
  }

  /** The M3 and M4 branches: the length, the two offset bytes, and the end code that only M4 can be. */
  method DoLongMatch(c: Config, out: array<byte>, ip: nat, op: nat, t: nat,
                     field: nat, lenBase: nat, base: nat, m4: bool)
    returns (ip': nat, op': nat, at: Label)
    requires ip <= |c.src| && op <= out.Length
    requires Doable(out, c.AtLongMatch(State(ip, out[..op], Match(t)), field, lenBase, base, m4))
    modifies out
    ensures Stepped(out, c.AtLongMatch(State(ip, old(out[..op]), Match(t)), field, lenBase, base, m4), ip', op', at)
  {
    ip', op' := ip, op;
    var r := Got(ip, field);
    if field == 0 {
      r := ReadRunLength(c, ip, lenBase);
      if r.NoLength? { return ip, op, Stopped(r.rc); }
    }
    var d := base + c.Offset14(r.ip);
    ip' := r.ip + 2;
    if m4 && d == 0 { return ip', op, Stopped(c.EofFound(ip')); }
    op', at := DoCopy(c, out, ip', op, if m4 then d + 0x4000 else d, c.Turns(r.t) + 2, r.t != 0);
  }

  method DoMatch(c: Config, out: array<byte>, ip: nat, op: nat, t: nat) returns (ip': nat, op': nat, at: Label)
    requires ip <= |c.src| && op <= out.Length
    requires Doable(out, c.AtMatch(State(ip, out[..op], Match(t)), t))
    modifies out
    ensures Stepped(out, c.AtMatch(State(ip, old(out[..op]), Match(t)), t), ip', op', at)
  {
    if t >= 64 {
      ip' := ip + 1;
      op', at := DoCopy(c, out, ip', op, 1 + (t / 4) % 8 + c.At(ip) * 8, t / 32 - 1 + 2, false);
    } else if t >= 32 {
      ip', op', at := DoLongMatch(c, out, ip, op, t, t % 32, 31, 1, false);
    } else if t >= 16 {
      ip', op', at := DoLongMatch(c, out, ip, op, t, t % 8, 7, ((t / 8) % 2) * 0x4000, true);
    } else {
      ip' := ip + 1;
      op', at := DoCopy(c, out, ip', op, 1 + t / 4 + c.At(ip) * 4, 2, false);
    }
  }

  method DoMatchNext(c: Config, out: array<byte>, ip: nat, op: nat, count: nat) returns (ip': nat, op': nat, at: Label)
    requires ip <= |c.src| && op <= out.Length
    requires Doable(out, c.AtMatchNext(State(ip, out[..op], MatchNext(count)), count))
    modifies out
    ensures Stepped(out, c.AtMatchNext(State(ip, old(out[..op]), MatchNext(count)), count), ip', op', at)
  {
    ip', op', at := DoLiterals(c, out, ip, op, count, MatchDone, false);
    if !at.Stopped? {
      var t := c.At(ip');
      ip' := ip' + 1;
      at := if c.safe && ip' >= c.inLen then Stopped(EofNotFound) else Match(t);
    }
  }

  /** One turn of the state machine. */
  method DoStep(c: Config, out: array<byte>, ip: nat, op: nat, at: Label) returns (ip': nat, op': nat, at': Label)
    requires op <= out.Length && !at.Stopped?
    requires c.Runnable(State(ip, out[..op], at))
    requires Doable(out, c.Step(State(ip, out[..op], at)))
    modifies out
    ensures Stepped(out, c.Step(State(ip, old(out[..op]), at)), ip', op', at')
  {
    ip', op' := ip, op;
    match at {
      case LoopTop => ip', op', at' := DoLoopTop(c, out, ip, op);
      case FirstLiteralRun => ip', op', at' := DoFirstLiteralRun(c, out, ip, op);
      case Match(t) => ip', op', at' := DoMatch(c, out, ip, op, t);
      case MatchDone =>
        var t := c.At(ip - 2) % 4;
        at' := if t == 0 then LoopTop else MatchNext(t);
      case MatchNext(count) => ip', op', at' := DoMatchNext(c, out, ip, op, count);
    }
  }

  // ---------- the decoder ----------

  /**
    A call that makes no forbidden access: into the buffer it was told of, or, for the plain decoder, a large
    enough one.
   */
  predicate Callable(c: Config, out: array<byte>) {
    c.Decode().0 != Undefined && (if c.safe then c.cap else |c.Decode().1|) <= out.Length
  }

  /** The safe decoder can be called on every non-empty, short enough block, with the readable bytes after it. */
  lemma GuardedIsCallable(c: Config, out: array<byte>)
    requires Guarded(c) && Fits(c) && c.cap <= out.Length
    ensures Callable(c, out)
  {
    hide Config.Decode;
    SafeStaysInBounds(c);
  }

  /** The first byte, when it announces literals. */
  method DoStart(c: Config, out: array<byte>) returns (ip: nat, op: nat, at: Label)
    requires Doable(out, c.Start())
    modifies out
    ensures Stepped(out, c.Start(), ip, op, at)
  {
    ip, op, at := 0, 0, LoopTop;
    if c.At(0) > 17 {
      var t := c.At(0) - 17;
      if t < 4 {
        ip, at := 1, MatchNext(t);
      } else {
        ip, op, at := DoLiterals(c, out, 1, 0, t, FirstLiteralRun, false);
      }
    }
  }

  /** What the rest of a defined run into a large enough buffer asks of its first steps. */
  predicate Decodable(c: Config, out: array<byte>, s: State) {
    c.Runnable(s) && |c.Run(s).out| <= out.Length && c.Run(s).at.rc != Undefined
  }

  lemma NextIsDecodable(c: Config, out: array<byte>, s: State)
    requires Decodable(c, out, s)
    ensures Doable(out, s)
    ensures !s.at.Stopped? ==> Decodable(c, out, c.Step(s)) && Doable(out, c.Step(s)) && |s.out| <= |c.Step(s).out|
    ensures c.Run(s) == if s.at.Stopped? then s else c.Run(c.Step(s))
  {
    hide Config.Step;
    RunGrows(c, s);
    if !s.at.Stopped? {
      StepGrows(c, s);
      RunGrows(c, c.Step(s));
    }
  }

  lemma StartIsDecodable(c: Config, out: array<byte>)
    requires Callable(c, out)
    ensures c.Runnable(c.Start()) && Decodable(c, out, c.Start())
  {
    hide Config.Step, Config.Run, Config.Reg, Config.Short;
    if c.safe {
      OutputFits(c, c.Start());
    }
  }

  /** `lzo1x_decompress_safe` when `c.safe`, else `lzo1x_decompress`. */
  method Decompress(c: Config, out: array<byte>) returns (rc: Code, outLen: nat)
    requires Callable(c, out)
    modifies out
    ensures outLen <= out.Length && (rc, out[..outLen]) == c.Decode()
    ensures out[outLen..] == old(out[outLen..])
  {
    hide Config.Step, Config.Start, Config.Run, Decodable, Doable, Config.Reg, Config.Short;
    ghost var before := out[..];
    StartIsDecodable(c, out);
    NextIsDecodable(c, out, c.Start());
    var ip: nat, op: nat, at := DoStart(c, out);
    ghost var s := c.Start();
    while !at.Stopped?
      invariant op <= |before| == out.Length && out[op..] == before[op..]
      invariant s == State(ip, out[..op], at)
      invariant c.Runnable(s) && Decodable(c, out, s) && c.Run(s) == c.Run(c.Start())
      decreases if s.at.Stopped? then 0 else 1 + c.Fuel(s)
    {
      NextIsDecodable(c, out, s);
      ip, op, at := DoStep(c, out, ip, op, at);
      s := c.Step(s);
    }
    NextIsDecodable(c, out, s);
    return at.rc, op;
  }
}
