/**
  The two LZO1X decoders as one labelled state machine. The C file compiles a single body
  twice, with and without the overrun tests; `Config.safe` says which. Positions are offsets
  from the start of the input and of the output.
 */
module LzoMachine {
  import opened Bytes
  import opened LzoFormat

  /** LZO_E_* results; `Undefined` marks a read the C code may not make. */
  datatype Code =
    | Ok | InputOverrun | OutputOverrun | LookbehindOverrun | EofNotFound | InputNotConsumed
    | Undefined

  /** The labels control jumps to; a label's argument is the value of `t` there. */
  datatype Label =
    | LoopTop
    | FirstLiteralRun
    | Match(t: nat)
    | MatchDone
    | MatchNext(count: nat)
    | Stopped(rc: Code)

  datatype State = State(ip: nat, out: seq<byte>, at: Label)

  /** The outcome of reading a run-length: the position after it and its value. */
  datatype Length = Got(ip: nat, t: nat) | NoLength(rc: Code)

  /**
    `src` may hold readable bytes past the block of `inLen` bytes that is to be decoded. `word` is
    two to the width of an `lzo_uint`, or 0 for registers without bounds.
   */
  datatype Config = Config(src: seq<byte>, inLen: nat, cap: nat, safe: bool, word: nat) {

    /** The same call with unbounded registers. */
    function Ideally(): Config {
      this.(word := 0)
    }

    /** What a register holds of a number. */
    function Reg(x: nat): (r: nat)
      ensures word == 0 ==> r == x
    {
      if word == 0 then x else x % word
    }

    /** How often `do … while (--t > 0)` runs: zero counts down through the whole register. */
    function Turns(t: nat): (r: nat)
      ensures word == 0 ==> r == t
    {
      if t == 0 then word else t
    }

    /** `(lzo_uint)(end - pos) < x`: unsigned, so a position past the end leaves plenty. */
    predicate Short(end: nat, pos: nat, x: nat)
      ensures word == 0 ==> (Short(end, pos, x) <==> pos <= end && end - pos < x)
    {
      if word == 0 then pos <= end && end - pos < x else (end - pos) % word < x
    }

    /** A source byte as an unbounded integer. */
    function At(i: nat): (b: nat)
      requires i < |src|
      ensures b < 256
    {
      src[i] as int
    }

    function Stop(s: State, rc: Code): State {
      s.(at := Stopped(rc))
    }

    /** NEED_IP(x) fails. */
    predicate InputShort(ip: nat, x: nat) {
      safe && Short(inLen, ip, x)
    }

    /** NEED_OP(x) fails. */
    predicate OutputShort(out: seq<byte>, x: nat) {
      safe && Short(cap, |out|, x)
    }

    /** TEST_LB fails for a match `off` bytes back. */
    predicate LooksTooFarBack(out: seq<byte>, off: nat) {
      var mPos := |out| - off;
      safe && (mPos < 0 || mPos >= |out|)
    }

    /** Zero bytes count 255 each; the first other byte is added and ends the run. */
    function ReadLength(ip: nat, t: nat): (r: Length)
      ensures r.Got? ==> ip < r.ip <= |src| && (word == 0 ==> t < r.t)
      decreases |src| - ip
    {
      if InputShort(ip, 1) then NoLength(InputOverrun)
      else if ip >= |src| then NoLength(Undefined)
      else if src[ip] == 0 then ReadLength(ip + 1, Reg(t + 255))
      else Got(ip + 1, Reg(t + At(ip)))
    }

    /** `field` itself, or the run-length that follows when it is zero. */
    function FieldOrLength(field: nat, ip: nat, base: nat): (r: Length)
      requires ip <= |src|
      ensures r.Got? ==> ip <= r.ip <= |src| && (word == 0 ==> 0 < r.t)
    {
      if field == 0 then ReadLength(ip, base) else Got(ip, field)
    }

    /** Writing `n` more bytes leaves the buffer the safe decoder was given. */
    predicate Overflows(out: seq<byte>, n: nat) {
      safe && |out| + n > cap
    }

    /** NEED_OP(n), NEED_IP(n + 1), copy n literals. */
    function Literals(s: State, n: nat, next: Label): State {
      if OutputShort(s.out, Reg(n)) then Stop(s, OutputOverrun)
      else if InputShort(s.ip, Reg(n + 1)) then Stop(s, InputOverrun)
      else if s.ip + n > |src| || Overflows(s.out, n) then Stop(s, Undefined)
      else State(s.ip + n, s.out + src[s.ip..s.ip + n], next)
    }

    /** TEST_LB, NEED_OP(len), copy `len` bytes from `off` bytes back. */
    function CopyMatch(s: State, off: nat, len: nat): State {
      if LooksTooFarBack(s.out, off) then Stop(s, LookbehindOverrun)
      else if OutputShort(s.out, Reg(len)) then Stop(s, OutputOverrun)
      else if !(1 <= off <= |s.out|) || Overflows(s.out, len) then Stop(s, Undefined)
      else State(s.ip, CopyBack(s.out, off, len), MatchDone)
    }

    /** `r` is further on than `s`, and where its label may be. */
    predicate Moved(s: State, r: State) {
      r.ip <= |src| && (r.at.Stopped? || (s.ip < r.ip && (r.at.MatchDone? ==> 2 <= r.ip)))
    }

    function Start(): State {
      var s := State(0, [], LoopTop);
      if |src| == 0 then Stop(s, Undefined)
      else if src[0] > 17 then
        var t := At(0) - 17;
        if t < 4 then State(1, [], MatchNext(t)) else Literals(State(1, [], LoopTop), t, FirstLiteralRun)
      else s
    }

    function AtLoopTop(s: State): State {
      if safe && s.ip >= inLen then Stop(s, EofNotFound)
      else if s.ip >= |src| then Stop(s, Undefined)
      else
        var t := At(s.ip);
        if t >= 16 then State(s.ip + 1, s.out, Match(t))
        else match FieldOrLength(t, s.ip + 1, 15)
          case NoLength(rc) => Stop(s, rc)
          case Got(ip, n) => Literals(State(ip, s.out, LoopTop), Turns(n) + 3, FirstLiteralRun)
    }

    function AtFirstLiteralRun(s: State): State {
      if s.ip >= |src| then Stop(s, Undefined)
      else
        var t := At(s.ip);
        if t >= 16 then State(s.ip + 1, s.out, Match(t))
        else if s.ip + 1 >= |src| then Stop(s, Undefined)
        else CopyMatch(State(s.ip + 2, s.out, MatchDone), 1 + M2_MAX_OFFSET + t / 4 + At(s.ip + 1) * 4, 3)
    }

    /** Both offset bytes of an M3 or M4 match. */
    function Offset14(ip: nat): nat
      requires ip + 2 <= |src|
    {
      At(ip) / 4 + At(ip + 1) * 64
    }

    function AtMatch(s: State, t: nat): State {
      if t >= 64 then
        if s.ip >= |src| then Stop(s, Undefined)
        else CopyMatch(State(s.ip + 1, s.out, MatchDone), 1 + (t / 4) % 8 + At(s.ip) * 8, t / 32 - 1 + 2)
      else if t >= 32 then AtLongMatch(s, t % 32, 31, 1, false)
      else if t >= 16 then AtLongMatch(s, t % 8, 7, ((t / 8) % 2) * 0x4000, true)
      else if s.ip >= |src| then Stop(s, Undefined)
      else CopyMatch(State(s.ip + 1, s.out, MatchDone), 1 + t / 4 + At(s.ip) * 4, 2)
    }

    /** M3 (`base` is 1) and M4 (`base` is bit 14 of the distance, which 0x4000 is added to unless it is zero). */
    function AtLongMatch(s: State, field: nat, lenBase: nat, base: nat, m4: bool): State {
      if s.ip > |src| then Stop(s, Undefined)
      else match FieldOrLength(field, s.ip, lenBase)
        case NoLength(rc) => Stop(s, rc)
        case Got(ip, n) =>
          if ip + 2 > |src| then Stop(s, Undefined)
          else
            var d := base + Offset14(ip);
            var s' := State(ip + 2, s.out, MatchDone);
            if m4 && d == 0 then Stop(s', EofFound(ip + 2))
            else CopyMatch(s', if m4 then d + 0x4000 else d, Turns(n) + 2)
    }

    function EofFound(ip: nat): Code {
      if ip == inLen then Ok else if ip < inLen then InputNotConsumed else InputOverrun
    }

    function AtMatchDone(s: State): State
      requires 2 <= s.ip <= |src|
    {
      var t := At(s.ip - 2) % 4;
      s.(at := if t == 0 then LoopTop else MatchNext(t))
    }

    /** Up to three literals, the next first byte, and the test that closes the inner loop. */
    function AtMatchNext(s: State, t: nat): State {
      var s' := Literals(s, t, MatchDone);
      if s'.at.Stopped? then s'
      else if s'.ip >= |src| then Stop(s', Undefined)
      else if safe && s'.ip + 1 >= inLen then State(s'.ip + 1, s'.out, Stopped(EofNotFound))
      else State(s'.ip + 1, s'.out, Match(At(s'.ip)))
    }

    lemma LoopTopMoves(s: State)
      requires s.ip <= |src|
      ensures Moved(s, AtLoopTop(s))
    {
    }

    lemma MatchMoves(s: State, t: nat)
      requires 1 <= s.ip <= |src|
      ensures Moved(s, AtMatch(s, t))
    {
    }

    predicate Runnable(s: State) {
      s.ip <= |src| && (s.at.MatchDone? ==> 2 <= s.ip) && (s.at.Match? ==> 1 <= s.ip)
    }

    function Step(s: State): (r: State)
      requires Runnable(s) && !s.at.Stopped?
      ensures Runnable(r)
      ensures !r.at.Stopped? ==> Fuel(r) < Fuel(s)
    {
      match s.at
      case LoopTop => LoopTopMoves(s); AtLoopTop(s)
      case FirstLiteralRun => AtFirstLiteralRun(s)
      case Match(t) => MatchMoves(s, t); AtMatch(s, t)
      case MatchDone => AtMatchDone(s)
      case MatchNext(t) => AtMatchNext(s, t)
    }

    /** What every step uses up: input, then the one label that reads none. */
    function Fuel(s: State): nat
      requires s.ip <= |src|
    {
      2 * (|src| - s.ip) + (if s.at.MatchDone? then 1 else 0)
    }

    function Run(s: State): (r: State)
      requires Runnable(s)
      ensures r.at.Stopped? && Runnable(r)
      decreases if s.at.Stopped? then 0 else 1 + Fuel(s)
    {
      if s.at.Stopped? then s else Run(Step(s))
    }

    /** The decoder: its result code and the bytes it has written. */
    function Decode(): (Code, seq<byte>) {
      var r := Run(Start());
      (r.at.rc, r.out)
    }
  }

  /** A decoder call with unbounded registers. */
  type Ideal = c: Config | c.word == 0
    witness Config([], 0, 0, false, 0)
}
