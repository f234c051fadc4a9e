/**
  Blocks cut short: the safe decoder notices, if the two bytes behind the cut are still those of the block. With any
  less it need not.
 */
module LzoCut {
  import opened Bytes
  import opened LzoFormat
  import opened LzoMachine
  import opened LzoSafety
  import opened LzoRegisters
  import opened LzoReading
  import opened LzoExactness
  import opened LzoCodes

  /** The bytes of `a` and `b` are the same as far as `end`, where `b` has any. */
  predicate AgreeUpTo(a: seq<byte>, b: seq<byte>, end: nat) {
    forall k: nat :: k < end && k < |b| ==> SameAt(a, 0, b, k)
  }

  /** `p` is called with a whole block, `c` with fewer bytes of it and two more of them behind those. */
  predicate CutOf(c: Config, p: Config) {
    && Guarded(c) && p.safe && c.word == p.word && c.cap == p.cap && c.inLen < p.inLen == |p.src|
    && (c.word == 0 || (Sized(c) && Sized(p))) && AgreeUpTo(c.src, p.src, c.inLen + 2)
  }

  predicate CutCode(rc: Code) {
    rc == EofNotFound || rc == InputOverrun
  }

  predicate CutOff(s: State) {
    s.at.Stopped? && CutCode(s.at.rc)
  }

  /** What a step comes to: the missing bytes are noticed, or it does what it does with the whole block. */
  predicate SameOrCut(c: Config, r: State, q: State) {
    CutOff(r) || (r == q && !r.at.Stopped? && InBounds(c, r))
  }

  lemma SameByte(c: Config, p: Config, k: nat)
    requires CutOf(c, p) && k < c.inLen + 2 && k < |p.src|
    ensures c.At(k) == p.At(k)
  {
    assert SameAt(c.src, 0, p.src, k);
  }

  lemma SameSlice(c: Config, p: Config, from: nat, to: nat)
    requires CutOf(c, p) && from <= to <= c.inLen
    ensures c.src[from..to] == p.src[from..to]
  {
    forall k | 0 <= k < to - from ensures c.src[from..to][k] == p.src[from..to][k] {
      SameByte(c, p, from + k);
    }
  }

  /** NEED_IP inside the cut block. */
  lemma InputCuts(c: Config, p: Config, ip: nat, x: nat)
    requires CutOf(c, p) && ip <= c.inLen
    ensures c.InputShort(ip, x) <==> c.inLen - ip < x
    ensures p.InputShort(ip, x) ==> c.InputShort(ip, x)
  {
    if c.word != 0 {
      ShortIsExact(c, c.inLen, ip, x);
      ShortIsExact(p, p.inLen, ip, x);
    }
  }

  lemma {:induction false} LengthCuts(c: Config, p: Config, ip: nat, t: nat)
    requires CutOf(c, p) && ip <= c.inLen
    ensures var r := c.ReadLength(ip, t);
            r == NoLength(InputOverrun) || (r == p.ReadLength(ip, t) && r.Got? && r.ip <= c.inLen)
    decreases |c.src| - ip
  {
    hide Config.InputShort, Config.Reg, CutOf;
    CutIsInside(c, p);
    InputCuts(c, p, ip, 1);
    if ip < c.inLen {
      SameByte(c, p, ip);
      RegsAgree(c, p, t + 255);
      RegsAgree(c, p, t + c.At(ip));
      if c.src[ip] == 0 {
        LengthCuts(c, p, ip + 1, c.Reg(t + 255));
      }
    }
  }

  lemma CutIsInside(c: Config, p: Config)
    requires CutOf(c, p)
    ensures c.safe && p.safe && c.word == p.word && c.cap == p.cap
    ensures 1 <= c.inLen < |p.src| == p.inLen && c.inLen + GUARD <= |c.src|
  {
  }

  lemma LiteralsCut(c: Config, p: Config, s: State, n: nat, next: Label)
    requires CutOf(c, p) && 1 <= s.ip <= c.inLen && !next.Stopped? && !p.Literals(s, n, next).at.Stopped?
    ensures var r := c.Literals(s, n, next);
            CutOff(r) || (r == p.Literals(s, n, next) && s.ip + n < c.inLen && !r.at.Stopped?)
  {
    hide Config.InputShort, Config.OutputShort, Config.Reg, CutOf;
    CutIsInside(c, p);
    RegsAgree(c, p, n);
    OutputsAgree(c, p, s.out, c.Reg(n));
    if c.word != 0 {
      WordHolds(c, p);
      RegIsExact(c, n + 1);
    }
    InputCuts(c, p, s.ip, c.Reg(n + 1));
    if s.ip + n < c.inLen {
      SameSlice(c, p, s.ip, s.ip + n);
    }
  }

  lemma WordHolds(c: Config, p: Config)
    requires CutOf(c, p) && c.word != 0
    ensures p.inLen < c.word && Sized(c) && Sized(p)
  {
  }

  lemma OutputsAgree(c: Config, p: Config, out: seq<byte>, x: nat)
    requires c.safe == p.safe && c.word == p.word && c.cap == p.cap
    ensures c.OutputShort(out, x) == p.OutputShort(out, x)
  {
  }

  lemma CopyCuts(c: Config, p: Config, s: State, off: nat, len: nat)
    requires c.safe && p.safe && c.word == p.word && c.cap == p.cap && !p.CopyMatch(s, off, len).at.Stopped?
    ensures c.CopyMatch(s, off, len) == p.CopyMatch(s, off, len)
    ensures |p.CopyMatch(s, off, len).out| <= c.cap
    ensures var r := p.CopyMatch(s, off, len); r.ip == s.ip && r.at.MatchDone?
  {
  }

  lemma LongMatchCuts(c: Config, p: Config, s: State, field: nat, lenBase: nat, base: nat, m4: bool)
    requires CutOf(c, p) && s.ip <= c.inLen && Fine(p.AtLongMatch(s, field, lenBase, base, m4))
    ensures SameOrCut(c, c.AtLongMatch(s, field, lenBase, base, m4), p.AtLongMatch(s, field, lenBase, base, m4))
  {
    hide Config.Reg, Config.Short, Config.ReadLength, Config.CopyMatch, CutOf;
    CutIsInside(c, p);
    NoLengthIsNotOk(p, s.ip, lenBase);
    LengthCuts(c, p, s.ip, lenBase);
    var r := c.FieldOrLength(field, s.ip, lenBase);
    if r.Got? {
      SameByte(c, p, r.ip);
      SameByte(c, p, r.ip + 1);
      var d := base + p.Offset14(r.ip);
      var off := if m4 then d + 0x4000 else d;
      if !(m4 && d == 0) {
        CopyMatchGrows(p, State(r.ip + 2, s.out, MatchDone), off, c.Turns(r.t) + 2);
        CopyCuts(c, p, State(r.ip + 2, s.out, MatchDone), off, c.Turns(r.t) + 2);
      }
    }
  }

  lemma LoopTopCuts(c: Config, p: Config, s: State)
    requires CutOf(c, p) && s.ip <= c.inLen + 2 && |s.out| <= c.cap && !p.AtLoopTop(s).at.Stopped?
    ensures SameOrCut(c, c.AtLoopTop(s), p.AtLoopTop(s))
  {
    hide Config.Reg, Config.Short, Config.ReadLength, Config.Literals, CutOf;
    CutIsInside(c, p);
    if s.ip < c.inLen {
      SameByte(c, p, s.ip);
      var t := c.At(s.ip);
      if t < 16 {
        LengthCuts(c, p, s.ip + 1, 15);
        var r := c.FieldOrLength(t, s.ip + 1, 15);
        if r.Got? {
          LiteralsCut(c, p, State(r.ip, s.out, LoopTop), c.Turns(r.t) + 3, FirstLiteralRun);
          LiteralsFitCap(p, State(r.ip, s.out, LoopTop), c.Turns(r.t) + 3, FirstLiteralRun);
        }
      }
    }
  }

  lemma LiteralsFitCap(p: Config, s: State, n: nat, next: Label)
    requires p.safe && !p.Literals(s, n, next).at.Stopped?
    ensures var r := p.Literals(s, n, next); r.ip == s.ip + n && |r.out| <= p.cap && r.at == next
  {
  }

  lemma FirstLiteralRunCuts(c: Config, p: Config, s: State)
    requires CutOf(c, p) && s.ip < c.inLen && |s.out| <= c.cap && !p.AtFirstLiteralRun(s).at.Stopped?
    ensures SameOrCut(c, c.AtFirstLiteralRun(s), p.AtFirstLiteralRun(s))
  {
    hide Config.CopyMatch, CutOf;
    CutIsInside(c, p);
    SameByte(c, p, s.ip);
    var t := c.At(s.ip);
    if t < 16 {
      SameByte(c, p, s.ip + 1);
      CopyCuts(c, p, State(s.ip + 2, s.out, MatchDone), 1 + M2_MAX_OFFSET + t / 4 + p.At(s.ip + 1) * 4, 3);
    }
  }

  lemma MatchCuts(c: Config, p: Config, s: State, t: nat)
    requires CutOf(c, p) && s.ip <= c.inLen && Fine(p.AtMatch(s, t))
    ensures SameOrCut(c, c.AtMatch(s, t), p.AtMatch(s, t))
  {
    hide Config.CopyMatch, Config.AtLongMatch, CutOf;
    CutIsInside(c, p);
    SameByte(c, p, s.ip);
    var b := p.At(s.ip);
    if t >= 64 {
      CopyMatchGrows(p, State(s.ip + 1, s.out, MatchDone), 1 + (t / 4) % 8 + b * 8, t / 32 - 1 + 2);
      CopyCuts(c, p, State(s.ip + 1, s.out, MatchDone), 1 + (t / 4) % 8 + b * 8, t / 32 - 1 + 2);
    } else if t >= 32 {
      LongMatchCuts(c, p, s, t % 32, 31, 1, false);
    } else if t >= 16 {
      LongMatchCuts(c, p, s, t % 8, 7, ((t / 8) % 2) * 0x4000, true);
    } else {
      CopyMatchGrows(p, State(s.ip + 1, s.out, MatchDone), 1 + t / 4 + b * 4, 2);
      CopyCuts(c, p, State(s.ip + 1, s.out, MatchDone), 1 + t / 4 + b * 4, 2);
    }
  }

  lemma MatchNextCuts(c: Config, p: Config, s: State, n: nat)
    requires CutOf(c, p) && 1 <= s.ip <= c.inLen + 2 && n <= 3 && !p.AtMatchNext(s, n).at.Stopped?
    ensures SameOrCut(c, c.AtMatchNext(s, n), p.AtMatchNext(s, n))
  {
    hide Config.Reg, Config.Short, CutOf;
    CutIsInside(c, p);
    if s.ip <= c.inLen {
      LiteralsCut(c, p, s, n, MatchDone);
      LiteralsFitCap(p, s, n, MatchDone);
      if s.ip + n < c.inLen {
        SameByte(c, p, s.ip + n);
      }
    } else {
      RegsAgree(c, p, n);
      OutputsAgree(c, p, s.out, c.Reg(n));
    }
  }

  lemma StepCuts(c: Config, p: Config, s: State)
    requires CutOf(c, p) && c.Runnable(s) && p.Runnable(s) && !s.at.Stopped? && Fine(p.Step(s))
    requires InBounds(c, s) && FromBytes(s) && (s.at.MatchNext? ==> 1 <= s.ip)
    ensures SameOrCut(c, c.Step(s), p.Step(s))
  {
    hide Config.AtMatch, Config.AtLoopTop, Config.AtFirstLiteralRun, Config.AtMatchNext, CutOf;
    CutIsInside(c, p);
    if !s.at.Match? {
      OnlyMatchEnds(p, s);
    }
    match s.at
    case LoopTop => LoopTopCuts(c, p, s);
    case FirstLiteralRun => FirstLiteralRunCuts(c, p, s);
    case Match(t) => MatchCuts(c, p, s, t);
    case MatchDone => SameByte(c, p, s.ip - 2);
    case MatchNext(n) => MatchNextCuts(c, p, s, n);
  }

  /** Only a match turns out to be the end code. */
  lemma OnlyMatchEnds(p: Config, s: State)
    requires p.Runnable(s) && !s.at.Stopped? && Fine(p.Step(s)) && !s.at.Match?
    ensures !p.Step(s).at.Stopped?
  {
    hide Config.Reg, Config.Short, Config.ReadLength;
    NoLengthIsNotOk(p, s.ip + 1, 15);
  }

  lemma NextFollowsMatch(c: Config, s: State)
    requires c.Runnable(s) && !s.at.Stopped? && c.Step(s).at.MatchNext?
    ensures 1 <= c.Step(s).ip
  {
    hide Config.Reg, Config.Short, Config.ReadLength;
  }

  lemma StartCuts(c: Config, p: Config)
    requires CutOf(c, p) && !p.Start().at.Stopped?
    ensures SameOrCut(c, c.Start(), p.Start())
    ensures FromBytes(p.Start()) && (p.Start().at.MatchNext? ==> 1 <= p.Start().ip)
  {
    hide Config.Literals, CutOf;
    CutIsInside(c, p);
    SameByte(c, p, 0);
    if c.At(0) >= 21 {
      LiteralsCut(c, p, State(1, [], LoopTop), c.At(0) - 17, FirstLiteralRun);
      LiteralsFitCap(p, State(1, [], LoopTop), c.At(0) - 17, FirstLiteralRun);
    }
  }

  lemma StartIsNotOk(p: Config)
    ensures p.Start().at != Stopped(Ok)
  {
  }

  lemma {:induction false} RunCuts(c: Config, p: Config, s: State)
    requires CutOf(c, p) && c.Runnable(s) && p.Runnable(s) && !s.at.Stopped? && p.Run(s).at.rc == Ok
    requires InBounds(c, s) && FromBytes(s) && (s.at.MatchNext? ==> 1 <= s.ip)
    ensures CutCode(c.Run(s).at.rc)
    decreases p.Fuel(s)
  {
    hide Config.Step, CutOf, InBounds, FromBytes;
    var r := p.Step(s);
    StepCuts(c, p, s);
    StepsFromBytes(p, s);
    if !c.Step(s).at.Stopped? {
      if r.at.MatchNext? {
        NextFollowsMatch(p, s);
      }
      RunCuts(c, p, r);
    }
  }

  /** `c` is given a block up to a cut, with room for its data; behind the cut `more` bytes are as in the block. */
  ghost predicate CutShort(c: Config, block: seq<byte>, data: seq<byte>, more: nat) {
    && Guarded(c) && Denotes(block, data) && |data| <= c.cap && c.inLen < |block|
    && (c.word == 0 || (Sized(c) && |block| < c.word))
    && AgreeUpTo(c.src, block, c.inLen + more)
  }

  /** A block that is cut short gives LZO_E_EOF_NOT_FOUND or LZO_E_INPUT_OVERRUN, and no other code. */
  lemma CutBlocksAreNoticed(c: Config, block: seq<byte>, data: seq<byte>)
    requires CutShort(c, block, data, 2)
    ensures c.Decode().0 == EofNotFound || c.Decode().0 == InputOverrun
  {
    hide Denotes, Config.Step, Config.Reg, Config.Short, Config.Literals, AgreeUpTo;
    var p := Config(block, |block|, c.cap, true, c.word);
    assert block[..p.inLen] == block;
    BlocksDecode(p, data);
    StartIsNotOk(p);
    StartCuts(c, p);
    if !c.Start().at.Stopped? {
      StartFits(c);
      StartFits(p);
      RunCuts(c, p, p.Start());
    }
  }

  ghost predicate AlwaysNoticed(more: nat) {
    forall c: Config, block: seq<byte>, data: seq<byte> :: CutShort(c, block, data, more) ==> CutCode(c.Decode().0)
  }

  /** Two bytes behind the cut must be those of the block: the decoder fetches offset bytes unguarded. */
  lemma ReadAheadIsExact(more: nat)
    ensures AlwaysNoticed(more) <==> 2 <= more
  {
    hide CutShort, Config.Decode;
    if 2 <= more {
      forall c: Config, block: seq<byte>, data: seq<byte> | CutShort(c, block, data, more)
        ensures CutCode(c.Decode().0)
      {
        AgreesOnLess(c, block, data, more, 2);
        CutBlocksAreNoticed(c, block, data);
      }
    } else {
      var c, block, data := OneByteIsNotEnough();
      AgreesOnLess(c, block, data, 1, more);
    }
  }

  lemma AgreesOnLess(c: Config, block: seq<byte>, data: seq<byte>, more: nat, less: nat)
    requires CutShort(c, block, data, more) && less <= more
    ensures CutShort(c, block, data, less)
  {
  }

  /** Four literals, a match of length 3 at distance 1, cut between its offset bytes: the second is taken for 255. */
  lemma OneByteIsNotEnough() returns (c: Config, block: seq<byte>, data: seq<byte>)
    ensures block == [1, 97, 97, 97, 97, 33, 0, 0, 17, 0, 0] && c.inLen == 6
    ensures c.src == [1, 97, 97, 97, 97, 33, 0, 255, 0, 0, 0, 0]
    ensures CutShort(c, block, data, 1) && c.Decode().0 == LookbehindOverrun
  {
    block := [1, 97, 97, 97, 97, 33, 0, 0, 17, 0, 0];
    data := SevenLetters(block);
    c := Config([1, 97, 97, 97, 97, 33, 0, 255, 0, 0, 0, 0], 6, |data|, true, 0);
    forall k: nat | k < c.inLen + 1 && k < |block| ensures SameAt(c.src, 0, block, k) {
      assert c.src[k] == block[k];
    }
    GarbageMisleads(c);
  }

  lemma SevenLetters(block: seq<byte>) returns (data: seq<byte>)
    requires block == [1, 97, 97, 97, 97, 33, 0, 0, 17, 0, 0]
    ensures Denotes(block, data) && |data| == 7
  {
    var letters: seq<byte> := [97, 97, 97, 97];
    var run, copy := Run(letters), Copy(M3, 3, 1, []);
    Prepend(copy, [], AfterRun, letters);
    Prepend(run, [copy], Top, []);
    var st := Stream([], [run, copy], 3, 0);
    assert [copy] + [] == [copy] && [run] + [copy] == [run, copy];
    assert InstrBytes(run) == [1, 97, 97, 97, 97] && InstrBytes(copy) == [33, 0, 0] && EofBytes(3, 0) == [17, 0, 0];
    assert st.Valid() && st.ToBytes() == block;
    data := st.Data();
  }

  lemma GarbageMisleads(c: Ideal)
    requires c.src == [1, 97, 97, 97, 97, 33, 0, 255, 0, 0, 0, 0] && c.inLen == 6 && c.cap == 7 && c.safe
    ensures c.Decode().0 == LookbehindOverrun
  {
    hide Config.Run;
    var s0 := State(0, [], LoopTop);
    var s1 := c.Step(s0);
    assert s1 == State(5, [97, 97, 97, 97], FirstLiteralRun);
    var s2 := c.Step(s1);
    assert s2 == State(6, [97, 97, 97, 97], Match(33));
    var s3 := c.Step(s2);
    assert c.Offset14(6) == 255 * 64;
    assert s3.at == Stopped(LookbehindOverrun);
    RunsThree(c, s0);
  }

  lemma RunsThree(c: Config, s: State)
    requires c.Runnable(s) && !s.at.Stopped? && !c.Step(s).at.Stopped? && !c.Step(c.Step(s)).at.Stopped?
    requires c.Step(c.Step(c.Step(s))).at.Stopped?
    ensures c.Run(s) == c.Step(c.Step(c.Step(s)))
  {
    hide Config.Step;
    assert c.Run(s) == c.Run(c.Step(s));
    assert c.Run(c.Step(s)) == c.Run(c.Step(c.Step(s)));
  }
}
