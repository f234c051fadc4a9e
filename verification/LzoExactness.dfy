/** The decoders compute the format: they succeed on exactly the well-formed blocks, with exactly their data. */
module LzoExactness {
  import opened Bytes
  import opened LzoFormat
  import opened LzoMachine
  import opened LzoSafety
  import opened LzoRegisters
  import opened LzoReading
  import opened LzoParsing

  /** `block` is a stream of the format that stands for `data`. */
  ghost predicate Denotes(block: seq<byte>, data: seq<byte>) {
    exists st: Stream :: st.Valid() && st.ToBytes() == block && st.Data() == data
  }

  // ---------- streams are decoded ----------

  lemma LeadHolds(c: Ideal, st: Stream)
    requires st.Valid() && c.inLen == |st.ToBytes()| && Holds(c.src, 0, st.ToBytes())
    ensures if st.lead == [] then Holds(c.src, 0, st.Body()) && |st.Body()| == c.inLen && c.At(0) <= 17
            else
              && Holds(c.src, 1, st.lead) && Holds(c.src, 1 + |st.lead|, st.Body())
              && 1 + |st.lead| + |st.Body()| == c.inLen
              && c.At(0) == 17 + |st.lead|
  {
    hide WellFormed, ProgBytes, EofBytes;
    HoldsAt(c.src, 0, st.ToBytes(), 0);
    var n := |st.lead|;
    if n > 0 {
      HoldsParts(c.src, 0, [(17 + n) as byte] + st.lead, st.Body());
      HoldsParts(c.src, 0, [(17 + n) as byte], st.lead);
    }
  }

  /** Past the literals announced by the first byte. */
  lemma ReadsLead(c: Ideal, lead: seq<byte>)
    requires BeforeMore(c, 1 + |lead|) && c.At(0) == 17 + |lead| && lead != []
    requires Holds(c.src, 1, lead) && |lead| <= c.cap
    ensures c.Run(c.Start()) == c.Run(Ready(c, if |lead| <= 3 then AfterShort else AfterRun, 1 + |lead|, lead))
  {
    hide Holds;
    var n := |lead|;
    var at1 := if n < 4 then MatchNext(n) else LoopTop;
    TakesLiterals(c, State(1, [], at1), lead, if n < 4 then MatchDone else FirstLiteralRun);
    assert [] + lead == lead;
    if n < 4 {
      assert c.Step(c.Start()) == Ready(c, AfterShort, 1 + n, lead);
    }
  }

  lemma StreamsDecode(c: Ideal, st: Stream)
    requires c.safe && st.Valid() && c.inLen == |st.ToBytes()| <= |c.src| && Holds(c.src, 0, st.ToBytes())
    requires |st.Data()| <= c.cap
    ensures c.Decode() == (Ok, st.Data())
  {
    hide Holds, WellFormed, ProgBytes, EofBytes, Config.Step, Config.Run;
    LeadHolds(c, st);
    if st.lead != [] {
      ReadsLead(c, st.lead);
    }
    var ip := if st.lead == [] then 0 else 1 + |st.lead|;
    HoldsParts(c.src, ip, ProgBytes(st.prog), EofBytes(st.eofLen, st.eofLow));
    ReadsProg(c, st.Context0(), ip, st.lead, st.prog, st.eofLen, st.eofLow, c.Run(c.Start()));
  }

  // ---------- only streams are decoded ----------

  /** The decoder gets past the literals announced by the first byte, if any. */
  lemma ParsesLead(c: Ideal) returns (lead: seq<byte>, ip: nat)
    requires c.Run(c.Start()).at.rc == Ok
    ensures |lead| <= 238 && ip == (if lead == [] then 0 else 1 + |lead|) < |c.src|
    ensures if lead == [] then c.At(0) <= 17 else c.At(0) == 17 + |lead| && Holds(c.src, 1, lead)
    ensures c.Run(c.Start()) == c.Run(Ready(c, Stream(lead, [], 3, 0).Context0(), ip, lead))
  {
    hide Holds, Config.AtMatch, Config.AtMatchNext, Config.AtLoopTop, Config.CopyMatch, Config.AtMatchDone;
    var s := c.Start();
    assert !s.at.Stopped?;
    if c.At(0) <= 17 {
      lead, ip := [], 0;
    } else {
      var n := c.At(0) - 17;
      if n < 4 {
        ParsesShortLead(c, n);
      }
      lead, ip := c.src[1..1 + n], 1 + n;
      HoldsSlice(c.src, 1, lead);
      assert [] + lead == lead;
    }
  }

  lemma ParsesShortLead(c: Ideal, n: nat)
    requires 1 <= n <= 3 && 1 <= |c.src| && c.Run(State(1, [], MatchNext(n))).at.rc == Ok
    ensures 1 + n < |c.src|
    ensures c.Run(State(1, [], MatchNext(n))) == c.Run(Ready(c, AfterShort, 1 + n, c.src[1..1 + n]))
  {
    hide Config.AtMatchNext, Config.AtMatch;
    MatchNextReads(c, 1, [], n);
    var s1 := c.Step(State(1, [], MatchNext(n)));
    assert c.Run(State(1, [], MatchNext(n))) == c.Run(s1);
    assert [] + c.src[1..1 + n] == c.src[1..1 + n];
  }

  lemma LeadAndProgAreStream(c: Ideal, lead: seq<byte>, ip: nat, prog: seq<Instr>, len: nat, low: nat, data: seq<byte>)
    requires |lead| <= 238 && ip == (if lead == [] then 0 else 1 + |lead|) < |c.src| && c.inLen <= |c.src|
    requires if lead == [] then c.At(0) <= 17 else c.At(0) == 17 + |lead| && Holds(c.src, 1, lead)
    requires IsProg(c, Stream(lead, [], 3, 0).Context0(), ip, lead, prog, len, low, data)
    ensures Denotes(c.src[..c.inLen], data)
  {
    hide Expand, ProgBytes, EofBytes;
    var st := Stream(lead, prog, len, low);
    HoldsParts(c.src, ip, ProgBytes(prog), EofBytes(len, low));
    HoldsAt(c.src, ip, st.Body(), 0);
    assert st.Valid();
    if lead != [] {
      HoldsParts(c.src, 0, [(17 + |lead|) as byte], lead);
      HoldsParts(c.src, 0, [(17 + |lead|) as byte] + lead, st.Body());
    }
    assert Holds(c.src, 0, st.ToBytes());
    HoldsSlice(c.src, 0, st.ToBytes());
  }

  lemma OnlyStreamsDecode(c: Ideal)
    requires c.inLen <= |c.src| && c.Decode().0 == Ok
    ensures Denotes(c.src[..c.inLen], c.Decode().1)
  {
    var end := c.Run(c.Start());
    var lead, ip := ParsesLead(c);
    var ctx := Stream(lead, [], 3, 0).Context0();
    ParsesProg(c, ctx, ip, lead, end);
    var prog: seq<Instr>, len: nat, low: nat :| IsProg(c, ctx, ip, lead, prog, len, low, end.out);
    LeadAndProgAreStream(c, lead, ip, prog, len, low, end.out);
  }

  // ---------- main results ----------

  /** A block is decoded in any registers its own length and that of its data fit. */
  lemma BlocksDecode(c: Config, data: seq<byte>)
    requires c.inLen <= |c.src| && Denotes(c.src[..c.inLen], data) && (c.safe ==> |data| <= c.cap)
    requires c.word == 0 || (Sized(c) && |data| < c.word)
    ensures c.Decode() == (Ok, data)
  {
    hide Holds, Config.Decode, Config.Reg, Config.Short;
    var p := c.Ideally();
    var guarded: Ideal := if c.safe then p else p.(safe := true, cap := |data|);
    var st: Stream :| st.Valid() && st.ToBytes() == c.src[..c.inLen] && st.Data() == data;
    HoldsSlice(c.src, 0, st.ToBytes());
    StreamsDecode(guarded, st);
    if !c.safe {
      SafeRefinesPlain(guarded, p);
    }
    if c.word != 0 {
      GoodCallsFit(c);
    }
  }

  /** What a short enough call accepts is a block. */
  lemma OnlyBlocksDecode(c: Config)
    requires c.inLen <= |c.src| && Fits(c) && c.Decode().0 == Ok
    ensures Denotes(c.src[..c.inLen], c.Decode().1)
  {
    hide Config.Decode, Config.Reg, Config.Short;
    ShortBlockSuccess(c);
    OnlyStreamsDecode(c.Ideally());
  }

  /** The safe decoder succeeds on exactly the blocks whose data fits the capacity, and returns that data. */
  lemma SafeDecoderIsExact(c: Config, data: seq<byte>)
    requires c.safe && c.inLen <= |c.src| && Fits(c)
    ensures c.Decode() == (Ok, data) <==> Denotes(c.src[..c.inLen], data) && |data| <= c.cap
  {
    hide Denotes, Config.Run, Config.Step, Config.Reg, Config.Short;
    if c.Decode() == (Ok, data) {
      OnlyBlocksDecode(c);
      OutputFits(c, c.Start());
    }
    if Denotes(c.src[..c.inLen], data) && |data| <= c.cap {
      BlocksDecode(c, data);
    }
  }

  /** The plain decoder succeeds on exactly the blocks of the format, and returns their data. */
  lemma PlainDecoderIsExact(c: Config, data: seq<byte>)
    requires !c.safe && c.inLen <= |c.src| && Fits(c) && (c.word == 0 || |data| < c.word)
    ensures c.Decode() == (Ok, data) <==> Denotes(c.src[..c.inLen], data)
  {
    hide Denotes, Config.Decode;
    if c.Decode() == (Ok, data) {
      OnlyBlocksDecode(c);
    }
    if Denotes(c.src[..c.inLen], data) {
      BlocksDecode(c, data);
    }
  }

  /** The format is unambiguous: a block stands for one piece of data. */
  lemma BlocksAreUnambiguous(block: seq<byte>, x: seq<byte>, y: seq<byte>)
    requires Denotes(block, x) && Denotes(block, y)
    ensures x == y
  {
    hide Denotes, Config.Decode;
    var c := Config(block, |block|, 0, false, 0);
    assert block[..c.inLen] == block;
    BlocksDecode(c, x);
    BlocksDecode(c, y);
  }
}
