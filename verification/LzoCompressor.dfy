/** `lzo1x_1_compress`: the match finder and the emission of literals and matches, in place. */
module LzoCompressor {
  import opened Bytes
  import opened LzoFormat
  import opened LzoCopy
  import opened LzoParse
  import opened LzoWriting
  import opened LzoExactness

  // ---------- looking for a match ----------

  /** LZO_CHECK_MPOS_NON_DET; dictionary entries are whatever the memory held. */
  method OutsideWindow(ip: nat, m: int) returns (outside: bool)
    ensures outside <==> !Reaches(ip, m)
  {
    outside := m < 0 || ip - m <= 0 || ip - m > M4_MAX_OFFSET;
  }

  /** The candidate the two probes of the dictionary settle on, and whether it is taken. */
  method FindMatch(src: seq<byte>, ip: nat, dict: array<int>, hash: Hash) returns (found: bool, mPos: nat, dindex: nat)
    requires ip + 3 < |src| && dict.Length == D_SIZE
    ensures dindex < D_SIZE
    ensures var i := hash.Index1(src, ip);
            dindex == if Reaches(ip, dict[i]) && !Promises(src, ip, dict[i]) then hash.Index2(i) else i
    ensures found <==> Qualifies(src, ip, dict[dindex])
    ensures found ==> mPos == dict[dindex]
  {
    dindex := hash.Index1(src, ip);
    mPos := 0;
    var m := dict[dindex];
    var outside := OutsideWindow(ip, m);
    if outside {
      return false, 0, dindex;
    }
    if !(ip - m <= M2_MAX_OFFSET || src[m + 3] == src[ip + 3]) {
      dindex := hash.Index2(dindex);
      m := dict[dindex];
      outside := OutsideWindow(ip, m);
      if outside {
        return false, 0, dindex;
      }
      if !(ip - m <= M2_MAX_OFFSET || src[m + 3] == src[ip + 3]) {
        return false, 0, dindex;
      }
    }
    mPos := m;
    ThreeBytes(src, m, ip);
    found := src[m] == src[ip] && src[m + 1] == src[ip + 1] && src[m + 2] == src[ip + 2];
  }

  lemma ThreeBytes(src: seq<byte>, m: nat, ip: nat)
    requires m < ip && ip + 3 < |src|
    ensures src[m..m + 3] == src[ip..ip + 3] <==>
            src[m] == src[ip] && src[m + 1] == src[ip + 1] && src[m + 2] == src[ip + 2]
  {
    var a, b := src[m..m + 3], src[ip..ip + 3];
    assert a == [src[m], src[m + 1], src[m + 2]] && b == [src[ip], src[ip + 1], src[ip + 2]];
  }

  /** The longest match at `ip`, compared byte by byte to the end of the input. */
  method MatchLength(src: seq<byte>, ip: nat, mPos: nat) returns (len: nat)
    requires mPos < ip && ip + 9 <= |src| && src[mPos..mPos + 3] == src[ip..ip + 3]
    ensures 3 <= len && LongestAgreement(src, mPos, ip, len)
    ensures src[mPos + 3] == src[ip + 3] ==> 4 <= len
    ensures Repeats(src, ip, ip + len, ip - mPos)
  {
    hide Repeats, LongestAgreement;
    len := 3;
    ThreeRepeat(src, mPos, ip);
    while len < 9 && src[mPos + len] == src[ip + len]
      invariant 3 <= len <= 9 && Repeats(src, ip, ip + len, ip - mPos)
    {
      OneMoreRepeats(src, ip, ip + len, ip - mPos);
      len := len + 1;
    }
    if len == 9 {
      while ip + len < |src| && src[mPos + len] == src[ip + len]
        invariant 9 <= len && ip + len <= |src| && Repeats(src, ip, ip + len, ip - mPos)
      {
        OneMoreRepeats(src, ip, ip + len, ip - mPos);
        len := len + 1;
      }
    }
    RepeatsAgree(src, mPos, ip, len);
  }

  lemma ThreeRepeat(src: seq<byte>, m: nat, ip: nat)
    requires m < ip && ip + 3 < |src| && src[m..m + 3] == src[ip..ip + 3]
    ensures Repeats(src, ip, ip + 3, ip - m)
  {
    ThreeBytes(src, m, ip);
    var off := ip - m;
    assert forall k :: ip <= k < ip + 3 ==> Echoes(src, k, off);
  }

  lemma OneMoreRepeats(src: seq<byte>, from: nat, to: nat, off: nat)
    requires Repeats(src, from, to, off) && from <= to < |src| && 1 <= off && src[to - off] == src[to]
    ensures Repeats(src, from, to + 1, off)
  {
    assert Echoes(src, to, off);
  }

  lemma RepeatsAgree(src: seq<byte>, m: nat, ip: nat, len: nat)
    requires m < ip && Repeats(src, ip, ip + len, ip - m) && ip + len <= |src|
    requires ip + len < |src| ==> src[m + len] != src[ip + len]
    ensures LongestAgreement(src, m, ip, len)
  {
    var a, b := src[m..m + len], src[ip..ip + len];
    forall k | 0 <= k < len ensures a[k] == b[k] {
      assert Echoes(src, ip + k, ip - m);
    }
  }

  // ---------- emission ----------

  /** `while (tt > 255) { tt -= 255; *op++ = 0; }  *op++ = tt`. */
  method WriteExt(out: array<byte>, op: nat, n: nat) returns (op': nat)
    requires n > 0 && op + |Ext(n)| <= out.Length
    modifies out
    ensures op' == op + |Ext(n)| && out[..op'] == old(out[..op]) + Ext(n)
  {
    ghost var before := out[..op];
    var tt := n;
    op' := op;
    while tt > 255
      invariant tt > 0 && op <= op' && op' + |Ext(tt)| == op + |Ext(n)|
      invariant out[..op'] + Ext(tt) == before + Ext(n)
    {
      ghost var done := out[..op'];
      tt := tt - 255;
      out[op'] := 0;
      op' := op' + 1;
      assert out[..op'] == done + [0];
    }
    ghost var done := out[..op'];
    out[op'] := tt as byte;
    op' := op' + 1;
    assert out[..op'] == done + [tt as byte];
  }

  method WriteByte(out: array<byte>, op: nat, b: nat) returns (op': nat)
    requires op < out.Length && b < 256
    modifies out
    ensures op' == op + 1 && out[..op'] == old(out[..op]) + [b as byte]
  {
    out[op] := b as byte;
    op' := op + 1;
  }

  /** Marker and length of an M3 or M4 match. */
  method WriteHead(out: array<byte>, op: nat, marker: nat, maxLen: nat, len: nat) returns (op': nat)
    requires IsMarker(marker, maxLen) && 3 <= len && op + |LongHead(marker, maxLen, len)| <= out.Length
    modifies out
    ensures op' == op + |LongHead(marker, maxLen, len)| && out[..op'] == old(out[..op]) + LongHead(marker, maxLen, len)
  {
    hide Ext;
    if len <= maxLen {
      op' := WriteByte(out, op, marker + (len - 2));
    } else {
      op' := WriteByte(out, op, marker);
      op' := WriteExt(out, op', len - maxLen);
    }
  }

  method WriteOffset(out: array<byte>, op: nat, d: nat) returns (op': nat)
    requires op + 2 <= out.Length
    modifies out
    ensures op' == op + 2 && out[..op'] == old(out[..op]) + OffsetBytes(d, 0)
  {
    op' := WriteByte(out, op, (d % 64) * 4);
    op' := WriteByte(out, op', (d / 64) % 256);
  }

  /** The label `m3_m4_len` and what leads to it: the shortest encoding that fits. */
  method WriteMatch(out: array<byte>, op: nat, len: nat, off: nat) returns (op': nat)
    requires Emitted(PickKind(len, off), len, off)
    requires op + |MatchBytes(PickKind(len, off), len, off, 0)| <= out.Length
    modifies out
    ensures op' == op + |MatchBytes(PickKind(len, off), len, off, 0)|
    ensures out[..op'] == old(out[..op]) + MatchBytes(PickKind(len, off), len, off, 0)
  {
    if len <= M2_MAX_LEN && off <= M2_MAX_OFFSET {
      op' := WriteByte(out, op, (len - 1) * 32 + ((off - 1) % 8) * 4);
      op' := WriteByte(out, op', (off - 1) / 8);
    } else if off <= M3_MAX_OFFSET {
      op' := WriteHead(out, op, M3_MARKER, M3_MAX_LEN, len);
      op' := WriteOffset(out, op', off - 1);
    } else {
      var d := off - 0x4000;
      op' := WriteHead(out, op, M4Marker(d), M4_MAX_LEN, len);
      op' := WriteOffset(out, op', d);
    }
  }

  // ---------- the invariant of the main loop ----------

  /** The output so far: `b0`, then the last match; everything stands for `src[..ii]` and has paid its way. */
  predicate Progress(src: seq<byte>, ii: nat, b: seq<byte>, b0: seq<byte>, ms: seq<Match>) {
    && Written(src, ii, b0, ms) && b == b0 + DraftBytes(ms)
    && |b| <= Room(ii)
    && (b == [] <==> ms == [])
  }

  /** What `n` literals cost on top of themselves. */
  function HeaderSize(n: nat): nat {
    if n <= 3 then 0 else |RunHeader(n)|
  }

  /** `op[-2] |= t`. */
  method PatchCount(out: array<byte>, op: nat, t: nat, ghost want: seq<byte>)
    requires 2 <= op <= out.Length && t <= 3 && Patched(out[..op], want, t)
    modifies out
    ensures out[..op] == want
  {
    OrLowBits(out[op - 2] as nat, t);
    out[op - 2] := Or(out[op - 2] as nat, t) as byte;
  }

  /** The header of a literal run. */
  method WriteRunHeader(out: array<byte>, op: nat, t: nat) returns (op': nat)
    requires 4 <= t && op + |RunHeader(t)| <= out.Length
    modifies out
    ensures op' == op + |RunHeader(t)| && out[..op'] == old(out[..op]) + RunHeader(t)
  {
    hide Ext;
    if t <= 18 {
      op' := WriteByte(out, op, t - 3);
    } else {
      op' := WriteByte(out, op, 0);
      op' := WriteExt(out, op', t - 18);
    }
  }

  /** Writes the `t = ip - ii` literals before a match or at the end: in the last match's low bits, or with a header. */
  method WriteLiterals(src: seq<byte>, ii: nat, ip: nat, out: array<byte>, op: nat,
                       ghost b0: seq<byte>, ghost ms: seq<Match>)
    returns (op': nat)
    requires ii <= ip <= |src| && op <= out.Length
    requires Progress(src, ii, out[..op], b0, ms) && (op == 0 ==> 4 <= ip - ii)
    requires op + HeaderSize(ip - ii) + (ip - ii) <= out.Length
    modifies out
    ensures op' == op + HeaderSize(ip - ii) + (ip - ii)
    ensures IsOpen(src, ip, out[..op'], ms)
  {
    hide InstrBytes, MatchBytes, RunHeader, IsOpen;
    var t := ip - ii;
    op' := op;
    ghost var before := out[..op];
    if t <= 3 {
      PatchIsClosed(src, ii, ip, b0, ms);
      ghost var last := PendingBytes(ms[|ms| - 1], t);
      if t > 0 {
        PatchCount(out, op, t, b0 + last);
      }
      CopyLiterals(src, ii, out, op, t);
      op' := op + t;
      ConcatAssociates(b0, last, src[ii..ip]);
    } else {
      AddRun(src, ii, ip, b0, ms);
      op' := WriteRunHeader(out, op, t);
      CopyLiterals(src, ii, out, op', t);
      op' := op' + t;
      ConcatAssociates(before, RunHeader(t), src[ii..ip]);
    }
  }

  /** What patching the count into the last match achieves. */
  lemma PatchIsClosed(src: seq<byte>, n: nat, n': nat, b0: seq<byte>, ms: seq<Match>)
    requires ms != [] && Written(src, n, b0, ms) && n <= n' <= n + 3 && n' <= |src|
    ensures var m := ms[|ms| - 1];
            && IsOpen(src, n', b0 + (PendingBytes(m, n' - n) + src[n..n']), ms)
            && Patched(b0 + PendingBytes(m, 0), b0 + PendingBytes(m, n' - n), n' - n)
  {
    hide IsOpen, MatchBytes;
    var m := ms[|ms| - 1];
    Close(src, n, n', b0, ms);
    assert InstrBytes(Closed(src, m, n, n')) == PendingBytes(m, n' - n) + src[n..n'];
    CountIsPatched(PickKind(m.len, m.off), m.len, m.off, n' - n);
    PatchedAtEnd(b0, PendingBytes(m, 0), PendingBytes(m, n' - n), n' - n);
  }

  // ---------- the compressor ----------

  /** Paid for: literals with their header and a match at least one byte shorter than what it stands for. */
  lemma PaysItsWay(ii: nat, t: nat, len: nat, size: nat)
    requires size <= Room(ii) + HeaderSize(t) + t + (len - 1) && 1 <= len
    ensures size <= Room(ii + t + len)
  {
    if t > 3 {
      RunHeaderSize(t);
    }
  }

  /** What `WriteMatch` adds keeps the invariant. */
  lemma MatchProgress(src: seq<byte>, ii: nat, b: seq<byte>, b': seq<byte>, ms: seq<Match>, m: Match)
    requires ii <= m.at && IsOpen(src, m.at, b, ms) && m.at + m.len <= |src|
    requires 3 <= m.len && 1 <= m.off <= M4_MAX_OFFSET && m.off <= m.at && (M2_MAX_OFFSET < m.off ==> 4 <= m.len)
    requires Repeats(src, m.at, m.at + m.len, m.off) && |b| <= Room(ii) + HeaderSize(m.at - ii) + (m.at - ii)
    requires Encodable(m) && b' == b + PendingBytes(m, 0)
    ensures Progress(src, m.at + m.len, b', b, ms + [m])
  {
    hide MatchBytes, IsOpen;
    MatchSaves(m.len, m.off);
    PaysItsWay(ii, m.at - ii, m.len, |b'|);
    assert (ms + [m])[..|ms|] == ms;
  }

  /** The buffer is large enough for one more match with the literals before it. */
  lemma StaysInside(src: seq<byte>, ii: nat, ip: nat, op: nat, len: nat, off: nat)
    requires ii <= ip && ip + len <= |src| && op <= Room(ii)
    requires 3 <= len && 1 <= off <= M4_MAX_OFFSET && (M2_MAX_OFFSET < off ==> 4 <= len)
    ensures Emitted(PickKind(len, off), len, off)
    ensures op + HeaderSize(ip - ii) + (ip - ii) + |MatchBytes(PickKind(len, off), len, off, 0)| <= Room(|src|)
  {
    hide MatchBytes;
    MatchSaves(len, off);
    PaysItsWay(ii, ip - ii, len, op + HeaderSize(ip - ii) + (ip - ii) + |MatchBytes(PickKind(len, off), len, off, 0)|);
  }

  /** One match: the literals before it, then the match itself. */
  method EmitMatch(src: seq<byte>, ii: nat, ip: nat, mPos: nat, len: nat, out: array<byte>, op: nat,
                   ghost b0: seq<byte>, ghost ms: seq<Match>)
    returns (op': nat, ghost b0': seq<byte>)
    requires ii <= ip && ip + len <= |src| && op <= out.Length && Room(|src|) <= out.Length
    requires Progress(src, ii, out[..op], b0, ms) && (op == 0 ==> 4 <= ip - ii)
    requires mPos < ip && ip - mPos <= M4_MAX_OFFSET && 3 <= len && (M2_MAX_OFFSET < ip - mPos ==> 4 <= len)
    requires Repeats(src, ip, ip + len, ip - mPos)
    modifies out
    ensures 0 < op' <= out.Length
    ensures Progress(src, ip + len, out[..op'], b0', ms + [Match(ip, len, ip - mPos)])
  {
    hide MatchBytes, IsOpen, Repeats;
    var off := ip - mPos;
    StaysInside(src, ii, ip, op, len, off);
    op' := WriteLiterals(src, ii, ip, out, op, b0, ms);
    b0' := out[..op'];
    op' := WriteMatch(out, op', len, off);
    MatchProgress(src, ii, b0', out[..op'], ms, Match(ip, len, off));
  }

  lemma NothingWritten(src: seq<byte>)
    ensures Progress(src, 0, [], [], [])
  {
  }

  /** A match that is taken far back agrees in four bytes. */
  lemma FourAgree(src: seq<byte>, ip: nat, mPos: nat)
    requires ip + 3 < |src| && Qualifies(src, ip, mPos)
    ensures mPos < ip && ip - mPos <= M4_MAX_OFFSET
    ensures M2_MAX_OFFSET < ip - mPos ==> src[mPos + 3] == src[ip + 3]
  {
  }

  /** The table holds what the visits have put there. */
  ghost predicate IsTable(dict: seq<int>, dict0: seq<int>, visits: seq<Visit>) {
    |dict| == |dict0| && forall i :: 0 <= i < |dict| ==> dict[i] == Entry(dict0, visits, i)
  }

  lemma VisitsExtend(src: seq<byte>, hash: Hash, dict0: seq<int>, visits: seq<Visit>, v: Visit)
    requires Visits(src, hash, dict0, visits) && Visited(src, hash, dict0, visits, v)
    requires v.ip == (if visits == [] then 4 else After(visits[|visits| - 1]))
    requires visits != [] ==> v.ip + 13 < |src|
    ensures Visits(src, hash, dict0, visits + [v])
  {
    hide Visited;
    var more := visits + [v];
    assert more[..|visits|] == visits;
    forall k | 0 <= k < |more| ensures VisitAt(src, hash, dict0, more, k) {
      if k < |visits| {
        assert VisitAt(src, hash, dict0, visits, k);
        assert more[..k] == visits[..k];
      }
    }
  }

  lemma TableExtends(dict: seq<int>, dict0: seq<int>, visits: seq<Visit>, v: Visit)
    requires IsTable(dict, dict0, visits) && v.index < |dict|
    ensures IsTable(dict[v.index := v.ip], dict0, visits + [v])
  {
    assert (visits + [v])[..|visits|] == visits;
  }

  lemma TakenExtends(visits: seq<Visit>, v: Visit)
    requires v.found ==> v.mPos < v.ip
    ensures Taken(visits + [v]) ==
            if v.found then Taken(visits) + [Match(v.ip, v.len, v.ip - v.mPos)] else Taken(visits)
  {
    assert (visits + [v])[..|visits|] == visits;
  }

  /** One more turn of the loop, in the words of the search. */
  lemma OneMoreVisit(src: seq<byte>, hash: Hash, dict0: seq<int>, dict: seq<int>, visits: seq<Visit>, v: Visit)
    requires Visits(src, hash, dict0, visits) && IsTable(dict, dict0, visits) && |dict| == D_SIZE
    requires v.ip == (if visits == [] then 4 else After(visits[|visits| - 1])) && v.ip + 3 < |src|
    requires visits != [] ==> v.ip + 13 < |src|
    requires var i := hash.Index1(src, v.ip);
             v.index == if Reaches(v.ip, dict[i]) && !Promises(src, v.ip, dict[i]) then hash.Index2(i) else i
    requires v.found <==> Qualifies(src, v.ip, dict[v.index])
    requires if v.found then v.mPos == dict[v.index] && LongestAgreement(src, v.mPos, v.ip, v.len)
             else v.mPos == 0 && v.len == 0
    ensures Visits(src, hash, dict0, visits + [v]) && IsTable(dict[v.index := v.ip], dict0, visits + [v])
    ensures Taken(visits + [v]) ==
            if v.found then Taken(visits) + [Match(v.ip, v.len, v.ip - v.mPos)] else Taken(visits)
  {
    hide Promises, Qualifies, LongestAgreement, Reaches, Visits, Entry, Taken;
    assert Visited(src, hash, dict0, visits, v);
    VisitsExtend(src, hash, dict0, visits, v);
    TableExtends(dict, dict0, visits, v);
    if v.found {
      QualifiesIsBefore(src, v.ip, v.mPos);
    }
    TakenExtends(visits, v);
  }

  lemma QualifiesIsBefore(src: seq<byte>, ip: nat, m: int)
    requires ip + 3 < |src| && Qualifies(src, ip, m)
    ensures 0 <= m < ip
  {
  }

  /**
    `do_compress`: returns the output position and the input position up to which it has compressed. `visits` lists
    the positions it has looked at, and so the matches it has taken.
   */
  method DoCompress(src: seq<byte>, out: array<byte>, dict: array<int>, hash: Hash)
    returns (op: nat, ii: nat, ghost b0: seq<byte>, ghost visits: seq<Visit>)
    requires M2_MAX_LEN + 5 < |src| && Room(|src|) <= out.Length && dict.Length == D_SIZE
    modifies out, dict
    ensures op <= out.Length && Progress(src, ii, out[..op], b0, Taken(visits))
    ensures AllVisits(src, hash, old(dict[..]), visits) && IsTable(dict[..], old(dict[..]), visits)
  {
    hide Progress, Repeats, Visits, IsTable, Qualifies, LongestAgreement, Taken;
    NothingWritten(src);
    NothingVisited(src, hash, dict[..]);
    var ipEnd := |src| - M2_MAX_LEN - 5;
    op, ii, b0, visits := 0, 0, [], [];
    var ip := 4;
    while true
      invariant 4 <= ip && ip + 9 <= |src| && ii <= ip && (ii == 0 || ii < ipEnd)
      invariant op <= out.Length
      invariant Progress(src, ii, out[..op], b0, Taken(visits))
      invariant op == 0 ==> ii == 0
      invariant Visits(src, hash, old(dict[..]), visits) && IsTable(dict[..], old(dict[..]), visits)
      invariant ip == (if visits == [] then 4 else After(visits[|visits| - 1])) && (visits != [] ==> ip < ipEnd)
      decreases |src| - ip
    {
      ghost var b, table := out[..op], dict[..];
      var found, mPos, dindex := FindMatch(src, ip, dict, hash);
      dict[dindex] := ip;
      assert out[..op] == b && dict[..] == table[dindex := ip];
      if !found {
        OneMoreVisit(src, hash, old(dict[..]), table, visits, Visit(ip, dindex, false, 0, 0));
        visits := visits + [Visit(ip, dindex, false, 0, 0)];
        ip := ip + 1;
      } else {
        FourAgree(src, ip, mPos);
        SameThree(src, ip, mPos);
        var len := MatchLength(src, ip, mPos);
        LongestIsInside(src, mPos, ip, len);
        OneMoreVisit(src, hash, old(dict[..]), table, visits, Visit(ip, dindex, true, mPos, len));
        op, b0 := EmitMatch(src, ii, ip, mPos, len, out, op, b0, Taken(visits));
        visits := visits + [Visit(ip, dindex, true, mPos, len)];
        ip := ip + len;
        ii := ip;
      }
      if ip >= ipEnd { break; }
    }
  }

  lemma NothingVisited(src: seq<byte>, hash: Hash, dict: seq<int>)
    ensures Visits(src, hash, dict, []) && IsTable(dict, dict, []) && Taken([]) == []
  {
  }

  lemma SameThree(src: seq<byte>, ip: nat, m: nat)
    requires ip + 3 < |src| && Qualifies(src, ip, m)
    ensures m < ip && src[m..m + 3] == src[ip..ip + 3]
  {
  }

  lemma LongestIsInside(src: seq<byte>, m: nat, ip: nat, len: nat)
    requires LongestAgreement(src, m, ip, len)
    ensures ip + len <= |src|
  {
  }

  // ---------- lzo1x_1_compress ----------

  /** An open program for the whole input and the end code are a block. */
  lemma Finish(src: seq<byte>, b: seq<byte>, ms: seq<Match>)
    requires IsOpen(src, |src|, b, ms)
    ensures Denotes(b + EOF, src)
    ensures AllShaped(Program(src, ms, |src|)) && b == ProgBytes(Program(src, ms, |src|))
  {
    var prog := Program(src, ms, |src|);
    var st := Stream([], prog, 3, 0);
    assert EofBytes(3, 0) == EOF;
    FirstByteIsSmall(prog);
    assert st.Body()[0] == ProgBytes(prog)[0];
    assert st.Valid() && st.ToBytes() == b + EOF && src[..|src|] == src;
  }

  /** A program that starts with a literal run cannot be taken for one that announces literals in its first byte. */
  lemma FirstByteIsSmall(prog: seq<Instr>)
    requires AllShaped(prog) && prog != [] && prog[0].Run?
    ensures ProgBytes(prog) != [] && ProgBytes(prog)[0] <= 15
  {
    assert Shaped(prog[0]);
  }

  /** Literals only, announced by the first byte; nothing at all for the empty input. */
  lemma FinishLead(src: seq<byte>)
    requires |src| <= 238
    ensures Denotes((if src == [] then [] else [(17 + |src|) as byte] + src) + EOF, src)
  {
    var st := Stream(src, [], 3, 0);
    assert EofBytes(3, 0) == EOF;
    assert st.Valid() && st.ToBytes() == (if src == [] then [] else [(17 + |src|) as byte] + src) + EOF;
  }

  method WriteEof(out: array<byte>, op: nat) returns (op': nat)
    requires op + 3 <= out.Length
    modifies out
    ensures op' == op + 3 && out[..op'] == old(out[..op]) + EOF
  {
    out[op], out[op + 1], out[op + 2] := 17, 0, 0;
    op' := op + 3;
  }

  /**
    `lzo1x_1_compress`. Whatever the dictionary holds at first, the output is a block that stands for
    the input, at most a sixteenth and four bytes longer; and it is the block of the matches that the search finds.
   */
  method Compress(src: seq<byte>, out: array<byte>, dict: array<int>, hash: Hash)
    returns (outLen: nat, ghost visits: seq<Visit>)
    requires |src| + |src| / 16 + 4 <= out.Length && dict.Length == D_SIZE
    modifies out, dict
    ensures outLen <= |src| + |src| / 16 + 4
    ensures Denotes(out[..outLen], src)
    ensures AllVisits(src, hash, old(dict[..]), visits) && IsBlockOf(src, Taken(visits), out[..outLen])
    ensures IsTable(dict[..], old(dict[..]), visits)
  {
    hide Progress, Denotes, IsOpen, RunHeader, Visits, IsTable, Program, ProgBytes, Chained, Taken, WellFormed;
    NothingWritten(src);
    NothingVisited(src, hash, dict[..]);
    var op: nat, ii: nat := 0, 0;
    ghost var b0;
    b0, visits := [], [];
    if M2_MAX_LEN + 5 < |src| {
      op, ii, b0, visits := DoCompress(src, out, dict, hash);
    }
    ghost var ms := Taken(visits);
    ProgressBounds(src, ii, out[..op], b0, ms);
    var t := |src| - ii;
    if op == 0 && t <= 238 {
      FinishLead(src);
      if t > 0 {
        op := WriteByte(out, op, 17 + t);
        ghost var head := out[..op];
        CopyLiterals(src, ii, out, op, t);
        op := op + t;
        assert out[..op] == [(17 + |src|) as byte] + src;
      }
    } else {
      op := WriteLiterals(src, ii, |src|, out, op, b0, ms);
      Finish(src, out[..op], ms);
      OpenIsChained(src, out[..op], ms);
    }
    outLen := WriteEof(out, op);
  }

  lemma OpenIsChained(src: seq<byte>, b: seq<byte>, ms: seq<Match>)
    requires IsOpen(src, |src|, b, ms)
    ensures Chained(src, ms, |src|)
  {
  }

  /** What the size and the shape of the output so far say about the end of the input. */
  lemma ProgressBounds(src: seq<byte>, ii: nat, b: seq<byte>, b0: seq<byte>, ms: seq<Match>)
    requires Progress(src, ii, b, b0, ms)
    ensures ii <= |src| && (b == [] <==> ms == []) && (b == [] ==> ii == 0)
    ensures |b| + HeaderSize(|src| - ii) + (|src| - ii) <= |src| + |src| / 16 + 1
  {
    hide RunHeader, Open, MatchBytes, Repeats, Program;
    if |src| - ii > 3 {
      RunHeaderSize(|src| - ii);
    }
  }
}
