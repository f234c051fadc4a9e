/** Which matches the compressor takes and what it writes for them, said without its loops. */
module LzoParse {
  import opened Bytes
  import opened LzoFormat

  const D_SIZE := 0x4000

  /** The two hash functions; nothing below depends on which they are. */
  datatype Hash = Hash(first: (seq<byte>, nat) -> nat, second: nat -> nat) {
    function Index1(src: seq<byte>, ip: nat): (i: nat)
      ensures i < D_SIZE
    {
      first(src, ip) % D_SIZE
    }

    function Index2(i: nat): (j: nat)
      ensures j < D_SIZE
    {
      second(i) % D_SIZE
    }
  }

  // ---------- the positions looked at ----------

  /** A turn of the main loop: the position, the table index it settled on, and the match it took, if any. */
  datatype Visit = Visit(ip: nat, index: nat, found: bool, mPos: int, len: nat)

  /** The position after the literal or the match. */
  function After(v: Visit): nat {
    if v.found then v.ip + v.len else v.ip + 1
  }

  /** The table after some visits: at each index the last position visited with it, or what was there at first. */
  function Entry(dict: seq<int>, visits: seq<Visit>, index: nat): int
    requires index < |dict|
  {
    if visits == [] then dict[index]
    else if visits[|visits| - 1].index == index then visits[|visits| - 1].ip
    else Entry(dict, visits[..|visits| - 1], index)
  }

  /** An earlier position, at most 49151 bytes back. */
  predicate Reaches(ip: nat, m: int) {
    0 <= m < ip && ip - m <= 49151
  }

  /** At most 2048 bytes back, or with the same fourth byte. */
  predicate Promises(src: seq<byte>, ip: nat, m: int)
    requires Reaches(ip, m) && ip + 3 < |src|
  {
    ip - m <= 2048 || src[m + 3] == src[ip + 3]
  }

  /** Worth a match: it reaches, promises, and has the same first three bytes. */
  predicate Qualifies(src: seq<byte>, ip: nat, m: int)
    requires ip + 3 < |src|
  {
    Reaches(ip, m) && Promises(src, ip, m) && src[m..m + 3] == src[ip..ip + 3]
  }

  /** From `m` and from `ip` on `len` bytes are the same, and no more before the end of the input. */
  predicate LongestAgreement(src: seq<byte>, m: int, ip: nat, len: nat) {
    && 0 <= m < ip && ip + len <= |src|
    && src[m..m + len] == src[ip..ip + len]
    && (ip + len < |src| ==> src[m + len] != src[ip + len])
  }

  /** What the loop does at a position, given the visits before: the second probe is for a first that only reaches. */
  predicate Visited(src: seq<byte>, hash: Hash, dict: seq<int>, before: seq<Visit>, v: Visit) {
    && |dict| == D_SIZE && v.ip + 3 < |src|
    && (var i := hash.Index1(src, v.ip);
        var m := Entry(dict, before, i);
        v.index == if Reaches(v.ip, m) && !Promises(src, v.ip, m) then hash.Index2(i) else i)
    && (var m := Entry(dict, before, v.index);
        && (v.found <==> Qualifies(src, v.ip, m))
        && if v.found then v.mPos == m && LongestAgreement(src, m, v.ip, v.len) else v.mPos == 0 && v.len == 0)
  }

  /** The k-th position is the fifth of the input or the one after what was done before, 13 bytes from the end. */
  predicate VisitAt(src: seq<byte>, hash: Hash, dict: seq<int>, visits: seq<Visit>, k: nat)
    requires k < |visits|
  {
    && visits[k].ip == (if k == 0 then 4 else After(visits[k - 1]))
    && (k > 0 ==> visits[k].ip + 13 < |src|)
    && Visited(src, hash, dict, visits[..k], visits[k])
  }

  ghost predicate Visits(src: seq<byte>, hash: Hash, dict: seq<int>, visits: seq<Visit>) {
    forall k :: 0 <= k < |visits| ==> VisitAt(src, hash, dict, visits, k)
  }

  /** All of them: inputs of up to 13 bytes are not searched. */
  ghost predicate AllVisits(src: seq<byte>, hash: Hash, dict: seq<int>, visits: seq<Visit>) {
    && Visits(src, hash, dict, visits)
    && if |src| <= 13 then visits == [] else visits != [] && After(visits[|visits| - 1]) + 13 >= |src|
  }

  // ---------- the program ----------

  datatype Match = Match(at: nat, len: nat, off: nat)

  /** The matches taken. */
  function Taken(visits: seq<Visit>): seq<Match> {
    if visits == [] then []
    else
      var v := visits[|visits| - 1];
      Taken(visits[..|visits| - 1]) + if v.found && v.mPos <= v.ip then [Match(v.ip, v.len, v.ip - v.mPos)] else []
  }

  /** The shortest of the encodings used. */
  function PickKind(len: nat, off: nat): Kind {
    if len <= M2_MAX_LEN && off <= M2_MAX_OFFSET then M2 else if off <= M3_MAX_OFFSET then M3 else M4
  }

  /** The matches lie one after the other in `src[..n]`. */
  predicate Chained(src: seq<byte>, ms: seq<Match>, n: nat) {
    && n <= |src|
    && (ms != [] ==>
          var m := ms[|ms| - 1];
          m.at + m.len <= n && Chained(src, ms[..|ms| - 1], m.at))
  }

  /** The matches with the literals between them: up to three go with the match before, more are a run. */
  function Program(src: seq<byte>, ms: seq<Match>, n: nat): seq<Instr>
    requires Chained(src, ms, n)
  {
    if ms == [] then
      if n == 0 then [] else [Run(src[..n])]
    else
      var m := ms[|ms| - 1];
      var before := Program(src, ms[..|ms| - 1], m.at);
      var kind, lits := PickKind(m.len, m.off), src[m.at + m.len..n];
      if |lits| <= 3 then before + [Copy(kind, m.len, m.off, lits)]
      else before + [Copy(kind, m.len, m.off, []), Run(lits)]
  }

  const EOF := [17 as byte, 0, 0]

  /** The block for these matches: a short input without any is announced by its first byte. */
  predicate IsBlockOf(src: seq<byte>, ms: seq<Match>, block: seq<byte>) {
    if ms == [] && |src| <= 238 then
      block == (if src == [] then [] else [(17 + |src|) as byte] + src) + EOF
    else
      && Chained(src, ms, |src|) && AllShaped(Program(src, ms, |src|))
      && block == ProgBytes(Program(src, ms, |src|)) + EOF
  }

  /** What compressing `src` with this table and hash gives. */
  ghost predicate Compresses(src: seq<byte>, hash: Hash, dict: seq<int>, block: seq<byte>) {
    exists visits :: AllVisits(src, hash, dict, visits) && IsBlockOf(src, Taken(visits), block)
  }

  // ---------- it is determined ----------

  lemma AgreesAt(src: seq<byte>, m: int, ip: nat, len: nat, k: nat)
    requires LongestAgreement(src, m, ip, len) && k < len
    ensures src[m + k] == src[ip + k]
  {
    assert src[m..m + len][k] == src[ip..ip + len][k];
  }

  lemma AgreementIsUnique(src: seq<byte>, m: int, ip: nat, a: nat, b: nat)
    requires LongestAgreement(src, m, ip, a) && LongestAgreement(src, m, ip, b)
    ensures a == b
  {
    if a < b {
      AgreesAt(src, m, ip, b, a);
    } else if b < a {
      AgreesAt(src, m, ip, a, b);
    }
  }

  lemma VisitIsUnique(src: seq<byte>, hash: Hash, dict: seq<int>, before: seq<Visit>, v: Visit, w: Visit)
    requires Visited(src, hash, dict, before, v) && Visited(src, hash, dict, before, w) && v.ip == w.ip
    ensures v == w
  {
    if v.found {
      AgreementIsUnique(src, v.mPos, v.ip, v.len, w.len);
    }
  }

  lemma {:induction false} VisitsAgree(src: seq<byte>, hash: Hash, dict: seq<int>, v: seq<Visit>, w: seq<Visit>, k: nat)
    requires Visits(src, hash, dict, v) && Visits(src, hash, dict, w) && k <= |v| && k <= |w|
    ensures v[..k] == w[..k]
  {
    if k > 0 {
      VisitsAgree(src, hash, dict, v, w, k - 1);
      assert VisitAt(src, hash, dict, v, k - 1) && VisitAt(src, hash, dict, w, k - 1);
      if k > 1 {
        assert v[..k - 1][k - 2] == w[..k - 1][k - 2];
      }
      VisitIsUnique(src, hash, dict, v[..k - 1], v[k - 1], w[k - 1]);
      assert v[..k] == v[..k - 1] + [v[k - 1]] && w[..k] == w[..k - 1] + [w[k - 1]];
    }
  }

  lemma VisitContinues(src: seq<byte>, hash: Hash, dict: seq<int>, visits: seq<Visit>, k: nat)
    requires Visits(src, hash, dict, visits) && 0 < k < |visits|
    ensures After(visits[k - 1]) + 13 < |src|
  {
    assert VisitAt(src, hash, dict, visits, k);
  }

  lemma LastOfPrefix(v: seq<Visit>, w: seq<Visit>, k: nat)
    requires k <= |v| && k <= |w| && v[..k] == w[..k]
    ensures k > 0 ==> v[k - 1] == w[k - 1]
  {
    assert k > 0 ==> v[..k][k - 1] == w[..k][k - 1];
  }

  /** The search has one course only. */
  lemma VisitsAreUnique(src: seq<byte>, hash: Hash, dict: seq<int>, v: seq<Visit>, w: seq<Visit>)
    requires AllVisits(src, hash, dict, v) && AllVisits(src, hash, dict, w)
    ensures v == w
  {
    var k := if |v| < |w| then |v| else |w|;
    VisitsAgree(src, hash, dict, v, w, k);
    LastOfPrefix(v, w, k);
    if 0 < |v| < |w| {
      VisitContinues(src, hash, dict, w, k);
    } else if 0 < |w| < |v| {
      VisitContinues(src, hash, dict, v, k);
    }
  }

  /** So input, table and hash determine the block. */
  lemma CompressionIsDetermined(src: seq<byte>, hash: Hash, dict: seq<int>, x: seq<byte>, y: seq<byte>)
    requires Compresses(src, hash, dict, x) && Compresses(src, hash, dict, y)
    ensures x == y
  {
    var v :| AllVisits(src, hash, dict, v) && IsBlockOf(src, Taken(v), x);
    var w :| AllVisits(src, hash, dict, w) && IsBlockOf(src, Taken(w), y);
    VisitsAreUnique(src, hash, dict, v, w);
  }
}
