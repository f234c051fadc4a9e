/** Longest block with at most two distinct characters: two one-pass algorithms. */
module TwoCharBlocks {

  // ---------- the problem ----------

  function Chars(s: string, i: nat, j: nat): set<char>
    requires i <= j <= |s|
  {
    set c | c in s[i..j]
  }

  predicate AtMostTwo(s: string, i: nat, j: nat) {
    i <= j <= |s| && |Chars(s, i, j)| <= 2
  }

  ghost predicate HasBlock(s: string, p: nat, m: nat) {
    exists i: nat, j: nat :: j <= p && AtMostTwo(s, i, j) && j - i == m
  }

  /** `m` is the length of the longest such block among the first `p` characters. */
  ghost predicate IsLongest(s: string, p: nat, m: nat) {
    && HasBlock(s, p, m)
    && forall i: nat, j: nat :: j <= p && AtMostTwo(s, i, j) ==> j - i <= m
  }

  lemma LongestIsUnique(s: string, m: nat, n: nat)
    requires IsLongest(s, |s|, m) && IsLongest(s, |s|, n)
    ensures m == n
  {
    var i: nat, j: nat :| j <= |s| && AtMostTwo(s, i, j) && j - i == m;
    var k: nat, l: nat :| l <= |s| && AtMostTwo(s, k, l) && l - k == n;
  }

  /** Every block that starts before `head` and ends at `p` has too many characters. */
  ghost predicate NoneBefore(s: string, head: nat, p: nat) {
    forall h: nat :: h < head ==> !AtMostTwo(s, h, p)
  }

  /** The window at `p`: the longest such block that ends there. */
  ghost predicate IsHead(s: string, head: nat, p: nat) {
    AtMostTwo(s, head, p) && NoneBefore(s, head, p)
  }

  lemma Wider(s: string, i: nat, j: nat, i': nat, j': nat)
    requires i' <= i <= j <= j' <= |s|
    ensures Chars(s, i, j) <= Chars(s, i', j') && |Chars(s, i, j)| <= |Chars(s, i', j')|
  {
    forall c | c in Chars(s, i, j) ensures c in Chars(s, i', j') {
      var k :| 0 <= k < j - i && s[i..j][k] == c;
      assert s[i'..j'][i - i' + k] == c;
    }
    Subset(Chars(s, i, j), Chars(s, i', j'));
  }

  lemma Subset(a: set<char>, b: set<char>)
    requires a <= b
    ensures |a| <= |b|
  {
    assert b == a + (b - a);
  }

  /** The window's head only moves forward. */
  lemma HeadMovesForward(s: string, head: nat, p: nat, head': nat, p': nat)
    requires IsHead(s, head, p) && IsHead(s, head', p') && p <= p'
    ensures head <= head'
  {
    if head' < head {
      Wider(s, head', p, head', p');
      assert AtMostTwo(s, head', p);
    }
  }

  lemma OneMore(s: string, i: nat, j: nat)
    requires i <= j < |s|
    ensures Chars(s, i, j + 1) == Chars(s, i, j) + {s[j]}
  {
    assert s[i..j + 1] == s[i..j] + [s[j]];
  }

  lemma OneLess(s: string, i: nat, j: nat)
    requires i < j <= |s|
    ensures Chars(s, i, j) == {s[i]} + Chars(s, i + 1, j)
  {
    assert s[i..j] == [s[i]] + s[i + 1..j];
  }

  /** The longest block so far, once the window at the next character is known. */
  lemma LongestGrows(s: string, p: nat, m: nat, head: nat)
    requires p < |s| && IsLongest(s, p, m) && IsHead(s, head, p + 1)
    ensures IsLongest(s, p + 1, if m < p + 1 - head then p + 1 - head else m)
  {
    var m' := if m < p + 1 - head then p + 1 - head else m;
    assert HasBlock(s, p + 1, m') by {
      if m < m' {
        assert AtMostTwo(s, head, p + 1);
      } else {
        var i: nat, j: nat :| j <= p && AtMostTwo(s, i, j) && j - i == m;
        assert j <= p + 1;
      }
    }
  }

  lemma LongestStarts(s: string)
    ensures IsLongest(s, 0, 0) && IsHead(s, 0, 0)
  {
    assert Chars(s, 0, 0) == {};
    assert AtMostTwo(s, 0, 0);
  }

  lemma HeadStays(s: string, head: nat, p: nat)
    requires IsHead(s, head, p) && p < |s| && |Chars(s, head, p + 1)| <= 2
    ensures IsHead(s, head, p + 1)
  {
    hide Chars;
    var q := p + 1;
    forall h: nat | h < head ensures !AtMostTwo(s, h, q) {
      Wider(s, h, p, h, q);
      assert !AtMostTwo(s, h, p);
    }
  }

  lemma Within(s: string, i: nat, k: nat, j: nat)
    requires i <= k < j <= |s|
    ensures s[k] in Chars(s, i, j)
  {
    assert s[i..j][k - i] == s[k];
  }

  lemma ThreeAreTooMany(s: string, h: nat, p: nat, a: nat, b: nat, c: nat)
    requires h <= a < p <= |s| && h <= b < p && h <= c < p && s[a] != s[b] && s[b] != s[c] && s[a] != s[c]
    ensures !AtMostTwo(s, h, p)
  {
    Within(s, h, a, p);
    Within(s, h, b, p);
    Within(s, h, c, p);
    Subset({s[a], s[b], s[c]}, Chars(s, h, p));
  }

  // ---------- a state machine that remembers the last run ----------

  /** The window at `p` has `len` characters, all of them among those that `flag` says are in use. */
  ghost predicate Window(s: string, p: nat, first: char, second: char, flag: int, len: nat) {
    && len <= p <= |s| && IsHead(s, p - len, p)
    && match flag
       case 0 => p == 0
       case 1 => 0 < p == len && Chars(s, 0, p) == {first}
       case 2 => 0 < p && first != second && Chars(s, p - len, p) == {first, second}
       case _ => false
  }

  /** `rep` starts the last run among the first `p` characters. */
  predicate LastRun(s: string, p: nat, rep: nat) {
    p <= |s| &&
    if p == 0 then rep == 0
    else rep < p && (forall k :: rep <= k < p ==> s[k] == s[p - 1]) && (rep > 0 ==> s[rep - 1] != s[p - 1])
  }

  lemma RunHasOne(s: string, rep: nat, p: nat)
    requires LastRun(s, p, rep) && p > 0
    ensures Chars(s, rep, p) == {s[p - 1]} && s[rep] == s[p - 1]
  {
    Within(s, rep, p - 1, p);
  }

  lemma TwoAreMore(first: char, second: char, x: char)
    ensures first != second ==> |{first, second}| > |{x}|
  {
  }

  /** A window of two characters reaches back beyond the last run. */
  lemma RunInside(s: string, p: nat, first: char, second: char, len: nat, rep: nat)
    requires Window(s, p, first, second, 2, len) && LastRun(s, p, rep)
    ensures p - len < rep && s[rep] in {first, second} && s[rep - 1] in {first, second}
  {
    hide Chars, IsHead;
    RunHasOne(s, rep, p);
    TwoAreMore(first, second, s[p - 1]);
    if rep <= p - len {
      Wider(s, p - len, p, rep, p);
    }
    Within(s, p - len, rep, p);
    Within(s, p - len, rep - 1, p);
  }

  /** A third character: the window shrinks to the last run and the new character. */
  lemma ThirdCharacter(s: string, p: nat, first: char, second: char, len: nat, rep: nat)
    requires Window(s, p, first, second, 2, len) && LastRun(s, p, rep) && p < |s| && s[p] != first && s[p] != second
    ensures IsHead(s, rep, p + 1) && Chars(s, rep, p + 1) == {s[rep], s[p]}
    ensures rep < p && (s[rep] == first || s[rep] == second)
  {
    hide Chars;
    RunInside(s, p, first, second, len, rep);
    RunHasOne(s, rep, p);
    OneMore(s, rep, p);
    assert |{s[rep], s[p]}| <= 2;
    var q := p + 1;
    forall h: nat | h < rep ensures !AtMostTwo(s, h, q) {
      if h < p - len {
        assert !AtMostTwo(s, h, p);
        Wider(s, h, p, h, q);
      } else {
        ThreeAreTooMany(s, h, q, rep - 1, rep, p);
      }
    }
  }

  /** The window after one more character. */
  method TakeCharacter(s: string, p: nat, first0: char, second0: char, flag0: int, len0: nat, rep: nat)
    returns (first: char, second: char, flag: int, len: nat)
    requires p < |s| && Window(s, p, first0, second0, flag0, len0) && LastRun(s, p, rep)
    ensures Window(s, p + 1, first, second, flag, len)
  {
    hide IsHead, Chars, LastRun;
    first, second, flag, len := first0, second0, flag0, len0;
    if flag == 0 {
      FirstCharacter(s);
      first, flag, len := s[p], 1, 1;
    } else if flag == 1 {
      OneMore(s, 0, p);
      HeadStays(s, 0, p);
      if s[p] != first {
        second, flag := s[p], 2;
      }
      len := len + 1;
    } else {
      if s[p] == first || s[p] == second {
        OneMore(s, p - len, p);
        assert Chars(s, p - len, p + 1) == {first, second};
        HeadStays(s, p - len, p);
        len := len + 1;
      } else {
        ThirdCharacter(s, p, first, second, len, rep);
        len := p - rep + 1;
        if s[rep] == first {
          second := s[p];
        } else {
          first := s[p];
        }
        flag := 2;
      }
    }
  }

  method FindMaxByRuns(s: string) returns (max: nat)
    ensures IsLongest(s, |s|, max)
  {
    hide IsLongest, IsHead, Chars;
    var first: char, second: char := *, *;
    var rep: nat, p: nat := 0, 0;
    var flag := 0;
    var len: nat := 0;
    max := 0;
    LongestStarts(s);
    while p < |s|
      invariant Window(s, p, first, second, flag, len) && LastRun(s, p, rep) && IsLongest(s, p, max)
      decreases |s| - p
    {
      first, second, flag, len := TakeCharacter(s, p, first, second, flag, len, rep);
      LongestGrows(s, p, max, p + 1 - len);
      if max < len {
        max := len;
      }
      if s[rep] != s[p] {
        rep := p;
      }
      p := p + 1;
    }
  }

  lemma FirstCharacter(s: string)
    requires s != ""
    ensures IsHead(s, 0, 1) && Chars(s, 0, 1) == {s[0]}
  {
    assert Chars(s, 0, 1) == {s[0]};
  }

  // ---------- a sliding window that counts ----------

  function Count(s: string, i: nat, j: nat, c: char): nat
    requires i <= j <= |s|
  {
    if i == j then 0 else Count(s, i, j - 1, c) + if s[j - 1] == c then 1 else 0
  }

  lemma {:induction false} CountFront(s: string, i: nat, j: nat, c: char)
    requires i < j <= |s|
    ensures Count(s, i, j, c) == Count(s, i + 1, j, c) + if s[i] == c then 1 else 0
    decreases j
  {
    if i + 1 < j {
      CountFront(s, i, j - 1, c);
    }
  }

  lemma {:induction false} CountIsPositive(s: string, i: nat, j: nat, c: char)
    requires i <= j <= |s|
    ensures Count(s, i, j, c) > 0 <==> c in Chars(s, i, j)
    decreases j
  {
    if i < j {
      CountIsPositive(s, i, j - 1, c);
      OneMore(s, i, j - 1);
    }
  }

  /** Each bucket holds how often its character occurs in the window. */
  ghost predicate Counts(s: string, i: nat, j: nat, bucket: seq<int>) {
    i <= j <= |s| && |bucket| == 128 && forall c: char :: CountAt(s, i, j, bucket, c)
  }

  predicate CountAt(s: string, i: nat, j: nat, bucket: seq<int>, c: char)
    requires i <= j <= |s| && |bucket| == 128
  {
    c as int < 128 ==> bucket[c as int] == Count(s, i, j, c)
  }

  lemma CountsUp(s: string, i: nat, j: nat, bucket: seq<int>)
    requires Counts(s, i, j, bucket) && j < |s| && s[j] as int < 128
    ensures Counts(s, i, j + 1, bucket[s[j] as int := bucket[s[j] as int] + 1])
    ensures bucket[s[j] as int] == 0 <==> s[j] !in Chars(s, i, j)
  {
    CountIsPositive(s, i, j, s[j]);
    var bucket' := bucket[s[j] as int := bucket[s[j] as int] + 1];
    var j' := j + 1;
    assert CountAt(s, i, j, bucket, s[j]);
    forall c: char ensures CountAt(s, i, j', bucket', c) {
      assert CountAt(s, i, j, bucket, c);
      assert c as int == s[j] as int <==> c == s[j];
    }
  }

  lemma CountsDown(s: string, i: nat, j: nat, bucket: seq<int>)
    requires Counts(s, i, j, bucket) && i < j && s[i] as int < 128
    ensures Counts(s, i + 1, j, bucket[s[i] as int := bucket[s[i] as int] - 1])
    ensures bucket[s[i] as int] == 1 <==> s[i] !in Chars(s, i + 1, j)
  {
    CountFront(s, i, j, s[i]);
    CountIsPositive(s, i + 1, j, s[i]);
    var bucket' := bucket[s[i] as int := bucket[s[i] as int] - 1];
    var i' := i + 1;
    assert CountAt(s, i, j, bucket, s[i]);
    forall c: char ensures CountAt(s, i', j, bucket', c) {
      CountFront(s, i, j, c);
      assert CountAt(s, i, j, bucket, c);
      assert c as int == s[i] as int <==> c == s[i];
    }
  }

  /** Moves the head until two characters are left. */
  method Shrink(s: string, bucket: array<int>, size0: int, head0: nat, i: nat) returns (size: int, head: nat)
    requires bucket.Length == 128 && i < |s| && forall k :: 0 <= k < |s| ==> s[k] as int < 128
    requires head0 <= i && Counts(s, head0, i + 1, bucket[..]) && size0 == |Chars(s, head0, i + 1)|
    requires NoneBefore(s, head0, i + 1)
    modifies bucket
    ensures head0 <= head <= i && Counts(s, head, i + 1, bucket[..]) && size == |Chars(s, head, i + 1)| <= 2
    ensures IsHead(s, head, i + 1)
  {
    hide Counts, Chars;
    size, head := size0, head0;
    while size > 2
      invariant head0 <= head <= i && bucket.Length == 128
      invariant Counts(s, head, i + 1, bucket[..]) && size == |Chars(s, head, i + 1)|
      invariant NoneBefore(s, head, i + 1)
      decreases i - head
    {
      ghost var before := bucket[..];
      CountsDown(s, head, i + 1, bucket[..]);
      OneLess(s, head, i + 1);
      SizeWith(Chars(s, head + 1, i + 1), s[head]);
      LastAlone(s, i);
      bucket[s[head] as int] := bucket[s[head] as int] - 1;
      assert bucket[..] == before[s[head] as int := before[s[head] as int] - 1];
      if bucket[s[head] as int] == 0 {
        size := size - 1;
      }
      head := head + 1;
    }
  }

  lemma SizeWith(a: set<char>, c: char)
    ensures a + {c} == {c} + a && |a + {c}| == |a| + if c in a then 0 else 1
  {
    if c in a {
      assert a + {c} == a;
    }
  }

  lemma LastAlone(s: string, i: nat)
    requires i < |s|
    ensures |Chars(s, i, i + 1)| == 1
  {
    assert Chars(s, i, i + 1) == {s[i]};
  }

  /** The table has 128 buckets, so the text must be ASCII. */
  method FindMaxByCounts(s: string) returns (max: nat)
    requires forall k :: 0 <= k < |s| ==> s[k] as int < 128
    ensures IsLongest(s, |s|, max)
  {
    hide IsLongest, Counts, Chars;
    max := 0;
    var bucket := new int[128](_ => 0);
    var size, head := 0, 0;
    LongestStarts(s);
    CountsStart(s, bucket[..]);
    for i := 0 to |s|
      invariant 0 <= head <= i && IsHead(s, head, i) && IsLongest(s, i, max)
      invariant bucket.Length == 128 && Counts(s, head, i, bucket[..]) && size == |Chars(s, head, i)|
    {
      ghost var before := bucket[..];
      CountsUp(s, head, i, bucket[..]);
      OneMore(s, head, i);
      SizeWith(Chars(s, head, i), s[i]);
      StillTooMany(s, head, i);
      bucket[s[i] as int] := bucket[s[i] as int] + 1;
      assert bucket[..] == before[s[i] as int := before[s[i] as int] + 1];
      if bucket[s[i] as int] == 1 {
        size := size + 1;
        size, head := Shrink(s, bucket, size, head, i);
      }
      LongestGrows(s, i, max, head);
      max := if max < i - head + 1 then i - head + 1 else max;
    }
  }

  lemma CountsStart(s: string, bucket: seq<int>)
    requires |bucket| == 128 && forall k :: 0 <= k < 128 ==> bucket[k] == 0
    ensures Counts(s, 0, 0, bucket) && |Chars(s, 0, 0)| == 0
  {
    assert Chars(s, 0, 0) == {};
  }

  /** A wider window stays too wide when a character is added. */
  lemma StillTooMany(s: string, head: nat, i: nat)
    requires IsHead(s, head, i) && i < |s|
    ensures NoneBefore(s, head, i + 1)
  {
    var p := i + 1;
    forall h: nat | h < head ensures !AtMostTwo(s, h, p) {
      assert !AtMostTwo(s, h, i);
      Wider(s, h, i, h, p);
    }
  }

  // ---------- agreement ----------

  /** Both algorithms give the same answer on every ASCII text. */
  method BothAgree(s: string) returns (byRuns: nat, byCounts: nat)
    requires forall k :: 0 <= k < |s| ==> s[k] as int < 128
    ensures byRuns == byCounts && IsLongest(s, |s|, byRuns)
  {
    byRuns := FindMaxByRuns(s);
    byCounts := FindMaxByCounts(s);
    LongestIsUnique(s, byRuns, byCounts);
  }
}
