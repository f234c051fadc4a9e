/** What a scan of a built automaton reports, in terms of the strings the nodes stand for. */
module AhoScan {
  import opened AhoTrie

  // ---------- what a scan should report ----------

  predicate OccursAt(p: string, text: string, i: nat) {
    i + |p| <= |text| && text[i..i + |p|] == p
  }

  ghost predicate Occurs(p: string, text: string) {
    exists i: nat :: OccursAt(p, text, i)
  }

  /** The ids of the non-empty patterns that occur in the text. */
  ghost function MatchIds(patterns: map<string, int>, text: string): set<int> {
    set p | p in patterns && p != "" && Occurs(p, text) :: patterns[p]
  }

  /** A pattern with this id ends at index `q` of the text. */
  ghost predicate EndsAt(patterns: map<string, int>, text: string, id: int, q: nat) {
    q < |text| && Carried(patterns, text[..q + 1], id)
  }

  lemma SuffixOccurs(p: string, text: string, q: nat)
    requires q < |text| && Suffix(p, text[..q + 1])
    ensures Occurs(p, text)
  {
    assert text[..q + 1][q + 1 - |p|..] == text[q + 1 - |p|..q + 1];
    assert OccursAt(p, text, q + 1 - |p|);
  }

  /** What occurs in a part of a text occurs in the text. */
  lemma OccursInWhole(p: string, s: string, text: string, q: nat)
    requires q < |text| && Suffix(s, text[..q + 1]) && Occurs(p, s)
    ensures Occurs(p, text)
  {
    var i: nat :| OccursAt(p, s, i);
    var from := q + 1 - |s|;
    assert s == text[from..q + 1];
    SliceOfSlice(text, from, q + 1, i, i + |p|);
    assert OccursAt(p, text, from + i);
  }

  lemma SliceOfSlice(s: string, a: nat, b: nat, i: nat, j: nat)
    requires a <= b <= |s| && i <= j <= b - a
    ensures s[a..b][i..j] == s[a + i..a + j]
  {
    assert forall k :: 0 <= k < j - i ==> s[a..b][i..j][k] == s[a + i..a + j][k];
  }

  /** A string that occurs in a text ends at some index of it. */
  lemma OccursEnds(p: string, text: string) returns (q: nat)
    requires p != "" && Occurs(p, text)
    ensures q < |text| && Suffix(p, text[..q + 1])
  {
    var i: nat :| OccursAt(p, text, i);
    q := i + |p| - 1;
    assert text[..q + 1][q + 1 - |p|..] == p;
  }

  /** An id is reported iff a pattern with it ends somewhere. */
  lemma MatchIdsEnd(patterns: map<string, int>, text: string, id: int)
    ensures id in MatchIds(patterns, text) <==> exists q: nat :: EndsAt(patterns, text, id, q)
  {
    if id in MatchIds(patterns, text) {
      var p :| p in patterns && p != "" && Occurs(p, text) && patterns[p] == id;
      var q := OccursEnds(p, text);
      assert EndsAt(patterns, text, id, q);
    }
    if exists q: nat :: EndsAt(patterns, text, id, q) {
      var q: nat :| EndsAt(patterns, text, id, q);
      var p :| p in patterns && p != "" && Suffix(p, text[..q + 1]) && patterns[p] == id;
      SuffixOccurs(p, text, q);
    }
  }

  // ---------- what a built automaton does report ----------

  /** The report walk from the end of `w` comes past node `j`: no longer suffix in the trie lacks an id. */
  ghost predicate Reported(nodes: seq<Node>, labels: seq<string>, w: string, j: int) {
    && |nodes| == |labels| && 0 < j < |labels| && Suffix(labels[j], w)
    && forall k :: 0 <= k < |labels| && Suffix(labels[k], w) && |labels[j]| <= |labels[k]| ==> nodes[k].id != NONE
  }

  ghost predicate ReportedAt(nodes: seq<Node>, labels: seq<string>, w: string, id: int) {
    exists j :: Reported(nodes, labels, w, j) && nodes[j].id == id
  }

  /** The scan reports `id` right after reading the letter at `q`. */
  ghost predicate ReportedBy(nodes: seq<Node>, labels: seq<string>, text: string, id: int, q: nat) {
    q < |text| && ReportedAt(nodes, labels, text[..q + 1], id)
  }

  ghost predicate ReportedIn(nodes: seq<Node>, labels: seq<string>, text: string, id: int) {
    exists q: nat :: ReportedBy(nodes, labels, text, id, q)
  }

  /** Halfway through a report walk: everything longer than `back` has been reported, and nothing else. */
  ghost predicate Reporting(nodes: seq<Node>, labels: seq<string>, w: string, back: int, ids: set<int>) {
    && |nodes| == |labels| && 0 <= back < |labels| && Suffix(labels[back], w)
    && (forall k :: 0 <= k < |labels| && Suffix(labels[k], w) && |labels[back]| < |labels[k]| ==>
        nodes[k].id != NONE && nodes[k].id in ids)
    && (forall id :: id in ids ==> ReportedAt(nodes, labels, w, id))
  }

  lemma ReportStarts(nodes: seq<Node>, labels: seq<string>, w: string, off: int)
    requires |nodes| == |labels| && Longest(labels, w, off)
    ensures Reporting(nodes, labels, w, off, {})
  {
  }

  lemma ReportSteps(nodes: seq<Node>, labels: seq<string>, w: string, back: int, ids: set<int>)
    requires Tree(nodes, labels) && Reporting(nodes, labels, w, back, ids)
    requires back != ROOT && nodes[back].id != NONE && IsFail(labels, back, nodes[back].fail)
    ensures Reporting(nodes, labels, w, nodes[back].fail, ids + {nodes[back].id})
  {
    hide Tree;
    var f := nodes[back].fail;
    ProperSuffix(labels[f], labels[back]);
    SuffixTrans(labels[f], labels[back], w);
    forall k | 0 <= k < |labels| && Suffix(labels[k], w) && |labels[f]| < |labels[k]|
      ensures nodes[k].id != NONE && nodes[k].id in ids + {nodes[back].id}
    {
      if |labels[k]| <= |labels[back]| {
        LinkSkipsNothing(nodes, labels, w, back, f, k);
      }
    }
    assert Reported(nodes, labels, w, back) by {
      forall k | 0 <= k < |labels| && Suffix(labels[k], w) && |labels[back]| <= |labels[k]|
        ensures nodes[k].id != NONE
      {
        if |labels[k]| == |labels[back]| {
          LinkSkipsNothing(nodes, labels, w, back, f, k);
        }
      }
    }
  }

  /** Stopping at the first node without an id, or at the root, loses nothing. */
  lemma ReportEnds(nodes: seq<Node>, labels: seq<string>, w: string, back: int, ids: set<int>)
    requires Tree(nodes, labels) && Reporting(nodes, labels, w, back, ids)
    requires back == ROOT || nodes[back].id == NONE
    ensures forall id :: id in ids <==> ReportedAt(nodes, labels, w, id)
  {
    forall id | ReportedAt(nodes, labels, w, id) ensures id in ids {
      var j :| Reported(nodes, labels, w, j) && nodes[j].id == id;
      OnlyRootIsEmpty(nodes, labels, j);
    }
  }

  // ---------- over a whole text ----------

  ghost predicate ReportedBefore(nodes: seq<Node>, labels: seq<string>, text: string, id: int, k: nat) {
    exists q: nat :: q < k && ReportedBy(nodes, labels, text, id, q)
  }

  ghost predicate ReportedUpTo(nodes: seq<Node>, labels: seq<string>, text: string, k: nat, ret: set<int>) {
    forall id :: id in ret <==> ReportedBefore(nodes, labels, text, id, k)
  }

  lemma ReportsGrow(nodes: seq<Node>, labels: seq<string>, text: string, k: nat, ret: set<int>, ids: set<int>)
    requires k < |text| && ReportedUpTo(nodes, labels, text, k, ret)
    requires forall id :: id in ids <==> ReportedAt(nodes, labels, text[..k + 1], id)
    ensures ReportedUpTo(nodes, labels, text, k + 1, ret + ids)
  {
    forall id ensures id in ret + ids <==> ReportedBefore(nodes, labels, text, id, k + 1) {
      if id in ret {
        assert ReportedBefore(nodes, labels, text, id, k);
      }
      if id in ids {
        assert ReportedBy(nodes, labels, text, id, k);
      }
      if ReportedBefore(nodes, labels, text, id, k + 1) {
        var q: nat :| q < k + 1 && ReportedBy(nodes, labels, text, id, q);
        assert q < k ==> ReportedBefore(nodes, labels, text, id, k);
      }
    }
  }

  lemma ReportsEnd(nodes: seq<Node>, labels: seq<string>, text: string, ret: set<int>)
    requires ReportedUpTo(nodes, labels, text, |text|, ret)
    ensures forall id :: id in ret <==> ReportedIn(nodes, labels, text, id)
  {
    forall id ensures id in ret <==> ReportedIn(nodes, labels, text, id) {
      assert id in ret <==> ReportedBefore(nodes, labels, text, id, |text|);
    }
  }

  /** Inserting (id, q) for each id into a set whose comparator looks at ids only. */
  function Kept(m: map<int, nat>, ids: set<int>, q: nat): map<int, nat> {
    map id | id in m.Keys + ids :: if id in m then m[id] else q
  }

  /** Each reported id with the first index it was reported at. */
  ghost predicate FirstReports(nodes: seq<Node>, labels: seq<string>, text: string, m: map<int, nat>) {
    forall id :: id in m ==>
      && ReportedBy(nodes, labels, text, id, m[id])
      && forall q: nat :: q < m[id] ==> !ReportedBy(nodes, labels, text, id, q)
  }

  lemma KeptFirst(nodes: seq<Node>, labels: seq<string>, text: string, k: nat, m: map<int, nat>, ids: set<int>)
    requires k < |text| && ReportedUpTo(nodes, labels, text, k, m.Keys) && FirstReports(nodes, labels, text, m)
    requires forall id :: id in ids <==> ReportedAt(nodes, labels, text[..k + 1], id)
    ensures Kept(m, ids, k).Keys == m.Keys + ids
    ensures FirstReports(nodes, labels, text, Kept(m, ids, k))
  {
    var m' := Kept(m, ids, k);
    forall id | id in m'
      ensures ReportedBy(nodes, labels, text, id, m'[id])
      ensures forall q: nat :: q < m'[id] ==> !ReportedBy(nodes, labels, text, id, q)
    {
      if id !in m {
        assert !ReportedBefore(nodes, labels, text, id, k);
      }
    }
  }

  // ---------- when that is exact ----------

  /** In a built automaton every pattern that ends `w` is reported there. */
  lemma PatternsAreReported(nodes: seq<Node>, labels: seq<string>, patterns: map<string, int>, w: string, id: int)
    requires Tree(nodes, labels) && OwnIds(nodes, labels, patterns) && Built(nodes, labels, patterns)
    requires Carried(patterns, w, id)
    ensures ReportedAt(nodes, labels, w, id)
  {
    var p :| p in patterns && p != "" && Suffix(p, w) && patterns[p] == id;
    var j :| 0 <= j < |labels| && labels[j] == p;
    forall k | 0 <= k < |labels| && Suffix(labels[k], w) && |labels[j]| <= |labels[k]| ensures nodes[k].id != NONE {
      SuffixNested(p, labels[k], w);
      assert DoneAt(nodes, labels, patterns, k);
    }
    assert Reported(nodes, labels, w, j);
  }

  /** With sound ids the reports at an index are the patterns that end there. */
  lemma ReportsAreExact(nodes: seq<Node>, labels: seq<string>, patterns: map<string, int>, w: string, id: int)
    requires Tree(nodes, labels) && OwnIds(nodes, labels, patterns) && Built(nodes, labels, patterns)
    requires SoundIds(nodes, labels, patterns)
    ensures ReportedAt(nodes, labels, w, id) <==> Carried(patterns, w, id)
  {
    hide Tree, OwnIds, Built;
    if ReportedAt(nodes, labels, w, id) {
      var j :| Reported(nodes, labels, w, j) && nodes[j].id == id;
      CarriedBySuffix(patterns, labels[j], w, id);
    }
    if Carried(patterns, w, id) {
      PatternsAreReported(nodes, labels, patterns, w, id);
    }
  }

  /** Each id in the trie belongs to some pattern inside the node's string, wherever in it. */
  ghost predicate IdsOccur(nodes: seq<Node>, labels: seq<string>, patterns: map<string, int>) {
    && |nodes| == |labels|
    && forall i :: 0 < i < |labels| && nodes[i].id != NONE ==> nodes[i].id in MatchIds(patterns, labels[i])
  }

  ghost predicate ExactOn(nodes: seq<Node>, labels: seq<string>, patterns: map<string, int>, text: string) {
    forall id :: ReportedIn(nodes, labels, text, id) <==> id in MatchIds(patterns, text)
  }

  lemma ExactWhenIdsOccur(nodes: seq<Node>, labels: seq<string>, patterns: map<string, int>, text: string)
    requires Tree(nodes, labels) && OwnIds(nodes, labels, patterns) && Built(nodes, labels, patterns)
    requires IdsOccur(nodes, labels, patterns)
    ensures ExactOn(nodes, labels, patterns, text)
  {
    hide Tree, OwnIds, Built;
    forall id ensures ReportedIn(nodes, labels, text, id) <==> id in MatchIds(patterns, text) {
      if ReportedIn(nodes, labels, text, id) {
        var q: nat :| ReportedBy(nodes, labels, text, id, q);
        var j :| Reported(nodes, labels, text[..q + 1], j) && nodes[j].id == id;
        assert id in MatchIds(patterns, labels[j]);
        var p :| p in patterns && p != "" && Occurs(p, labels[j]) && patterns[p] == id;
        OccursInWhole(p, labels[j], text, q);
      }
      if id in MatchIds(patterns, text) {
        MatchIdsEnd(patterns, text, id);
        var q: nat :| EndsAt(patterns, text, id, q);
        PatternsAreReported(nodes, labels, patterns, text[..q + 1], id);
        assert ReportedBy(nodes, labels, text, id, q);
      }
    }
  }

  /** The node of a string reports its id when that string is scanned. */
  lemma OwnNodeIsReported(nodes: seq<Node>, labels: seq<string>, i: nat)
    requires Tree(nodes, labels) && 0 < i < |labels| && nodes[i].id != NONE
    ensures ReportedIn(nodes, labels, labels[i], nodes[i].id)
  {
    OnlyRootIsEmpty(nodes, labels, i);
    var w := labels[i];
    var q := |w| - 1;
    assert w[..q + 1] == w;
    assert Reported(nodes, labels, w, i) by {
      forall k | 0 <= k < |labels| && Suffix(labels[k], w) && |w| <= |labels[k]| ensures nodes[k].id != NONE {
        NodesAreDistinct(nodes, labels, k, i);
      }
    }
    assert ReportedBy(nodes, labels, w, nodes[i].id, q);
  }

  /** A built automaton scans every text exactly iff each of its ids is some pattern's inside the node's string. */
  lemma ExactIffIdsOccur(nodes: seq<Node>, labels: seq<string>, patterns: map<string, int>)
    requires Tree(nodes, labels) && OwnIds(nodes, labels, patterns) && Built(nodes, labels, patterns)
    ensures (forall text :: ExactOn(nodes, labels, patterns, text)) <==> IdsOccur(nodes, labels, patterns)
  {
    hide Tree, OwnIds, Built;
    if forall text :: ExactOn(nodes, labels, patterns, text) {
      LabelsMatch(nodes, labels);
      forall i | 0 < i < |labels| && nodes[i].id != NONE ensures nodes[i].id in MatchIds(patterns, labels[i]) {
        OwnNodeIsReported(nodes, labels, i);
        assert ExactOn(nodes, labels, patterns, labels[i]);
      }
    }
    if IdsOccur(nodes, labels, patterns) {
      forall text ensures ExactOn(nodes, labels, patterns, text) {
        ExactWhenIdsOccur(nodes, labels, patterns, text);
      }
    }
  }

  lemma LabelsMatch(nodes: seq<Node>, labels: seq<string>)
    requires Tree(nodes, labels)
    ensures |nodes| == |labels| > 0 && labels[ROOT] == ""
  {
  }
}
