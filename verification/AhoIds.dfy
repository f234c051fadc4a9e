/** The ids in the trie as the operations alone determine them: a map from the strings in the trie. */
module AhoIds {
  import opened AhoTrie
  import opened AhoScan

  // ---------- operations ----------

  datatype Op = Clear | Add(pattern: string, id: int) | Build

  /** `insert` with id -1 unmarks the string. */
  function Inserted(patterns: map<string, int>, s: string, id: int): map<string, int> {
    if id == NONE then patterns - {s} else patterns[s := id]
  }

  /** What has been inserted after the operations. */
  ghost function PatternsOf(ops: seq<Op>): map<string, int> {
    if ops == [] then map[]
    else
      var before := PatternsOf(ops[..|ops| - 1]);
      match ops[|ops| - 1]
      case Clear => map[]
      case Add(s, id) => Inserted(before, s, id)
      case Build => before
  }

  /** Prefixes that are new have no id; the string gets this one. */
  function AddedIds(ids: map<string, int>, s: string, id: int): map<string, int> {
    map t | t in ids.Keys + (set k: nat | k <= |s| :: s[..k]) ::
        if t == s then id else if t in ids then ids[t] else NONE
  }

  /** The id of the longest suffix that has one. */
  function Inherited(ids: map<string, int>, s: string): int {
    if s == "" then NONE
    else if s in ids && ids[s] != NONE then ids[s]
    else Inherited(ids, s[1..])
  }

  /** A build leaves the root alone. */
  function BuiltIds(ids: map<string, int>): map<string, int> {
    map t | t in ids :: if t == "" then ids[t] else Inherited(ids, t)
  }

  /** The strings in the trie after the operations, with the ids their nodes hold. */
  ghost function IdsOf(ops: seq<Op>): map<string, int> {
    if ops == [] then map["" := NONE]
    else
      var before := IdsOf(ops[..|ops| - 1]);
      match ops[|ops| - 1]
      case Clear => map["" := NONE]
      case Add(s, id) => AddedIds(before, s, id)
      case Build => BuiltIds(before)
  }

  lemma InheritedFromSuffix(ids: map<string, int>, s: string, p: string)
    requires p != "" && Suffix(p, s) && p in ids && ids[p] != NONE
    ensures Inherited(ids, s) != NONE
  {
    if s !in ids || ids[s] == NONE {
      ShorterSuffix(p, s);
      ProperSuffix(p, s);
      InheritedFromSuffix(ids, s[1..], p);
    }
  }

  /** Every pattern is in the trie with its own id. */
  lemma {:induction false} PatternsKeepIds(ops: seq<Op>)
    ensures forall p :: p in PatternsOf(ops) ==> p in IdsOf(ops) && IdsOf(ops)[p] == PatternsOf(ops)[p] != NONE
  {
    if ops != [] {
      var before := ops[..|ops| - 1];
      PatternsKeepIds(before);
      match ops[|ops| - 1]
      case Add(s, id) => assert s == s[..|s|];
      case _ =>
    }
  }

  // ---------- scanning ----------

  /** The report walk from the end of `w` comes past the string `t`. */
  ghost predicate Passes(ids: map<string, int>, w: string, t: string) {
    && t in ids && t != "" && Suffix(t, w)
    && forall u :: u in ids && Suffix(u, w) && |t| <= |u| ==> ids[u] != NONE
  }

  ghost predicate PassesAt(ids: map<string, int>, text: string, q: nat, t: string) {
    q < |text| && Passes(ids, text[..q + 1], t)
  }

  ghost predicate ScanReports(ids: map<string, int>, text: string, id: int) {
    exists q: nat, t: string :: PassesAt(ids, text, q, t) && ids[t] == id
  }

  ghost predicate ScansExactly(ids: map<string, int>, patterns: map<string, int>, text: string) {
    forall id :: ScanReports(ids, text, id) <==> id in MatchIds(patterns, text)
  }

  /** Each id belongs to some pattern inside the string that holds it. */
  ghost predicate IdsInside(ids: map<string, int>, patterns: map<string, int>) {
    forall t :: t in ids && t != "" && ids[t] != NONE ==> ids[t] in MatchIds(patterns, t)
  }

  ghost predicate EndsInBuild(ops: seq<Op>) {
    ops != [] && ops[|ops| - 1].Build?
  }

  /** After a build every pattern that ends `w` is passed, with its own id. */
  lemma PatternsPass(ops: seq<Op>, w: string, p: string)
    requires EndsInBuild(ops) && p in PatternsOf(ops) && p != "" && Suffix(p, w)
    ensures Passes(IdsOf(ops), w, p) && IdsOf(ops)[p] == PatternsOf(ops)[p]
  {
    var before := ops[..|ops| - 1];
    var ids := IdsOf(ops);
    assert ids == BuiltIds(IdsOf(before)) && PatternsOf(ops) == PatternsOf(before);
    PatternsKeepIds(before);
    PatternsKeepIds(ops);
    forall u | u in ids && Suffix(u, w) && |p| <= |u| ensures ids[u] != NONE {
      SuffixNested(p, u, w);
      InheritedFromSuffix(IdsOf(before), u, p);
    }
  }

  lemma ExactWhenInside(ops: seq<Op>, text: string)
    requires EndsInBuild(ops) && IdsInside(IdsOf(ops), PatternsOf(ops))
    ensures ScansExactly(IdsOf(ops), PatternsOf(ops), text)
  {
    var ids, patterns := IdsOf(ops), PatternsOf(ops);
    forall id ensures ScanReports(ids, text, id) <==> id in MatchIds(patterns, text) {
      if ScanReports(ids, text, id) {
        var q: nat, t: string :| PassesAt(ids, text, q, t) && ids[t] == id;
        assert id in MatchIds(patterns, t);
        var p :| p in patterns && p != "" && Occurs(p, t) && patterns[p] == id;
        OccursInWhole(p, t, text, q);
      }
      if id in MatchIds(patterns, text) {
        var p :| p in patterns && p != "" && Occurs(p, text) && patterns[p] == id;
        var q := OccursEnds(p, text);
        PatternsPass(ops, text[..q + 1], p);
        assert PassesAt(ids, text, q, p);
      }
    }
  }

  /** Scanning a string of the trie reports the id it holds. */
  lemma HeldIdIsReported(ids: map<string, int>, t: string)
    requires t in ids && t != "" && ids[t] != NONE
    ensures ScanReports(ids, t, ids[t])
  {
    var q := |t| - 1;
    assert t[..q + 1] == t;
    assert PassesAt(ids, t, q, t);
  }

  /**
    Operations that end in a build scan every text exactly iff no string is left with the id of a pattern
    outside it.
   */
  lemma ExactIffInside(ops: seq<Op>)
    requires EndsInBuild(ops)
    ensures (forall text :: ScansExactly(IdsOf(ops), PatternsOf(ops), text)) <==> IdsInside(IdsOf(ops), PatternsOf(ops))
  {
    var ids, patterns := IdsOf(ops), PatternsOf(ops);
    if forall text :: ScansExactly(ids, patterns, text) {
      forall t | t in ids && t != "" && ids[t] != NONE ensures ids[t] in MatchIds(patterns, t) {
        HeldIdIsReported(ids, t);
        assert ScansExactly(ids, patterns, t);
      }
    }
    if IdsInside(ids, patterns) {
      forall text ensures ScansExactly(ids, patterns, text) {
        ExactWhenInside(ops, text);
      }
    }
  }

  // ---------- the nodes hold these ids ----------

  /** The map says what the nodes hold. */
  ghost predicate Holds(nodes: seq<Node>, labels: seq<string>, ids: map<string, int>) {
    && |nodes| == |labels|
    && (forall i :: 0 <= i < |labels| ==> labels[i] in ids && ids[labels[i]] == nodes[i].id)
    && (forall t :: t in ids ==> t in labels)
  }

  /** What the walk over nodes reports is what the strings and their ids say. */
  lemma ReportsAreScan(nodes: seq<Node>, labels: seq<string>, ids: map<string, int>, text: string, id: int)
    requires Tree(nodes, labels) && Holds(nodes, labels, ids)
    ensures ReportedIn(nodes, labels, text, id) <==> ScanReports(ids, text, id)
  {
    if ReportedIn(nodes, labels, text, id) {
      var q: nat :| ReportedBy(nodes, labels, text, id, q);
      var j :| Reported(nodes, labels, text[..q + 1], j) && nodes[j].id == id;
      OnlyRootIsEmpty(nodes, labels, j);
      forall u | u in ids && Suffix(u, text[..q + 1]) && |labels[j]| <= |u| ensures ids[u] != NONE {
        var k :| 0 <= k < |labels| && labels[k] == u;
      }
      assert PassesAt(ids, text, q, labels[j]);
    }
    if ScanReports(ids, text, id) {
      var q: nat, t: string :| PassesAt(ids, text, q, t) && ids[t] == id;
      var j :| 0 <= j < |labels| && labels[j] == t;
      OnlyRootIsEmpty(nodes, labels, j);
      assert Reported(nodes, labels, text[..q + 1], j);
      assert ReportedBy(nodes, labels, text, id, q);
    }
  }

  /** Between a string and its longest suffix in the trie there is nothing to inherit from. */
  lemma InheritedSkips(ids: map<string, int>, w: string, t: string)
    requires Suffix(t, w) && forall u :: u in ids && Suffix(u, w) ==> |u| <= |t|
    ensures Inherited(ids, w) == Inherited(ids, t)
    decreases |w|
  {
    if |t| < |w| {
      assert Suffix(w, w);
      ProperSuffix(t, w);
      forall u | u in ids && Suffix(u, w[1..]) ensures |u| <= |t| {
        ProperSuffix(u, w);
      }
      InheritedSkips(ids, w[1..], t);
    } else {
      assert t == w;
    }
  }
}
