/** The trie under the Aho-Corasick matcher, and what its failure links and ids mean. */
module AhoTrie {

  const NONE := -1
  const ROOT := 0

  datatype Node = Node(id: int, fail: int, child: map<char, int>)

  // ---------- suffixes ----------

  predicate Suffix(t: string, s: string) {
    |t| <= |s| && s[|s| - |t|..] == t
  }

  lemma SuffixTrans(a: string, b: string, c: string)
    requires Suffix(a, b) && Suffix(b, c)
    ensures Suffix(a, c)
  {
    assert c[|c| - |b|..][|b| - |a|..] == c[|c| - |a|..];
  }

  /** Two suffixes of one string are nested. */
  lemma SuffixNested(a: string, b: string, c: string)
    requires Suffix(a, c) && Suffix(b, c) && |a| <= |b|
    ensures Suffix(a, b)
  {
    assert c[|c| - |b|..][|b| - |a|..] == c[|c| - |a|..];
  }

  /** The proper suffixes of a non-empty string are the suffixes of its tail. */
  lemma ProperSuffix(a: string, b: string)
    requires b != []
    ensures Suffix(a, b[1..]) <==> Suffix(a, b) && |a| < |b|
  {
    if |a| < |b| {
      assert b[1..][|b| - 1 - |a|..] == b[|b| - |a|..];
    }
  }

  lemma ShorterSuffix(a: string, b: string)
    requires Suffix(a, b) && a != b
    ensures |a| < |b|
  {
  }

  lemma SuffixSnoc(a: string, b: string, c: char)
    ensures Suffix(a + [c], b + [c]) <==> Suffix(a, b)
  {
    if |a| <= |b| {
      assert (b + [c])[|b| - |a|..] == b[|b| - |a|..] + [c];
      assert (a + [c])[..|a|] == a && (b[|b| - |a|..] + [c])[..|a|] == b[|b| - |a|..];
    }
  }

  lemma SuffixOfSnoc(a: string, b: string, c: char)
    requires a != [] && Suffix(a, b + [c])
    ensures a == a[..|a| - 1] + [c] && Suffix(a[..|a| - 1], b)
  {
    assert a[|a| - 1] == (b + [c])[|b| + 1 - |a|..][|a| - 1] == c;
    assert a == a[..|a| - 1] + [c];
    SuffixSnoc(a[..|a| - 1], b, c);
  }

  // ---------- the tree ----------

  /** `d` is where the edge `c` leaves `i`, in terms of the strings the nodes stand for. */
  predicate EdgeFits(labels: seq<string>, i: nat, c: char, d: int)
    requires i < |labels|
  {
    0 < d < |labels| && labels[d] == labels[i] + [c]
  }

  ghost predicate HasParent(nodes: seq<Node>, labels: seq<string>, j: nat)
    requires |nodes| == |labels| && j < |labels|
  {
    exists i: nat, c: char :: IsParent(nodes, labels, i, c, j)
  }

  predicate IsParent(nodes: seq<Node>, labels: seq<string>, i: nat, c: char, j: nat)
    requires |nodes| == |labels| && j < |labels|
  {
    i < j && c in nodes[i].child && nodes[i].child[c] == j && labels[j] == labels[i] + [c]
  }

  /** Every node stands for one string, the path to it; `labels` lists those strings. */
  ghost predicate Tree(nodes: seq<Node>, labels: seq<string>) {
    && |nodes| == |labels| >= 1
    && labels[ROOT] == ""
    && (forall i, j :: 0 <= i < j < |labels| ==> labels[i] != labels[j])
    && (forall i, c :: 0 <= i < |nodes| && c in nodes[i].child ==> EdgeFits(labels, i, c, nodes[i].child[c]))
    && (forall j :: 0 < j < |labels| ==> HasParent(nodes, labels, j))
  }

  lemma NodesAreDistinct(nodes: seq<Node>, labels: seq<string>, i: nat, j: nat)
    requires Tree(nodes, labels) && i < |labels| && j < |labels| && labels[i] == labels[j]
    ensures i == j
  {
  }

  lemma ParentOf(nodes: seq<Node>, labels: seq<string>, j: nat) returns (i: nat, c: char)
    requires Tree(nodes, labels) && 0 < j < |labels|
    ensures IsParent(nodes, labels, i, c, j)
  {
    assert HasParent(nodes, labels, j);
    i, c :| IsParent(nodes, labels, i, c, j);
  }

  lemma OnlyRootIsEmpty(nodes: seq<Node>, labels: seq<string>, j: nat)
    requires Tree(nodes, labels) && j < |labels|
    ensures labels[j] == "" <==> j == ROOT
  {
    if j != ROOT {
      var i, c := ParentOf(nodes, labels, j);
    }
  }

  /** The edge into `j`, whose string ends with `c`. */
  lemma EdgeInto(nodes: seq<Node>, labels: seq<string>, j: nat, u: string, c: char) returns (i: nat)
    requires Tree(nodes, labels) && j < |labels| && labels[j] == u + [c]
    ensures i < |nodes| && labels[i] == u && c in nodes[i].child && nodes[i].child[c] == j
  {
    OnlyRootIsEmpty(nodes, labels, j);
    var c';
    i, c' := ParentOf(nodes, labels, j);
    assert (labels[i] + [c'])[|labels[i]|] == c' && (u + [c])[|u|] == c && |labels[i]| == |u|;
    assert (labels[i] + [c'])[..|u|] == labels[i] && (u + [c])[..|u|] == u;
  }

  // ---------- the longest suffix in the trie ----------

  /** `off` is the node of the longest suffix of `w` that is in the trie. */
  ghost predicate Longest(labels: seq<string>, w: string, off: int) {
    && 0 <= off < |labels| && Suffix(labels[off], w)
    && forall j :: 0 <= j < |labels| && Suffix(labels[j], w) ==> |labels[j]| <= |labels[off]|
  }

  /** What a failure link should be: the longest proper suffix in the trie. */
  ghost predicate IsFail(labels: seq<string>, i: nat, f: int) {
    i < |labels| && labels[i] != "" && Longest(labels, labels[i][1..], f)
  }

  /** Walking failure links in search of an edge `c`: no longer suffix of `w` has one. */
  ghost predicate Searching(nodes: seq<Node>, labels: seq<string>, w: string, c: char, cur: int) {
    && |nodes| == |labels| && 0 <= cur < |labels| && Suffix(labels[cur], w)
    && forall j :: 0 <= j < |labels| && Suffix(labels[j], w) && |labels[cur]| < |labels[j]| ==> c !in nodes[j].child
  }

  lemma SearchStarts(nodes: seq<Node>, labels: seq<string>, w: string, c: char, cur: int)
    requires |nodes| == |labels| && Longest(labels, w, cur)
    ensures Searching(nodes, labels, w, c, cur)
  {
  }

  /** Nothing in the trie lies between a node and its failure node. */
  lemma LinkSkipsNothing(nodes: seq<Node>, labels: seq<string>, w: string, cur: int, f: int, k: int)
    requires Tree(nodes, labels) && 0 <= cur < |labels| && Suffix(labels[cur], w) && IsFail(labels, cur, f)
    requires 0 <= k < |labels| && Suffix(labels[k], w) && |labels[f]| < |labels[k]| <= |labels[cur]|
    ensures k == cur
  {
    SuffixNested(labels[k], labels[cur], w);
    if |labels[k]| < |labels[cur]| {
      ProperSuffix(labels[k], labels[cur]);
    } else {
      NodesAreDistinct(nodes, labels, k, cur);
    }
  }

  lemma SearchSteps(nodes: seq<Node>, labels: seq<string>, w: string, c: char, cur: int, f: int)
    requires Tree(nodes, labels) && Searching(nodes, labels, w, c, cur) && c !in nodes[cur].child
    requires IsFail(labels, cur, f)
    ensures Searching(nodes, labels, w, c, f)
    ensures |labels[f]| < |labels[cur]|
  {
    ProperSuffix(labels[f], labels[cur]);
    SuffixTrans(labels[f], labels[cur], w);
    forall j | 0 <= j < |labels| && Suffix(labels[j], w) && |labels[f]| < |labels[j]| ensures c !in nodes[j].child {
      if |labels[j]| <= |labels[cur]| {
        LinkSkipsNothing(nodes, labels, w, cur, f, j);
      }
    }
  }

  lemma SearchFinds(nodes: seq<Node>, labels: seq<string>, w: string, c: char, cur: int)
    requires Tree(nodes, labels) && Searching(nodes, labels, w, c, cur) && c in nodes[cur].child
    ensures Longest(labels, w + [c], nodes[cur].child[c])
  {
    var d := nodes[cur].child[c];
    assert EdgeFits(labels, cur, c, d);
    SuffixSnoc(labels[cur], w, c);
    forall j | 0 <= j < |labels| && Suffix(labels[j], w + [c]) ensures |labels[j]| <= |labels[d]| {
      if labels[j] != "" {
        var u := labels[j][..|labels[j]| - 1];
        SuffixOfSnoc(labels[j], w, c);
        var i := EdgeInto(nodes, labels, j, u, c);
      }
    }
  }

  lemma SearchFails(nodes: seq<Node>, labels: seq<string>, w: string, c: char)
    requires Tree(nodes, labels) && Searching(nodes, labels, w, c, ROOT) && c !in nodes[ROOT].child
    ensures Longest(labels, w + [c], ROOT)
  {
    forall j | 0 <= j < |labels| && Suffix(labels[j], w + [c]) ensures |labels[j]| <= 0 {
      if labels[j] != "" {
        var u := labels[j][..|labels[j]| - 1];
        SuffixOfSnoc(labels[j], w, c);
        var i := EdgeInto(nodes, labels, j, u, c);
      }
    }
  }

  // ---------- ids ----------

  /** Some non-empty pattern that ends `s` carries this id. */
  ghost predicate Carried(patterns: map<string, int>, s: string, id: int) {
    exists p :: p in patterns && p != "" && Suffix(p, s) && patterns[p] == id
  }

  ghost predicate NoPatternEnds(patterns: map<string, int>, s: string) {
    forall p :: p in patterns && p != "" ==> !Suffix(p, s)
  }

  /** Patterns are in the trie and carry their own ids. */
  ghost predicate OwnIds(nodes: seq<Node>, labels: seq<string>, patterns: map<string, int>) {
    && |nodes| == |labels|
    && (forall p :: p in patterns ==> p in labels && patterns[p] != NONE)
    && (forall i :: 0 <= i < |labels| && labels[i] in patterns ==> nodes[i].id == patterns[labels[i]])
  }

  /** No node but the root holds an id that is not some suffix pattern's. */
  ghost predicate SoundIds(nodes: seq<Node>, labels: seq<string>, patterns: map<string, int>) {
    && |nodes| == |labels|
    && forall i :: 0 < i < |labels| && nodes[i].id != NONE ==> Carried(patterns, labels[i], nodes[i].id)
  }

  /** A node without an id ends with no pattern. */
  ghost predicate QuietAt(nodes: seq<Node>, labels: seq<string>, patterns: map<string, int>, i: nat) {
    && |nodes| == |labels| && i < |nodes|
    && (nodes[i].id == NONE ==> NoPatternEnds(patterns, labels[i]))
  }

  /** What `build_automata` establishes for a node. */
  ghost predicate DoneAt(nodes: seq<Node>, labels: seq<string>, patterns: map<string, int>, i: nat) {
    && QuietAt(nodes, labels, patterns, i)
    && IsFail(labels, i, nodes[i].fail)
  }

  ghost predicate Built(nodes: seq<Node>, labels: seq<string>, patterns: map<string, int>) {
    && |nodes| == |labels| >= 1
    && forall i :: 0 < i < |nodes| ==> DoneAt(nodes, labels, patterns, i)
  }

  lemma CarriedBySuffix(patterns: map<string, int>, s: string, t: string, id: int)
    requires Carried(patterns, s, id) && Suffix(s, t)
    ensures Carried(patterns, t, id)
  {
    var p :| p in patterns && p != "" && Suffix(p, s) && patterns[p] == id;
    SuffixTrans(p, s, t);
  }

  /** A node that is no pattern ends with a pattern only if its failure node does. */
  lemma QuietFromFail(nodes: seq<Node>, labels: seq<string>, patterns: map<string, int>, i: nat, f: int)
    requires Tree(nodes, labels) && OwnIds(nodes, labels, patterns) && IsFail(labels, i, f)
    requires labels[i] !in patterns && NoPatternEnds(patterns, labels[f])
    ensures NoPatternEnds(patterns, labels[i])
  {
    forall p | p in patterns && p != "" ensures !Suffix(p, labels[i]) {
      if Suffix(p, labels[i]) {
        ShorterSuffix(p, labels[i]);
        ProperSuffix(p, labels[i]);
        var j :| 0 <= j < |labels| && labels[j] == p;
        SuffixNested(p, labels[f], labels[i][1..]);
      }
    }
  }

  lemma NothingEndsEmpty(patterns: map<string, int>)
    ensures NoPatternEnds(patterns, "")
  {
  }
}
