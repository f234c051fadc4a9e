/** The Aho-Corasick matcher: insertion, the automaton, and scans that agree with substring search. */
module AhoCorasick {
  import opened AhoTrie
  import opened AhoBfs
  import opened AhoScan
  import opened AhoIds

  // ---------- inserting ----------

  /** The string has no id yet, or the same one. */
  predicate KeepsId(patterns: map<string, int>, s: string, id: int) {
    s in patterns ==> patterns[s] == id
  }

  /** A new leaf under `off`. */
  function Grown(nodes: seq<Node>, off: nat, c: char): seq<Node>
    requires off < |nodes|
  {
    nodes[off := nodes[off].(child := nodes[off].child[c := |nodes|])] + [Node(NONE, 0, map[])]
  }

  lemma GrowsTree(nodes: seq<Node>, labels: seq<string>, off: nat, c: char)
    requires Tree(nodes, labels) && off < |nodes| && c !in nodes[off].child
    ensures Tree(Grown(nodes, off, c), labels + [labels[off] + [c]])
  {
    var nodes', labels' := Grown(nodes, off, c), labels + [labels[off] + [c]];
    forall i | 0 <= i < |labels| ensures labels[i] != labels[off] + [c] {
      if labels[i] == labels[off] + [c] {
        var j := EdgeInto(nodes, labels, i, labels[off], c);
        NodesAreDistinct(nodes, labels, j, off);
      }
    }
    forall i, x | 0 <= i < |nodes'| && x in nodes'[i].child ensures EdgeFits(labels', i, x, nodes'[i].child[x]) {
      if i < |nodes| && x in nodes[i].child {
        assert EdgeFits(labels, i, x, nodes[i].child[x]);
      }
    }
    forall j | 0 < j < |labels'| ensures HasParent(nodes', labels', j) {
      if j < |labels| {
        var i, x := ParentOf(nodes, labels, j);
        assert IsParent(nodes', labels', i, x, j);
      } else {
        assert IsParent(nodes', labels', off, c, j);
      }
    }
  }

  /** A failure link to a proper suffix, not necessarily the longest. */
  predicate LinksBack(labels: seq<string>, i: nat, f: int) {
    0 <= f < |labels| && i < |labels| && labels[i] != "" && Suffix(labels[f], labels[i][1..])
  }

  ghost predicate AllLinkBack(nodes: seq<Node>, labels: seq<string>) {
    && |nodes| == |labels| >= 1 && nodes[ROOT].fail == NONE
    && forall i :: 0 < i < |nodes| ==> LinksBack(labels, i, nodes[i].fail)
  }

  /** What the strings on the way to `str` have added: only prefixes of it, without ids. */
  ghost predicate GrownAlong(nodes0: seq<Node>, labels0: seq<string>, nodes: seq<Node>, labels: seq<string>,
                             str: string) {
    && |nodes0| == |labels0| <= |labels| == |nodes| && labels[..|labels0|] == labels0
    && (forall i :: 0 <= i < |nodes0| ==> nodes[i].id == nodes0[i].id && nodes[i].fail == nodes0[i].fail)
    && (forall i :: |nodes0| <= i < |nodes| ==> nodes[i].id == NONE && nodes[i].fail == ROOT && labels[i] <= str)
  }

  lemma GrowsAlong(nodes0: seq<Node>, labels0: seq<string>, nodes: seq<Node>, labels: seq<string>, str: string,
                   off: nat, c: char)
    requires GrownAlong(nodes0, labels0, nodes, labels, str) && AllLinkBack(nodes, labels) && Tree(nodes, labels)
    requires off < |nodes| && c !in nodes[off].child && labels[off] + [c] <= str
    ensures GrownAlong(nodes0, labels0, Grown(nodes, off, c), labels + [labels[off] + [c]], str)
    ensures AllLinkBack(Grown(nodes, off, c), labels + [labels[off] + [c]])
  {
    var nodes', labels' := Grown(nodes, off, c), labels + [labels[off] + [c]];
    assert labels'[..|labels0|] == labels[..|labels0|];
    forall i | 0 < i < |nodes'| ensures LinksBack(labels', i, nodes'[i].fail) {
      if i < |nodes| {
        assert LinksBack(labels, i, nodes[i].fail);
      }
    }
  }

  /** Marking the node of `s` with its id. */
  lemma MarksOwnIds(nodes: seq<Node>, labels: seq<string>, patterns: map<string, int>, off: nat, id: int)
    requires Tree(nodes, labels) && OwnIds(nodes, labels, patterns) && off < |nodes|
    ensures OwnIds(nodes[off := nodes[off].(id := id)], labels, Inserted(patterns, labels[off], id))
  {
    var nodes', patterns' := nodes[off := nodes[off].(id := id)], Inserted(patterns, labels[off], id);
    forall i | 0 <= i < |labels| && labels[i] in patterns' ensures nodes'[i].id == patterns'[labels[i]] {
      if i != off {
        assert labels[i] != labels[off];
      }
    }
  }

  lemma MarksSoundIds(nodes: seq<Node>, labels: seq<string>, patterns: map<string, int>, off: nat, id: int)
    requires SoundIds(nodes, labels, patterns) && off < |nodes| && KeepsId(patterns, labels[off], id)
    requires Tree(nodes, labels)
    ensures SoundIds(nodes[off := nodes[off].(id := id)], labels, Inserted(patterns, labels[off], id))
  {
    var nodes', patterns' := nodes[off := nodes[off].(id := id)], Inserted(patterns, labels[off], id);
    forall i | 0 < i < |labels| && nodes'[i].id != NONE ensures Carried(patterns', labels[i], nodes'[i].id) {
      if i == off {
        OnlyRootIsEmpty(nodes, labels, i);
        assert Suffix(labels[i], labels[i]);
      } else {
        var p :| p in patterns && p != "" && Suffix(p, labels[i]) && patterns[p] == nodes[i].id;
        assert p in patterns' && patterns'[p] == nodes[i].id;
      }
    }
  }

  lemma GrownIds(nodes0: seq<Node>, labels0: seq<string>, nodes: seq<Node>, labels: seq<string>, str: string,
                 patterns: map<string, int>)
    requires GrownAlong(nodes0, labels0, nodes, labels, str) && OwnIds(nodes0, labels0, patterns) && Tree(nodes, labels)
    ensures OwnIds(nodes, labels, patterns)
    ensures SoundIds(nodes0, labels0, patterns) ==> SoundIds(nodes, labels, patterns)
  {
    forall p | p in patterns ensures p in labels {
      assert p in labels0;
    }
    forall i | 0 <= i < |labels| && labels[i] in patterns ensures nodes[i].id == patterns[labels[i]] {
      var j :| 0 <= j < |labels0| && labels0[j] == labels[i];
      assert labels[j] == labels[i];
      NodesAreDistinct(nodes, labels, i, j);
    }
  }

  // ---------- linking ----------

  function Linked(nodes: seq<Node>, child: nat, f: int, id: int): seq<Node>
    requires child < |nodes|
  {
    nodes[child := nodes[child].(fail := f, id := id)]
  }

  /** An id is inherited only by a node without one. */
  function NewId(nodes: seq<Node>, child: nat, f: nat, inherit: bool): int
    requires child < |nodes| && f < |nodes|
  {
    if inherit && nodes[child].id == NONE then nodes[f].id else nodes[child].id
  }

  /** One node got a link, and an id if it had none. */
  ghost predicate OnlyLinkChanged(before: seq<Node>, after: seq<Node>, child: nat) {
    && child < |before|
    && (exists f, id :: after == Linked(before, child, f, id))
    && (before[child].id != NONE ==> after[child].id == before[child].id)
  }

  /** The link is the failure node, and from there comes the id of a node without one. */
  ghost predicate LinkedTo(before: seq<Node>, after: seq<Node>, labels: seq<string>, child: nat) {
    && child < |before|
    && exists f: nat ::
      && f < |before| && IsFail(labels, child, f)
      && after == Linked(before, child, f, NewId(before, child, f, f != ROOT))
  }

  lemma LinkKeepsSound(nodes: seq<Node>, labels: seq<string>, patterns: map<string, int>, child: nat, f: int, id: int)
    requires child < |nodes| && SoundIds(nodes, labels, patterns)
    requires id == NONE || id == nodes[child].id || Carried(patterns, labels[child], id)
    ensures SoundIds(Linked(nodes, child, f, id), labels, patterns)
  {
  }

  lemma LinkKeepsRest(nodes: seq<Node>, labels: seq<string>, patterns: map<string, int>, child: nat, f: nat, id: int)
    requires Tree(nodes, labels) && OwnIds(nodes, labels, patterns) && AllLinkBack(nodes, labels)
    requires child < |nodes| && IsFail(labels, child, f) && (nodes[child].id != NONE ==> id == nodes[child].id)
    ensures Tree(Linked(nodes, child, f, id), labels)
    ensures OwnIds(Linked(nodes, child, f, id), labels, patterns)
    ensures AllLinkBack(Linked(nodes, child, f, id), labels)
  {
    var nodes' := Linked(nodes, child, f, id);
    TreeKeepsShape(nodes, nodes', labels);
    forall i | 0 < i < |nodes'| ensures LinksBack(labels, i, nodes'[i].fail) {
      assert LinksBack(labels, i, nodes[i].fail);
    }
  }

  /** Linking a child: the invariants stay, and the child is done. */
  lemma LinkKeepsValid(nodes: seq<Node>, labels: seq<string>, patterns: map<string, int>, child: nat, f: nat,
                       inherit: bool)
    requires Tree(nodes, labels) && OwnIds(nodes, labels, patterns) && AllLinkBack(nodes, labels)
    requires child < |nodes| && f < |nodes| && IsFail(labels, child, f)
    requires if inherit then f != ROOT && DoneAt(nodes, labels, patterns, f) else f == ROOT
    ensures var nodes' := Linked(nodes, child, f, NewId(nodes, child, f, inherit));
            && Tree(nodes', labels) && OwnIds(nodes', labels, patterns) && AllLinkBack(nodes', labels)
            && (SoundIds(nodes, labels, patterns) ==> SoundIds(nodes', labels, patterns))
            && DoneAt(nodes', labels, patterns, child)
  {
    hide Tree;
    var id := NewId(nodes, child, f, inherit);
    LinkKeepsRest(nodes, labels, patterns, child, f, id);
    if SoundIds(nodes, labels, patterns) {
      if id != nodes[child].id && id != NONE {
        ProperSuffix(labels[f], labels[child]);
        CarriedBySuffix(patterns, labels[f], labels[child], id);
      }
      LinkKeepsSound(nodes, labels, patterns, child, f, id);
    }
    if id == NONE {
      LabelsMatch(nodes, labels);
      NothingEndsEmpty(patterns);
      QuietFromFail(nodes, labels, patterns, child, f);
    }
  }

  // ---------- building ----------

  /** Edges stay, and so do ids that were there. */
  ghost predicate Relinked(before: seq<Node>, after: seq<Node>) {
    && SameShape(before, after)
    && forall i :: 0 <= i < |before| && before[i].id != NONE ==> after[i].id == before[i].id
  }

  lemma RelinkedOnce(a: seq<Node>, b: seq<Node>, c: seq<Node>, child: nat)
    requires Relinked(a, b) && OnlyLinkChanged(b, c, child)
    ensures Relinked(a, c)
  {
  }

  /** Every queued node but the root has its link and its id. */
  ghost predicate AllDone(nodes: seq<Node>, labels: seq<string>, patterns: map<string, int>, order: seq<int>) {
    forall p :: 0 < p < |order| ==> order[p] >= 0 && DoneAt(nodes, labels, patterns, order[p])
  }

  ghost predicate QueuedNodes(labels: seq<string>, order: seq<int>) {
    forall p :: 0 <= p < |order| ==> 0 <= order[p] < |labels|
  }

  lemma FrontierIsShort(nodes: seq<Node>, labels: seq<string>, order: seq<int>, h: nat, todo: set<char>)
    requires Frontier(nodes, labels, order, h, todo)
    ensures h <= |order| <= |labels| == |nodes| && QueuedNodes(labels, order) && Queue(labels, order)
  {
    QueueIsShort(labels, order);
  }

  lemma FrontierKeepsShape(a: seq<Node>, b: seq<Node>, labels: seq<string>, order: seq<int>, h: nat, todo: set<char>)
    requires Frontier(a, labels, order, h, todo) && SameShape(a, b)
    ensures Frontier(b, labels, order, h, todo)
  {
    hide Queue;
    assert QueuedNodes(labels, order) by { FrontierIsShort(a, labels, order, h, todo); }
    forall p, c | 0 <= p < h ensures ChildQueued(b, order, p, c) {
      assert ChildQueued(a, order, p, c);
    }
    if h < |order| {
      forall c | c !in todo ensures ChildQueued(b, order, h, c) {
        assert ChildQueued(a, order, h, c);
      }
    }
    forall p | 0 < p < |order| ensures CameFrom(b, labels, order, h, todo, p) {
      assert CameFrom(a, labels, order, h, todo, p);
      var q: nat, c: char :| Via(a, labels, order, h, todo, p, q, c);
      assert Via(b, labels, order, h, todo, p, q, c);
    }
  }

  lemma BuildStarts(nodes: seq<Node>, labels: seq<string>, patterns: map<string, int>)
    requires Tree(nodes, labels)
    ensures Frontier(nodes, labels, [ROOT], 0, nodes[ROOT].child.Keys)
    ensures AllDone(nodes, labels, patterns, [ROOT]) && QueuedNodes(labels, [ROOT]) && |nodes| == |labels| > 0
  {
    Starts(nodes, labels);
  }

  /** Breadth first: whatever is no deeper than the node at hand has been linked. */
  lemma QueuedAreDone(nodes: seq<Node>, labels: seq<string>, patterns: map<string, int>, order: seq<int>, h: nat,
                      todo: set<char>)
    requires Tree(nodes, labels) && Frontier(nodes, labels, order, h, todo) && h < |order|
    requires AllDone(nodes, labels, patterns, order)
    ensures |nodes| == |labels| && 0 <= order[h] < |labels|
    ensures forall j :: 0 < j < |nodes| && |labels[j]| <= |labels[order[h]]| ==> DoneAt(nodes, labels, patterns, j)
  {
    hide Tree, DoneAt;
    FrontierIsShort(nodes, labels, order, h, todo);
    forall j | 0 < j < |nodes| && |labels[j]| <= |labels[order[h]]| ensures DoneAt(nodes, labels, patterns, j) {
      ShallowIsQueued(nodes, labels, order, h, todo, j);
      var p :| 0 <= p < |order| && order[p] == j;
    }
  }

  /** Linking the next child and queueing it. */
  lemma LinkKeepsQueue(a: seq<Node>, b: seq<Node>, labels: seq<string>, patterns: map<string, int>,
                       order: seq<int>, h: nat, todo: set<char>, c: char)
    requires Tree(a, labels) && Frontier(a, labels, order, h, todo) && h < |order|
    requires AllDone(a, labels, patterns, order)
    requires 0 <= order[h] < |a| && c in todo && c in a[order[h]].child
    requires var child := a[order[h]].child[c];
             0 <= child && OnlyLinkChanged(a, b, child) && DoneAt(b, labels, patterns, child)
    ensures SameShape(a, b) && Frontier(b, labels, order + [a[order[h]].child[c]], h, todo - {c})
    ensures AllDone(b, labels, patterns, order + [a[order[h]].child[c]])
  {
    hide Tree, Frontier;
    var order' := order + [a[order[h]].child[c]];
    Pushes(a, labels, order, h, todo, c);
    FrontierKeepsShape(a, b, labels, order', h, todo - {c});
    forall p | 0 < p < |order'| ensures order'[p] >= 0 && DoneAt(b, labels, patterns, order'[p]) {
      if p < |order| {
        assert DoneAt(a, labels, patterns, order[p]);
      }
    }
  }

  lemma AllAreBuilt(nodes: seq<Node>, labels: seq<string>, patterns: map<string, int>, order: seq<int>)
    requires |nodes| == |labels| && Queue(labels, order) && AllDone(nodes, labels, patterns, order)
    requires forall j :: 0 <= j < |labels| ==> j in order
    ensures Built(nodes, labels, patterns)
  {
    forall i | 0 < i < |nodes| ensures DoneAt(nodes, labels, patterns, i) {
      assert i in order;
      var p :| 0 <= p < |order| && order[p] == i;
    }
  }

  /** Queued nodes but the root hold what they inherit, the others what they held before. */
  ghost predicate Building(nodes0: seq<Node>, nodes: seq<Node>, labels: seq<string>, ids: map<string, int>,
                           order: seq<int>) {
    && |nodes0| == |nodes| == |labels|
    && forall j :: 0 <= j < |nodes| ==>
      nodes[j].id == if j in order && j != ROOT then Inherited(ids, labels[j]) else nodes0[j].id
  }

  lemma NothingBuilt(nodes: seq<Node>, labels: seq<string>, ids: map<string, int>)
    ensures Holds(nodes, labels, ids) ==> Building(nodes, nodes, labels, ids, [ROOT])
  {
  }

  /** A node inherits the id of the longest suffix that has one. */
  lemma InheritsBySuffix(nodes: seq<Node>, labels: seq<string>, ids: map<string, int>, child: nat, f: nat)
    requires Holds(nodes, labels, ids) && IsFail(labels, child, f) && nodes[child].id == NONE
    ensures Inherited(ids, labels[child]) == Inherited(ids, labels[f])
  {
    var w := labels[child][1..];
    forall u | u in ids && Suffix(u, w) ensures |u| <= |labels[f]| {
      var k :| 0 <= k < |labels| && labels[k] == u;
    }
    InheritedSkips(ids, w, labels[f]);
  }

  lemma BuildsNext(nodes0: seq<Node>, a: seq<Node>, b: seq<Node>, labels: seq<string>, ids: map<string, int>,
                   order: seq<int>, h: nat, todo: set<char>, c: char)
    requires Holds(nodes0, labels, ids) && Building(nodes0, a, labels, ids, order)
    requires Tree(a, labels) && Frontier(a, labels, order, h, todo) && h < |order|
    requires 0 <= order[h] < |a| && c in todo && c in a[order[h]].child
    requires var child := a[order[h]].child[c]; 0 <= child && LinkedTo(a, b, labels, child)
    ensures Building(nodes0, b, labels, ids, order + [a[order[h]].child[c]])
  {
    hide Tree, Frontier, Holds;
    var father, child: nat := order[h], a[order[h]].child[c];
    var f: nat :| f < |a| && IsFail(labels, child, f) && b == Linked(a, child, f, NewId(a, child, f, f != ROOT));
    NextIsNew(a, labels, order, h, todo, c);
    ChildIsDeeper(a, labels, father, c);
    FailIsShorter(labels, child, f);
    ShallowIsQueued(a, labels, order, h, todo, f);
    OnlyRootIsEmpty(a, labels, child);
    OnlyRootIsEmpty(a, labels, f);
    NewIdIsInherited(nodes0, labels, ids, a, child, f);
    BuildsChild(nodes0, a, labels, ids, order, child, f);
  }

  lemma FailIsShorter(labels: seq<string>, child: nat, f: nat)
    requires IsFail(labels, child, f)
    ensures f < |labels| && child < |labels| && |labels[f]| < |labels[child]|
  {
  }

  /** The id a child gets, when its own is still the old one and its failure node has its final one. */
  lemma NewIdIsInherited(nodes0: seq<Node>, labels: seq<string>, ids: map<string, int>, a: seq<Node>, child: nat,
                         f: nat)
    requires Holds(nodes0, labels, ids) && |a| == |labels| && IsFail(labels, child, f) && f < |labels|
    requires a[child].id == nodes0[child].id && (f == ROOT <==> labels[f] == "")
    requires f != ROOT ==> a[f].id == Inherited(ids, labels[f])
    ensures NewId(a, child, f, f != ROOT) == Inherited(ids, labels[child])
  {
    if a[child].id == NONE {
      InheritsBySuffix(nodes0, labels, ids, child, f);
    }
  }

  lemma BuildsChild(nodes0: seq<Node>, a: seq<Node>, labels: seq<string>, ids: map<string, int>, order: seq<int>,
                    child: nat, f: nat)
    requires Building(nodes0, a, labels, ids, order) && 0 < child < |a| && f < |a|
    requires NewId(a, child, f, f != ROOT) == Inherited(ids, labels[child])
    ensures Building(nodes0, Linked(a, child, f, NewId(a, child, f, f != ROOT)), labels, ids, order + [child])
  {
    hide Inherited;
  }

  lemma ChildIsDeeper(nodes: seq<Node>, labels: seq<string>, father: nat, c: char)
    requires Tree(nodes, labels) && father < |nodes| && c in nodes[father].child
    ensures 0 < nodes[father].child[c] < |labels| && |labels[nodes[father].child[c]]| == |labels[father]| + 1
  {
    assert EdgeFits(labels, father, c, nodes[father].child[c]);
  }

  lemma BuildEnds(nodes0: seq<Node>, nodes: seq<Node>, labels: seq<string>, ids: map<string, int>, order: seq<int>)
    requires Tree(nodes, labels) && Holds(nodes0, labels, ids) && Building(nodes0, nodes, labels, ids, order)
    requires forall j :: 0 <= j < |labels| ==> j in order
    ensures Holds(nodes, labels, BuiltIds(ids))
  {
    hide Tree;
    forall i | 0 <= i < |labels| ensures BuiltIds(ids)[labels[i]] == nodes[i].id {
      OnlyRootIsEmpty(nodes, labels, i);
    }
  }

  /** Insertion, seen from the strings. */
  lemma InsertHolds(nodes0: seq<Node>, labels0: seq<string>, nodes: seq<Node>, labels: seq<string>,
                    ids: map<string, int>, str: string, id: int)
    requires Holds(nodes0, labels0, ids) && |nodes| == |labels| >= |labels0| && labels[..|labels0|] == labels0
    requires forall s :: s in labels <==> s in labels0 || s <= str
    requires forall i :: 0 <= i < |nodes| ==>
      nodes[i].id == if labels[i] == str then id else if i < |nodes0| then nodes0[i].id else NONE
    requires forall i, j :: 0 <= i < j < |labels| ==> labels[i] != labels[j]
    ensures Holds(nodes, labels, AddedIds(ids, str, id))
  {
    var added := AddedIds(ids, str, id);
    forall s ensures s in added <==> s in labels {
      if s <= str {
        assert s == str[..|s|];
      }
    }
    forall i | 0 <= i < |labels| ensures labels[i] in added && added[labels[i]] == nodes[i].id {
      assert labels[i] in labels;
      if i < |labels0| {
        assert labels[..|labels0|][i] == labels0[i];
      } else {
        forall k | 0 <= k < |labels0| ensures labels0[k] != labels[i] {
          assert labels[..|labels0|][k] == labels[k];
        }
      }
    }
  }

  // ---------- the matcher ----------

  class AhoCorasick {
    var node: seq<Node>
    ghost var labels: seq<string>             // the string each node stands for
    ghost var patterns: map<string, int>      // what has been inserted

    ghost predicate Valid()
      reads this
    {
      Tree(node, labels) && OwnIds(node, labels, patterns) && AllLinkBack(node, labels)
    }

    ghost predicate IsBuilt()
      reads this
    {
      Built(node, labels, patterns)
    }

    ghost predicate IsSound()
      reads this
    {
      SoundIds(node, labels, patterns)
    }

    constructor ()
      ensures Valid() && IsBuilt() && IsSound()
      ensures patterns == map[] && labels == [""] && node[ROOT].id == NONE
    {
      node := [Node(NONE, NONE, map[])];
      labels := [""];
      patterns := map[];
    }

    method Clear()
      modifies this
      ensures Valid() && IsBuilt() && IsSound()
      ensures patterns == map[] && labels == [""] && node[ROOT].id == NONE
    {
      node := [Node(NONE, NONE, map[])];
      labels := [""];
      patterns := map[];
    }

    /** Follows the edge `c`, making it first when it is missing. */
    method FollowOrGrow(off: nat, c: char, ghost str: string, ghost node0: seq<Node>, ghost labels0: seq<string>)
      returns (off': nat)
      requires off < |node| && Tree(node, labels) && AllLinkBack(node, labels)
      requires GrownAlong(node0, labels0, node, labels, str) && labels[off] + [c] <= str
      modifies this
      ensures Tree(node, labels) && AllLinkBack(node, labels) && GrownAlong(node0, labels0, node, labels, str)
      ensures off' < |node| && labels[off'] == old(labels)[off] + [c]
      ensures |old(labels)| <= |labels| && labels[..|old(labels)|] == old(labels)
      ensures patterns == old(patterns)
    {
      if c !in node[off].child {
        GrowsTree(node, labels, off, c);
        GrowsAlong(node0, labels0, node, labels, str, off, c);
        node, labels := Grown(node, off, c), labels + [labels[off] + [c]];
      } else {
        assert EdgeFits(labels, off, c, node[off].child[c]);
      }
      off' := node[off].child[c];
    }

    /** `_node[off].id = id`. */
    method Mark(off: nat, id: int)
      requires Valid() && off < |node|
      modifies this
      ensures Valid() && labels == old(labels) && patterns == Inserted(old(patterns), labels[off], id)
      ensures node == old(node)[off := old(node)[off].(id := id)]
      ensures old(IsSound()) && KeepsId(old(patterns), labels[off], id) ==> IsSound()
    {
      hide Tree, OwnIds, SoundIds;
      MarksOwnIds(node, labels, patterns, off, id);
      if SoundIds(node, labels, patterns) && KeepsId(patterns, labels[off], id) {
        MarksSoundIds(node, labels, patterns, off, id);
      }
      TreeKeepsShape(node, node[off := node[off].(id := id)], labels);
      node := node[off := node[off].(id := id)];
      patterns := Inserted(patterns, labels[off], id);
    }

    /** Adds the path of `str` and puts `id` on its last node. */
    method Insert(str: string, id: int)
      requires Valid()
      modifies this
      ensures Valid()
      ensures patterns == Inserted(old(patterns), str, id)
      ensures old(IsSound()) && KeepsId(old(patterns), str, id) ==> IsSound()
      ensures |old(labels)| <= |labels| && labels[..|old(labels)|] == old(labels)
      ensures forall s :: s in labels <==> s in old(labels) || s <= str
      ensures forall i :: 0 <= i < |node| ==>
        node[i].id == if labels[i] == str then id else if i < |old(node)| then old(node)[i].id else NONE
    {
      hide Tree, AllLinkBack, GrownAlong, SoundIds, OwnIds;
      ghost var node0, labels0 := node, labels;
      var off := StartAtRoot(str);
      for k := 0 to |str|
        invariant 0 <= off < |node| && |node| == |labels| && labels[off] == str[..k]
        invariant Tree(node, labels) && AllLinkBack(node, labels) && GrownAlong(node0, labels0, node, labels, str)
        invariant patterns == old(patterns)
        invariant forall j :: 0 <= j <= k ==> str[..j] in labels
      {
        ghost var labels1 := labels;
        assert str[..k + 1] == str[..k] + [str[k]];
        off := FollowOrGrow(off, str[k], str, node0, labels0);
        StillThere(labels1, labels, str, k);
        assert str[..k + 1] == labels[off];
      }
      assert str[..|str|] == str;
      GrownIds(node0, labels0, node, labels, str, patterns);
      AddsPrefixes(node0, labels0, node, labels, str);
      ghost var node1 := node;
      Mark(off, id);
      OnlyNodeOf(node, labels, off, str);
    }

    method StartAtRoot(ghost str: string) returns (off: nat)
      requires Valid()
      ensures off == ROOT && 0 < |node| == |labels| && labels[off] == str[..0]
      ensures Tree(node, labels) && AllLinkBack(node, labels) && GrownAlong(node, labels, node, labels, str)
      ensures forall j :: 0 <= j <= 0 ==> str[..j] in labels
    {
      off := ROOT;
      assert str[..0] == labels[ROOT];
    }

    // ---------- building ----------

    /** What holds while the children of `father` get their links: every node no deeper than it has its own. */
    ghost predicate Linking(father: nat)
      reads this
    {
      && |node| == |labels| && father < |node|
      && forall j :: 0 < j < |node| && |labels[j]| <= |labels[father]| ==> DoneAt(node, labels, patterns, j)
    }

    /** Stores a link; with `inherit` a node without an id takes its failure node's. */
    method SetLink(child: nat, f: nat, inherit: bool)
      requires Valid() && child < |node| && f < |node| && IsFail(labels, child, f)
      requires if inherit then f != ROOT && DoneAt(node, labels, patterns, f) else f == ROOT
      modifies this`node
      ensures Valid() && child < |node| && DoneAt(node, labels, patterns, child)
      ensures old(IsSound()) ==> IsSound()
      ensures node == Linked(old(node), child, f, NewId(old(node), child, f, inherit))
    {
      hide OwnIds, Tree, AllLinkBack, SoundIds, IsFail;
      LinkKeepsValid(node, labels, patterns, child, f, inherit);
      node := Linked(node, child, f, NewId(node, child, f, inherit));
    }

    /** Looks along the links of `father` for a node with an edge `c`. */
    method FindLink(father: nat, c: char) returns (f: nat, inherit: bool)
      requires Valid() && Linking(father) && c in node[father].child
      ensures f < |node| && 0 < node[father].child[c] < |node| && IsFail(labels, node[father].child[c], f)
      ensures if inherit then f != ROOT && DoneAt(node, labels, patterns, f) else f == ROOT
    {
      hide Tree, OwnIds, SoundIds, AllLinkBack, QuietAt;
      EdgeFitsOf(father, c);
      ghost var w := labels[node[father].child[c]][1..];
      f, inherit := ROOT, false;
      if father == ROOT {
        assert w == "";
        return;
      }
      ghost var u := labels[father][1..];
      assert w == u + [c];
      var next := node[father].fail;
      SearchStarts(node, labels, u, c, next);
      while next != NONE
        invariant next == NONE ==> Longest(labels, w, ROOT)
        invariant next != NONE ==> Searching(node, labels, u, c, next) && |labels[next]| < |labels[father]|
        decreases if next == NONE then 0 else 1 + |labels[next]|
      {
        if c in node[next].child {
          SearchFinds(node, labels, u, c, next);
          EdgeFitsOf(next, c);
          f, inherit := node[next].child[c], true;
          return;
        }
        if next == ROOT {
          SearchFails(node, labels, u, c);
        } else {
          SearchSteps(node, labels, u, c, next, node[next].fail);
        }
        next := node[next].fail;
      }
    }

    /** The failure link of one child; an id is inherited only by a node without one. */
    method LinkChild(father: nat, c: char)
      requires Valid() && Linking(father) && c in node[father].child
      modifies this`node
      ensures Valid() && 0 < old(node)[father].child[c] < |node|
      ensures DoneAt(node, labels, patterns, old(node)[father].child[c])
      ensures old(IsSound()) ==> IsSound()
      ensures OnlyLinkChanged(old(node), node, old(node)[father].child[c])
      ensures LinkedTo(old(node), node, labels, old(node)[father].child[c])
    {
      hide Tree, OwnIds, SoundIds, AllLinkBack, QuietAt, DoneAt, IsFail;
      var child := node[father].child[c];
      var f, inherit := FindLink(father, c);
      SetLink(child, f, inherit);
    }

    /** The inner loop over one node's children, in any order. */
    method LinkChildren(father: nat, que: seq<int>, ghost order: seq<int>, ghost h: nat,
                        ghost node0: seq<Node>, ghost ids: map<string, int>)
      returns (que': seq<int>, ghost order': seq<int>)
      requires Valid() && father < |node| && AllDone(node, labels, patterns, order)
      requires Frontier(node, labels, order, h, node[father].child.Keys)
      requires h < |order| && order[h] == father && que == order[h + 1..]
      requires Holds(node0, labels, ids) ==> Building(node0, node, labels, ids, order)
      modifies this`node
      ensures Valid() && AllDone(node, labels, patterns, order')
      ensures Frontier(node, labels, order', h, {}) && h < |order'| && que' == order'[h + 1..]
      ensures old(IsSound()) ==> IsSound()
      ensures Relinked(old(node), node)
      ensures Holds(node0, labels, ids) ==> Building(node0, node, labels, ids, order')
    {
      hide Tree, OwnIds, SoundIds, AllLinkBack, Frontier, AllDone, DoneAt, OnlyLinkChanged, LinkedTo, Holds, Building;
      que', order' := que, order;
      var todo := node[father].child.Keys;
      while todo != {}
        invariant Valid() && father < |node| && Relinked(old(node), node) && (old(IsSound()) ==> IsSound())
        invariant todo <= node[father].child.Keys && AllDone(node, labels, patterns, order')
        invariant Frontier(node, labels, order', h, todo)
        invariant h < |order'| && order'[h] == father && que' == order'[h + 1..]
        invariant Holds(node0, labels, ids) ==> Building(node0, node, labels, ids, order')
        decreases |todo|
      {
        var c :| c in todo;
        ghost var node1 := node;
        var child := node[father].child[c];
        QueuedAreDone(node, labels, patterns, order', h, todo);
        LinkChild(father, c);
        LinkKeepsQueue(node1, node, labels, patterns, order', h, todo, c);
        if Holds(node0, labels, ids) {
          BuildsNext(node0, node1, node, labels, ids, order', h, todo, c);
        }
        RelinkedOnce(old(node), node1, node, child);
        que', order' := que' + [child], order' + [child];
        todo := todo - {c};
      }
    }

    /**
      Breadth first over the trie; `order` lists the nodes as they are taken from the queue. The ids `ids` that the
      strings hold before determine those they hold afterwards.
     */
    method BuildAutomata(ghost ids: map<string, int>) returns (ghost order: seq<int>)
      requires Valid()
      modifies this`node
      ensures Valid() && IsBuilt()
      ensures old(IsSound()) ==> IsSound()
      ensures Relinked(old(node), node)
      ensures Queue(labels, order) && forall j :: 0 <= j < |node| ==> j in order
      ensures Holds(old(node), labels, ids) ==> Holds(node, labels, BuiltIds(ids))
    {
      hide Tree, OwnIds, SoundIds, AllLinkBack, Frontier, AllDone, DoneAt, Holds, Building, BuiltIds;
      var que := [ROOT];
      order := [ROOT];
      ghost var h := 0;
      BuildStarts(node, labels, patterns);
      NothingBuilt(node, labels, ids);
      while que != []
        invariant Valid() && Relinked(old(node), node) && (old(IsSound()) ==> IsSound())
        invariant h <= |order| && que == order[h..] && QueuedNodes(labels, order) && |node| == |labels|
        invariant Frontier(node, labels, order, h, if h < |order| then node[order[h]].child.Keys else {})
        invariant AllDone(node, labels, patterns, order)
        invariant Holds(old(node), labels, ids) ==> Building(old(node), node, labels, ids, order)
        decreases |labels| - h
      {
        FrontierIsShort(node, labels, order, h, node[order[h]].child.Keys);
        var father := que[0];
        que := que[1..];
        que, order := LinkChildren(father, que, order, h, old(node), ids);
        FrontierIsShort(node, labels, order, h, {});
        Pops(node, labels, order, h);
        h := h + 1;
      }
      FrontierIsShort(node, labels, order, h, {});
      AllQueued(node, labels, order);
      AllAreBuilt(node, labels, patterns, order);
      if Holds(old(node), labels, ids) {
        BuildEnds(old(node), node, labels, ids, order);
      }
    }

    // ---------- scanning ----------

    /** Follows failure links until there is an edge `c`; each hop costs at least one letter of depth. */
    method Fall(off: nat, c: char, ghost w: string) returns (off': nat, ghost hops: nat)
      requires Valid() && off < |node| && Suffix(labels[off], w)
      ensures off' < |node| && Suffix(labels[off'], w)
      ensures off' == ROOT || c in node[off'].child
      ensures IsBuilt() && Longest(labels, w, off) ==> Searching(node, labels, w, c, off')
      ensures hops + |labels[off']| <= |labels[off]|
    {
      hide Tree, OwnIds, QuietAt, Longest;
      off', hops := off, 0;
      if Longest(labels, w, off) {
        SearchStarts(node, labels, w, c, off);
      }
      while off' != ROOT && c !in node[off'].child
        invariant off' < |node| && Suffix(labels[off'], w) && hops + |labels[off']| <= |labels[off]|
        invariant IsBuilt() && Longest(labels, w, off) ==> Searching(node, labels, w, c, off')
        decreases |labels[off']|
      {
        var f := node[off'].fail;
        assert LinksBack(labels, off', f);
        ProperSuffix(labels[f], labels[off']);
        SuffixTrans(labels[f], labels[off'], w);
        if IsBuilt() && Longest(labels, w, off) {
          assert DoneAt(node, labels, patterns, off');
          SearchSteps(node, labels, w, c, off', f);
        }
        off', hops := f, hops + 1;
      }
    }

    /** One letter of the text. */
    method Advance(off: nat, c: char, ghost w: string) returns (off': nat, moved: bool, ghost hops: nat)
      requires Valid() && off < |node| && Suffix(labels[off], w)
      ensures off' < |node| && Suffix(labels[off'], w + [c]) && (!moved ==> off' == ROOT)
      ensures IsBuilt() && Longest(labels, w, off) ==> Longest(labels, w + [c], off')
      ensures hops + |labels[off']| <= |labels[off]| + 1
    {
      hide Tree, OwnIds, AllLinkBack, Built, Longest, Searching;
      off', hops := Fall(off, c, w);
      moved := c in node[off'].child;
      if moved {
        EdgeFitsOf(off', c);
        SuffixSnoc(labels[off'], w, c);
        if IsBuilt() && Longest(labels, w, off) {
          SearchFinds(node, labels, w, c, off');
        }
        off' := node[off'].child[c];
      } else {
        LabelsMatch(node, labels);
        if IsBuilt() && Longest(labels, w, off) {
          SearchFails(node, labels, w, c);
        }
      }
    }

    /** The report walk: ids along the failure links, up to the root or the first node without one. */
    method Report(off: nat, ghost w: string) returns (ids: set<int>)
      requires Valid() && off < |node| && Suffix(labels[off], w)
      ensures IsBuilt() && Longest(labels, w, off) ==> forall id :: id in ids <==> ReportedAt(node, labels, w, id)
      ensures IsSound() ==> forall id :: id in ids ==> Carried(patterns, w, id)
    {
      hide Tree, OwnIds, QuietAt, Longest, Reporting;
      ids := {};
      var back := off;
      if Longest(labels, w, off) {
        ReportStarts(node, labels, w, off);
      }
      while node[back].id != NONE && back != ROOT
        invariant 0 <= back < |node| && Suffix(labels[back], w)
        invariant IsBuilt() && Longest(labels, w, off) ==> Reporting(node, labels, w, back, ids)
        invariant IsSound() ==> forall id :: id in ids ==> Carried(patterns, w, id)
        decreases |labels[back]|
      {
        var f := node[back].fail;
        assert LinksBack(labels, back, f);
        ProperSuffix(labels[f], labels[back]);
        SuffixTrans(labels[f], labels[back], w);
        if IsBuilt() && Longest(labels, w, off) {
          assert DoneAt(node, labels, patterns, back);
          ReportSteps(node, labels, w, back, ids);
        }
        if IsSound() {
          CarriedBySuffix(patterns, labels[back], w, node[back].id);
        }
        ids := ids + {node[back].id};
        back := f;
      }
      if IsBuilt() && Longest(labels, w, off) {
        ReportEnds(node, labels, w, back, ids);
      }
    }

    lemma NothingReported(w: string)
      requires Valid() && Longest(labels, w, ROOT)
      ensures forall id :: !ReportedAt(node, labels, w, id)
    {
      ReportStarts(node, labels, w, ROOT);
      ReportEnds(node, labels, w, ROOT, {});
    }

    /** The ids seen in a text, and how many failure links were followed before letters. */
    method GetMatch(str: string) returns (ret: set<int>, ghost hops: nat)
      requires Valid()
      ensures hops <= |str|
      ensures IsBuilt() ==> forall id :: id in ret <==> ReportedIn(node, labels, str, id)
      ensures IsSound() ==> ret <= MatchIds(patterns, str)
      ensures IsBuilt() && IsSound() ==> ret == MatchIds(patterns, str)
    {
      hide Tree, OwnIds, AllLinkBack, SoundIds, Built, Longest, ReportedAt, ReportedUpTo, MatchIds;
      ret, hops := {}, 0;
      var off := ROOT;
      StartsScan(str);
      for k := 0 to |str|
        invariant 0 <= off < |node| == |labels| && Suffix(labels[off], str[..k]) && hops + |labels[off]| <= k
        invariant IsBuilt() ==> Longest(labels, str[..k], off) && ReportedUpTo(node, labels, str, k, ret)
        invariant IsSound() ==> ret <= MatchIds(patterns, str)
      {
        assert str[..k + 1] == str[..k] + [str[k]];
        var moved;
        ghost var more;
        off, moved, more := Advance(off, str[k], str[..k]);
        hops := hops + more;
        var ids := {};
        if moved {
          ids := Report(off, str[..k + 1]);
        } else if IsBuilt() {
          NothingReported(str[..k + 1]);
        }
        if IsBuilt() {
          ReportsGrow(node, labels, str, k, ret, ids);
        }
        if IsSound() {
          EndingIdsMatch(patterns, str, k, ids);
        }
        ret := ret + ids;
      }
      assert str[..|str|] == str;
      if IsBuilt() {
        ReportsEnd(node, labels, str, ret);
        if IsSound() {
          ScanIsExact(str, ret);
        }
      }
    }

    lemma StartsScan(str: string)
      requires Valid()
      ensures 0 < |node| == |labels| && labels[ROOT] == "" && Suffix(labels[ROOT], str[..0])
      ensures Longest(labels, str[..0], ROOT) && ReportedUpTo(node, labels, str, 0, {})
    {
    }

    lemma ScanIsExact(str: string, ret: set<int>)
      requires Valid() && IsBuilt() && IsSound()
      requires forall id :: id in ret <==> ReportedIn(node, labels, str, id)
      ensures ret == MatchIds(patterns, str)
    {
      hide Tree, OwnIds, Built, MatchIds, ReportedAt;
      forall id ensures id in ret <==> id in MatchIds(patterns, str) {
        MatchIdsEnd(patterns, str, id);
        ReportsAreEnds(str, id);
      }
    }

    lemma ReportsAreEnds(str: string, id: int)
      requires Valid() && IsBuilt() && IsSound()
      ensures forall q: nat :: ReportedBy(node, labels, str, id, q) <==> EndsAt(patterns, str, id, q)
    {
      hide Tree, OwnIds, Built, ReportedAt, Carried, SoundIds;
      forall q: nat ensures ReportedBy(node, labels, str, id, q) <==> EndsAt(patterns, str, id, q) {
        if q < |str| {
          ReportsAreExact(node, labels, patterns, str[..q + 1], id);
        }
      }
    }

    /** The report walk of `get_match_off`: an id already in the set keeps its index. */
    method ReportOff(off: nat, q: nat, ret: map<int, nat>, ghost w: string)
      returns (ret': map<int, nat>, ghost ids: set<int>)
      requires Valid() && off < |node| && Suffix(labels[off], w)
      ensures IsBuilt() && Longest(labels, w, off) ==> forall id :: id in ids <==> ReportedAt(node, labels, w, id)
      ensures ret' == Kept(ret, ids, q)
    {
      hide Tree, OwnIds, QuietAt, Longest, Reporting;
      ret', ids := ret, {};
      var back := off;
      if Longest(labels, w, off) {
        ReportStarts(node, labels, w, off);
      }
      while node[back].id != NONE && back != ROOT
        invariant 0 <= back < |node|
        invariant IsBuilt() && Longest(labels, w, off) ==> Reporting(node, labels, w, back, ids)
        invariant ret' == Kept(ret, ids, q)
        decreases |labels[back]|
      {
        var f := node[back].fail;
        assert LinksBack(labels, back, f);
        if IsBuilt() && Longest(labels, w, off) {
          assert DoneAt(node, labels, patterns, back);
          ReportSteps(node, labels, w, back, ids);
        }
        if node[back].id !in ret' {
          ret' := ret'[node[back].id := q];
        }
        ids := ids + {node[back].id};
        back := f;
      }
      if IsBuilt() && Longest(labels, w, off) {
        ReportEnds(node, labels, w, back, ids);
      }
    }

    /** Each id seen in a text, with the index of the last letter of its first occurrence. */
    method GetMatchOff(str: string) returns (ret: map<int, nat>)
      requires Valid()
      ensures IsBuilt() ==> FirstReports(node, labels, str, ret)
      ensures IsBuilt() ==> forall id :: id in ret <==> ReportedIn(node, labels, str, id)
      ensures IsBuilt() && IsSound() ==> ret.Keys == MatchIds(patterns, str)
      ensures IsBuilt() && IsSound() ==> forall id :: id in ret ==>
        && EndsAt(patterns, str, id, ret[id])
        && forall q: nat :: q < ret[id] ==> !EndsAt(patterns, str, id, q)
    {
      hide Tree, OwnIds, AllLinkBack, SoundIds, Built, Longest, ReportedAt, ReportedUpTo, MatchIds, FirstReports, Kept;
      ret := map[];
      var off := ROOT;
      StartsScan(str);
      NoReportsYet(node, labels, str);
      assert ret.Keys == {};
      for k := 0 to |str|
        invariant 0 <= off < |node| == |labels| && Suffix(labels[off], str[..k])
        invariant IsBuilt() ==> Longest(labels, str[..k], off)
        invariant IsBuilt() ==> ReportedUpTo(node, labels, str, k, ret.Keys) && FirstReports(node, labels, str, ret)
      {
        assert str[..k + 1] == str[..k] + [str[k]];
        ghost var ret0 := ret;
        ghost var ids := {};
        var moved;
        ghost var more;
        off, moved, more := Advance(off, str[k], str[..k]);
        if moved {
          ret, ids := ReportOff(off, k, ret, str[..k + 1]);
        } else if IsBuilt() {
          NothingReported(str[..k + 1]);
          KeptNothing(ret, k);
        }
        if IsBuilt() {
          ReportsGrow(node, labels, str, k, ret0.Keys, ids);
          KeptFirst(node, labels, str, k, ret0, ids);
        }
      }
      if IsBuilt() {
        ReportsEnd(node, labels, str, ret.Keys);
        if IsSound() {
          ScanIsExact(str, ret.Keys);
          FirstEnds(str, ret);
        }
      }
    }

    lemma FirstEnds(str: string, ret: map<int, nat>)
      requires Valid() && IsBuilt() && IsSound() && FirstReports(node, labels, str, ret)
      ensures forall id :: id in ret ==>
        && EndsAt(patterns, str, id, ret[id])
        && forall q: nat :: q < ret[id] ==> !EndsAt(patterns, str, id, q)
    {
      hide Tree, OwnIds, Built, SoundIds, EndsAt, ReportedBy;
      forall id | id in ret
        ensures EndsAt(patterns, str, id, ret[id])
        ensures forall q: nat :: q < ret[id] ==> !EndsAt(patterns, str, id, q)
      {
        ReportsAreEnds(str, id);
      }
    }

    lemma EdgeFitsOf(father: nat, c: char)
      requires Valid() && father < |node| && c in node[father].child
      ensures 0 < node[father].child[c] < |node| == |labels|
      ensures labels[node[father].child[c]] == labels[father] + [c]
      ensures labels[ROOT] == "" && node[ROOT].fail == NONE && (father != ROOT ==> labels[father] != "")
    {
      assert EdgeFits(labels, father, c, node[father].child[c]);
      OnlyRootIsEmpty(node, labels, father);
    }
  }

  lemma EndingIdsMatch(patterns: map<string, int>, text: string, k: nat, ids: set<int>)
    requires k < |text| && forall id :: id in ids ==> Carried(patterns, text[..k + 1], id)
    ensures ids <= MatchIds(patterns, text)
  {
    forall id | id in ids ensures id in MatchIds(patterns, text) {
      assert EndsAt(patterns, text, id, k);
      MatchIdsEnd(patterns, text, id);
    }
  }

  lemma NoReportsYet(nodes: seq<Node>, labels: seq<string>, text: string)
    ensures FirstReports(nodes, labels, text, map[])
  {
  }

  lemma KeptNothing(m: map<int, nat>, q: nat)
    ensures Kept(m, {}, q) == m
  {
  }

  lemma StillThere(labels0: seq<string>, labels: seq<string>, str: string, k: nat)
    requires k <= |str| && |labels0| <= |labels| && labels[..|labels0|] == labels0
    requires forall j :: 0 <= j <= k ==> str[..j] in labels0
    ensures forall j :: 0 <= j <= k ==> str[..j] in labels
  {
    forall j | 0 <= j <= k ensures str[..j] in labels {
      assert str[..j] in labels0;
    }
  }

  /** Exactly the prefixes of the inserted string have been added. */
  lemma AddsPrefixes(nodes0: seq<Node>, labels0: seq<string>, nodes: seq<Node>, labels: seq<string>, str: string)
    requires GrownAlong(nodes0, labels0, nodes, labels, str)
    requires forall j :: 0 <= j <= |str| ==> str[..j] in labels
    ensures |labels0| == |nodes0| <= |labels| && labels[..|labels0|] == labels0
    ensures forall s :: s in labels <==> s in labels0 || s <= str
    ensures forall i :: 0 <= i < |nodes| ==> nodes[i].id == if i < |nodes0| then nodes0[i].id else NONE
  {
    forall s | s in labels ensures s in labels0 || s <= str {
      var i :| 0 <= i < |labels| && labels[i] == s;
      assert i < |labels0| ==> labels[..|labels0|][i] == s;
    }
    forall s | s in labels0 || s <= str ensures s in labels {
      if s in labels0 {
        assert s in labels[..|labels0|];
      } else {
        assert s == str[..|s|];
      }
    }
  }

  lemma OnlyNodeOf(nodes: seq<Node>, labels: seq<string>, off: nat, str: string)
    requires Tree(nodes, labels) && off < |nodes| && labels[off] == str
    ensures forall i :: 0 <= i < |labels| && labels[i] == str ==> i == off
  {
  }
}
