/** The breadth-first order in which `build_automata` visits the trie. */
module AhoBfs {
  import opened AhoTrie

  /** The same edges; links and ids may differ. */
  ghost predicate SameShape(a: seq<Node>, b: seq<Node>) {
    |a| == |b| && forall i :: 0 <= i < |a| ==> a[i].child == b[i].child
  }

  lemma TreeKeepsShape(a: seq<Node>, b: seq<Node>, labels: seq<string>)
    requires Tree(a, labels) && SameShape(a, b)
    ensures Tree(b, labels)
  {
    forall j | 0 < j < |labels| ensures HasParent(b, labels, j) {
      var i, c := ParentOf(a, labels, j);
      assert IsParent(b, labels, i, c, j);
    }
  }

  /** The nodes queued so far, each once, in order of depth. */
  ghost predicate Queue(labels: seq<string>, order: seq<int>) {
    && 0 < |order| && order[0] == ROOT
    && (forall p :: 0 <= p < |order| ==> 0 <= order[p] < |labels|)
    && (forall p, q :: 0 <= p < q < |order| ==> order[p] != order[q])
    && (forall p, q :: 0 <= p < q < |order| ==> |labels[order[p]]| <= |labels[order[q]]|)
  }

  /** The edge `c` of the node at place `p` leads to a queued node. */
  ghost predicate ChildQueued(nodes: seq<Node>, order: seq<int>, p: nat, c: char)
    requires p < |order| && 0 <= order[p] < |nodes|
  {
    c in nodes[order[p]].child ==> nodes[order[p]].child[c] in order
  }

  /** The node at place `p` was reached by an edge already handled: from before `h`, or from `h` and not in `todo`. */
  ghost predicate CameFrom(nodes: seq<Node>, labels: seq<string>, order: seq<int>, h: nat, todo: set<char>, p: nat)
    requires Queue(labels, order) && |nodes| == |labels| && p < |order|
  {
    exists q: nat, c: char :: Via(nodes, labels, order, h, todo, p, q, c)
  }

  ghost predicate Via(nodes: seq<Node>, labels: seq<string>, order: seq<int>, h: nat, todo: set<char>, p: nat,
                      q: nat, c: char)
    requires Queue(labels, order) && |nodes| == |labels| && p < |order|
  {
    && q <= h && q < |order| && (q == h ==> c !in todo)
    && c in nodes[order[q]].child && nodes[order[q]].child[c] == order[p]
  }

  /** All nodes before place `h` are finished; of the one at `h` the edges in `todo` remain. */
  ghost predicate Frontier(nodes: seq<Node>, labels: seq<string>, order: seq<int>, h: nat, todo: set<char>) {
    && |nodes| == |labels| && Queue(labels, order) && h <= |order|
    && (forall p, c :: 0 <= p < h ==> ChildQueued(nodes, order, p, c))
    && (h < |order| ==> forall c :: c !in todo ==> ChildQueued(nodes, order, h, c))
    && (forall p :: 0 < p < |order| ==> CameFrom(nodes, labels, order, h, todo, p))
    && (h < |order| ==> forall p :: 0 <= p < |order| ==> |labels[order[p]]| <= |labels[order[h]]| + 1)
  }

  lemma Starts(nodes: seq<Node>, labels: seq<string>)
    requires Tree(nodes, labels)
    ensures Frontier(nodes, labels, [ROOT], 0, nodes[ROOT].child.Keys)
  {
  }

  /** Everything no deeper than the node being handled has been queued. */
  lemma {:induction false} ShallowIsQueued(nodes: seq<Node>, labels: seq<string>, order: seq<int>, h: nat,
        todo: set<char>, j: nat)
    requires Tree(nodes, labels) && Frontier(nodes, labels, order, h, todo) && j < |labels|
    requires h < |order| ==> |labels[j]| <= |labels[order[h]]|
    ensures j in order
    decreases |labels[j]|
  {
    OnlyRootIsEmpty(nodes, labels, j);
    if j != ROOT {
      var i, c := ParentOf(nodes, labels, j);
      ShallowIsQueued(nodes, labels, order, h, todo, i);
      var p :| 0 <= p < |order| && order[p] == i;
      assert p < h;
      assert ChildQueued(nodes, order, p, c);
    }
  }

  /** A node is queued at most once: the next child is new. */
  lemma NextIsNew(nodes: seq<Node>, labels: seq<string>, order: seq<int>, h: nat, todo: set<char>, c: char)
    requires Tree(nodes, labels) && Frontier(nodes, labels, order, h, todo) && h < |order|
    requires c in todo && c in nodes[order[h]].child
    ensures nodes[order[h]].child[c] !in order
  {
    var father, d := order[h], nodes[order[h]].child[c];
    assert EdgeFits(labels, father, c, d);
    if d in order {
      var p :| 0 <= p < |order| && order[p] == d;
      assert CameFrom(nodes, labels, order, h, todo, p);
      var q: nat, c': char :| Via(nodes, labels, order, h, todo, p, q, c');
      assert EdgeFits(labels, order[q], c', d);
      LastLetter(labels[father], c, labels[order[q]], c');
    }
  }

  lemma LastLetter(a: string, c: char, b: string, d: char)
    requires a + [c] == b + [d]
    ensures a == b && c == d
  {
    assert (a + [c])[|a|] == c && (b + [d])[|b|] == d && |a| == |b|;
    assert (a + [c])[..|a|] == a && (b + [d])[..|b|] == b;
  }

  lemma QueuePushes(labels: seq<string>, order: seq<int>, h: nat, d: int)
    requires Queue(labels, order) && h < |order| && 0 <= d < |labels| && d !in order
    requires |labels[d]| == |labels[order[h]]| + 1
    requires forall p :: 0 <= p < |order| ==> |labels[order[p]]| <= |labels[order[h]]| + 1
    ensures Queue(labels, order + [d])
  {
  }

  /** Queueing the next child. */
  lemma Pushes(nodes: seq<Node>, labels: seq<string>, order: seq<int>, h: nat, todo: set<char>, c: char)
    requires Tree(nodes, labels) && Frontier(nodes, labels, order, h, todo) && h < |order|
    requires c in todo && c in nodes[order[h]].child
    ensures Frontier(nodes, labels, order + [nodes[order[h]].child[c]], h, todo - {c})
  {
    var father, d := order[h], nodes[order[h]].child[c];
    var order', todo' := order + [d], todo - {c};
    assert EdgeFits(labels, father, c, d);
    NextIsNew(nodes, labels, order, h, todo, c);
    QueuePushes(labels, order, h, d);
    forall p, x | 0 <= p < h ensures ChildQueued(nodes, order', p, x) {
      assert ChildQueued(nodes, order, p, x);
    }
    forall x | x !in todo' ensures ChildQueued(nodes, order', h, x) {
      assert x != c ==> ChildQueued(nodes, order, h, x);
    }
    forall p | 0 < p < |order'| ensures CameFrom(nodes, labels, order', h, todo', p) {
      if p < |order| {
        assert CameFrom(nodes, labels, order, h, todo, p);
        var q: nat, x: char :| Via(nodes, labels, order, h, todo, p, q, x);
        assert Via(nodes, labels, order', h, todo', p, q, x);
      } else {
        assert Via(nodes, labels, order', h, todo', p, h, c);
      }
    }
  }

  /** The next node is taken from the queue. */
  lemma Pops(nodes: seq<Node>, labels: seq<string>, order: seq<int>, h: nat)
    requires Tree(nodes, labels) && Frontier(nodes, labels, order, h, {}) && h < |order|
    ensures Frontier(nodes, labels, order, h + 1, if h + 1 < |order| then nodes[order[h + 1]].child.Keys else {})
  {
    var todo := if h + 1 < |order| then nodes[order[h + 1]].child.Keys else {};
    var next := h + 1;
    forall p | 0 < p < |order| ensures CameFrom(nodes, labels, order, next, todo, p) {
      assert CameFrom(nodes, labels, order, h, {}, p);
      var q: nat, c: char :| Via(nodes, labels, order, h, {}, p, q, c);
      assert Via(nodes, labels, order, next, todo, p, q, c);
    }
    forall p, c | 0 <= p < next ensures ChildQueued(nodes, order, p, c) {
    }
  }

  /** When the queue is empty every node has been in it. */
  lemma AllQueued(nodes: seq<Node>, labels: seq<string>, order: seq<int>)
    requires Tree(nodes, labels) && Frontier(nodes, labels, order, |order|, {})
    ensures forall j :: 0 <= j < |labels| ==> j in order
  {
    forall j | 0 <= j < |labels| ensures j in order {
      ShallowIsQueued(nodes, labels, order, |order|, {}, j);
    }
  }

  /** No node twice, so no more places than nodes. */
  lemma QueueIsShort(labels: seq<string>, order: seq<int>)
    requires Queue(labels, order)
    ensures |order| <= |labels|
  {
    DistinctBelow(order, |labels|);
  }

  ghost function Below(n: nat): (r: set<int>)
    ensures |r| == n && forall x :: x in r <==> 0 <= x < n
  {
    if n == 0 then {} else Below(n - 1) + {n - 1}
  }

  lemma DistinctBelow(s: seq<int>, n: nat)
    requires forall p :: 0 <= p < |s| ==> 0 <= s[p] < n
    requires forall p, q :: 0 <= p < q < |s| ==> s[p] != s[q]
    ensures |s| <= n
  {
    var seen := set x | x in s;
    CountDistinct(s);
    assert Below(n) == seen + (Below(n) - seen);
  }

  lemma {:induction false} CountDistinct(s: seq<int>)
    requires forall p, q :: 0 <= p < q < |s| ==> s[p] != s[q]
    ensures |set x | x in s| == |s|
  {
    if s != [] {
      var init, last := s[..|s| - 1], s[|s| - 1];
      CountDistinct(init);
      assert (set x | x in s) == (set x | x in init) + {last};
    }
  }
}
