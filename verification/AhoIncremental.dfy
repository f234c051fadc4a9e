/** Interleaved insertions and builds: what a scan reports afterwards, in terms of the operations. */
module AhoIncremental {
  import opened AhoTrie
  import opened AhoScan
  import opened AhoIds
  import opened AhoCorasick

  /** Since the last clear no string was given a second id. */
  ghost predicate Stable(ops: seq<Op>) {
    ops == [] ||
    match ops[|ops| - 1]
    case Clear => true
    case Add(s, id) => Stable(ops[..|ops| - 1]) && KeepsId(PatternsOf(ops[..|ops| - 1]), s, id)
    case Build => Stable(ops[..|ops| - 1])
  }

  ghost predicate IdsCarried(ids: map<string, int>, patterns: map<string, int>) {
    forall t :: t in ids && t != "" && ids[t] != NONE ==> Carried(patterns, t, ids[t])
  }

  lemma InheritedIsCarried(ids: map<string, int>, patterns: map<string, int>, s: string)
    requires IdsCarried(ids, patterns) && Inherited(ids, s) != NONE
    ensures Carried(patterns, s, Inherited(ids, s))
  {
    if s !in ids || ids[s] == NONE {
      InheritedIsCarried(ids, patterns, s[1..]);
      ProperSuffix(s[1..], s);
      assert Suffix(s[1..], s);
      CarriedBySuffix(patterns, s[1..], s, Inherited(ids, s));
    }
  }

  lemma AddKeepsCarried(ids: map<string, int>, patterns: map<string, int>, s: string, id: int)
    requires IdsCarried(ids, patterns) && KeepsId(patterns, s, id)
    ensures IdsCarried(AddedIds(ids, s, id), Inserted(patterns, s, id))
  {
    var ids', patterns' := AddedIds(ids, s, id), Inserted(patterns, s, id);
    forall t | t in ids' && t != "" && ids'[t] != NONE ensures Carried(patterns', t, ids'[t]) {
      if t == s {
        assert Suffix(s, s);
      } else {
        var p :| p in patterns && p != "" && Suffix(p, t) && patterns[p] == ids[t];
        assert p in patterns' && patterns'[p] == ids[t];
      }
    }
  }

  /** While no string is given a second id, each id in the trie is that of a pattern that ends its string. */
  lemma {:induction false} StableIdsCarried(ops: seq<Op>)
    requires Stable(ops)
    ensures IdsCarried(IdsOf(ops), PatternsOf(ops))
  {
    if ops != [] {
      var before := ops[..|ops| - 1];
      match ops[|ops| - 1]
      case Clear =>
      case Add(s, id) =>
        StableIdsCarried(before);
        AddKeepsCarried(IdsOf(before), PatternsOf(before), s, id);
      case Build =>
        StableIdsCarried(before);
        var ids := IdsOf(before);
        forall t | t in ids && t != "" && Inherited(ids, t) != NONE
          ensures Carried(PatternsOf(before), t, Inherited(ids, t))
        {
          InheritedIsCarried(ids, PatternsOf(before), t);
        }
    }
  }

  lemma StableIdsInside(ops: seq<Op>)
    requires Stable(ops)
    ensures IdsInside(IdsOf(ops), PatternsOf(ops))
  {
    var ids, patterns := IdsOf(ops), PatternsOf(ops);
    StableIdsCarried(ops);
    forall t | t in ids && t != "" && ids[t] != NONE ensures ids[t] in MatchIds(patterns, t) {
      var p :| p in patterns && p != "" && Suffix(p, t) && patterns[p] == ids[t];
      assert t[..|t| - 1 + 1] == t;
      SuffixOccurs(p, t, |t| - 1);
    }
  }

  /** One operation on a matcher; `done` lists the earlier ones. */
  method Apply(ac: AhoCorasick, op: Op, ghost done: seq<Op>)
    requires ac.Valid() && ac.patterns == PatternsOf(done) && (Stable(done) ==> ac.IsSound())
    requires Holds(ac.node, ac.labels, IdsOf(done))
    modifies ac
    ensures ac.Valid() && ac.patterns == PatternsOf(done + [op]) && (Stable(done + [op]) ==> ac.IsSound())
    ensures Holds(ac.node, ac.labels, IdsOf(done + [op]))
    ensures op.Build? ==> ac.IsBuilt()
  {
    hide Tree, OwnIds, SoundIds, Built, AllLinkBack;
    assert (done + [op])[..|done|] == done;
    match op
    case Clear =>
      ac.Clear();
      LabelsDiffer(ac.node, ac.labels);
      NothingYet(ac.node, ac.labels);
    case Add(s, id) =>
      ghost var node0, labels0 := ac.node, ac.labels;
      ac.Insert(s, id);
      LabelsDiffer(ac.node, ac.labels);
      InsertHolds(node0, labels0, ac.node, ac.labels, IdsOf(done), s, id);
    case Build =>
      var order := ac.BuildAutomata(IdsOf(done));
  }

  lemma LabelsDiffer(nodes: seq<Node>, labels: seq<string>)
    requires Tree(nodes, labels)
    ensures |nodes| == |labels| && forall i, j :: 0 <= i < j < |labels| ==> labels[i] != labels[j]
  {
  }

  /**
    Any interleaving of operations that ends in a build scans as the ids say that the operations leave in the trie:
    exactly, if no string was given a second id, ids of earlier builds notwithstanding.
   */
  method Replay(ops: seq<Op>, text: string) returns (ret: set<int>)
    requires EndsInBuild(ops)
    ensures forall id :: id in ret <==> ScanReports(IdsOf(ops), text, id)
    ensures Stable(ops) ==> ret == MatchIds(PatternsOf(ops), text)
  {
    hide Tree, OwnIds, SoundIds, Built, AllLinkBack, MatchIds, PatternsOf, Stable, IdsOf, Holds, ReportedIn,
        ScanReports;
    var ac := new AhoCorasick();
    LabelsDiffer(ac.node, ac.labels);
    NothingYet(ac.node, ac.labels);
    for k := 0 to |ops|
      invariant fresh(ac) && ac.Valid() && ac.patterns == PatternsOf(ops[..k]) && (Stable(ops[..k]) ==> ac.IsSound())
      invariant Holds(ac.node, ac.labels, IdsOf(ops[..k]))
      invariant k == |ops| ==> ac.IsBuilt()
    {
      Apply(ac, ops[k], ops[..k]);
      assert ops[..k + 1] == ops[..k] + [ops[k]];
    }
    assert ops[..|ops|] == ops;
    ghost var hops;
    ret, hops := ac.GetMatch(text);
    forall id ensures id in ret <==> ScanReports(IdsOf(ops), text, id) {
      ReportsAreScan(ac.node, ac.labels, IdsOf(ops), text, id);
    }
  }

  /** Replaying scans every text exactly iff no string is left with the id of a pattern that is not inside it. */
  lemma ReplayIsExactIff(ops: seq<Op>)
    requires EndsInBuild(ops)
    ensures (forall text :: ScansExactly(IdsOf(ops), PatternsOf(ops), text)) <==> IdsInside(IdsOf(ops), PatternsOf(ops))
    ensures Stable(ops) ==> IdsInside(IdsOf(ops), PatternsOf(ops))
  {
    ExactIffInside(ops);
    if Stable(ops) {
      StableIdsInside(ops);
    }
  }

  lemma NothingYet(nodes: seq<Node>, labels: seq<string>)
    requires |nodes| == 1 && labels == [""] && nodes[ROOT].id == NONE
    ensures PatternsOf([]) == map[] && Holds(nodes, labels, IdsOf([]))
  {
  }

  /** A built node that ends with just one pattern has that pattern's id. */
  lemma OnlySuffixGivesId(nodes: seq<Node>, labels: seq<string>, patterns: map<string, int>, i: nat, p: string)
    requires Built(nodes, labels, patterns) && SoundIds(nodes, labels, patterns) && 0 < i < |labels|
    requires p in patterns && p != "" && Suffix(p, labels[i])
    requires forall x :: x in patterns && Suffix(x, labels[i]) ==> x == p
    ensures nodes[i].id == patterns[p]
  {
    assert DoneAt(nodes, labels, patterns, i);
  }

  lemma PatternsAfter(done: seq<Op>, op: Op)
    ensures PatternsOf(done + [op]) ==
            match op
            case Clear => map[]
            case Add(s, id) => Inserted(PatternsOf(done), s, id)
            case Build => PatternsOf(done)
  {
    assert (done + [op])[..|done|] == done;
  }

  lemma StalePatterns()
    ensures PatternsOf([Add("b", 1), Add("abc", 2), Build, Add("b", 3), Build]) == map["b" := 3, "abc" := 2]
  {
    hide PatternsOf;
    var one, two := [Add("b", 1)], [Add("b", 1), Add("abc", 2)];
    assert PatternsOf([]) == map[] by { NothingYet([Node(NONE, NONE, map[])], [""]); }
    PatternsAfter([], Add("b", 1));
    assert [] + one == one && one + [Add("abc", 2)] == two;
    PatternsAfter(one, Add("abc", 2));
    PatternsAfter(two, Build);
    PatternsAfter(two + [Build], Add("b", 3));
    PatternsAfter(two + [Build] + [Add("b", 3)], Build);
    assert two + [Build] + [Add("b", 3)] + [Build] == [Add("b", 1), Add("abc", 2), Build, Add("b", 3), Build];
  }

  /** After the first build the node of "ab" has the id of "b". */
  method FirstBuild() returns (ac: AhoCorasick, ghost i: nat)
    ensures fresh(ac) && ac.Valid() && 0 < i < |ac.labels| == |ac.node| && ac.labels[i] == "ab" && ac.node[i].id == 1
  {
    hide Tree, SoundIds, Built, AllLinkBack, OwnIds, Suffix;
    ac := new AhoCorasick();
    ac.Insert("b", 1);
    ac.Insert("abc", 2);
    assert "ab" <= "abc";
    assert "ab" in ac.labels;
    i :| 0 <= i < |ac.labels| && ac.labels[i] == "ab";
    ghost var order := ac.BuildAutomata(map[]);
    SuffixesOfAb();
    LabelsMatch(ac.node, ac.labels);
    OnlySuffixGivesId(ac.node, ac.labels, ac.patterns, i, "b");
  }

  /** A changed id is not exact: "ab" took 1 from "b" in the first build and keeps it. */
  method StaleId() returns (ret: set<int>)
    ensures var ops := [Add("b", 1), Add("abc", 2), Build, Add("b", 3), Build];
            1 in ret && 1 !in MatchIds(PatternsOf(ops), "ab")
  {
    hide Tree, SoundIds, Built, AllLinkBack, OwnIds, PatternsOf;
    ghost var i: nat;
    var ac;
    ac, i := FirstBuild();
    ghost var before := ac.labels;
    ac.Insert("b", 3);
    assert ac.labels[i] == ac.labels[..|before|][i] == "ab";
    LabelsMatch(ac.node, ac.labels);
    ghost var order := ac.BuildAutomata(map[]);
    OwnNodeIsReported(ac.node, ac.labels, i);
    ghost var hops;
    ret, hops := ac.GetMatch("ab");
    StalePatterns();
  }

  lemma SuffixesOfAb()
    ensures Suffix("b", "ab") && !Suffix("abc", "ab")
  {
  }
}
