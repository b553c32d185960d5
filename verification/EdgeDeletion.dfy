/** Deleting an edge from a graph in which nothing is wrong but its cycles: only one cycle is
    reported at a time, so breaking it can uncover another. */
module EdgeDeletion {
  import opened Basics
  import opened CycleSearch
  import opened WorkflowGraph
  import opened GraphRules
  import opened GraphReports
  import opened GraphTexts
  import opened GraphEdits
  import opened NewIssues

  lemma OnlyCycleErrors(graph: Graph, options: Options)
    requires LocallyAccepted(graph, options)
    ensures ErrorsOf(graph, options) == CycleErrors(ByKey(graph.nodes), CycleFoundIn(graph))
    ensures CycleFoundIn(graph).None? <==> NoCycles(graph)
  {
    LocallyAcceptedMeans(graph, options);
    SearchDecidesCycles(graph, options);
  }

  lemma FewerEdgesStayAccepted(graph: Graph, options: Options, k: nat)
    requires k < |graph.edges| && LocallyAccepted(graph, options)
    ensures LocallyAccepted(WithoutEdge(graph, k), options)
  {
    LocalRulesExactly(graph, options);
    FewerEdgesStayUsable(graph, options, k);
    assert NodesUsable(WithoutEdge(graph, k), options);
    LocalRulesExactly(WithoutEdge(graph, k), options);
  }

  lemma SameNamesSameKeys(byKey: Index, c: seq<string>, d: seq<string>)
    requires NamesTellApart(byKey, byKey) && NamesOf(byKey, c) == NamesOf(byKey, d)
    requires (forall i :: 0 <= i < |c| ==> c[i] in byKey) && (forall i :: 0 <= i < |d| ==> d[i] in byKey)
    ensures c == d
  {
    assert |NamesOf(byKey, c)| == |NamesOf(byKey, d)|;
    forall i | 0 <= i < |c|
      ensures c[i] == d[i]
    {
      assert NamesOf(byKey, c)[i] == NamesOf(byKey, d)[i];
    }
  }

  /** Reported cycles of two graphs with the same steps read alike only if they are the same. */
  lemma SameTextSameCycle(graph: Graph, other: Graph)
    requires graph.nodes == other.nodes && PlainGraph(graph) && PlainGraph(other)
    requires NamesTellApart(ByKey(graph.nodes), ByKey(graph.nodes))
    requires CycleFoundIn(graph).Some? && CycleFoundIn(other).Some?
    ensures var byKey := ByKey(graph.nodes);
            Render(GraphCycle(NamesOf(byKey, CycleFoundIn(graph).value)))
            == Render(GraphCycle(NamesOf(byKey, CycleFoundIn(other).value)))
            ==> CycleFoundIn(graph) == CycleFoundIn(other)
  {
    var byKey, c, d := ByKey(graph.nodes), CycleFoundIn(graph).value, CycleFoundIn(other).value;
    var m, n := GraphCycle(NamesOf(byKey, c)), GraphCycle(NamesOf(byKey, d));
    CycleKeysAreKeys(graph.nodes, ValidLinks(byKey, graph.edges, |graph.edges|), c);
    CycleKeysAreKeys(graph.nodes, ValidLinks(byKey, other.edges, |other.edges|), d);
    if Render(m) == Render(n) {
      CycleStepsAreNamed(graph);
      CycleStepsAreNamed(other);
      CycleTextsTell(m, n);
      SameNamesSameKeys(byKey, c, d);
    }
  }

  lemma OneErrorEach(before: Check, after: Check, f: Issue, e: Issue)
    requires before.errors == [f] && after.errors == [e]
    ensures NewGraphErrors(before, after) == [] <==> Render(e.message) == Render(f.message)
  {
    assert f in before.errors && e in after.errors;
    AcceptedExactlyWhen(before, after);
    assert Render(e.message) in Shown(after) && Render(f.message) in Shown(before);
  }

  /** The deletion is accepted exactly when no cycle is left or the same one is reported. */
  lemma DeletionAcceptedExactlyWhen(graph: Graph, options: Options, k: nat)
    requires k < |graph.edges| && LocallyAccepted(graph, options)
    requires PlainGraph(graph) && NamesTellApart(ByKey(graph.nodes), ByKey(graph.nodes))
    ensures var less := WithoutEdge(graph, k);
            NewGraphErrors(CheckOf(graph, options), CheckOf(less, options)) == []
            <==> NoCycles(less) || CycleFoundIn(less) == CycleFoundIn(graph)
  {
    var less := WithoutEdge(graph, k);
    FewerEdgesStayAccepted(graph, options, k);
    OnlyCycleErrors(graph, options);
    OnlyCycleErrors(less, options);
    if NoCycles(less) {
      assert CheckOf(less, options).errors == [];
    } else {
      var walk :| ClosedWalk(less, walk);
      FewerEdgesFewerWalks(graph, k, walk);
      var byKey := ByKey(graph.nodes);
      var f := Issue(GraphCycle(NamesOf(byKey, CycleFoundIn(graph).value)), None, None);
      var e := Issue(GraphCycle(NamesOf(byKey, CycleFoundIn(less).value)), None, None);
      OneErrorEach(CheckOf(graph, options), CheckOf(less, options), f, e);
      FewerEdgesStayPlain(graph, k);
      SameTextSameCycle(graph, less);
    }
  }

  lemma FewerEdgesStayPlain(graph: Graph, k: nat)
    requires k < |graph.edges| && PlainGraph(graph)
    ensures PlainGraph(WithoutEdge(graph, k))
  {
    var less := WithoutEdge(graph, k);
    forall e | e in less.edges
      ensures e in graph.edges
    {
      var i :| 0 <= i < |less.edges| && less.edges[i] == e;
      assert graph.edges[if i < k then i else i + 1] == e;
    }
  }

  ghost predicate PassesEdge(c: seq<string>, e: Edge) {
    exists i :: 0 < i < |c| && c[i - 1] == e.from && c[i] == e.to
  }

  /** So an edge of the reported cycle can be deleted exactly when that leaves no cycle at all:
      the deletion is refused because of a cycle it does not introduce. */
  lemma DeletionFromReportedCycle(graph: Graph, options: Options, k: nat)
    requires k < |graph.edges| && LocallyAccepted(graph, options)
    requires PlainGraph(graph) && NamesTellApart(ByKey(graph.nodes), ByKey(graph.nodes))
    requires CycleFoundIn(graph).Some? && PassesEdge(CycleFoundIn(graph).value, graph.edges[k])
    ensures var less := WithoutEdge(graph, k);
            NewGraphErrors(CheckOf(graph, options), CheckOf(less, options)) == [] <==> NoCycles(less)
  {
    var less, c := WithoutEdge(graph, k), CycleFoundIn(graph).value;
    DeletionAcceptedExactlyWhen(graph, options, k);
    LocalRulesExactly(graph, options);
    BrokenWalk(graph, k, c);
    if CycleFoundIn(less).Some? {
      ReportedCycleIsReal(less);
    }
  }

  lemma BrokenWalk(graph: Graph, k: nat, c: seq<string>)
    requires k < |graph.edges| && NoDuplicateEdges(graph) && PassesEdge(c, graph.edges[k])
    ensures !ClosedWalk(WithoutEdge(graph, k), c)
  {
    var less, e := WithoutEdge(graph, k), graph.edges[k];
    assert !EdgeLeads(less, e.from, e.to) by {
      assert forall j | 0 <= j < |less.edges| :: less.edges[j] == graph.edges[if j < k then j else j + 1];
    }
    var i :| 0 < i < |c| && c[i - 1] == e.from && c[i] == e.to;
    assert !EdgeLeads(less, c[i - 1], c[i]);
  }

  // ---------------------------------------------------------------- an edit that is refused

  /** Untitled steps that all ask for the same work, and dependencies between them. */
  function PlainSteps(keys: seq<string>, links: seq<Link>, work: string): Graph {
    Graph(seq(|keys|, i requires 0 <= i < |keys| => PlainStep(keys[i], work)),
          seq(|links|, i requires 0 <= i < |links| => PlainEdge(links[i].from, links[i].to)))
  }

  /** Usable as a key, and free of the characters that could make texts ambiguous. */
  ghost predicate PlainKey(key: string) {
    !IsBlank(key) && '\"' !in key && '\U{2192}' !in key && NulFree(key)
  }

  ghost predicate PlainInput(keys: seq<string>, links: seq<Link>, work: string) {
    && !IsBlank(work) && Distinct(keys) && (forall k :: k in keys ==> PlainKey(k))
    && (forall l :: l in links ==> l.from in keys && l.to in keys && l.from != l.to)
    && (forall i, j :: 0 <= i < j < |links| ==> links[i] != links[j])
  }

  lemma KeysOfSteps(keys: seq<string>, links: seq<Link>, work: string, key: string)
    ensures IsKey(PlainSteps(keys, links, work), key) <==> key in keys
    ensures key in ByKey(PlainSteps(keys, links, work).nodes) <==> key in keys
  {
    var g := PlainSteps(keys, links, work);
    if IsKey(g, key) {
      var i :| 0 <= i < |g.nodes| && g.nodes[i].key == key;
      assert keys[i] == key;
    }
    if key in keys {
      var i :| 0 <= i < |keys| && keys[i] == key;
      assert g.nodes[i].key == key;
    }
  }

  lemma PlainEdgesUsable(keys: seq<string>, links: seq<Link>, work: string, options: Options)
    requires PlainInput(keys, links, work)
    ensures var g := PlainSteps(keys, links, work);
            EdgesUsable(g, options) && NoDuplicateEdges(g) && PairKeysFaithful(g)
  {
    var g := PlainSteps(keys, links, work);
    forall i | 0 <= i < |g.edges|
      ensures IsKey(g, g.edges[i].from) && IsKey(g, g.edges[i].to) && g.edges[i].from != g.edges[i].to
      ensures NulFree(g.edges[i].from) && g.edges[i] == PlainEdge(links[i].from, links[i].to)
    {
      assert links[i] in links;
      KeysOfSteps(keys, links, work, links[i].from);
      KeysOfSteps(keys, links, work, links[i].to);
    }
    forall i, j | 0 <= i < j < |g.edges|
      ensures PairKey(g.edges[i]) == PairKey(g.edges[j]) ==> SamePair(g.edges[i], g.edges[j])
      ensures !SamePair(g.edges[i], g.edges[j])
    {
      PairKeyInjective(g.edges[i], g.edges[j]);
      assert links[i] != links[j];
    }
  }

  lemma PlainStepsAccepted(keys: seq<string>, links: seq<Link>, work: string, options: Options)
    requires PlainInput(keys, links, work) && keys != []
    ensures LocallyAccepted(PlainSteps(keys, links, work), options)
  {
    var g := PlainSteps(keys, links, work);
    forall i | 0 <= i < |g.nodes|
      ensures !IsBlank(g.nodes[i].key) && StepUsable(options, g.nodes[i])
    {
      assert keys[i] in keys;
    }
    PlainEdgesUsable(keys, links, work, options);
    LocalRulesExactly(g, options);
  }

  lemma QuotedKey(key: string, other: string)
    ensures '\"' !in key ==> IsPlainName("\"" + key + "\"")
    ensures "\"" + key + "\"" == "\"" + other + "\"" ==> key == other
  {
    assert ("\"" + key + "\"")[1..|key| + 1] == key && ("\"" + other + "\"")[1..|other| + 1] == other;
  }

  lemma PlainStepsNamed(keys: seq<string>, links: seq<Link>, work: string)
    requires PlainInput(keys, links, work)
    ensures var g := PlainSteps(keys, links, work);
            PlainGraph(g) && NamesTellApart(ByKey(g.nodes), ByKey(g.nodes))
  {
    var g := PlainSteps(keys, links, work);
    var byKey := ByKey(g.nodes);
    forall k | k in byKey
      ensures k in keys && Name(byKey, k) == "\"" + k + "\"" && IsPlainName(Name(byKey, k))
    {
      KeysOfSteps(keys, links, work, k);
      var i :| 0 <= i < |g.nodes| && g.nodes[i] == byKey[k];
      assert Trim("") == "";
      QuotedKey(k, k);
    }
    forall k, l | k in byKey && l in byKey && Name(byKey, k) == Name(byKey, l)
      ensures k == l
    {
      QuotedKey(k, l);
    }
    forall e | e in g.edges
      ensures '\U{2192}' !in e.from && '\"' !in e.to
    {
      var i :| 0 <= i < |g.edges| && g.edges[i] == e;
      assert links[i] in links;
    }
  }

  lemma AcceptedNodesSearched(graph: Graph, options: Options, keys: seq<string>)
    requires AllNodesAccepted(graph, options)
    requires |keys| == |graph.nodes| && forall i :: 0 <= i < |keys| ==> graph.nodes[i].key == keys[i]
    ensures UsableKeys(graph.nodes, |graph.nodes|) == keys
  {
    forall i | 0 <= i < |graph.nodes|
      ensures !IsBlank(graph.nodes[i].key) && FirstUse(graph.nodes, i)
    {
      assert NodeAccepted(options, graph.nodes, i);
    }
    AllKeysUsable(graph.nodes, |graph.nodes|);
  }

  lemma AcceptedEdgesSearched(graph: Graph, options: Options, links: seq<Link>)
    requires AllEdgesAccepted(graph, options)
    requires |links| == |graph.edges|
    requires forall i :: 0 <= i < |links| ==> Link(graph.edges[i].from, graph.edges[i].to) == links[i]
    ensures ValidLinks(ByKey(graph.nodes), graph.edges, |graph.edges|) == links
  {
    var byKey := ByKey(graph.nodes);
    forall i | 0 <= i < |graph.edges|
      ensures Joins(byKey, graph.edges[i]) && FirstPair(byKey, graph.edges, i)
    {
      assert EdgeAccepted(byKey, options, graph.edges, i);
    }
    AllLinksValid(byKey, graph.edges, |graph.edges|);
  }

  /** The search is run on the keys and links themselves. */
  lemma PlainStepsSearched(keys: seq<string>, links: seq<Link>, work: string, options: Options)
    requires PlainInput(keys, links, work) && keys != []
    ensures CycleFoundIn(PlainSteps(keys, links, work)) == CycleOf(keys, links)
  {
    var g := PlainSteps(keys, links, work);
    PlainStepsAccepted(keys, links, work, options);
    LocallyAcceptedMeans(g, options);
    AcceptedNodesSearched(g, options, keys);
    AcceptedEdgesSearched(g, options, links);
  }

  lemma BackEdgeFound(adjacency: Adjacency, universe: set<string>, s: Search, key: string)
    requires Closed(adjacency, universe) && key in universe && key in s.state && s.state[key] == Visiting
    ensures VisitResult(adjacency, universe, s, key).1 == Some(SuffixFrom(s.stack, key) + [key])
  {
  }

  lemma OnlyTarget(adjacency: Adjacency, universe: set<string>, s: Search, key: string, next: string)
    requires Closed(adjacency, universe) && key in universe && next in universe
    requires key !in s.state && Next(adjacency, key) == [next]
    requires VisitResult(adjacency, universe, Entered(s, key), next).1.Some?
    ensures VisitResult(adjacency, universe, s, key).1 == VisitResult(adjacency, universe, Entered(s, key), next).1
  {
    assert VisitEachResult(adjacency, universe, Entered(s, key), [next]).1
        == VisitResult(adjacency, universe, Entered(s, key), next).1;
  }

  function Entered(s: Search, key: string): Search {
    Search(s.state[key := Visiting], s.stack + [key], s.finished)
  }

  lemma LoopTargets(a: string, b: string, c: string, d: string)
    requires Distinct([a, b, c, d])
    ensures Targets([Link(a, b), Link(b, a), Link(c, d), Link(d, c)], a) == [b]
    ensures Targets([Link(a, b), Link(b, a), Link(c, d), Link(d, c)], b) == [a]
  {
    var keys, links := [a, b, c, d], [Link(a, b), Link(b, a), Link(c, d), Link(d, c)];
    assert keys[0] != keys[1] && keys[0] != keys[2] && keys[0] != keys[3] && keys[1] != keys[2] && keys[1] != keys[3];
    assert links[..3] == [Link(a, b), Link(b, a), Link(c, d)];
    assert links[..3][..2] == [Link(a, b), Link(b, a)] && links[..3][..2][..1] == [Link(a, b)];
    forall k | k == a || k == b
      ensures Targets(links, k) == Targets([Link(a, b), Link(b, a)], k)
    {
      assert Targets(links, k) == Targets(links[..3], k) == Targets(links[..3][..2], k);
    }
    assert [Link(a, b)][..0] == [];
    assert Targets([Link(a, b)], a) == [b] && Targets([Link(a, b)], b) == [];
    assert [Link(a, b), Link(b, a)][..1] == [Link(a, b)];
  }

  lemma LoopIsFound(adjacency: Adjacency, universe: set<string>, a: string, b: string)
    requires Closed(adjacency, universe) && a in universe && b in universe && a != b
    requires Next(adjacency, a) == [b] && Next(adjacency, b) == [a]
    ensures VisitResult(adjacency, universe, START, a).1 == Some([a, b, a])
  {
    var inA := Entered(START, a);
    var inB := Entered(inA, b);
    assert inB.stack == [a, b] && SuffixFrom([a, b], a) == [a, b] && [a, b] + [a] == [a, b, a];
    BackEdgeFound(adjacency, universe, inB, a);
    OnlyTarget(adjacency, universe, inA, b, a);
    OnlyTarget(adjacency, universe, START, a, b);
  }

  /** With two loops, the search reports the one it comes to first. */
  lemma FirstLoopIsFound(a: string, b: string, c: string, d: string)
    requires Distinct([a, b, c, d])
    ensures CycleOf([a, b, c, d], [Link(a, b), Link(b, a), Link(c, d), Link(d, c)]) == Some([a, b, a])
  {
    var keys, links := [a, b, c, d], [Link(a, b), Link(b, a), Link(c, d), Link(d, c)];
    var adjacency, universe := BuildAdjacency(keys, links), Universe(keys, links);
    LoopTargets(a, b, c, d);
    assert keys[0] == a && keys[1] == b && a in keys && b in keys && a != b;
    LoopIsFound(adjacency, universe, a, b);
    FirstRootFinds(adjacency, universe, keys);
  }

  lemma FirstRootFinds(adjacency: Adjacency, universe: set<string>, roots: seq<string>)
    requires Closed(adjacency, universe) && (forall k | k in roots :: k in universe) && roots != []
    requires VisitResult(adjacency, universe, START, roots[0]).1.Some?
    ensures VisitRootsResult(adjacency, universe, START, roots).1 == VisitResult(adjacency, universe, START, roots[0]).1
  {
  }

  /** Deleting an edge of the first loop is refused, because of the second loop, which was
      there before: only its text is new. */
  lemma DeletionCanBeRefused(a: string, b: string, c: string, d: string, work: string, options: Options)
    requires Distinct([a, b, c, d]) && !IsBlank(work) && PlainKey(a) && PlainKey(b) && PlainKey(c) && PlainKey(d)
    ensures var before := PlainSteps([a, b, c, d], [Link(a, b), Link(b, a), Link(c, d), Link(d, c)], work);
            var after := WithoutEdge(before, 0);
            && NewGraphErrors(CheckOf(before, options), CheckOf(after, options)) != []
            && forall walk :: ClosedWalk(after, walk) ==> ClosedWalk(before, walk)
  {
    var keys, links := [a, b, c, d], [Link(a, b), Link(b, a), Link(c, d), Link(d, c)];
    LoopsArePlain(a, b, c, d, work);
    PlainStepsAccepted(keys, links, work, options);
    PlainStepsNamed(keys, links, work);
    PlainStepsSearched(keys, links, work, options);
    FirstLoopIsFound(a, b, c, d);
    UncoveringIsRefused(PlainSteps(keys, links, work), options, 0, [a, b, a], [c, d, c]);
  }

  lemma LoopsArePlain(a: string, b: string, c: string, d: string, work: string)
    requires Distinct([a, b, c, d]) && !IsBlank(work) && PlainKey(a) && PlainKey(b) && PlainKey(c) && PlainKey(d)
    ensures var keys, links := [a, b, c, d], [Link(a, b), Link(b, a), Link(c, d), Link(d, c)];
            var g := PlainSteps(keys, links, work);
            && PlainInput(keys, links, work)
            && PassesEdge([a, b, a], g.edges[0]) && ClosedWalk(WithoutEdge(g, 0), [c, d, c])
  {
    var keys, links := [a, b, c, d], [Link(a, b), Link(b, a), Link(c, d), Link(d, c)];
    var g := PlainSteps(keys, links, work);
    var less := WithoutEdge(g, 0);
    assert keys[0] != keys[1] && keys[0] != keys[2] && keys[2] != keys[3];
    assert keys[0] != keys[3] && keys[1] != keys[2] && keys[1] != keys[3];
    assert [a, b, a][0] == g.edges[0].from && [a, b, a][1] == g.edges[0].to;
    assert less.edges[1] == g.edges[2] == PlainEdge(c, d) && less.edges[2] == g.edges[3] == PlainEdge(d, c);
    assert EdgeLeads(less, c, d) && EdgeLeads(less, d, c);
  }

  /** In general: breaking the reported cycle is refused whenever another one was there. */
  lemma UncoveringIsRefused(graph: Graph, options: Options, k: nat, reported: seq<string>, walk: seq<string>)
    requires k < |graph.edges| && LocallyAccepted(graph, options)
    requires PlainGraph(graph) && NamesTellApart(ByKey(graph.nodes), ByKey(graph.nodes))
    requires CycleFoundIn(graph) == Some(reported) && PassesEdge(reported, graph.edges[k])
    requires ClosedWalk(WithoutEdge(graph, k), walk)
    ensures NewGraphErrors(CheckOf(graph, options), CheckOf(WithoutEdge(graph, k), options)) != []
    ensures forall w :: ClosedWalk(WithoutEdge(graph, k), w) ==> ClosedWalk(graph, w)
  {
    DeletionFromReportedCycle(graph, options, k);
    forall w | ClosedWalk(WithoutEdge(graph, k), w)
      ensures ClosedWalk(graph, w)
    {
      FewerEdgesFewerWalks(graph, k, w);
    }
  }
}
