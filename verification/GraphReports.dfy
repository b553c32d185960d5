/** Where the errors of `validateWorkflowGraph` point: at every culprit, and at nothing else. */
module GraphReports {
  import opened Basics
  import opened CycleSearch
  import opened WorkflowGraph
  import opened GraphRules

  lemma {:induction false} ConcatMembers(parts: seq<seq<Issue>>, e: Issue)
    ensures e in Concat(parts) <==> exists i :: 0 <= i < |parts| && e in parts[i]
  {
    if parts == [] {
    } else {
      ConcatMembers(parts[..|parts| - 1], e);
    }
  }

  // ---------------------------------------------------------------- edges

  lemma EdgeErrorsPointAtEdge(byKey: Index, options: Options, edges: seq<Edge>, i: nat)
    requires i < |edges|
    ensures forall e :: e in EdgeErrors(byKey, options, edges, i) ==> e.edgeIndex == Some(i)
  {
  }

  /** Some error points at an edge exactly when that edge breaks a rule: an end that is
      unknown, a self edge, a repeated pair key, or a condition that is not allowed. */
  lemma EdgeBlamedExactlyWhen(graph: Graph, options: Options, i: nat)
    requires i < |graph.edges|
    ensures (exists e :: e in ErrorsOf(graph, options) && e.edgeIndex == Some(i))
            <==> !EdgeAccepted(ByKey(graph.nodes), options, graph.edges, i)
  {
    var byKey := ByKey(graph.nodes);
    EdgeErrorsExactly(byKey, options, graph.edges, i);
    if EdgeErrors(byKey, options, graph.edges, i) != [] {
      var e := EdgeErrors(byKey, options, graph.edges, i)[0];
      EdgeErrorsPointAtEdge(byKey, options, graph.edges, i);
      EdgeErrorIsListed(graph, options, e, i);
    }
    forall e | e in ErrorsOf(graph, options) && e.edgeIndex == Some(i)
      ensures EdgeErrors(byKey, options, graph.edges, i) != []
    {
      OnlyEdgeErrorsPointAtEdges(graph, options, e);
      var j: nat :| j < |graph.edges| && e in EdgeErrors(byKey, options, graph.edges, j);
      EdgeErrorsPointAtEdge(byKey, options, graph.edges, j);
    }
  }

  lemma EdgeErrorIsListed(graph: Graph, options: Options, e: Issue, i: nat)
    requires i < |graph.edges| && e in EdgeErrors(ByKey(graph.nodes), options, graph.edges, i)
    ensures e in ErrorsOf(graph, options)
  {
    var parts := EdgeErrorParts(ByKey(graph.nodes), options, graph.edges, |graph.edges|);
    assert e in parts[i];
    ConcatMembers(parts, e);
  }

  ghost predicate PointAt(issues: seq<Issue>, key: string) {
    forall j :: 0 <= j < |issues| ==> issues[j].nodeKey == Some(key) && issues[j].edgeIndex == None
  }

  lemma PointAtBoth(some: seq<Issue>, more: seq<Issue>, key: string)
    requires PointAt(some, key) && PointAt(more, key)
    ensures PointAt(some + more, key)
  {
  }

  lemma LoopErrorsPointAt(byKey: Index, options: Options, node: Node)
    ensures PointAt(LoopErrors(byKey, options, node), node.key)
  {
  }

  lemma StepErrorsPointAt(byKey: Index, options: Options, node: Node)
    ensures PointAt(StepErrors(byKey, options, node), node.key)
  {
    LoopErrorsPointAt(byKey, options, node);
    PointAtBoth(KindErrors(byKey, node), AgentErrors(byKey, options, node), node.key);
    var rules := KindErrors(byKey, node) + AgentErrors(byKey, options, node);
    PointAtBoth(rules, LoopErrors(byKey, options, node), node.key);
  }

  lemma NodeErrorsPointAtNodes(byKey: Index, options: Options, nodes: seq<Node>, i: nat)
    requires i < |nodes|
    ensures forall e :: e in NodeErrors(byKey, options, nodes, i) ==>
              e.edgeIndex == None && (e.nodeKey == Some(nodes[i].key) || (IsBlank(nodes[i].key) && e.nodeKey == None))
  {
    StepErrorsPointAt(byKey, options, nodes[i]);
  }

  lemma OnlyEdgeErrorsPointAtEdges(graph: Graph, options: Options, e: Issue)
    requires e in ErrorsOf(graph, options) && e.edgeIndex.Some?
    ensures exists j: nat :: j < |graph.edges| && e in EdgeErrors(ByKey(graph.nodes), options, graph.edges, j)
  {
    var byKey := ByKey(graph.nodes);
    var nodeParts := NodeErrorParts(byKey, options, graph.nodes, |graph.nodes|);
    var edgeParts := EdgeErrorParts(byKey, options, graph.edges, |graph.edges|);
    ConcatMembers(nodeParts, e);
    ConcatMembers(edgeParts, e);
    forall i | 0 <= i < |nodeParts|
      ensures e !in nodeParts[i]
    {
      NodeErrorsPointAtNodes(byKey, options, graph.nodes, i);
    }
    assert e in AllEdgeErrors(byKey, options, graph.edges, |graph.edges|);
    var j :| 0 <= j < |edgeParts| && e in edgeParts[j];
    assert edgeParts[j] == EdgeErrors(byKey, options, graph.edges, j);
  }

  // ---------------------------------------------------------------- nodes

  ghost predicate KeyFine(graph: Graph, options: Options, key: string) {
    forall i :: 0 <= i < |graph.nodes| && graph.nodes[i].key == key ==> NodeAccepted(options, graph.nodes, i)
  }

  /** Among the errors about nodes, some name a key that is not blank exactly when the key
      is used twice or its step breaks a rule. */
  lemma KeyBlamedExactlyWhen(graph: Graph, options: Options, key: string)
    requires !IsBlank(key)
    ensures (exists e :: e in AllNodeErrors(ByKey(graph.nodes), options, graph.nodes, |graph.nodes|)
                         && e.nodeKey == Some(key))
            <==> !KeyFine(graph, options, key)
  {
    var byKey, all := ByKey(graph.nodes), AllNodeErrors(ByKey(graph.nodes), options, graph.nodes, |graph.nodes|);
    var parts := NodeErrorParts(byKey, options, graph.nodes, |graph.nodes|);
    if !KeyFine(graph, options, key) {
      var i :| 0 <= i < |graph.nodes| && graph.nodes[i].key == key && !NodeAccepted(options, graph.nodes, i);
      NodeErrorsExactly(byKey, options, graph.nodes, i);
      NodeErrorsPointAtNodes(byKey, options, graph.nodes, i);
      var e := NodeErrors(byKey, options, graph.nodes, i)[0];
      assert e in parts[i];
      ConcatMembers(parts, e);
    }
    forall e | e in all && e.nodeKey == Some(key)
      ensures !KeyFine(graph, options, key)
    {
      ConcatMembers(parts, e);
      var i :| 0 <= i < |parts| && e in parts[i];
      NodeErrorsPointAtNodes(byKey, options, graph.nodes, i);
      NodeErrorsExactly(byKey, options, graph.nodes, i);
      assert !NodeAccepted(options, graph.nodes, i);
    }
  }

  // ---------------------------------------------------------------- cycles

  lemma {:induction false} ValidLinksAreEdges(byKey: Index, edges: seq<Edge>, n: nat, l: Link)
    requires n <= |edges| && l in ValidLinks(byKey, edges, n)
    ensures exists i :: 0 <= i < n && edges[i].from == l.from && edges[i].to == l.to
  {
    if l in ValidLinks(byKey, edges, n - 1) {
      ValidLinksAreEdges(byKey, edges, n - 1, l);
    } else {
      assert edges[n - 1].from == l.from;
    }
  }

  /** In any graph, whatever else is wrong with it, a reported cycle is a closed walk along
      its edges that passes no step twice, named step by step. */
  lemma ReportedCycleIsReal(graph: Graph)
    requires CycleFoundIn(graph).Some?
    ensures var c := CycleFoundIn(graph).value;
            && ClosedWalk(graph, c) && Distinct(c[..|c| - 1])
            && CycleErrors(ByKey(graph.nodes), CycleFoundIn(graph))
               == [Issue(GraphCycle(NamesOf(ByKey(graph.nodes), c)), None, None)]
  {
    var byKey := ByKey(graph.nodes);
    var keys, links := UsableKeys(graph.nodes, |graph.nodes|), ValidLinks(byKey, graph.edges, |graph.edges|);
    FoundCycleIsSimple(keys, links);
    var c := CycleFoundIn(graph).value;
    forall i | 0 < i < |c|
      ensures EdgeLeads(graph, c[i - 1], c[i])
    {
      assert Leads(BuildAdjacency(keys, links), c[i - 1], c[i]);
      ValidLinksAreEdges(byKey, graph.edges, |graph.edges|, Link(c[i - 1], c[i]));
    }
  }

  // ---------------------------------------------------------------- where errors come from

  lemma ErrorsComeFromExactly(graph: Graph, options: Options, e: Issue)
    ensures e in ErrorsOf(graph, options) <==>
            || e in EmptyErrors(graph, options)
            || (exists i: nat :: i < |graph.nodes| && e in NodeErrors(ByKey(graph.nodes), options, graph.nodes, i))
            || (exists i: nat :: i < |graph.edges| && e in EdgeErrors(ByKey(graph.nodes), options, graph.edges, i))
            || e in CycleErrors(ByKey(graph.nodes), CycleFoundIn(graph))
  {
    NodeErrorsMembers(ByKey(graph.nodes), options, graph.nodes, e);
    EdgeErrorsMembers(ByKey(graph.nodes), options, graph.edges, e);
  }

  lemma NodeErrorsMembers(byKey: Index, options: Options, nodes: seq<Node>, e: Issue)
    ensures e in AllNodeErrors(byKey, options, nodes, |nodes|)
            <==> exists i: nat :: i < |nodes| && e in NodeErrors(byKey, options, nodes, i)
  {
    var parts := NodeErrorParts(byKey, options, nodes, |nodes|);
    ConcatMembers(parts, e);
    if i: nat :| i < |nodes| && e in NodeErrors(byKey, options, nodes, i) {
      assert e in parts[i];
    }
  }

  lemma EdgeErrorsMembers(byKey: Index, options: Options, edges: seq<Edge>, e: Issue)
    ensures e in AllEdgeErrors(byKey, options, edges, |edges|)
            <==> exists i: nat :: i < |edges| && e in EdgeErrors(byKey, options, edges, i)
  {
    var parts := EdgeErrorParts(byKey, options, edges, |edges|);
    ConcatMembers(parts, e);
    if i: nat :| i < |edges| && e in EdgeErrors(byKey, options, edges, i) {
      assert e in parts[i];
    }
  }

  /** An issue with one step's rules names that step. */
  ghost predicate OfStep(byKey: Index, key: string, e: Issue) {
    && AboutStep(e.message) && !e.message.EdgeSelf? && e.message.step == Name(byKey, key)
    && e.nodeKey == Some(key) && e.edgeIndex == None
  }

  lemma KindErrorShape(byKey: Index, node: Node, e: Issue)
    requires e in KindErrors(byKey, node)
    ensures OfStep(byKey, node.key, e)
  {
  }

  lemma AgentErrorShape(byKey: Index, options: Options, node: Node, e: Issue)
    requires e in AgentErrors(byKey, options, node)
    ensures OfStep(byKey, node.key, e)
  {
  }

  lemma LoopErrorShape(byKey: Index, options: Options, node: Node, e: Issue)
    requires e in LoopErrors(byKey, options, node)
    ensures OfStep(byKey, node.key, e)
  {
  }

  ghost predicate NodeIssueShape(byKey: Index, nodes: seq<Node>, i: nat, e: Issue)
    requires i < |nodes|
  {
    || e == Issue(NodeWithoutKey(i + 1), None, None)
    || e == Issue(DuplicateKey(nodes[i].key), Some(nodes[i].key), None)
    || OfStep(byKey, nodes[i].key, e)
  }

  lemma NodeErrorShape(byKey: Index, options: Options, nodes: seq<Node>, i: nat, e: Issue)
    requires i < |nodes| && e in NodeErrors(byKey, options, nodes, i)
    ensures NodeIssueShape(byKey, nodes, i, e)
  {
    if !IsBlank(nodes[i].key) && FirstUse(nodes, i) {
      assert e in StepErrors(byKey, options, nodes[i]);
      if e in KindErrors(byKey, nodes[i]) {
        KindErrorShape(byKey, nodes[i], e);
      } else if e in AgentErrors(byKey, options, nodes[i]) {
        AgentErrorShape(byKey, options, nodes[i], e);
      } else {
        LoopErrorShape(byKey, options, nodes[i], e);
      }
    }
  }

  ghost predicate OfConnection(byKey: Index, edge: Edge, i: nat, e: Issue) {
    && AboutConnection(e.message) && e.nodeKey == None && e.edgeIndex == Some(i)
    && e.message.source == Name(byKey, edge.from) && e.message.target == Name(byKey, edge.to)
  }

  lemma ConditionErrorShape(byKey: Index, options: Options, edge: Edge, i: nat, e: Issue)
    requires e in ConditionErrors(byKey, options, edge, i)
    ensures OfConnection(byKey, edge, i, e)
  {
  }

  ghost predicate EdgeIssueShape(byKey: Index, edge: Edge, i: nat, e: Issue) {
    || (e.message.EdgeUnknownNode? && e.message.number == i + 1 && e.nodeKey == None && e.edgeIndex == Some(i)
        && e.message.from == edge.from && e.message.to == edge.to)
    || (edge.from in byKey && edge.from == edge.to
        && e == Issue(EdgeSelf(Name(byKey, edge.from)), Some(edge.from), Some(i)))
    || (edge.from in byKey && edge.to in byKey && OfConnection(byKey, edge, i, e))
  }

  lemma EdgeErrorShape(byKey: Index, options: Options, edges: seq<Edge>, i: nat, e: Issue)
    requires i < |edges| && e in EdgeErrors(byKey, options, edges, i)
    ensures EdgeIssueShape(byKey, edges[i], i, e)
  {
    if EndErrors(byKey, edges[i], i) == [] {
      assert edges[i].from in byKey && edges[i].to in byKey;
      if edges[i].from != edges[i].to && FirstPair(byKey, edges, i) {
        ConditionErrorShape(byKey, options, edges[i], i, e);
      }
    }
  }
}
