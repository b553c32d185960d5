/** What `validateWorkflowGraph` decides, stated without its passes, tables or order of
    tests, and what follows for the graphs it lets through. */
module GraphRules {
  import opened Basics
  import opened CycleSearch
  import opened WorkflowGraph

  // ---------------------------------------------------------------- the declarative rules

  ghost predicate Has(o: Option<string>) {
    o.Some? && o.value != ""
  }

  ghost predicate Filled(o: Option<string>) {
    o.Some? && !IsBlank(o.value)
  }

  /** An operator the engine knows, a value to compare with, and a pattern that compiles. */
  ghost predicate ConditionUsable(options: Options, operator: string, value: string) {
    && operator in CONDITION_OPERATORS
    && !IsBlank(value)
    && (operator == "matches_regex" ==> !Has(options.invalidRegex(value)))
  }

  ghost predicate Denotes(x: Number, n: int) {
    x == Finite(n as real)
  }

  ghost predicate StepUsable(options: Options, node: Node) {
    && (node.kind == None || node.kind == Some("agent") || node.kind == Some("approval_gate"))
    && (node.kind != Some("approval_gate") ==> Filled(node.description))
    && (Has(node.agentId) && options.knownAgentIds.Some? ==> node.agentId.value in options.knownAgentIds.value)
    && (node.loop.Some? ==>
          && node.kind != Some("approval_gate")
          && (exists n :: 1 <= n <= MAX_LOOP_ITERATIONS && Denotes(node.loop.value.maxIterations, n))
          && ConditionUsable(options, node.loop.value.conditionOperator, node.loop.value.conditionValue))
  }

  ghost predicate ConditionAllowed(options: Options, edge: Edge) {
    if edge.edgeKind == None || edge.edgeKind == Some("dependency") then
      !Has(edge.conditionOperator) && !Has(edge.conditionValue)
    else
      && edge.edgeKind == Some("conditional")
      && edge.conditionOperator.Some? && edge.conditionValue.Some?
      && ConditionUsable(options, edge.conditionOperator.value, edge.conditionValue.value)
  }

  ghost predicate IsKey(graph: Graph, key: string) {
    exists i :: 0 <= i < |graph.nodes| && graph.nodes[i].key == key
  }

  ghost predicate EdgeLeads(graph: Graph, a: string, b: string) {
    exists i :: 0 <= i < |graph.edges| && graph.edges[i].from == a && graph.edges[i].to == b
  }

  ghost predicate ClosedWalk(graph: Graph, c: seq<string>) {
    |c| >= 2 && c[0] == c[|c| - 1] && forall i :: 0 < i < |c| ==> EdgeLeads(graph, c[i - 1], c[i])
  }

  ghost predicate NodesUsable(graph: Graph, options: Options) {
    && (forall i :: 0 <= i < |graph.nodes| ==> !IsBlank(graph.nodes[i].key) && StepUsable(options, graph.nodes[i]))
    && (forall i, j :: 0 <= i < j < |graph.nodes| ==> graph.nodes[i].key != graph.nodes[j].key)
  }

  ghost predicate EdgesUsable(graph: Graph, options: Options) {
    forall i :: 0 <= i < |graph.edges| ==>
      var e := graph.edges[i];
      IsKey(graph, e.from) && IsKey(graph, e.to) && e.from != e.to && ConditionAllowed(options, e)
  }

  ghost predicate SamePair(e: Edge, f: Edge) {
    e.from == f.from && e.to == f.to
  }

  ghost predicate NoDuplicateEdges(graph: Graph) {
    forall i, j :: 0 <= i < j < |graph.edges| ==> !SamePair(graph.edges[i], graph.edges[j])
  }

  ghost predicate NoCycles(graph: Graph) {
    forall c :: !ClosedWalk(graph, c)
  }

  ghost predicate WellFormed(graph: Graph, options: Options) {
    && (options.allowEmpty == Some(false) ==> graph.nodes != [])
    && NodesUsable(graph, options)
    && EdgesUsable(graph, options)
    && NoDuplicateEdges(graph)
    && NoCycles(graph)
  }

  /** The string the check files an edge under tells the edges of this graph apart. */
  ghost predicate PairKeysFaithful(graph: Graph) {
    forall i, j :: 0 <= i < j < |graph.edges| && PairKey(graph.edges[i]) == PairKey(graph.edges[j])
      ==> SamePair(graph.edges[i], graph.edges[j])
  }

  // ---------------------------------------------------------------- steps and conditions

  lemma MissingExactlyWhenNotFilled(o: Option<string>)
    ensures Missing(o) <==> !Filled(o)
  {
    if o.Some? {
      TrimIsEmptyExactlyWhenBlank(o.value);
    }
  }

  lemma WholeNumber(x: Number, lo: int, hi: int)
    ensures IsWholeNumberBetween(x, lo, hi) <==> exists n :: lo <= n <= hi && Denotes(x, n)
  {
    if IsWholeNumberBetween(x, lo, hi) {
      assert Denotes(x, x.value.Floor);
    }
  }

  lemma LoopErrorsExactly(byKey: Index, options: Options, node: Node)
    ensures LoopErrors(byKey, options, node) == [] <==>
            (node.loop.Some? ==>
               && KindOf(node) != "approval_gate"
               && (exists n :: 1 <= n <= MAX_LOOP_ITERATIONS && Denotes(node.loop.value.maxIterations, n))
               && ConditionUsable(options, node.loop.value.conditionOperator, node.loop.value.conditionValue))
  {
    if node.loop.Some? {
      var loop := node.loop.value;
      WholeNumber(loop.maxIterations, 1, MAX_LOOP_ITERATIONS);
      TrimIsEmptyExactlyWhenBlank(loop.conditionValue);
    }
  }

  lemma StepErrorsExactly(byKey: Index, options: Options, node: Node)
    ensures StepErrors(byKey, options, node) == [] <==> StepUsable(options, node)
  {
    MissingExactlyWhenNotFilled(node.description);
    LoopErrorsExactly(byKey, options, node);
    assert KindErrors(byKey, node) == [] <==>
           && (KindOf(node) == "agent" || KindOf(node) == "approval_gate")
           && (KindOf(node) == "agent" ==> Filled(node.description));
  }

  lemma ConditionErrorsExactly(byKey: Index, options: Options, edge: Edge, i: nat)
    ensures ConditionErrors(byKey, options, edge, i) == [] <==> ConditionAllowed(options, edge)
  {
    MissingExactlyWhenNotFilled(edge.conditionValue);
    assert "" !in CONDITION_OPERATORS;
  }

  // ---------------------------------------------------------------- nodes and edges

  lemma NodeErrorsExactly(byKey: Index, options: Options, nodes: seq<Node>, i: nat)
    requires i < |nodes|
    ensures NodeErrors(byKey, options, nodes, i) == [] <==> NodeAccepted(options, nodes, i)
  {
    StepErrorsExactly(byKey, options, nodes[i]);
  }

  ghost predicate NodeAccepted(options: Options, nodes: seq<Node>, i: nat)
    requires i < |nodes|
  {
    !IsBlank(nodes[i].key) && FirstUse(nodes, i) && StepUsable(options, nodes[i])
  }

  lemma {:induction false} ConcatIsEmpty(parts: seq<seq<Issue>>)
    ensures Concat(parts) == [] <==> forall i :: 0 <= i < |parts| ==> parts[i] == []
  {
    if parts == [] {
    } else {
      ConcatIsEmpty(parts[..|parts| - 1]);
      var some, more := Concat(parts[..|parts| - 1]), parts[|parts| - 1];
      assert some + more == [] <==> some == [] && more == [];
    }
  }

  lemma NoNodeErrors(graph: Graph, options: Options)
    ensures AllNodeErrors(ByKey(graph.nodes), options, graph.nodes, |graph.nodes|) == []
            <==> AllNodesAccepted(graph, options)
  {
    var byKey := ByKey(graph.nodes);
    var parts := NodeErrorParts(byKey, options, graph.nodes, |graph.nodes|);
    ConcatIsEmpty(parts);
    forall i | 0 <= i < |parts|
      ensures parts[i] == [] <==> NodeAccepted(options, graph.nodes, i)
    {
      NodeErrorsExactly(byKey, options, graph.nodes, i);
    }
  }

  ghost predicate EdgeAccepted(byKey: Index, options: Options, edges: seq<Edge>, i: nat)
    requires i < |edges|
  {
    Joins(byKey, edges[i]) && FirstPair(byKey, edges, i) && ConditionAllowed(options, edges[i])
  }

  lemma EdgeErrorsExactly(byKey: Index, options: Options, edges: seq<Edge>, i: nat)
    requires i < |edges|
    ensures EdgeErrors(byKey, options, edges, i) == [] <==> EdgeAccepted(byKey, options, edges, i)
  {
    ConditionErrorsExactly(byKey, options, edges[i], i);
    assert EndErrors(byKey, edges[i], i) == [] <==> edges[i].from in byKey && edges[i].to in byKey;
  }

  lemma NoEdgeErrors(graph: Graph, options: Options)
    ensures AllEdgeErrors(ByKey(graph.nodes), options, graph.edges, |graph.edges|) == []
            <==> AllEdgesAccepted(graph, options)
  {
    var byKey := ByKey(graph.nodes);
    var parts := EdgeErrorParts(byKey, options, graph.edges, |graph.edges|);
    ConcatIsEmpty(parts);
    forall i | 0 <= i < |parts|
      ensures parts[i] == [] <==> EdgeAccepted(byKey, options, graph.edges, i)
    {
      EdgeErrorsExactly(byKey, options, graph.edges, i);
    }
  }

  /** Once nothing is wrong with nodes and edges, the search sees the whole graph. */
  lemma {:induction false} AllKeysUsable(nodes: seq<Node>, n: nat)
    requires n <= |nodes|
    requires forall i :: 0 <= i < n ==> !IsBlank(nodes[i].key) && FirstUse(nodes, i)
    ensures |UsableKeys(nodes, n)| == n && forall i :: 0 <= i < n ==> UsableKeys(nodes, n)[i] == nodes[i].key
  {
    if n == 0 {
    } else {
      AllKeysUsable(nodes, n - 1);
      assert UsableKeys(nodes, n) == UsableKeys(nodes, n - 1) + [nodes[n - 1].key];
    }
  }

  lemma {:induction false} AllLinksValid(byKey: Index, edges: seq<Edge>, n: nat)
    requires n <= |edges|
    requires forall i :: 0 <= i < n ==> Joins(byKey, edges[i]) && FirstPair(byKey, edges, i)
    ensures |ValidLinks(byKey, edges, n)| == n
    ensures forall i :: 0 <= i < n ==> ValidLinks(byKey, edges, n)[i] == Link(edges[i].from, edges[i].to)
  {
    if n == 0 {
    } else {
      AllLinksValid(byKey, edges, n - 1);
    }
  }

  lemma SearchSeesTheGraph(graph: Graph, keys: seq<string>, links: seq<Link>)
    requires |keys| == |graph.nodes| && forall i :: 0 <= i < |keys| ==> keys[i] == graph.nodes[i].key
    requires |links| == |graph.edges|
    requires forall i :: 0 <= i < |links| ==> links[i] == Link(graph.edges[i].from, graph.edges[i].to)
    requires forall i :: 0 <= i < |graph.edges| ==> IsKey(graph, graph.edges[i].from)
    ensures CycleOf(keys, links).None? <==> NoCycles(graph)
  {
    var adjacency := BuildAdjacency(keys, links);
    NullExactlyWhenAcyclic(keys, links);
    forall a, b
      ensures Leads(adjacency, a, b) <==> EdgeLeads(graph, a, b)
    {
      if EdgeLeads(graph, a, b) {
        var i :| 0 <= i < |graph.edges| && graph.edges[i].from == a && graph.edges[i].to == b;
        assert links[i] == Link(a, b);
        var j :| 0 <= j < |graph.nodes| && graph.nodes[j].key == a;
        assert keys[j] == a;
      }
      if Leads(adjacency, a, b) {
        var i :| 0 <= i < |links| && links[i] == Link(a, b);
        assert graph.edges[i].from == a && graph.edges[i].to == b;
      }
    }
    forall c
      ensures IsCycle(adjacency, c) <==> ClosedWalk(graph, c)
    {
    }
  }

  ghost predicate LocallyAccepted(graph: Graph, options: Options) {
    && EmptyErrors(graph, options) == []
    && AllNodeErrors(ByKey(graph.nodes), options, graph.nodes, |graph.nodes|) == []
    && AllEdgeErrors(ByKey(graph.nodes), options, graph.edges, |graph.edges|) == []
  }

  ghost predicate AllNodesAccepted(graph: Graph, options: Options) {
    forall i :: 0 <= i < |graph.nodes| ==> NodeAccepted(options, graph.nodes, i)
  }

  ghost predicate AllEdgesAccepted(graph: Graph, options: Options) {
    forall i :: 0 <= i < |graph.edges| ==> EdgeAccepted(ByKey(graph.nodes), options, graph.edges, i)
  }

  lemma AcceptedNodesAreUsable(graph: Graph, options: Options)
    requires AllNodesAccepted(graph, options)
    ensures NodesUsable(graph, options)
  {
    forall i, j | 0 <= i < j < |graph.nodes|
      ensures graph.nodes[i].key != graph.nodes[j].key
    {
      assert NodeAccepted(options, graph.nodes, j);
    }
    forall i | 0 <= i < |graph.nodes|
      ensures !IsBlank(graph.nodes[i].key) && StepUsable(options, graph.nodes[i])
    {
      assert NodeAccepted(options, graph.nodes, i);
    }
  }

  lemma UsableNodesAreAccepted(graph: Graph, options: Options)
    requires NodesUsable(graph, options)
    ensures AllNodesAccepted(graph, options)
  {
  }

  lemma JoinsExactly(graph: Graph, edge: Edge)
    ensures Joins(ByKey(graph.nodes), edge)
            <==> IsKey(graph, edge.from) && IsKey(graph, edge.to) && edge.from != edge.to
  {
  }

  lemma AcceptedEdgesAreUsable(graph: Graph, options: Options)
    requires AllEdgesAccepted(graph, options)
    ensures EdgesUsable(graph, options) && NoDuplicateEdges(graph) && PairKeysFaithful(graph)
  {
    forall i | 0 <= i < |graph.edges|
      ensures Joins(ByKey(graph.nodes), graph.edges[i]) && ConditionAllowed(options, graph.edges[i])
    {
      assert EdgeAccepted(ByKey(graph.nodes), options, graph.edges, i);
    }
    forall i | 0 <= i < |graph.edges| {
      JoinsExactly(graph, graph.edges[i]);
    }
    forall i, j | 0 <= i < j < |graph.edges|
      ensures PairKey(graph.edges[i]) != PairKey(graph.edges[j]) && !SamePair(graph.edges[i], graph.edges[j])
    {
      assert EdgeAccepted(ByKey(graph.nodes), options, graph.edges, j);
    }
  }

  lemma UsableEdgesAreAccepted(graph: Graph, options: Options)
    requires EdgesUsable(graph, options) && NoDuplicateEdges(graph) && PairKeysFaithful(graph)
    ensures AllEdgesAccepted(graph, options)
  {
  }

  lemma LocallyAcceptedMeans(graph: Graph, options: Options)
    ensures LocallyAccepted(graph, options) <==>
            && (options.allowEmpty == Some(false) ==> graph.nodes != [])
            && AllNodesAccepted(graph, options) && AllEdgesAccepted(graph, options)
  {
    NoNodeErrors(graph, options);
    NoEdgeErrors(graph, options);
  }

  lemma LocalRulesExactly(graph: Graph, options: Options)
    ensures LocallyAccepted(graph, options) <==>
            && (options.allowEmpty == Some(false) ==> graph.nodes != [])
            && NodesUsable(graph, options) && EdgesUsable(graph, options)
            && NoDuplicateEdges(graph) && PairKeysFaithful(graph)
  {
    LocallyAcceptedMeans(graph, options);
    if LocallyAccepted(graph, options) {
      AcceptedNodesAreUsable(graph, options);
      AcceptedEdgesAreUsable(graph, options);
    }
    if NodesUsable(graph, options) {
      UsableNodesAreAccepted(graph, options);
    }
    if EdgesUsable(graph, options) && NoDuplicateEdges(graph) && PairKeysFaithful(graph) {
      UsableEdgesAreAccepted(graph, options);
    }
  }

  // ---------------------------------------------------------------- the main result

  ghost function CycleFoundIn(graph: Graph): Option<seq<string>> {
    CycleOf(UsableKeys(graph.nodes, |graph.nodes|), ValidLinks(ByKey(graph.nodes), graph.edges, |graph.edges|))
  }

  lemma OkSplits(graph: Graph, options: Options)
    ensures CheckOf(graph, options).ok <==> LocallyAccepted(graph, options) && CycleFoundIn(graph).None?
  {
  }

  lemma SearchDecidesCycles(graph: Graph, options: Options)
    requires AllNodesAccepted(graph, options) && AllEdgesAccepted(graph, options)
    ensures CycleFoundIn(graph).None? <==> NoCycles(graph)
  {
    var byKey := ByKey(graph.nodes);
    forall i | 0 <= i < |graph.nodes|
      ensures !IsBlank(graph.nodes[i].key) && FirstUse(graph.nodes, i)
    {
      assert NodeAccepted(options, graph.nodes, i);
    }
    AllKeysUsable(graph.nodes, |graph.nodes|);
    forall i | 0 <= i < |graph.edges|
      ensures Joins(byKey, graph.edges[i]) && FirstPair(byKey, graph.edges, i) && IsKey(graph, graph.edges[i].from)
    {
      assert EdgeAccepted(byKey, options, graph.edges, i);
      JoinsExactly(graph, graph.edges[i]);
    }
    AllLinksValid(byKey, graph.edges, |graph.edges|);
    SearchSeesTheGraph(graph, UsableKeys(graph.nodes, |graph.nodes|), ValidLinks(byKey, graph.edges, |graph.edges|));
  }

  /** For every graph: the check passes exactly when the declarative rules hold and the
      pair keys of its edges are faithful. */
  lemma OkExactlyWhen(graph: Graph, options: Options)
    ensures CheckOf(graph, options).ok <==> WellFormed(graph, options) && PairKeysFaithful(graph)
  {
    OkSplits(graph, options);
    LocalRulesExactly(graph, options);
    if LocallyAccepted(graph, options) {
      LocallyAcceptedMeans(graph, options);
      SearchDecidesCycles(graph, options);
    }
  }

  // ---------------------------------------------------------------- pair keys

  ghost predicate NulFree(s: string) {
    '\U{0000}' !in s
  }

  lemma FirstNul(e: Edge)
    requires NulFree(e.from)
    ensures PairKey(e)[|e.from|] == '\U{0000}' && forall i | 0 <= i < |e.from| :: PairKey(e)[i] != '\U{0000}'
    ensures PairKey(e)[..|e.from|] == e.from && PairKey(e)[|e.from| + 1..] == e.to
  {
  }

  lemma PairKeyInjective(e: Edge, f: Edge)
    requires NulFree(e.from) && NulFree(f.from)
    ensures PairKey(e) == PairKey(f) ==> SamePair(e, f)
  {
    FirstNul(e);
    FirstNul(f);
  }

  /** Keys without a NUL character are enough. */
  lemma NulFreeKeysSuffice(graph: Graph, options: Options)
    requires forall i :: 0 <= i < |graph.nodes| ==> NulFree(graph.nodes[i].key)
    ensures CheckOf(graph, options).ok <==> WellFormed(graph, options)
  {
    OkExactlyWhen(graph, options);
    if WellFormed(graph, options) {
      forall i, j | 0 <= i < j < |graph.edges|
        ensures PairKey(graph.edges[i]) == PairKey(graph.edges[j]) ==> SamePair(graph.edges[i], graph.edges[j])
      {
        PairKeyInjective(graph.edges[i], graph.edges[j]);
      }
    }
  }

  function PlainStep(key: string, work: string): Node {
    Node(key, None, Some(work), None, None, None)
  }

  function PlainEdge(from: string, to: string): Edge {
    Edge(from, to, None, None, None)
  }

  const NUL := "\U{0000}"

  function Colliding(x: string, y: string, work: string): Graph {
    Graph([PlainStep(x + NUL, work), PlainStep(y, work), PlainStep(x, work), PlainStep(NUL + y, work)],
          [PlainEdge(x + NUL, y), PlainEdge(x, NUL + y)])
  }

  lemma CollidingNodesUsable(x: string, y: string, work: string, options: Options)
    requires !IsBlank(x) && !IsBlank(y) && !IsBlank(work) && NulFree(x) && NulFree(y) && x != y
    ensures NodesUsable(Colliding(x, y, work), options)
  {
    var nodes := Colliding(x, y, work).nodes;
    var i :| 0 <= i < |x| && !IsBlankChar(x[i]);
    var j :| 0 <= j < |y| && !IsBlankChar(y[j]);
    assert (x + NUL)[i] == x[i] && (NUL + y)[j + 1] == y[j];
    assert (x + NUL)[|x|] == '\U{0000}' == (NUL + y)[0];
    assert (x + NUL)[0] == x[0];
    assert forall k | 0 <= k < 4 :: StepUsable(options, nodes[k]);
  }

  lemma TwoStepsCannotClose(graph: Graph)
    requires |graph.edges| == 2
    requires forall i, j | 0 <= i < 2 && 0 <= j < 2 :: graph.edges[i].to != graph.edges[j].from
    ensures NoCycles(graph)
  {
    forall c
      ensures !ClosedWalk(graph, c)
    {
      assert ClosedWalk(graph, c) ==> EdgeLeads(graph, c[0], c[1]) && EdgeLeads(graph, c[|c| - 2], c[|c| - 1]);
    }
  }

  lemma CollidingEdgesUsable(x: string, y: string, work: string, options: Options)
    requires NulFree(x) && NulFree(y) && x != "" && x != y
    ensures var g := Colliding(x, y, work);
            && EdgesUsable(g, options) && NoDuplicateEdges(g) && NoCycles(g)
            && PairKey(g.edges[0]) == PairKey(g.edges[1]) && !SamePair(g.edges[0], g.edges[1])
  {
    var g := Colliding(x, y, work);
    assert (x + NUL)[|x|] == '\U{0000}' == (NUL + y)[0];
    assert g.nodes[0].key == g.edges[0].from && g.nodes[1].key == g.edges[0].to;
    assert g.nodes[2].key == g.edges[1].from && g.nodes[3].key == g.edges[1].to;
    assert |x + NUL| != |x| && |NUL + y| != |y|;
    assert (x + NUL)[0] == x[0];
    TwoStepsCannotClose(g);
    assert (x + NUL) + NUL + y == x + NUL + (NUL + y);
  }

  /** With NUL in keys the check refuses well-formed graphs: two different edges are filed
      under the same string. */
  lemma NulInKeysCanCollide(x: string, y: string, work: string, options: Options)
    requires !IsBlank(x) && !IsBlank(y) && !IsBlank(work) && NulFree(x) && NulFree(y) && x != y
    ensures WellFormed(Colliding(x, y, work), options) && !CheckOf(Colliding(x, y, work), options).ok
  {
    var g := Colliding(x, y, work);
    CollidingNodesUsable(x, y, work, options);
    assert x != "" by { assert IsBlank(""); }
    CollidingEdgesUsable(x, y, work, options);
    OkExactlyWhen(g, options);
  }

  // ---------------------------------------------------------------- what ok graphs give

  function WithoutEdge(graph: Graph, k: nat): Graph
    requires k < |graph.edges|
  {
    Graph(graph.nodes, graph.edges[..k] + graph.edges[k + 1..])
  }

  lemma FewerEdgesFewerWalks(graph: Graph, k: nat, c: seq<string>)
    requires k < |graph.edges| && ClosedWalk(WithoutEdge(graph, k), c)
    ensures ClosedWalk(graph, c)
  {
  }

  lemma FewerEdgesStayUsable(graph: Graph, options: Options, k: nat)
    requires k < |graph.edges| && EdgesUsable(graph, options) && NoDuplicateEdges(graph) && PairKeysFaithful(graph)
    ensures var less := WithoutEdge(graph, k);
            EdgesUsable(less, options) && NoDuplicateEdges(less) && PairKeysFaithful(less)
  {
  }

  lemma FewerEdgesStayAcyclic(graph: Graph, k: nat)
    requires k < |graph.edges| && NoCycles(graph)
    ensures NoCycles(WithoutEdge(graph, k))
  {
    forall c
      ensures !ClosedWalk(WithoutEdge(graph, k), c)
    {
      if ClosedWalk(WithoutEdge(graph, k), c) {
        FewerEdgesFewerWalks(graph, k, c);
      }
    }
  }

  /** Deleting any edge from an ok graph leaves it ok. */
  lemma DeletingAnEdgeKeepsOk(graph: Graph, options: Options, k: nat)
    requires k < |graph.edges| && CheckOf(graph, options).ok
    ensures CheckOf(WithoutEdge(graph, k), options).ok
  {
    OkExactlyWhen(graph, options);
    OkExactlyWhen(WithoutEdge(graph, k), options);
    FewerEdgesStayUsable(graph, options, k);
    FewerEdgesStayAcyclic(graph, k);
    assert NodesUsable(WithoutEdge(graph, k), options);
  }

  /** A step can start when every step with an edge into it has completed. */
  ghost predicate CanStart(graph: Graph, completed: set<string>, key: string) {
    && IsKey(graph, key) && key !in completed
    && forall a :: EdgeLeads(graph, a, key) ==> a in completed
  }

  /** In an ok graph some step can always start, until every step has completed: walking
      upstream from a step that is blocked ends, because the graph has no cycle. */
  lemma OkGraphsNeverStall(graph: Graph, options: Options, completed: set<string>, pending: string)
    requires CheckOf(graph, options).ok
    requires IsKey(graph, pending) && pending !in completed
    ensures exists key :: CanStart(graph, completed, key)
  {
    OkExactlyWhen(graph, options);
    var keys := KeySet(graph);
    EdgesLeaveKeys(graph, options);
    WalkUpstream(graph, completed, [pending], keys);
  }

  ghost function KeySet(graph: Graph): (keys: set<string>)
    ensures forall k :: k in keys <==> IsKey(graph, k)
  {
    set i | 0 <= i < |graph.nodes| :: graph.nodes[i].key
  }

  lemma EdgesLeaveKeys(graph: Graph, options: Options)
    requires EdgesUsable(graph, options)
    ensures forall a, b :: EdgeLeads(graph, a, b) ==> a in KeySet(graph)
  {
  }

  lemma RepeatClosesWalk(graph: Graph, a: string, walk: seq<string>)
    requires a in walk
    requires EdgeLeads(graph, a, walk[0]) && forall i :: 0 < i < |walk| ==> EdgeLeads(graph, walk[i - 1], walk[i])
    ensures exists c :: ClosedWalk(graph, c)
  {
    var i :| 0 <= i < |walk| && walk[i] == a;
    var c := [a] + walk[..i + 1];
    forall j | 0 < j < |c|
      ensures EdgeLeads(graph, c[j - 1], c[j])
    {
      assert c[j] == walk[j - 1];
    }
    assert ClosedWalk(graph, c);
  }

  lemma {:induction false} WalkUpstream(graph: Graph, completed: set<string>, walk: seq<string>, keys: set<string>)
    requires NoCycles(graph)
    requires forall k :: k in keys <==> IsKey(graph, k)
    requires forall a, b :: EdgeLeads(graph, a, b) ==> a in keys
    requires walk != [] && forall k | k in walk :: k in keys && k !in completed
    requires forall i :: 0 < i < |walk| ==> EdgeLeads(graph, walk[i - 1], walk[i])
    ensures exists key :: CanStart(graph, completed, key)
    decreases keys - set k | k in walk
  {
    assert walk[0] in walk;
    if !CanStart(graph, completed, walk[0]) {
      var a :| EdgeLeads(graph, a, walk[0]) && a !in completed;
      var longer := [a] + walk;
      if a in walk {
        RepeatClosesWalk(graph, a, walk);
      }
      assert forall i :: 0 < i < |longer| ==> longer[i] == walk[i - 1];
      assert a in keys - (set k | k in walk);
      WalkUpstream(graph, completed, longer, keys);
    }
  }
}
