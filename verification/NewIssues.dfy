/** Which new issues an edit of an invalid graph reports: `newGraphErrors` compares texts, so
    it matters which issues read alike. */
module NewIssues {
  import opened Basics
  import opened CycleSearch
  import opened WorkflowGraph
  import opened GraphRules
  import opened GraphReports
  import opened GraphTexts
  import opened GraphEdits

  // ---------------------------------------------------------------- where issues point

  /** Where an issue points, by its message. */
  ghost predicate Located(byKey: Index, e: Issue) {
    if e.message.EdgeUnknownNode? then
      e.message.number > 0 && e.nodeKey == None && e.edgeIndex == Some(e.message.number - 1)
    else if AboutConnection(e.message) then e.nodeKey == None && e.edgeIndex.Some?
    else if AboutStep(e.message) then
      && e.nodeKey.Some? && e.nodeKey.value in byKey && e.message.step == Name(byKey, e.nodeKey.value)
      && (e.message.EdgeSelf? <==> e.edgeIndex.Some?)
    else e.edgeIndex == None && e.nodeKey == if e.message.DuplicateKey? then Some(e.message.key) else None
  }

  /** No quotation mark in what names a step, no arrow in the source of an edge, no quotation
      mark in its target. */
  ghost predicate PlainGraph(graph: Graph) {
    && (forall k :: k in ByKey(graph.nodes) ==> IsPlainName(Name(ByKey(graph.nodes), k)))
    && (forall e :: e in graph.edges ==> '\U{2192}' !in e.from && '\"' !in e.to)
  }

  lemma NodeErrorIsLocated(graph: Graph, options: Options, i: nat, e: Issue)
    requires i < |graph.nodes| && e in NodeErrors(ByKey(graph.nodes), options, graph.nodes, i)
    ensures Located(ByKey(graph.nodes), e) && (PlainGraph(graph) ==> IsPlain(e.message))
  {
    var byKey := ByKey(graph.nodes);
    NodeErrorShape(byKey, options, graph.nodes, i, e);
    assert graph.nodes[i].key in byKey;
  }

  lemma ShapeIsLocated(byKey: Index, edge: Edge, i: nat, e: Issue)
    requires EdgeIssueShape(byKey, edge, i, e)
    ensures Located(byKey, e)
    ensures (forall k | k in byKey :: IsPlainName(Name(byKey, k))) && '\U{2192}' !in edge.from && '\"' !in edge.to
            ==> IsPlain(e.message)
  {
  }

  lemma EdgeErrorIsLocated(graph: Graph, options: Options, i: nat, e: Issue)
    requires i < |graph.edges| && e in EdgeErrors(ByKey(graph.nodes), options, graph.edges, i)
    ensures Located(ByKey(graph.nodes), e) && (PlainGraph(graph) ==> IsPlain(e.message))
  {
    EdgeErrorShape(ByKey(graph.nodes), options, graph.edges, i, e);
    ShapeIsLocated(ByKey(graph.nodes), graph.edges[i], i, e);
    assert graph.edges[i] in graph.edges;
  }

  lemma CycleKeysAreKeys(nodes: seq<Node>, links: seq<Link>, c: seq<string>)
    requires CycleOf(UsableKeys(nodes, |nodes|), links) == Some(c)
    ensures forall i :: 0 <= i < |c| ==> c[i] in ByKey(nodes)
  {
    var keys := UsableKeys(nodes, |nodes|);
    FoundCycleIsSimple(keys, links);
    UsableKeysMembers(nodes, |nodes|);
    forall i | 0 <= i < |c|
      ensures c[i] in keys
    {
      var h := if i == |c| - 1 then 0 else i;
      assert Leads(BuildAdjacency(keys, links), c[h], c[h + 1]);
    }
  }

  lemma CycleStepsAreNamed(graph: Graph)
    requires PlainGraph(graph) && CycleFoundIn(graph).Some?
    ensures forall name :: name in NamesOf(ByKey(graph.nodes), CycleFoundIn(graph).value) ==> IsPlainName(name)
  {
    CycleKeysAreKeys(graph.nodes, ValidLinks(ByKey(graph.nodes), graph.edges, |graph.edges|),
                     CycleFoundIn(graph).value);
  }

  lemma GraphErrorIsLocated(graph: Graph, options: Options, e: Issue)
    requires e in EmptyErrors(graph, options) || e in CycleErrors(ByKey(graph.nodes), CycleFoundIn(graph))
    ensures Located(ByKey(graph.nodes), e) && (PlainGraph(graph) ==> IsPlain(e.message))
  {
    if PlainGraph(graph) && CycleFoundIn(graph).Some? {
      CycleStepsAreNamed(graph);
    }
  }

  lemma ErrorIsLocated(graph: Graph, options: Options, e: Issue)
    requires e in ErrorsOf(graph, options)
    ensures Located(ByKey(graph.nodes), e) && (PlainGraph(graph) ==> IsPlain(e.message))
  {
    var byKey := ByKey(graph.nodes);
    ErrorsComeFromExactly(graph, options, e);
    if i: nat :| i < |graph.nodes| && e in NodeErrors(byKey, options, graph.nodes, i) {
      NodeErrorIsLocated(graph, options, i, e);
    } else if i: nat :| i < |graph.edges| && e in EdgeErrors(byKey, options, graph.edges, i) {
      EdgeErrorIsLocated(graph, options, i, e);
    } else {
      GraphErrorIsLocated(graph, options, e);
    }
  }

  // ---------------------------------------------------------------- which new issues are reported

  /** Every issue of `after` that `before` did not have is reported. */
  ghost predicate AllNewReported(before: Check, after: Check) {
    forall e :: e in after.errors && e !in before.errors ==> e in NewGraphErrors(before, after)
  }

  /** As far as texts go: exactly when no new issue reads like an old one. */
  lemma AllNewReportedByText(before: Check, after: Check)
    ensures AllNewReported(before, after)
            <==> forall e :: e in after.errors && e !in before.errors ==> Render(e.message) !in Shown(before)
  {
  }

  /** When names are plain: exactly when no step or edge has a complaint now that it did not
      have, but that another one had. */
  lemma NewIssuesReportedByMessage(before: Graph, after: Graph, options: Options)
    requires PlainGraph(before) && PlainGraph(after)
    ensures AllNewReported(CheckOf(before, options), CheckOf(after, options))
            <==> forall f, e ::
                   f in ErrorsOf(before, options) && e in ErrorsOf(after, options) && f.message == e.message
                   ==> e in ErrorsOf(before, options)
  {
    var was, now := CheckOf(before, options), CheckOf(after, options);
    if AllNewReported(was, now) {
      forall f, e | f in was.errors && e in now.errors && f.message == e.message
        ensures e in was.errors
      {
        assert Render(e.message) in Shown(was);
      }
    } else {
      var e :| e in now.errors && e !in was.errors && e !in NewGraphErrors(was, now);
      var f :| f in was.errors && Render(f.message) == Render(e.message);
      ErrorIsLocated(before, options, f);
      ErrorIsLocated(after, options, e);
      TextsTell(f.message, e.message);
    }
  }

  /** No two steps, one of either graph, have the same name but different keys. */
  ghost predicate NamesTellApart(before: Index, after: Index) {
    forall k, l :: k in before && l in after && Name(before, k) == Name(after, l) ==> k == l
  }

  /** Issues that read alike are one issue, but for the place of an edge. */
  lemma SameTextSameIssue(before: Graph, after: Graph, options: Options, f: Issue, e: Issue)
    requires PlainGraph(before) && PlainGraph(after) && NamesTellApart(ByKey(before.nodes), ByKey(after.nodes))
    requires f in ErrorsOf(before, options) && e in ErrorsOf(after, options) && Render(f.message) == Render(e.message)
    ensures f.message == e.message && f.nodeKey == e.nodeKey
    ensures f.edgeIndex != e.edgeIndex ==> f.edgeIndex.Some? && e.edgeIndex.Some?
  {
    ErrorIsLocated(before, options, f);
    ErrorIsLocated(after, options, e);
    TextsTell(f.message, e.message);
  }

  /** The edge at `i` gives rise to this message. */
  ghost predicate Complains(graph: Graph, options: Options, i: nat, m: Message) {
    exists e :: e in ErrorsOf(graph, options) && e.edgeIndex == Some(i) && e.message == m
  }

  /** When names also tell steps apart, only edges can hide an issue: every new one is reported
      exactly when no edge has a complaint now that it did not have, but that another edge had. */
  lemma NewIssuesReportedExactlyWhen(before: Graph, after: Graph, options: Options)
    requires PlainGraph(before) && PlainGraph(after) && NamesTellApart(ByKey(before.nodes), ByKey(after.nodes))
    ensures AllNewReported(CheckOf(before, options), CheckOf(after, options))
            <==> forall i: nat, j: nat, m ::
                   Complains(before, options, i, m) && Complains(after, options, j, m)
                   ==> Complains(before, options, j, m)
  {
    var was, now := CheckOf(before, options), CheckOf(after, options);
    if AllNewReported(was, now) {
      forall i: nat, j: nat, m | Complains(before, options, i, m) && Complains(after, options, j, m)
        ensures Complains(before, options, j, m)
      {
        var f :| f in was.errors && f.edgeIndex == Some(i) && f.message == m;
        var e :| e in now.errors && e.edgeIndex == Some(j) && e.message == m;
        assert Render(e.message) in Shown(was);
        assert e in was.errors;
      }
    } else {
      var e :| e in now.errors && e !in was.errors && e !in NewGraphErrors(was, now);
      var f :| f in was.errors && Render(f.message) == Render(e.message);
      SameTextSameIssue(before, after, options, f, e);
      var i, j := f.edgeIndex.value, e.edgeIndex.value;
      assert Complains(before, options, i, e.message) && Complains(after, options, j, e.message);
      if Complains(before, options, j, e.message) {
        var g :| g in was.errors && g.edgeIndex == Some(j) && g.message == e.message;
        SameTextSameIssue(before, after, options, g, e);
      }
    }
  }

  /** Edges with the same two ends have the same place. */
  ghost predicate EdgesKeepTheirPlace(before: Graph, after: Graph) {
    forall i, j ::
      0 <= i < |before.edges| && 0 <= j < |after.edges| && SamePair(before.edges[i], after.edges[j]) ==> i == j
  }

  lemma ComplaintShape(graph: Graph, options: Options, i: nat, e: Issue)
    requires e in ErrorsOf(graph, options) && e.edgeIndex == Some(i)
    ensures i < |graph.edges| && EdgeIssueShape(ByKey(graph.nodes), graph.edges[i], i, e)
  {
    OnlyEdgeErrorsPointAtEdges(graph, options, e);
    var h: nat :| h < |graph.edges| && e in EdgeErrors(ByKey(graph.nodes), options, graph.edges, h);
    EdgeErrorShape(ByKey(graph.nodes), options, graph.edges, h, e);
  }

  lemma SameShapeSamePair(byKey: Index, byKey': Index, a: Edge, b: Edge, i: nat, j: nat, f: Issue, e: Issue)
    requires NamesTellApart(byKey, byKey') && f.message == e.message
    requires EdgeIssueShape(byKey, a, i, f) && EdgeIssueShape(byKey', b, j, e)
    ensures i == j || SamePair(a, b)
  {
  }

  lemma SameComplaintSamePair(before: Graph, after: Graph, options: Options, i: nat, j: nat, m: Message)
    requires NamesTellApart(ByKey(before.nodes), ByKey(after.nodes))
    requires Complains(before, options, i, m) && Complains(after, options, j, m)
    ensures i < |before.edges| && j < |after.edges|
    ensures i == j || SamePair(before.edges[i], after.edges[j])
  {
    var f :| f in ErrorsOf(before, options) && f.edgeIndex == Some(i) && f.message == m;
    var e :| e in ErrorsOf(after, options) && e.edgeIndex == Some(j) && e.message == m;
    ComplaintShape(before, options, i, f);
    ComplaintShape(after, options, j, e);
    SameShapeSamePair(ByKey(before.nodes), ByKey(after.nodes), before.edges[i], after.edges[j], i, j, f, e);
  }

  /** So an edit that leaves edges where they are reports every issue it adds. */
  lemma EditsInPlaceReportEverything(before: Graph, after: Graph, options: Options)
    requires PlainGraph(before) && PlainGraph(after) && NamesTellApart(ByKey(before.nodes), ByKey(after.nodes))
    requires EdgesKeepTheirPlace(before, after)
    ensures AllNewReported(CheckOf(before, options), CheckOf(after, options))
  {
    forall i: nat, j: nat, m | Complains(before, options, i, m) && Complains(after, options, j, m)
      ensures Complains(before, options, j, m)
    {
      SameComplaintSamePair(before, after, options, i, j, m);
    }
    NewIssuesReportedExactlyWhen(before, after, options);
  }
}
