/** What every issue of a graph claims, read off the graph itself: each error and warning is
    there exactly when its claim holds, whatever else is wrong with the graph. */
module GraphClaims {
  import opened Basics
  import opened CycleSearch
  import opened WorkflowGraph
  import opened GraphRules
  import opened GraphReports

  // ---------------------------------------------------------------- which edges are searched

  /** An edge between two different steps of the graph. */
  ghost predicate Counts(graph: Graph, i: nat) {
    && i < |graph.edges|
    && IsKey(graph, graph.edges[i].from) && IsKey(graph, graph.edges[i].to)
    && graph.edges[i].from != graph.edges[i].to
  }

  /** And the first of those filed under its pair key. */
  ghost predicate Linked(graph: Graph, i: nat) {
    && Counts(graph, i)
    && forall j :: 0 <= j < i && Counts(graph, j) ==> PairKey(graph.edges[j]) != PairKey(graph.edges[i])
  }

  ghost predicate SearchedLeads(graph: Graph, a: string, b: string) {
    exists i: nat :: Linked(graph, i) && !IsBlank(a) && graph.edges[i].from == a && graph.edges[i].to == b
  }

  ghost predicate SearchedWalk(graph: Graph, c: seq<string>) {
    |c| >= 2 && c[0] == c[|c| - 1] && forall i :: 0 < i < |c| ==> SearchedLeads(graph, c[i - 1], c[i])
  }

  lemma LinkedExactly(graph: Graph, i: nat)
    ensures Linked(graph, i) <==>
            && i < |graph.edges| && Joins(ByKey(graph.nodes), graph.edges[i])
            && FirstPair(ByKey(graph.nodes), graph.edges, i)
  {
    forall j: nat | j < |graph.edges|
      ensures Counts(graph, j) <==> Joins(ByKey(graph.nodes), graph.edges[j])
    {
      JoinsExactly(graph, graph.edges[j]);
    }
  }

  lemma {:induction false} ValidLinksExactly(byKey: Index, edges: seq<Edge>, n: nat, l: Link)
    requires n <= |edges|
    ensures l in ValidLinks(byKey, edges, n) <==>
            exists i :: 0 <= i < n && Joins(byKey, edges[i]) && FirstPair(byKey, edges, i)
                        && l == Link(edges[i].from, edges[i].to)
  {
    if n == 0 {
    } else {
      ValidLinksExactly(byKey, edges, n - 1, l);
    }
  }

  ghost predicate LinkedFrom(graph: Graph, a: string, b: string) {
    exists i: nat :: Linked(graph, i) && graph.edges[i].from == a && graph.edges[i].to == b
  }

  lemma LinksExactly(graph: Graph, a: string, b: string)
    ensures Link(a, b) in ValidLinks(ByKey(graph.nodes), graph.edges, |graph.edges|) <==> LinkedFrom(graph, a, b)
  {
    var byKey := ByKey(graph.nodes);
    ValidLinksExactly(byKey, graph.edges, |graph.edges|, Link(a, b));
    if i: nat :| Linked(graph, i) && graph.edges[i].from == a && graph.edges[i].to == b {
      LinkedExactly(graph, i);
      assert Link(a, b) == Link(graph.edges[i].from, graph.edges[i].to);
    }
    if i: nat :| i < |graph.edges| && Joins(byKey, graph.edges[i]) && FirstPair(byKey, graph.edges, i)
                 && Link(a, b) == Link(graph.edges[i].from, graph.edges[i].to) {
      LinkedExactly(graph, i);
    }
  }

  lemma UsableKeysExactly(graph: Graph, k: string)
    ensures k in UsableKeys(graph.nodes, |graph.nodes|) <==> IsKey(graph, k) && !IsBlank(k)
  {
    UsableKeysMembers(graph.nodes, |graph.nodes|);
  }

  lemma LeadsExactly(graph: Graph, a: string, b: string)
    ensures var keys, links := UsableKeys(graph.nodes, |graph.nodes|),
                               ValidLinks(ByKey(graph.nodes), graph.edges, |graph.edges|);
            Leads(BuildAdjacency(keys, links), a, b) <==> SearchedLeads(graph, a, b)
  {
    UsableKeysExactly(graph, a);
    LinksExactly(graph, a, b);
    assert SearchedLeads(graph, a, b) <==> LinkedFrom(graph, a, b) && !IsBlank(a);
    assert LinkedFrom(graph, a, b) ==> IsKey(graph, a);
  }

  /** In any graph, whatever else is wrong with it, a cycle is found exactly when there is a
      closed walk along the edges that are searched. */
  lemma CycleFoundExactlyWhen(graph: Graph)
    ensures CycleFoundIn(graph).None? <==> forall c :: !SearchedWalk(graph, c)
  {
    var keys := UsableKeys(graph.nodes, |graph.nodes|);
    var links := ValidLinks(ByKey(graph.nodes), graph.edges, |graph.edges|);
    var adjacency := BuildAdjacency(keys, links);
    NullExactlyWhenAcyclic(keys, links);
    forall a, b
      ensures Leads(adjacency, a, b) <==> SearchedLeads(graph, a, b)
    {
      LeadsExactly(graph, a, b);
    }
    forall c
      ensures IsCycle(adjacency, c) <==> SearchedWalk(graph, c)
    {
    }
  }

  ghost predicate CountsLeads(graph: Graph, a: string, b: string) {
    exists i: nat :: Counts(graph, i) && !IsBlank(a) && graph.edges[i].from == a && graph.edges[i].to == b
  }

  ghost predicate CountsWalk(graph: Graph, c: seq<string>) {
    |c| >= 2 && c[0] == c[|c| - 1] && forall i :: 0 < i < |c| ==> CountsLeads(graph, c[i - 1], c[i])
  }

  lemma {:induction false} FirstOfPair(graph: Graph, i: nat) returns (j: nat)
    requires Counts(graph, i)
    ensures Linked(graph, j) && PairKey(graph.edges[j]) == PairKey(graph.edges[i])
    decreases i
  {
    if h: nat :| h < i && Counts(graph, h) && PairKey(graph.edges[h]) == PairKey(graph.edges[i]) {
      j := FirstOfPair(graph, h);
    } else {
      j := i;
    }
  }

  /** Without NUL in the keys every edge between two different steps is as good as searched. */
  lemma NulFreeSearched(graph: Graph, a: string, b: string)
    requires forall i :: 0 <= i < |graph.nodes| ==> NulFree(graph.nodes[i].key)
    ensures SearchedLeads(graph, a, b) <==> CountsLeads(graph, a, b)
  {
    if i: nat :| Counts(graph, i) && graph.edges[i].from == a && graph.edges[i].to == b {
      var j := FirstOfPair(graph, i);
      PairKeyInjective(graph.edges[j], graph.edges[i]);
    }
  }

  /** So a cycle is found exactly when those edges form one. */
  lemma NulFreeCycleFoundExactlyWhen(graph: Graph)
    requires forall i :: 0 <= i < |graph.nodes| ==> NulFree(graph.nodes[i].key)
    ensures CycleFoundIn(graph).None? <==> forall c :: !CountsWalk(graph, c)
  {
    CycleFoundExactlyWhen(graph);
    forall a, b
      ensures SearchedLeads(graph, a, b) <==> CountsLeads(graph, a, b)
    {
      NulFreeSearched(graph, a, b);
    }
    forall c
      ensures SearchedWalk(graph, c) <==> CountsWalk(graph, c)
    {
    }
  }

  // ---------------------------------------------------------------- names

  lemma {:induction false} FirstIsIndexed(nodes: seq<Node>, i: nat)
    requires i < |nodes| && FirstUse(nodes, i)
    ensures nodes[i].key in ByKey(nodes) && ByKey(nodes)[nodes[i].key] == nodes[i]
    decreases |nodes|
  {
    var last := |nodes| - 1;
    if i < last {
      assert FirstUse(nodes[..last], i);
      FirstIsIndexed(nodes[..last], i);
    } else {
      assert nodes[last].key !in ByKey(nodes[..last]);
    }
  }

  /** A step is named by its title without the blanks around it, or by its key when there is
      nothing in the title; of several steps with one key, by the first. */
  lemma NamedByTitle(nodes: seq<Node>, i: nat)
    requires i < |nodes| && FirstUse(nodes, i)
    ensures var node := nodes[i];
            Name(ByKey(nodes), node.key)
            == "\"" + (if Filled(node.title) then Trim(node.title.value) else node.key) + "\""
  {
    FirstIsIndexed(nodes, i);
    if nodes[i].title.Some? {
      TrimIsEmptyExactlyWhenBlank(nodes[i].title.value);
    } else {
      assert Trim("") == "";
    }
  }

  // ---------------------------------------------------------------- claims about steps

  ghost predicate StepClaim(options: Options, node: Node, m: Message) {
    match m
    case InvalidKind(_, kind) => node.kind == Some(kind) && kind != "agent" && kind != "approval_gate"
    case MissingDescription(_) => (node.kind == None || node.kind == Some("agent")) && !Filled(node.description)
    case UnknownAgent(_, agentId) =>
      && node.agentId == Some(agentId) && agentId != ""
      && options.knownAgentIds.Some? && agentId !in options.knownAgentIds.value
    case LoopOnGate(_) => node.loop.Some? && node.kind == Some("approval_gate")
    case LoopInvalidMax(_) =>
      node.loop.Some? && forall n :: 1 <= n <= MAX_LOOP_ITERATIONS ==> !Denotes(node.loop.value.maxIterations, n)
    case LoopInvalidOperator(_) => node.loop.Some? && node.loop.value.conditionOperator !in CONDITION_OPERATORS
    case LoopMissingValue(_) => node.loop.Some? && IsBlank(node.loop.value.conditionValue)
    case LoopInvalidRegex(_, problem) =>
      && node.loop.Some? && !IsBlank(node.loop.value.conditionValue) && problem != ""
      && node.loop.value.conditionOperator == "matches_regex"
      && options.invalidRegex(node.loop.value.conditionValue) == Some(problem)
    case _ => false
  }

  lemma KindErrorsMean(byKey: Index, options: Options, node: Node, e: Issue)
    ensures e in KindErrors(byKey, node) <==>
            OfStep(byKey, node.key, e) && StepClaim(options, node, e.message)
            && (e.message.InvalidKind? || e.message.MissingDescription?)
  {
    MissingExactlyWhenNotFilled(node.description);
  }

  lemma AgentErrorsMean(byKey: Index, options: Options, node: Node, e: Issue)
    ensures e in AgentErrors(byKey, options, node) <==>
            OfStep(byKey, node.key, e) && StepClaim(options, node, e.message) && e.message.UnknownAgent?
  {
  }

  ghost predicate AboutLoop(m: Message) {
    m.LoopOnGate? || m.LoopInvalidMax? || m.LoopInvalidOperator? || m.LoopMissingValue? || m.LoopInvalidRegex?
  }

  lemma LoopErrorsListed(byKey: Index, options: Options, node: Node, e: Issue)
    requires node.loop.Some?
    ensures var name, loop := Name(byKey, node.key), node.loop.value;
            e in LoopErrors(byKey, options, node) <==>
            && e.nodeKey == Some(node.key) && e.edgeIndex == None
            && (|| (e.message == LoopOnGate(name) && KindOf(node) == "approval_gate")
                || (e.message == LoopInvalidMax(name)
                    && !IsWholeNumberBetween(loop.maxIterations, 1, MAX_LOOP_ITERATIONS))
                || (e.message == LoopInvalidOperator(name) && loop.conditionOperator !in CONDITION_OPERATORS)
                || (e.message == LoopMissingValue(name) && Trim(loop.conditionValue) == "")
                || (Trim(loop.conditionValue) != "" && loop.conditionOperator == "matches_regex"
                    && RegexFails(options, loop.conditionValue)
                    && e.message == LoopInvalidRegex(name, options.invalidRegex(loop.conditionValue).value)))
  {
  }

  lemma LoopErrorsMean(byKey: Index, options: Options, node: Node, e: Issue)
    ensures e in LoopErrors(byKey, options, node) <==>
            OfStep(byKey, node.key, e) && StepClaim(options, node, e.message) && AboutLoop(e.message)
  {
    if node.loop.Some? {
      LoopErrorsListed(byKey, options, node, e);
      WholeNumber(node.loop.value.maxIterations, 1, MAX_LOOP_ITERATIONS);
      TrimIsEmptyExactlyWhenBlank(node.loop.value.conditionValue);
    }
  }

  lemma StepErrorsMean(byKey: Index, options: Options, node: Node, e: Issue)
    ensures e in StepErrors(byKey, options, node) <==> OfStep(byKey, node.key, e) && StepClaim(options, node, e.message)
  {
    KindErrorsMean(byKey, options, node, e);
    AgentErrorsMean(byKey, options, node, e);
    LoopErrorsMean(byKey, options, node, e);
  }

  ghost predicate NodeClaim(graph: Graph, options: Options, i: nat, e: Issue) {
    i < |graph.nodes| &&
    var node := graph.nodes[i];
    if IsBlank(node.key) then e == Issue(NodeWithoutKey(i + 1), None, None)
    else if !FirstUse(graph.nodes, i) then e == Issue(DuplicateKey(node.key), Some(node.key), None)
    else OfStep(ByKey(graph.nodes), node.key, e) && StepClaim(options, node, e.message)
  }

  lemma NodeErrorsMean(graph: Graph, options: Options, i: nat, e: Issue)
    requires i < |graph.nodes|
    ensures e in NodeErrors(ByKey(graph.nodes), options, graph.nodes, i) <==> NodeClaim(graph, options, i, e)
  {
    StepErrorsMean(ByKey(graph.nodes), options, graph.nodes[i], e);
  }

  // ---------------------------------------------------------------- claims about edges

  ghost predicate ConditionClaim(options: Options, edge: Edge, m: Message) {
    match m
    case EdgeInvalidKind(_, _) =>
      edge.edgeKind.Some? && edge.edgeKind.value != "dependency" && edge.edgeKind.value != "conditional"
    case EdgeUnexpectedCondition(_, _) =>
      && (edge.edgeKind == None || edge.edgeKind == Some("dependency"))
      && (Has(edge.conditionOperator) || Has(edge.conditionValue))
    case EdgeMissingCondition(_, _) =>
      edge.edgeKind == Some("conditional") && (!Has(edge.conditionOperator) || !Filled(edge.conditionValue))
    case EdgeInvalidOperator(_, _) =>
      && edge.edgeKind == Some("conditional") && Has(edge.conditionOperator) && Filled(edge.conditionValue)
      && edge.conditionOperator.value !in CONDITION_OPERATORS
    case EdgeInvalidRegex(_, _, problem) =>
      && edge.edgeKind == Some("conditional") && Filled(edge.conditionValue) && problem != ""
      && edge.conditionOperator == Some("matches_regex")
      && options.invalidRegex(edge.conditionValue.value) == Some(problem)
    case _ => false
  }

  lemma ConditionErrorsMean(byKey: Index, options: Options, edge: Edge, i: nat, e: Issue)
    ensures e in ConditionErrors(byKey, options, edge, i) <==>
            OfConnection(byKey, edge, i, e) && ConditionClaim(options, edge, e.message)
  {
    MissingExactlyWhenNotFilled(edge.conditionValue);
  }

  ghost predicate EdgeClaim(graph: Graph, options: Options, i: nat, e: Issue) {
    i < |graph.edges| &&
    var byKey, edge := ByKey(graph.nodes), graph.edges[i];
    if !IsKey(graph, edge.from) || !IsKey(graph, edge.to) then
      exists end :: (end == edge.from || end == edge.to) && !IsKey(graph, end)
                    && e == Issue(EdgeUnknownNode(i + 1, edge.from, edge.to, end), None, Some(i))
    else if edge.from == edge.to then e == Issue(EdgeSelf(Name(byKey, edge.from)), Some(edge.from), Some(i))
    else OfConnection(byKey, edge, i, e)
         && if Linked(graph, i) then ConditionClaim(options, edge, e.message) else e.message.EdgeDuplicate?
  }

  lemma EndErrorsMean(graph: Graph, edge: Edge, i: nat, e: Issue)
    ensures e in EndErrors(ByKey(graph.nodes), edge, i) <==>
            exists end :: (end == edge.from || end == edge.to) && !IsKey(graph, end)
                          && e == Issue(EdgeUnknownNode(i + 1, edge.from, edge.to, end), None, Some(i))
    ensures EndErrors(ByKey(graph.nodes), edge, i) == [] <==> IsKey(graph, edge.from) && IsKey(graph, edge.to)
  {
    var byKey := ByKey(graph.nodes);
    assert edge.from in byKey <==> IsKey(graph, edge.from);
    assert edge.to in byKey <==> IsKey(graph, edge.to);
    if edge.from !in byKey && e == Issue(EdgeUnknownNode(i + 1, edge.from, edge.to, edge.from), None, Some(i)) {
      assert e in EndErrors(byKey, edge, i);
    }
    if edge.to !in byKey && e == Issue(EdgeUnknownNode(i + 1, edge.from, edge.to, edge.to), None, Some(i)) {
      assert e in EndErrors(byKey, edge, i);
    }
  }

  lemma EdgeErrorsMean(graph: Graph, options: Options, i: nat, e: Issue)
    requires i < |graph.edges|
    ensures e in EdgeErrors(ByKey(graph.nodes), options, graph.edges, i) <==> EdgeClaim(graph, options, i, e)
  {
    EndErrorsMean(graph, graph.edges[i], i, e);
    ConditionErrorsMean(ByKey(graph.nodes), options, graph.edges[i], i, e);
    LinkedExactly(graph, i);
    JoinsExactly(graph, graph.edges[i]);
  }

  // ---------------------------------------------------------------- every error

  ghost predicate Claimed(graph: Graph, options: Options, e: Issue) {
    || (e == Issue(GraphEmpty, None, None) && graph.nodes == [] && options.allowEmpty == Some(false))
    || (exists i: nat :: NodeClaim(graph, options, i, e))
    || (exists i: nat :: EdgeClaim(graph, options, i, e))
  }

  lemma NodeClaimsMean(graph: Graph, options: Options, e: Issue)
    ensures (exists i: nat :: i < |graph.nodes| && e in NodeErrors(ByKey(graph.nodes), options, graph.nodes, i))
            <==> exists i: nat :: NodeClaim(graph, options, i, e)
  {
    if i: nat :| i < |graph.nodes| && e in NodeErrors(ByKey(graph.nodes), options, graph.nodes, i) {
      NodeErrorsMean(graph, options, i, e);
    }
    if i: nat :| NodeClaim(graph, options, i, e) {
      NodeErrorsMean(graph, options, i, e);
    }
  }

  lemma EdgeClaimsMean(graph: Graph, options: Options, e: Issue)
    ensures (exists i: nat :: i < |graph.edges| && e in EdgeErrors(ByKey(graph.nodes), options, graph.edges, i))
            <==> exists i: nat :: EdgeClaim(graph, options, i, e)
  {
    if i: nat :| i < |graph.edges| && e in EdgeErrors(ByKey(graph.nodes), options, graph.edges, i) {
      EdgeErrorsMean(graph, options, i, e);
    }
    if i: nat :| EdgeClaim(graph, options, i, e) {
      EdgeErrorsMean(graph, options, i, e);
    }
  }

  /** For every graph: an error other than a cycle is reported exactly when its claim holds. */
  lemma ErrorsMean(graph: Graph, options: Options, e: Issue)
    requires !e.message.GraphCycle?
    ensures e in ErrorsOf(graph, options) <==> Claimed(graph, options, e)
  {
    ErrorsComeFromExactly(graph, options, e);
    NodeClaimsMean(graph, options, e);
    EdgeClaimsMean(graph, options, e);
  }

  /** And a cycle exactly when there is a closed walk along the edges that are searched. */
  lemma CycleReportedExactlyWhen(graph: Graph, options: Options)
    ensures (exists e :: e in ErrorsOf(graph, options) && e.message.GraphCycle?) <==> exists c :: SearchedWalk(graph, c)
  {
    CycleFoundExactlyWhen(graph);
    if CycleFoundIn(graph).Some? {
      var e := CycleErrors(ByKey(graph.nodes), CycleFoundIn(graph))[0];
      ErrorsComeFromExactly(graph, options, e);
    }
    if e :| e in ErrorsOf(graph, options) && e.message.GraphCycle? {
      ErrorsComeFromExactly(graph, options, e);
      NoCycleClaimed(graph, options, e);
    }
  }

  lemma NoCycleClaimed(graph: Graph, options: Options, e: Issue)
    requires e.message.GraphCycle?
    ensures forall i: nat :: i < |graph.nodes| ==> e !in NodeErrors(ByKey(graph.nodes), options, graph.nodes, i)
    ensures forall i: nat :: i < |graph.edges| ==> e !in EdgeErrors(ByKey(graph.nodes), options, graph.edges, i)
  {
    forall i: nat | i < |graph.nodes|
      ensures e !in NodeErrors(ByKey(graph.nodes), options, graph.nodes, i)
    {
      NodeErrorsMean(graph, options, i, e);
    }
    forall i: nat | i < |graph.edges|
      ensures e !in EdgeErrors(ByKey(graph.nodes), options, graph.edges, i)
    {
      EdgeErrorsMean(graph, options, i, e);
    }
  }

  // ---------------------------------------------------------------- every warning

  /** The word in any mixture of small and capital letters. */
  ghost predicate ReadsAs(text: string, word: string) {
    |text| == |word| && forall i :: 0 <= i < |word| ==>
      text[i] == word[i] || ('A' <= text[i] <= 'Z' && text[i] as int + 32 == word[i] as int)
  }

  ghost predicate SmallLetters(word: string) {
    forall i :: 0 <= i < |word| ==> 'a' <= word[i] <= 'z'
  }

  lemma LowerCaseExactly(text: string, word: string)
    requires SmallLetters(word)
    ensures LowerCase(text) == word <==> ReadsAs(text, word)
  {
    if ReadsAs(text, word) {
      assert forall i :: 0 <= i < |word| ==> LowerCase(text)[i] == word[i];
    }
    if LowerCase(text) == word {
      assert forall i :: 0 <= i < |word| ==> LowerCase(text)[i] == word[i];
    }
  }

  lemma {:induction false} ContainsExactly(text: string, part: string)
    ensures Contains(text, part) <==> exists i :: 0 <= i <= |text| && part <= text[i..]
    decreases |text|
  {
    assert text[0..] == text;
    if text == "" {
    } else {
      ContainsExactly(text[1..], part);
      if i :| 0 <= i <= |text[1..]| && part <= text[1..][i..] {
        assert text[1..][i..] == text[i + 1..];
      }
      if i :| 0 <= i <= |text| && part <= text[i..] {
        assert i > 0 ==> text[1..][i - 1..] == text[i..];
      }
    }
  }

  /** What an approval step can end as satisfies the condition: equal to the value, or
      containing it, in any mixture of letters. */
  ghost predicate Satisfies(operator: string, outcome: string, value: string) {
    if operator == "equals" then ReadsAs(value, outcome)
    else exists i, j :: 0 <= i <= j <= |outcome| && ReadsAs(value, outcome[i..j])
  }

  lemma ContainsReads(outcome: string, value: string)
    requires SmallLetters(outcome)
    ensures Contains(outcome, LowerCase(value)) <==>
            exists i, j :: 0 <= i <= j <= |outcome| && ReadsAs(value, outcome[i..j])
  {
    ContainsExactly(outcome, LowerCase(value));
    if i :| 0 <= i <= |outcome| && LowerCase(value) <= outcome[i..] {
      var j := i + |value|;
      assert outcome[i..j] == LowerCase(value);
      LowerCaseExactly(value, outcome[i..j]);
    }
    if i, j :| 0 <= i <= j <= |outcome| && ReadsAs(value, outcome[i..j]) {
      LowerCaseExactly(value, outcome[i..j]);
      assert outcome[i..][..j - i] == outcome[i..j];
    }
  }

  lemma GateCanMatchExactly(operator: string, value: string)
    ensures GateCanMatch(operator, value) <==>
            Satisfies(operator, "approved", Trim(value)) || Satisfies(operator, "rejected", Trim(value))
  {
    LowerCaseExactly(Trim(value), "approved");
    LowerCaseExactly(Trim(value), "rejected");
    ContainsReads("approved", Trim(value));
    ContainsReads("rejected", Trim(value));
  }

  /** An edge that is searched waits for an approval step to end as it never does. */
  ghost predicate GateClaim(graph: Graph, i: nat, e: Issue) {
    Linked(graph, i) &&
    var byKey, edge := ByKey(graph.nodes), graph.edges[i];
    && edge.from in byKey && byKey[edge.from].kind == Some("approval_gate") && edge.edgeKind == Some("conditional")
    && (edge.conditionOperator == Some("equals") || edge.conditionOperator == Some("contains"))
    && Filled(edge.conditionValue)
    && !Satisfies(edge.conditionOperator.value, "approved", Trim(edge.conditionValue.value))
    && !Satisfies(edge.conditionOperator.value, "rejected", Trim(edge.conditionValue.value))
    && e == Issue(GateNeverMatches(Name(byKey, edge.from), Name(byKey, edge.to), edge.conditionValue.value),
                  None, Some(i))
  }

  lemma ConditionWarningsMean(graph: Graph, i: nat, e: Issue)
    requires i < |graph.edges| && Linked(graph, i)
    ensures e in ConditionWarnings(ByKey(graph.nodes), graph.edges[i], i) <==> GateClaim(graph, i, e)
  {
    var edge := graph.edges[i];
    MissingExactlyWhenNotFilled(edge.conditionValue);
    if edge.conditionOperator.Some? && edge.conditionValue.Some? {
      GateCanMatchExactly(edge.conditionOperator.value, edge.conditionValue.value);
    }
  }

  lemma GateWarningsMean(graph: Graph, i: nat, e: Issue)
    requires i < |graph.edges|
    ensures var byKey := ByKey(graph.nodes);
            e in (if Joins(byKey, graph.edges[i]) && FirstPair(byKey, graph.edges, i)
                  then ConditionWarnings(byKey, graph.edges[i], i) else [])
            <==> GateClaim(graph, i, e)
  {
    LinkedExactly(graph, i);
    if Linked(graph, i) {
      ConditionWarningsMean(graph, i, e);
    }
  }

  ghost predicate SomeGate(graph: Graph, n: nat, e: Issue) {
    exists i: nat :: i < n && GateClaim(graph, i, e)
  }

  lemma OneMoreGate(graph: Graph, n: nat, e: Issue)
    ensures SomeGate(graph, n + 1, e) <==> SomeGate(graph, n, e) || GateClaim(graph, n, e)
  {
  }

  lemma {:induction false} AllConditionWarningsMean(graph: Graph, n: nat, e: Issue)
    requires n <= |graph.edges|
    ensures e in AllConditionWarnings(ByKey(graph.nodes), graph.edges, n) <==> SomeGate(graph, n, e)
  {
    if n == 0 {
    } else {
      AllConditionWarningsMean(graph, n - 1, e);
      GateWarningsMean(graph, n - 1, e);
      OneMoreGate(graph, n - 1, e);
    }
  }

  ghost predicate DisconnectedClaim(byKey: Index, links: seq<Link>, e: Issue) {
    && e.nodeKey.Some? && e == Issue(Disconnected(Name(byKey, e.nodeKey.value)), e.nodeKey, None)
    && forall l :: l in links ==> l.from != e.nodeKey.value && l.to != e.nodeKey.value
  }

  lemma {:induction false} DisconnectedMean(byKey: Index, links: seq<Link>, keys: seq<string>, e: Issue)
    ensures e in DisconnectedWarnings(byKey, links, keys) <==>
            DisconnectedClaim(byKey, links, e) && e.nodeKey.value in keys
    decreases |keys|
  {
    if keys == [] {
    } else {
      DisconnectedMean(byKey, links, keys[..|keys| - 1], e);
      assert keys == keys[..|keys| - 1] + [keys[|keys| - 1]];
    }
  }

  /** A step with a usable key that no edge touches, though there are other steps and there is
      an edge between two of them. */
  ghost predicate AloneClaim(graph: Graph, e: Issue) {
    && e.nodeKey.Some? && e == Issue(Disconnected(Name(ByKey(graph.nodes), e.nodeKey.value)), e.nodeKey, None)
    && IsKey(graph, e.nodeKey.value) && !IsBlank(e.nodeKey.value)
    && (exists k :: IsKey(graph, k) && !IsBlank(k) && k != e.nodeKey.value)
    && (exists i: nat :: Linked(graph, i))
    && (forall i: nat :: Linked(graph, i) ==>
          graph.edges[i].from != e.nodeKey.value && graph.edges[i].to != e.nodeKey.value)
  }

  lemma {:induction false} UsableKeysDiffer(nodes: seq<Node>, n: nat)
    requires n <= |nodes|
    ensures Distinct(UsableKeys(nodes, n))
  {
    if n == 0 {
    } else {
      UsableKeysDiffer(nodes, n - 1);
      UsableKeysMembers(nodes, n - 1);
    }
  }

  lemma SeveralExactly(keys: seq<string>, k: string)
    requires Distinct(keys) && k in keys
    ensures |keys| > 1 <==> exists l :: l in keys && l != k
  {
    var i :| 0 <= i < |keys| && keys[i] == k;
    if |keys| > 1 {
      var other := keys[if i == 0 then 1 else 0];
      assert other in keys && other != k;
    }
    if l :| l in keys && l != k {
      var j :| 0 <= j < |keys| && keys[j] == l;
    }
  }

  lemma LinksListed(graph: Graph)
    ensures ValidLinks(ByKey(graph.nodes), graph.edges, |graph.edges|) != [] <==> exists i: nat :: Linked(graph, i)
    ensures forall i: nat :: Linked(graph, i) ==>
              Link(graph.edges[i].from, graph.edges[i].to) in ValidLinks(ByKey(graph.nodes), graph.edges, |graph.edges|)
  {
    var links := ValidLinks(ByKey(graph.nodes), graph.edges, |graph.edges|);
    forall i: nat | Linked(graph, i)
      ensures Link(graph.edges[i].from, graph.edges[i].to) in links
    {
      LinksExactly(graph, graph.edges[i].from, graph.edges[i].to);
    }
    if links != [] {
      assert links[0] in links;
      LinksExactly(graph, links[0].from, links[0].to);
    }
  }

  lemma UntouchedExactly(graph: Graph, k: string)
    ensures var links := ValidLinks(ByKey(graph.nodes), graph.edges, |graph.edges|);
            (forall l :: l in links ==> l.from != k && l.to != k) <==>
            forall i: nat :: Linked(graph, i) ==> graph.edges[i].from != k && graph.edges[i].to != k
  {
    LinksListed(graph);
    forall l | l in ValidLinks(ByKey(graph.nodes), graph.edges, |graph.edges|)
      ensures LinkedFrom(graph, l.from, l.to)
    {
      LinksExactly(graph, l.from, l.to);
    }
  }

  lemma SeveralSteps(graph: Graph, k: string)
    requires IsKey(graph, k) && !IsBlank(k)
    ensures |UsableKeys(graph.nodes, |graph.nodes|)| > 1 <==>
            exists l :: IsKey(graph, l) && !IsBlank(l) && l != k
  {
    var keys := UsableKeys(graph.nodes, |graph.nodes|);
    UsableKeysDiffer(graph.nodes, |graph.nodes|);
    forall l
      ensures l in keys <==> IsKey(graph, l) && !IsBlank(l)
    {
      UsableKeysExactly(graph, l);
    }
    SeveralExactly(keys, k);
  }

  lemma AloneExactly(graph: Graph, e: Issue)
    requires e.nodeKey.Some?
    ensures var byKey, keys := ByKey(graph.nodes), UsableKeys(graph.nodes, |graph.nodes|);
            var links := ValidLinks(byKey, graph.edges, |graph.edges|);
            AloneClaim(graph, e) <==>
            |keys| > 1 && |links| > 0 && DisconnectedClaim(byKey, links, e) && e.nodeKey.value in keys
  {
    var k := e.nodeKey.value;
    LinksListed(graph);
    UntouchedExactly(graph, k);
    UsableKeysExactly(graph, k);
    if IsKey(graph, k) && !IsBlank(k) {
      SeveralSteps(graph, k);
    }
  }

  /** For every graph: a warning is given exactly when its claim holds. */
  lemma WarningsMean(graph: Graph, e: Issue)
    ensures e in WarningsOf(graph) <==> (exists i: nat :: GateClaim(graph, i, e)) || AloneClaim(graph, e)
  {
    var byKey, keys := ByKey(graph.nodes), UsableKeys(graph.nodes, |graph.nodes|);
    AllConditionWarningsMean(graph, |graph.edges|, e);
    DisconnectedMean(byKey, ValidLinks(byKey, graph.edges, |graph.edges|), keys, e);
    if e.nodeKey.Some? {
      AloneExactly(graph, e);
    }
  }
}
