/** The workflow graph rules of packages/workflow-templates/src/graph.ts:
    `validateWorkflowGraph`, its exact meaning, and `newGraphErrors`. */
module WorkflowGraph {
  import opened Basics
  import opened CycleSearch

  // ---------------------------------------------------------------- entities

  /** A JavaScript number: either a finite value or one of NaN and the infinities. */
  datatype Number = Finite(value: real) | NotFinite

  datatype Loop = Loop(maxIterations: Number, conditionOperator: string, conditionValue: string)

  datatype Node = Node(
    key: string,
    title: Option<string>,
    description: Option<string>,
    kind: Option<string>,
    agentId: Option<string>,
    loop: Option<Loop>)

  datatype Edge = Edge(
    from: string,
    to: string,
    edgeKind: Option<string>,
    conditionOperator: Option<string>,
    conditionValue: Option<string>)

  datatype Graph = Graph(nodes: seq<Node>, edges: seq<Edge>)

  /** What a check depends on besides the graph. `invalidRegex` yields the problem
      with a pattern, if any; regular expression syntax is not part of this model. */
  datatype Options = Options(
    knownAgentIds: Option<set<string>>,
    allowEmpty: Option<bool>,
    invalidRegex: string -> Option<string>)

  const MAX_LOOP_ITERATIONS := 50
  const CONDITION_OPERATORS := {"equals", "contains", "matches_regex"}

  /** One constructor per wording; `Render` gives the text that is shown and compared. */
  datatype Message =
    | GraphEmpty
    | NodeWithoutKey(number: nat)
    | DuplicateKey(key: string)
    | InvalidKind(step: string, kind: string)
    | MissingDescription(step: string)
    | UnknownAgent(step: string, agentId: string)
    | LoopOnGate(step: string)
    | LoopInvalidMax(step: string)
    | LoopInvalidOperator(step: string)
    | LoopMissingValue(step: string)
    | LoopInvalidRegex(step: string, problem: string)
    | EdgeUnknownNode(number: nat, from: string, to: string, end: string)
    | EdgeSelf(step: string)
    | EdgeDuplicate(source: string, target: string)
    | EdgeInvalidKind(source: string, target: string)
    | EdgeUnexpectedCondition(source: string, target: string)
    | EdgeMissingCondition(source: string, target: string)
    | EdgeInvalidOperator(source: string, target: string)
    | EdgeInvalidRegex(source: string, target: string, problem: string)
    | GraphCycle(steps: seq<string>)
    | GateNeverMatches(source: string, target: string, value: string)
    | Disconnected(step: string)

  datatype Issue = Issue(message: Message, nodeKey: Option<string>, edgeIndex: Option<nat>)

  datatype Check = Check(ok: bool, errors: seq<Issue>, warnings: seq<Issue>)

  predicate AboutStep(m: Message) {
    || m.InvalidKind? || m.MissingDescription? || m.UnknownAgent? || m.LoopOnGate? || m.LoopInvalidMax?
    || m.LoopInvalidOperator? || m.LoopMissingValue? || m.LoopInvalidRegex? || m.EdgeSelf? || m.Disconnected?
  }

  predicate AboutConnection(m: Message) {
    || m.EdgeDuplicate? || m.EdgeInvalidKind? || m.EdgeUnexpectedCondition? || m.EdgeMissingCondition?
    || m.EdgeInvalidOperator? || m.EdgeInvalidRegex? || m.GateNeverMatches?
  }

  function Render(m: Message): string {
    if AboutStep(m) then "Step " + m.step + Remark(m)
    else if AboutConnection(m) then Connection(m.source, m.target) + Remark(m)
    else Remark(m)
  }

  const NO_STEPS := " has no steps yet. Add at least one step."
  const NO_KEY := " has no key."
  const USED_TWICE := "\" is used more than once."
  const KIND_MUST_BE := ": kind must be \"agent\" or \"approval_gate\", not \""
  const ASSIGNED_TO := " is assigned to agent \""
  const UNKNOWN_AGENT := "\", which doesn't exist or is disabled."
  const REPEAT_NOT_VALID := ": the repeat condition is not a valid regular expression ("
  const CONDITION_NOT_VALID := ": the condition is not a valid regular expression ("
  const REPEAT_BY_LOOP := ". To repeat a step, give it a loop instead."
  const GATE_ENDS_AS := ": an approval step ends as \"approved\" or \"rejected\", so the condition \""

  function Within(before: string, text: string, after: string): string {
    before + text + after
  }

  function UnknownEnd(from: string, to: string, end: string): string {
    "(" + from + " " + "\U{2192}" + " " + to + "): unknown node " + "\"" + end + "\"."
  }

  /** What is said after the step or connection, if it is about one. */
  function Remark(m: Message): string {
    match m
    case GraphEmpty => "The workflow" + NO_STEPS
    case NodeWithoutKey(n) => Within("Node ", Decimal(n), NO_KEY)
    case DuplicateKey(key) => Within("Node key \"", key, USED_TWICE)
    case InvalidKind(_, kind) => Within(KIND_MUST_BE, kind, "\".")
    case MissingDescription(_) => " needs a description of what the agent should do."
    case UnknownAgent(_, agent) => Within(ASSIGNED_TO, agent, UNKNOWN_AGENT)
    case LoopOnGate(_) => ": approval steps can't repeat; loop config is only valid on agent nodes."
    case LoopInvalidMax(_) => ": the repeat limit must be a whole number from 1 to 50."
    case LoopInvalidOperator(_) => ": the repeat condition must use one of equals, contains, matches_regex."
    case LoopMissingValue(_) => ": the repeat condition needs a value to stop on."
    case LoopInvalidRegex(_, problem) => Within(REPEAT_NOT_VALID, problem, ").")
    case EdgeUnknownNode(n, from, to, end) => "Edge " + Decimal(n) + " " + UnknownEnd(from, to, end)
    case EdgeSelf(_) => " can't connect to itself" + REPEAT_BY_LOOP
    case EdgeDuplicate(_, _) => " is defined more than once."
    case EdgeInvalidKind(_, _) => ": kind must be \"dependency\" or \"conditional\"."
    case EdgeUnexpectedCondition(_, _) => ": only conditional edges take a condition."
    case EdgeMissingCondition(_, _) => ": conditional edge missing operator/value."
    case EdgeInvalidOperator(_, _) => ": the condition must use one of equals, contains, matches_regex."
    case EdgeInvalidRegex(_, _, problem) => Within(CONDITION_NOT_VALID, problem, ").")
    case GraphCycle(steps) =>
      "The graph" + Within(" contains a cycle: ", Join(steps, " \U{2192} "), REPEAT_BY_LOOP)
    case GateNeverMatches(_, _, value) => Within(GATE_ENDS_AS, value, "\" never matches.")
    case Disconnected(_) => " isn't connected to any other step, so it starts right away alongside the first steps."
  }

  /** The capitalised label of an edge whose two ends are known. */
  function Connection(source: string, target: string): string {
    "Connection " + source + " \U{2192} " + target
  }

  function NodeIssue(m: Message, key: string): seq<Issue> {
    [Issue(m, Some(key), None)]
  }

  function EdgeIssue(m: Message, index: nat): seq<Issue> {
    [Issue(m, None, Some(index))]
  }

  // ---------------------------------------------------------------- looking things up

  function Get(o: Option<string>, default: string): string {
    if o.Some? then o.value else default
  }

  /** `!o?.trim()` */
  predicate Missing(o: Option<string>) {
    o.None? || Trim(o.value) == ""
  }

  /** JavaScript truthiness of an optional string. */
  predicate Truthy(o: Option<string>) {
    o.Some? && o.value != ""
  }

  type Index = map<string, Node>

  /** Each key with the first node that has it. */
  function ByKey(nodes: seq<Node>): (index: Index)
    ensures forall k :: k in index <==> exists i :: 0 <= i < |nodes| && nodes[i].key == k
    ensures forall k :: k in index ==> index[k].key == k && index[k] in nodes
  {
    if nodes == [] then map[]
    else
      var index, last := ByKey(nodes[..|nodes| - 1]), nodes[|nodes| - 1];
      assert nodes == nodes[..|nodes| - 1] + [last];
      if last.key in index then index else index[last.key := last]
  }

  /** How messages name a step: its title when it has one, in quotes. */
  function Name(byKey: Index, key: string): string {
    var title := if key in byKey then Trim(Get(byKey[key].title, "")) else "";
    "\"" + (if title != "" then title else key) + "\""
  }

  function NamesOf(byKey: Index, keys: seq<string>): seq<string> {
    seq(|keys|, i requires 0 <= i < |keys| => Name(byKey, keys[i]))
  }

  function PairKey(edge: Edge): string {
    edge.from + "\U{0000}" + edge.to
  }

  // ---------------------------------------------------------------- rules of one node

  function KindOf(node: Node): string {
    Get(node.kind, "agent")
  }

  predicate IsWholeNumberBetween(x: Number, lo: int, hi: int) {
    x.Finite? && x.value.Floor as real == x.value && lo <= x.value.Floor <= hi
  }

  predicate RegexFails(options: Options, pattern: string) {
    Truthy(options.invalidRegex(pattern))
  }

  function KindErrors(byKey: Index, node: Node): seq<Issue> {
    var kind := KindOf(node);
    (if kind != "agent" && kind != "approval_gate"
     then NodeIssue(InvalidKind(Name(byKey, node.key), kind), node.key) else [])
    + (if kind == "agent" && Missing(node.description)
       then NodeIssue(MissingDescription(Name(byKey, node.key)), node.key) else [])
  }

  function AgentErrors(byKey: Index, options: Options, node: Node): seq<Issue> {
    if Truthy(node.agentId) && options.knownAgentIds.Some? && node.agentId.value !in options.knownAgentIds.value
    then NodeIssue(UnknownAgent(Name(byKey, node.key), node.agentId.value), node.key)
    else []
  }

  function LoopErrors(byKey: Index, options: Options, node: Node): seq<Issue> {
    if node.loop.None? then []
    else
      var name, loop := Name(byKey, node.key), node.loop.value;
      (if KindOf(node) == "approval_gate" then NodeIssue(LoopOnGate(name), node.key) else [])
      + (if !IsWholeNumberBetween(loop.maxIterations, 1, MAX_LOOP_ITERATIONS)
         then NodeIssue(LoopInvalidMax(name), node.key) else [])
      + (if loop.conditionOperator !in CONDITION_OPERATORS
         then NodeIssue(LoopInvalidOperator(name), node.key) else [])
      + (if Trim(loop.conditionValue) == ""
         then NodeIssue(LoopMissingValue(name), node.key)
         else if loop.conditionOperator == "matches_regex" && RegexFails(options, loop.conditionValue)
         then NodeIssue(LoopInvalidRegex(name, options.invalidRegex(loop.conditionValue).value), node.key)
         else [])
  }

  function StepErrors(byKey: Index, options: Options, node: Node): seq<Issue> {
    KindErrors(byKey, node) + AgentErrors(byKey, options, node) + LoopErrors(byKey, options, node)
  }

  // ---------------------------------------------------------------- rules of one edge

  function EndErrors(byKey: Index, edge: Edge, index: nat): seq<Issue> {
    (if edge.from !in byKey
     then EdgeIssue(EdgeUnknownNode(index + 1, edge.from, edge.to, edge.from), index) else [])
    + (if edge.to !in byKey
       then EdgeIssue(EdgeUnknownNode(index + 1, edge.from, edge.to, edge.to), index) else [])
  }

  function ConditionErrors(byKey: Index, options: Options, edge: Edge, index: nat): seq<Issue> {
    var source, target := Name(byKey, edge.from), Name(byKey, edge.to);
    var kind := Get(edge.edgeKind, "dependency");
    if kind != "dependency" && kind != "conditional" then
      EdgeIssue(EdgeInvalidKind(source, target), index)
    else if kind == "dependency" then
      if Truthy(edge.conditionOperator) || Truthy(edge.conditionValue)
      then EdgeIssue(EdgeUnexpectedCondition(source, target), index) else []
    else if !Truthy(edge.conditionOperator) || Missing(edge.conditionValue) then
      EdgeIssue(EdgeMissingCondition(source, target), index)
    else if edge.conditionOperator.value !in CONDITION_OPERATORS then
      EdgeIssue(EdgeInvalidOperator(source, target), index)
    else if edge.conditionOperator.value == "matches_regex" && RegexFails(options, edge.conditionValue.value) then
      EdgeIssue(EdgeInvalidRegex(source, target, options.invalidRegex(edge.conditionValue.value).value), index)
    else []
  }

  predicate Contains(text: string, part: string) {
    part <= text || (text != [] && Contains(text[1..], part))
  }

  /** `toLowerCase` on the letters A to Z; no other character lowers to a letter of
      "approved" or "rejected", the only words the result is compared with. */
  function LowerCase(s: string): string {
    seq(|s|, i requires 0 <= i < |s| => if 'A' <= s[i] <= 'Z' then (s[i] as int + 32) as char else s[i])
  }

  predicate GateCanMatch(operator: string, value: string) {
    var wanted := LowerCase(Trim(value));
    if operator == "equals" then wanted == "approved" || wanted == "rejected"
    else Contains("approved", wanted) || Contains("rejected", wanted)
  }

  function ConditionWarnings(byKey: Index, edge: Edge, index: nat): seq<Issue> {
    if && edge.from in byKey && byKey[edge.from].kind == Some("approval_gate")
       && Get(edge.edgeKind, "dependency") == "conditional"
       && Truthy(edge.conditionOperator) && !Missing(edge.conditionValue)
       && (edge.conditionOperator.value == "equals" || edge.conditionOperator.value == "contains")
       && !GateCanMatch(edge.conditionOperator.value, edge.conditionValue.value)
    then EdgeIssue(GateNeverMatches(Name(byKey, edge.from), Name(byKey, edge.to), edge.conditionValue.value), index)
    else []
  }

  // ---------------------------------------------------------------- the whole check, by position

  /** No earlier node has the key of node `i`. */
  ghost predicate FirstUse(nodes: seq<Node>, i: nat)
    requires i < |nodes|
  {
    forall j :: 0 <= j < i ==> nodes[j].key != nodes[i].key
  }

  ghost function NodeErrors(byKey: Index, options: Options, nodes: seq<Node>, i: nat): seq<Issue>
    requires i < |nodes|
  {
    var node := nodes[i];
    if IsBlank(node.key) then [Issue(NodeWithoutKey(i + 1), None, None)]
    else if !FirstUse(nodes, i) then NodeIssue(DuplicateKey(node.key), node.key)
    else StepErrors(byKey, options, node)
  }

  /** What pushing each part in turn onto an empty list leaves. */
  ghost function Concat(parts: seq<seq<Issue>>): seq<Issue> {
    if parts == [] then [] else Concat(parts[..|parts| - 1]) + parts[|parts| - 1]
  }

  ghost function NodeErrorParts(byKey: Index, options: Options, nodes: seq<Node>, n: nat): seq<seq<Issue>>
    requires n <= |nodes|
  {
    seq(n, i requires 0 <= i < n => NodeErrors(byKey, options, nodes, i))
  }

  ghost function AllNodeErrors(byKey: Index, options: Options, nodes: seq<Node>, n: nat): seq<Issue>
    requires n <= |nodes|
  {
    Concat(NodeErrorParts(byKey, options, nodes, n))
  }

  lemma NodeErrorsGrow(byKey: Index, options: Options, nodes: seq<Node>, n: nat)
    requires n < |nodes|
    ensures AllNodeErrors(byKey, options, nodes, n + 1)
         == AllNodeErrors(byKey, options, nodes, n) + NodeErrors(byKey, options, nodes, n)
  {
    var parts := NodeErrorParts(byKey, options, nodes, n + 1);
    assert parts[..n] == NodeErrorParts(byKey, options, nodes, n);
    assert parts[n] == NodeErrors(byKey, options, nodes, n);
  }

  /** The distinct keys that are not blank, in order of first use. */
  ghost function UsableKeys(nodes: seq<Node>, n: nat): seq<string>
    requires n <= |nodes|
  {
    if n == 0 then []
    else
      var keys := UsableKeys(nodes, n - 1);
      if !IsBlank(nodes[n - 1].key) && FirstUse(nodes, n - 1) then keys + [nodes[n - 1].key] else keys
  }

  predicate Joins(byKey: Index, edge: Edge) {
    edge.from in byKey && edge.to in byKey && edge.from != edge.to
  }

  /** No earlier edge between two different known nodes has the same pair key. */
  ghost predicate FirstPair(byKey: Index, edges: seq<Edge>, i: nat)
    requires i < |edges|
  {
    forall j :: 0 <= j < i && Joins(byKey, edges[j]) ==> PairKey(edges[j]) != PairKey(edges[i])
  }

  ghost function EdgeErrors(byKey: Index, options: Options, edges: seq<Edge>, i: nat): seq<Issue>
    requires i < |edges|
  {
    var edge := edges[i];
    if EndErrors(byKey, edge, i) != [] then EndErrors(byKey, edge, i)
    else if edge.from == edge.to then [Issue(EdgeSelf(Name(byKey, edge.from)), Some(edge.from), Some(i))]
    else if !FirstPair(byKey, edges, i) then EdgeIssue(EdgeDuplicate(Name(byKey, edge.from), Name(byKey, edge.to)), i)
    else ConditionErrors(byKey, options, edge, i)
  }

  ghost function EdgeErrorParts(byKey: Index, options: Options, edges: seq<Edge>, n: nat): seq<seq<Issue>>
    requires n <= |edges|
  {
    seq(n, i requires 0 <= i < n => EdgeErrors(byKey, options, edges, i))
  }

  ghost function AllEdgeErrors(byKey: Index, options: Options, edges: seq<Edge>, n: nat): seq<Issue>
    requires n <= |edges|
  {
    Concat(EdgeErrorParts(byKey, options, edges, n))
  }

  lemma EdgeErrorsGrow(byKey: Index, options: Options, edges: seq<Edge>, n: nat)
    requires n < |edges|
    ensures AllEdgeErrors(byKey, options, edges, n + 1)
         == AllEdgeErrors(byKey, options, edges, n) + EdgeErrors(byKey, options, edges, n)
  {
    var parts := EdgeErrorParts(byKey, options, edges, n + 1);
    assert parts[..n] == EdgeErrorParts(byKey, options, edges, n);
    assert parts[n] == EdgeErrors(byKey, options, edges, n);
  }

  ghost function AllConditionWarnings(byKey: Index, edges: seq<Edge>, n: nat): seq<Issue>
    requires n <= |edges|
  {
    if n == 0 then []
    else
      AllConditionWarnings(byKey, edges, n - 1)
      + if Joins(byKey, edges[n - 1]) && FirstPair(byKey, edges, n - 1)
        then ConditionWarnings(byKey, edges[n - 1], n - 1) else []
  }

  ghost function ValidLinks(byKey: Index, edges: seq<Edge>, n: nat): seq<Link>
    requires n <= |edges|
  {
    if n == 0 then []
    else
      var links, edge := ValidLinks(byKey, edges, n - 1), edges[n - 1];
      if Joins(byKey, edge) && FirstPair(byKey, edges, n - 1) then links + [Link(edge.from, edge.to)] else links
  }

  function CycleErrors(byKey: Index, cycle: Option<seq<string>>): seq<Issue> {
    if cycle.None? then [] else [Issue(GraphCycle(NamesOf(byKey, cycle.value)), None, None)]
  }

  predicate Connected(links: seq<Link>, key: string) {
    exists l | l in links :: l.from == key || l.to == key
  }

  ghost function DisconnectedWarnings(byKey: Index, links: seq<Link>, keys: seq<string>): seq<Issue> {
    if keys == [] then []
    else
      var last := keys[|keys| - 1];
      DisconnectedWarnings(byKey, links, keys[..|keys| - 1])
      + if Connected(links, last) then [] else NodeIssue(Disconnected(Name(byKey, last)), last)
  }

  function EmptyErrors(graph: Graph, options: Options): seq<Issue> {
    if graph.nodes == [] && options.allowEmpty == Some(false) then [Issue(GraphEmpty, None, None)] else []
  }

  ghost function ErrorsOf(graph: Graph, options: Options): seq<Issue> {
    var byKey := ByKey(graph.nodes);
    EmptyErrors(graph, options)
    + AllNodeErrors(byKey, options, graph.nodes, |graph.nodes|)
    + AllEdgeErrors(byKey, options, graph.edges, |graph.edges|)
    + CycleErrors(byKey, CycleOf(UsableKeys(graph.nodes, |graph.nodes|), ValidLinks(byKey, graph.edges, |graph.edges|)))
  }

  ghost function WarningsOf(graph: Graph): seq<Issue> {
    var byKey := ByKey(graph.nodes);
    var keys := UsableKeys(graph.nodes, |graph.nodes|);
    var links := ValidLinks(byKey, graph.edges, |graph.edges|);
    AllConditionWarnings(byKey, graph.edges, |graph.edges|)
    + if |keys| > 1 && |links| > 0 then DisconnectedWarnings(byKey, links, keys) else []
  }

  ghost function CheckOf(graph: Graph, options: Options): Check {
    Check(ErrorsOf(graph, options) == [], ErrorsOf(graph, options), WarningsOf(graph))
  }

  // ---------------------------------------------------------------- the one-pass check

  method IndexNodes(nodes: seq<Node>) returns (byKey: Index)
    ensures byKey == ByKey(nodes)
  {
    byKey := map[];
    for i := 0 to |nodes|
      invariant byKey == ByKey(nodes[..i])
    {
      assert nodes[..i + 1][..i] == nodes[..i];
      if nodes[i].key !in byKey {
        byKey := byKey[nodes[i].key := nodes[i]];
      }
    }
    assert nodes[..|nodes|] == nodes;
  }

  lemma {:induction false} UsableKeysMembers(nodes: seq<Node>, n: nat)
    requires n <= |nodes|
    ensures forall k :: k in UsableKeys(nodes, n) <==> !IsBlank(k) && exists j :: 0 <= j < n && nodes[j].key == k
  {
    if n == 0 {
    } else {
      UsableKeysMembers(nodes, n - 1);
      forall k
        ensures k in UsableKeys(nodes, n) <==> !IsBlank(k) && exists j :: 0 <= j < n && nodes[j].key == k
      {
        if k == nodes[n - 1].key {
          assert FirstUse(nodes, n - 1) || exists j :: 0 <= j < n - 1 && nodes[j].key == k;
        }
      }
    }
  }

  method CheckNodes(byKey: Index, options: Options, nodes: seq<Node>)
    returns (errors: seq<Issue>, seenKeys: seq<string>)
    ensures errors == AllNodeErrors(byKey, options, nodes, |nodes|)
    ensures seenKeys == UsableKeys(nodes, |nodes|)
  {
    errors, seenKeys := [], [];
    for i := 0 to |nodes|
      invariant errors == AllNodeErrors(byKey, options, nodes, i)
      invariant seenKeys == UsableKeys(nodes, i)
    {
      var node := nodes[i];
      TrimIsEmptyExactlyWhenBlank(node.key);
      UsableKeysMembers(nodes, i);
      NodeErrorsGrow(byKey, options, nodes, i);
      assert !IsBlank(node.key) ==> (node.key in seenKeys <==> !FirstUse(nodes, i));
      if node.key == "" || Trim(node.key) == "" {
        errors := errors + [Issue(NodeWithoutKey(i + 1), None, None)];
      } else if node.key in seenKeys {
        errors := errors + NodeIssue(DuplicateKey(node.key), node.key);
      } else {
        seenKeys := seenKeys + [node.key];
        errors := errors + StepErrors(byKey, options, node);
      }
    }
  }

  ghost function PairsBefore(byKey: Index, edges: seq<Edge>, n: nat): set<string>
    requires n <= |edges|
  {
    set j | 0 <= j < n && Joins(byKey, edges[j]) :: PairKey(edges[j])
  }

  /** The callback run for each edge, given the pairs filed so far. */
  method CheckEdge(byKey: Index, options: Options, edges: seq<Edge>, i: nat, seenEdges: set<string>)
    returns (errors: seq<Issue>, warnings: seq<Issue>, valid: bool)
    requires i < |edges| && seenEdges == PairsBefore(byKey, edges, i)
    ensures errors == EdgeErrors(byKey, options, edges, i)
    ensures valid <==> Joins(byKey, edges[i]) && FirstPair(byKey, edges, i)
    ensures warnings == if valid then ConditionWarnings(byKey, edges[i], i) else []
  {
    var edge := edges[i];
    assert FirstPair(byKey, edges, i) <==> PairKey(edge) !in seenEdges;
    errors, warnings, valid := EndErrors(byKey, edge, i), [], false;
    if errors != [] {
      return;
    }
    if edge.from == edge.to {
      errors := [Issue(EdgeSelf(Name(byKey, edge.from)), Some(edge.from), Some(i))];
    } else if PairKey(edge) in seenEdges {
      errors := EdgeIssue(EdgeDuplicate(Name(byKey, edge.from), Name(byKey, edge.to)), i);
    } else {
      errors := ConditionErrors(byKey, options, edge, i);
      warnings := ConditionWarnings(byKey, edge, i);
      valid := true;
    }
  }

  lemma PairsGrow(byKey: Index, edges: seq<Edge>, i: nat)
    requires i < |edges|
    ensures PairsBefore(byKey, edges, i + 1)
         == PairsBefore(byKey, edges, i)
            + if Joins(byKey, edges[i]) && FirstPair(byKey, edges, i) then {PairKey(edges[i])} else {}
  {
  }

  /** One turn of the loop over the edges. */
  method NextEdge(byKey: Index, options: Options, edges: seq<Edge>, i: nat, seenEdges: set<string>)
    returns (errors: seq<Issue>, warnings: seq<Issue>, links: seq<Link>, seen: set<string>)
    requires i < |edges| && seenEdges == PairsBefore(byKey, edges, i)
    ensures AllEdgeErrors(byKey, options, edges, i + 1) == AllEdgeErrors(byKey, options, edges, i) + errors
    ensures AllConditionWarnings(byKey, edges, i + 1) == AllConditionWarnings(byKey, edges, i) + warnings
    ensures ValidLinks(byKey, edges, i + 1) == ValidLinks(byKey, edges, i) + links
    ensures seen == PairsBefore(byKey, edges, i + 1)
  {
    var valid;
    errors, warnings, valid := CheckEdge(byKey, options, edges, i, seenEdges);
    EdgeErrorsGrow(byKey, options, edges, i);
    PairsGrow(byKey, edges, i);
    links, seen := [], seenEdges;
    if valid {
      links, seen := [Link(edges[i].from, edges[i].to)], seenEdges + {PairKey(edges[i])};
    }
  }

  method CheckEdges(byKey: Index, options: Options, edges: seq<Edge>)
    returns (errors: seq<Issue>, warnings: seq<Issue>, validEdges: seq<Link>)
    ensures errors == AllEdgeErrors(byKey, options, edges, |edges|)
    ensures warnings == AllConditionWarnings(byKey, edges, |edges|)
    ensures validEdges == ValidLinks(byKey, edges, |edges|)
  {
    errors, warnings, validEdges := [], [], [];
    var seenEdges: set<string> := {};
    for i := 0 to |edges|
      invariant errors == AllEdgeErrors(byKey, options, edges, i)
      invariant warnings == AllConditionWarnings(byKey, edges, i)
      invariant validEdges == ValidLinks(byKey, edges, i)
      invariant seenEdges == PairsBefore(byKey, edges, i)
    {
      var newErrors, newWarnings, newLinks, seen := NextEdge(byKey, options, edges, i, seenEdges);
      errors, warnings, validEdges := errors + newErrors, warnings + newWarnings, validEdges + newLinks;
      seenEdges := seen;
    }
  }

  method WarnDisconnected(byKey: Index, links: seq<Link>, keys: seq<string>) returns (warnings: seq<Issue>)
    ensures warnings == DisconnectedWarnings(byKey, links, keys)
  {
    var connected := (set l | l in links :: l.from) + (set l | l in links :: l.to);
    warnings := [];
    for i := 0 to |keys|
      invariant warnings == DisconnectedWarnings(byKey, links, keys[..i])
    {
      assert keys[..i + 1][..i] == keys[..i];
      if keys[i] !in connected {
        warnings := warnings + NodeIssue(Disconnected(Name(byKey, keys[i])), keys[i]);
      }
    }
    assert keys[..|keys|] == keys;
  }

  method ValidateWorkflowGraph(graph: Graph, options: Options) returns (check: Check)
    ensures check == CheckOf(graph, options)
  {
    var byKey := IndexNodes(graph.nodes);
    var errors := EmptyErrors(graph, options);
    var nodeErrors, seenKeys := CheckNodes(byKey, options, graph.nodes);
    var edgeErrors, warnings, validEdges := CheckEdges(byKey, options, graph.edges);
    var cycle := FindCycle(seenKeys, validEdges);
    errors := errors + nodeErrors + edgeErrors + CycleErrors(byKey, cycle);
    if |seenKeys| > 1 && |validEdges| > 0 {
      var more := WarnDisconnected(byKey, validEdges, seenKeys);
      warnings := warnings + more;
    }
    check := Check(|errors| == 0, errors, warnings);
  }
}
