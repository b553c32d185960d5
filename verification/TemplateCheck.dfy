/** Structural validation of workflow templates (packages/workflow-templates/src/validate.ts,
    `validateWorkflowTemplate`). */
module TemplateCheck {
  import opened Basics
  import opened WorkflowGraph
  import opened GraphRules
  import opened GraphClaims
  import opened Placeholders

  datatype Input = Input(key: string, kind: string, default: Option<string>, options: Option<seq<string>>)

  datatype TemplateNode = TemplateNode(
    key: string,
    title: Option<string>,
    description: string,
    kind: string,
    loop: Option<Loop>,
    agent: Option<string>)

  datatype TemplateEdge = TemplateEdge(
    from: string,
    to: string,
    edgeKind: string,
    conditionOperator: Option<string>,
    conditionValue: Option<string>)

  /** Webhook and schedule triggers are not looked at by the validation. */
  datatype Trigger =
    | ChannelMessage(channel: string, matchType: string, matchValue: Option<string>, ackText: Option<string>)
    | OtherTrigger

  datatype Template = Template(
    inputs: seq<Input>,
    nodes: seq<TemplateNode>,
    edges: seq<TemplateEdge>,
    trigger: Option<Trigger>)

  datatype TemplateError =
    | InGraph(message: Message)
    | UndeclaredInNode(node: string, placeholder: string)
    | AgentInput(node: string, placeholder: string)
    | SelectDefault(input: string, default: string)
    | TriggerChannel
    | TriggerMatch
    | UndeclaredInTrigger(placeholder: string)
    | UndeclaredInEdge(from: string, to: string, placeholder: string)

  function GraphNode(n: TemplateNode): Node {
    Node(n.key, n.title, Some(n.description), Some(n.kind), None, n.loop)
  }

  function GraphEdge(e: TemplateEdge): Edge {
    Edge(e.from, e.to, Some(e.edgeKind), e.conditionOperator, e.conditionValue)
  }

  function GraphOf(t: Template): Graph {
    Graph(seq(|t.nodes|, i requires 0 <= i < |t.nodes| => GraphNode(t.nodes[i])),
          seq(|t.edges|, i requires 0 <= i < |t.edges| => GraphEdge(t.edges[i])))
  }

  function DefaultOptions(invalidRegex: string -> Option<string>): Options {
    Options(None, None, invalidRegex)
  }

  // ---------------------------------------------------------------- what is wrong with a template

  ghost predicate Declared(t: Template, key: string) {
    exists i :: 0 <= i < |t.inputs| && t.inputs[i].key == key
  }

  /** The last input of that key, when keys repeat. */
  ghost predicate HasKind(t: Template, key: string, kind: string) {
    exists i :: 0 <= i < |t.inputs| && t.inputs[i].key == key && t.inputs[i].kind == kind
      && forall j :: i < j < |t.inputs| ==> t.inputs[j].key != key
  }

  predicate NodeMentions(n: TemplateNode, key: string) {
    key in ExtractPlaceholders(n.title) || key in ExtractPlaceholders(Some(n.description))
  }

  predicate TriggerMentions(trigger: Trigger, key: string)
    requires trigger.ChannelMessage?
  {
    key in ExtractPlaceholders(trigger.matchValue) || key in ExtractPlaceholders(trigger.ackText)
  }

  ghost predicate ListensOnChannel(t: Template, trigger: Trigger)
    requires trigger.ChannelMessage?
  {
    var keys := ExtractPlaceholders(Some(trigger.channel));
    keys != [] && HasKind(t, keys[0], "channel")
  }

  ghost predicate WrongInNode(t: Template, n: TemplateNode, e: TemplateError) {
    e.UndeclaredInNode? && e.node == n.key && NodeMentions(n, e.placeholder) && !Declared(t, e.placeholder)
  }

  ghost predicate WrongAgent(t: Template, n: TemplateNode, e: TemplateError) {
    && e.AgentInput? && e.node == n.key
    && e.placeholder in ExtractPlaceholders(n.agent) && !HasKind(t, e.placeholder, "agent")
  }

  ghost predicate WrongDefault(input: Input, e: TemplateError) {
    && e.SelectDefault? && e.input == input.key && Some(e.default) == input.default && input.kind == "select"
    && (input.options.Some? ==> e.default !in input.options.value)
  }

  ghost predicate WrongInEdge(t: Template, edge: TemplateEdge, e: TemplateError) {
    && e.UndeclaredInEdge? && e.from == edge.from && e.to == edge.to
    && e.placeholder in ExtractPlaceholders(edge.conditionValue) && !Declared(t, e.placeholder)
  }

  /** Exactly what each error claims. */
  ghost predicate Wrong(t: Template, options: Options, e: TemplateError) {
    match e
    case InGraph(m) =>
      exists i :: 0 <= i < |ErrorsOf(GraphOf(t), options)| && ErrorsOf(GraphOf(t), options)[i].message == m
    case UndeclaredInNode(_, _) => exists i :: 0 <= i < |t.nodes| && WrongInNode(t, t.nodes[i], e)
    case AgentInput(_, _) => exists i :: 0 <= i < |t.nodes| && WrongAgent(t, t.nodes[i], e)
    case SelectDefault(_, _) => exists i :: 0 <= i < |t.inputs| && WrongDefault(t.inputs[i], e)
    case TriggerChannel =>
      t.trigger.Some? && t.trigger.value.ChannelMessage? && !ListensOnChannel(t, t.trigger.value)
    case TriggerMatch =>
      && t.trigger.Some? && t.trigger.value.ChannelMessage?
      && t.trigger.value.matchType != "any" && !Filled(t.trigger.value.matchValue)
    case UndeclaredInTrigger(p) =>
      t.trigger.Some? && t.trigger.value.ChannelMessage? && TriggerMentions(t.trigger.value, p) && !Declared(t, p)
    case UndeclaredInEdge(_, _, _) => exists i :: 0 <= i < |t.edges| && WrongInEdge(t, t.edges[i], e)
  }

  // ---------------------------------------------------------------- the validation

  method InputKeys(t: Template) returns (keys: set<string>)
    ensures forall k :: k in keys <==> Declared(t, k)
  {
    keys := set i | 0 <= i < |t.inputs| :: t.inputs[i].key;
  }

  method InputTypes(t: Template) returns (types: map<string, string>)
    ensures forall k, kind :: k in types && types[k] == kind <==> HasKind(t, k, kind)
  {
    types := map[];
    for i := 0 to |t.inputs|
      invariant forall k :: k in types <==> exists j :: 0 <= j < i && t.inputs[j].key == k
      invariant forall k :: k in types ==>
        exists j :: 0 <= j < i && t.inputs[j].key == k && t.inputs[j].kind == types[k]
          && forall h :: j < h < i ==> t.inputs[h].key != k
    {
      types := types[t.inputs[i].key := t.inputs[i].kind];
    }
  }

  /** The placeholders of `keys` that are not allowed, in order. */
  function Rejected(keys: seq<string>, allowed: set<string>): (rejected: seq<string>)
    ensures forall k :: k in rejected <==> k in keys && k !in allowed
  {
    if keys == [] then []
    else
      var rest := Rejected(keys[1..], allowed);
      if keys[0] in allowed then rest else [keys[0]] + rest
  }

  function NodeErrorsFor(node: string, keys: seq<string>): (errors: seq<TemplateError>)
    ensures forall e :: e in errors <==> e.UndeclaredInNode? && e.node == node && e.placeholder in keys
  {
    if keys == [] then [] else [UndeclaredInNode(node, keys[0])] + NodeErrorsFor(node, keys[1..])
  }

  function AgentErrorsFor(node: string, keys: seq<string>): (errors: seq<TemplateError>)
    ensures forall e :: e in errors <==> e.AgentInput? && e.node == node && e.placeholder in keys
  {
    if keys == [] then [] else [AgentInput(node, keys[0])] + AgentErrorsFor(node, keys[1..])
  }

  function TriggerErrorsFor(keys: seq<string>): (errors: seq<TemplateError>)
    ensures forall e :: e in errors <==> e.UndeclaredInTrigger? && e.placeholder in keys
  {
    if keys == [] then [] else [UndeclaredInTrigger(keys[0])] + TriggerErrorsFor(keys[1..])
  }

  function EdgeErrorsFor(from: string, to: string, keys: seq<string>): (errors: seq<TemplateError>)
    ensures forall e :: e in errors <==> e.UndeclaredInEdge? && e.from == from && e.to == to && e.placeholder in keys
  {
    if keys == [] then [] else [UndeclaredInEdge(from, to, keys[0])] + EdgeErrorsFor(from, to, keys[1..])
  }

  method CheckGraph(t: Template, options: Options) returns (errors: seq<TemplateError>)
    ensures forall e :: e in errors <==> e.InGraph? && Wrong(t, options, e)
  {
    var check := ValidateWorkflowGraph(GraphOf(t), options);
    errors := seq(|check.errors|, i requires 0 <= i < |check.errors| => InGraph(check.errors[i].message));
    forall e
      ensures e in errors <==> e.InGraph? && Wrong(t, options, e)
    {
      if e in errors {
        var i :| 0 <= i < |errors| && errors[i] == e;
        assert check.errors[i].message == e.message;
      }
      if e.InGraph? && Wrong(t, options, e) {
        var i :| 0 <= i < |check.errors| && check.errors[i].message == e.message;
        assert errors[i] == e;
      }
    }
  }

  method NodeInputs(t: Template, n: TemplateNode, declared: set<string>) returns (errors: seq<TemplateError>)
    requires forall k :: k in declared <==> Declared(t, k)
    ensures forall e :: e in errors <==> WrongInNode(t, n, e)
  {
    var keys := ExtractPlaceholders(n.title) + ExtractPlaceholders(Some(n.description));
    assert forall k :: k in keys <==> NodeMentions(n, k);
    errors := NodeErrorsFor(n.key, Rejected(keys, declared));
  }

  method CheckNodeInputs(t: Template, declared: set<string>, options: Options) returns (errors: seq<TemplateError>)
    requires forall k :: k in declared <==> Declared(t, k)
    ensures forall e :: e in errors <==> e.UndeclaredInNode? && Wrong(t, options, e)
  {
    errors := [];
    for i := 0 to |t.nodes|
      invariant forall e :: e in errors <==> exists j :: 0 <= j < i && WrongInNode(t, t.nodes[j], e)
    {
      var more := NodeInputs(t, t.nodes[i], declared);
      errors := errors + more;
    }
  }

  method CheckAgents(t: Template, types: map<string, string>, options: Options) returns (errors: seq<TemplateError>)
    requires forall k, kind :: k in types && types[k] == kind <==> HasKind(t, k, kind)
    ensures forall e :: e in errors <==> e.AgentInput? && Wrong(t, options, e)
  {
    errors := [];
    var agents := set k | k in types && types[k] == "agent";
    assert forall k :: k in agents <==> HasKind(t, k, "agent");
    for i := 0 to |t.nodes|
      invariant forall e :: e in errors <==> exists j :: 0 <= j < i && WrongAgent(t, t.nodes[j], e)
    {
      var more := AgentErrors(t, t.nodes[i], agents);
      errors := errors + more;
    }
  }

  method AgentErrors(t: Template, n: TemplateNode, agents: set<string>) returns (errors: seq<TemplateError>)
    requires forall k :: k in agents <==> HasKind(t, k, "agent")
    ensures forall e :: e in errors <==> WrongAgent(t, n, e)
  {
    errors := AgentErrorsFor(n.key, Rejected(ExtractPlaceholders(n.agent), agents));
  }

  method CheckDefaults(t: Template, options: Options) returns (errors: seq<TemplateError>)
    ensures forall e :: e in errors <==> e.SelectDefault? && Wrong(t, options, e)
  {
    errors := [];
    for i := 0 to |t.inputs|
      invariant forall e :: e in errors <==> exists j :: 0 <= j < i && WrongDefault(t.inputs[j], e)
    {
      var input := t.inputs[i];
      if input.kind == "select" && input.default.Some?
         && input.default.value !in (if input.options.Some? then input.options.value else []) {
        errors := errors + [SelectDefault(input.key, input.default.value)];
      }
    }
  }

  method CheckTrigger(t: Template, declared: set<string>, types: map<string, string>, options: Options)
    returns (errors: seq<TemplateError>)
    requires forall k :: k in declared <==> Declared(t, k)
    requires forall k, kind :: k in types && types[k] == kind <==> HasKind(t, k, kind)
    ensures forall e :: e in errors <==>
              (e.TriggerChannel? || e.TriggerMatch? || e.UndeclaredInTrigger?) && Wrong(t, options, e)
  {
    errors := [];
    if t.trigger.None? || !t.trigger.value.ChannelMessage? {
      return;
    }
    var trigger := t.trigger.value;
    var keys := ExtractPlaceholders(Some(trigger.channel));
    if keys == [] || keys[0] !in types || types[keys[0]] != "channel" {
      errors := errors + [TriggerChannel];
    }
    MissingExactlyWhenNotFilled(trigger.matchValue);
    if trigger.matchType != "any" && Missing(trigger.matchValue) {
      errors := errors + [TriggerMatch];
    }
    var more := TriggerInputs(t, trigger, declared);
    errors := errors + more;
  }

  method TriggerInputs(t: Template, trigger: Trigger, declared: set<string>) returns (errors: seq<TemplateError>)
    requires trigger.ChannelMessage? && forall k :: k in declared <==> Declared(t, k)
    ensures forall e :: e in errors <==>
      e.UndeclaredInTrigger? && TriggerMentions(trigger, e.placeholder) && !Declared(t, e.placeholder)
  {
    var keys := ExtractPlaceholders(trigger.matchValue) + ExtractPlaceholders(trigger.ackText);
    assert forall k :: k in keys <==> TriggerMentions(trigger, k);
    errors := TriggerErrorsFor(Rejected(keys, declared));
  }

  method EdgeInputs(t: Template, edge: TemplateEdge, declared: set<string>) returns (errors: seq<TemplateError>)
    requires forall k :: k in declared <==> Declared(t, k)
    ensures forall e :: e in errors <==> WrongInEdge(t, edge, e)
  {
    errors := EdgeErrorsFor(edge.from, edge.to, Rejected(ExtractPlaceholders(edge.conditionValue), declared));
  }

  method CheckEdgeInputs(t: Template, declared: set<string>, options: Options) returns (errors: seq<TemplateError>)
    requires forall k :: k in declared <==> Declared(t, k)
    ensures forall e :: e in errors <==> e.UndeclaredInEdge? && Wrong(t, options, e)
  {
    errors := [];
    for i := 0 to |t.edges|
      invariant forall e :: e in errors <==> exists j :: 0 <= j < i && WrongInEdge(t, t.edges[j], e)
    {
      var more := EdgeInputs(t, t.edges[i], declared);
      errors := errors + more;
    }
  }

  /** Reports exactly what is wrong, so nothing exactly when nothing is. */
  method ValidateWorkflowTemplate(t: Template, invalidRegex: string -> Option<string>)
    returns (errors: seq<TemplateError>)
    ensures forall e :: e in errors <==> Wrong(t, DefaultOptions(invalidRegex), e)
    ensures errors == [] <==> Sound(t, invalidRegex)
  {
    var options := DefaultOptions(invalidRegex);
    errors := CheckGraph(t, options);
    var declared := InputKeys(t);
    var more := CheckNodeInputs(t, declared, options);
    errors := errors + more;
    var types := InputTypes(t);
    more := CheckAgents(t, types, options);
    errors := errors + more;
    more := CheckDefaults(t, options);
    errors := errors + more;
    more := CheckTrigger(t, declared, types, options);
    errors := errors + more;
    more := CheckEdgeInputs(t, declared, options);
    errors := errors + more;
    assert errors != [] ==> errors[0] in errors;
  }

  ghost predicate Sound(t: Template, invalidRegex: string -> Option<string>) {
    forall e :: !Wrong(t, DefaultOptions(invalidRegex), e)
  }

  // ---------------------------------------------------------------- what a sound template gives

  /** Nothing wrong means, in particular, a graph that can be run. */
  lemma SoundTemplatesHaveWellFormedGraphs(t: Template, invalidRegex: string -> Option<string>)
    requires Sound(t, invalidRegex)
    ensures WellFormed(GraphOf(t), DefaultOptions(invalidRegex))
  {
    var options := DefaultOptions(invalidRegex);
    var errors := ErrorsOf(GraphOf(t), options);
    if errors != [] {
      assert Wrong(t, options, InGraph(errors[0].message));
    }
    OkExactlyWhen(GraphOf(t), options);
  }

  // ---------------------------------------------------------------- the graph rules, on the template

  ghost predicate LoopRules(invalidRegex: string -> Option<string>, loop: Loop) {
    && (exists n :: 1 <= n <= MAX_LOOP_ITERATIONS && Denotes(loop.maxIterations, n))
    && ConditionUsable(DefaultOptions(invalidRegex), loop.conditionOperator, loop.conditionValue)
  }

  /** A step by agent says what to do and may repeat; an approval step does neither need to. */
  ghost predicate NodeRules(invalidRegex: string -> Option<string>, n: TemplateNode) {
    && !IsBlank(n.key) && (n.kind == "agent" || n.kind == "approval_gate")
    && (n.kind == "agent" ==> !IsBlank(n.description))
    && (n.loop.Some? ==> n.kind == "agent" && LoopRules(invalidRegex, n.loop.value))
  }

  ghost predicate HasNode(t: Template, key: string) {
    exists i :: 0 <= i < |t.nodes| && t.nodes[i].key == key
  }

  ghost predicate EdgeRules(t: Template, invalidRegex: string -> Option<string>, e: TemplateEdge) {
    && HasNode(t, e.from) && HasNode(t, e.to) && e.from != e.to
    && if e.edgeKind == "dependency" then !Has(e.conditionOperator) && !Has(e.conditionValue)
       else && e.edgeKind == "conditional" && e.conditionOperator.Some? && e.conditionValue.Some?
            && ConditionUsable(DefaultOptions(invalidRegex), e.conditionOperator.value, e.conditionValue.value)
  }

  ghost predicate TemplateLeads(t: Template, a: string, b: string) {
    exists i :: 0 <= i < |t.edges| && t.edges[i].from == a && t.edges[i].to == b
  }

  ghost predicate TemplateWalk(t: Template, c: seq<string>) {
    |c| >= 2 && c[0] == c[|c| - 1] && forall i :: 0 < i < |c| ==> TemplateLeads(t, c[i - 1], c[i])
  }

  ghost predicate GraphRulesHold(t: Template, invalidRegex: string -> Option<string>) {
    && (forall n :: n in t.nodes ==> NodeRules(invalidRegex, n))
    && (forall i, j :: 0 <= i < j < |t.nodes| ==> t.nodes[i].key != t.nodes[j].key)
    && (forall e :: e in t.edges ==> EdgeRules(t, invalidRegex, e))
    && (forall i, j :: 0 <= i < j < |t.edges| ==>
          t.edges[i].from + NUL + t.edges[i].to != t.edges[j].from + NUL + t.edges[j].to)
    && (forall c :: !TemplateWalk(t, c))
  }

  lemma NodeRulesExactly(t: Template, invalidRegex: string -> Option<string>)
    ensures NodesUsable(GraphOf(t), DefaultOptions(invalidRegex)) <==>
            && (forall n :: n in t.nodes ==> NodeRules(invalidRegex, n))
            && (forall i, j :: 0 <= i < j < |t.nodes| ==> t.nodes[i].key != t.nodes[j].key)
  {
    var g, options := GraphOf(t), DefaultOptions(invalidRegex);
    forall i | 0 <= i < |t.nodes|
      ensures g.nodes[i].key == t.nodes[i].key
      ensures !IsBlank(g.nodes[i].key) && StepUsable(options, g.nodes[i]) <==> NodeRules(invalidRegex, t.nodes[i])
    {
      OneNodeExactly(invalidRegex, t.nodes[i]);
    }
    assert forall i :: 0 <= i < |t.nodes| ==> t.nodes[i] in t.nodes;
  }

  lemma OneNodeExactly(invalidRegex: string -> Option<string>, n: TemplateNode)
    ensures !IsBlank(GraphNode(n).key) && StepUsable(DefaultOptions(invalidRegex), GraphNode(n))
            <==> NodeRules(invalidRegex, n)
  {
  }

  lemma EdgeRulesExactly(t: Template, invalidRegex: string -> Option<string>)
    ensures EdgesUsable(GraphOf(t), DefaultOptions(invalidRegex)) <==>
            forall e :: e in t.edges ==> EdgeRules(t, invalidRegex, e)
  {
    var g, options := GraphOf(t), DefaultOptions(invalidRegex);
    forall key
      ensures IsKey(g, key) <==> HasNode(t, key)
    {
      if HasNode(t, key) {
        var i :| 0 <= i < |t.nodes| && t.nodes[i].key == key;
        assert g.nodes[i].key == key;
      }
    }
    forall i | 0 <= i < |t.edges|
      ensures g.edges[i].from == t.edges[i].from && g.edges[i].to == t.edges[i].to
      ensures ConditionAllowed(options, g.edges[i]) <==> ConditionAllowed(options, GraphEdge(t.edges[i]))
    {
    }
    assert forall i :: 0 <= i < |t.edges| ==> t.edges[i] in t.edges;
  }

  lemma PairRulesExactly(t: Template)
    ensures NoDuplicateEdges(GraphOf(t)) && PairKeysFaithful(GraphOf(t)) <==>
            forall i, j :: 0 <= i < j < |t.edges| ==>
              t.edges[i].from + NUL + t.edges[i].to != t.edges[j].from + NUL + t.edges[j].to
  {
    var g := GraphOf(t);
    forall i | 0 <= i < |t.edges|
      ensures PairKey(g.edges[i]) == t.edges[i].from + NUL + t.edges[i].to
    {
    }
    forall i, j | 0 <= i < j < |t.edges|
      ensures SamePair(g.edges[i], g.edges[j]) ==> PairKey(g.edges[i]) == PairKey(g.edges[j])
    {
    }
  }

  lemma WalksExactly(t: Template)
    ensures NoCycles(GraphOf(t)) <==> forall c :: !TemplateWalk(t, c)
  {
    var g := GraphOf(t);
    forall a, b
      ensures EdgeLeads(g, a, b) <==> TemplateLeads(t, a, b)
    {
      if TemplateLeads(t, a, b) {
        var i :| 0 <= i < |t.edges| && t.edges[i].from == a && t.edges[i].to == b;
        assert g.edges[i].from == a && g.edges[i].to == b;
      }
    }
    forall c
      ensures ClosedWalk(g, c) <==> TemplateWalk(t, c)
    {
    }
  }

  lemma GraphErrorsExactly(t: Template, invalidRegex: string -> Option<string>)
    ensures ErrorsOf(GraphOf(t), DefaultOptions(invalidRegex)) == [] <==> GraphRulesHold(t, invalidRegex)
  {
    OkExactlyWhen(GraphOf(t), DefaultOptions(invalidRegex));
    NodeRulesExactly(t, invalidRegex);
    EdgeRulesExactly(t, invalidRegex);
    PairRulesExactly(t);
    WalksExactly(t);
  }

  /** A template has no error exactly when its own nodes and edges meet the graph rules, and
      nothing is wrong with its placeholders, defaults and trigger. */
  lemma SoundExactlyWhen(t: Template, invalidRegex: string -> Option<string>)
    ensures Sound(t, invalidRegex) <==>
            && GraphRulesHold(t, invalidRegex)
            && forall e: TemplateError :: !e.InGraph? ==> !Wrong(t, DefaultOptions(invalidRegex), e)
  {
    var options := DefaultOptions(invalidRegex);
    var errors := ErrorsOf(GraphOf(t), options);
    GraphErrorsExactly(t, invalidRegex);
    if errors != [] {
      assert Wrong(t, options, InGraph(errors[0].message));
    }
  }

  /** How errors name a step of the template: by its title, or else its key. */
  lemma TemplateNames(t: Template, i: nat)
    requires i < |t.nodes| && forall j :: 0 <= j < i ==> t.nodes[j].key != t.nodes[i].key
    ensures var n := t.nodes[i];
            Name(ByKey(GraphOf(t).nodes), n.key)
            == "\"" + (if Filled(n.title) then Trim(n.title.value) else n.key) + "\""
  {
    NamedByTitle(GraphOf(t).nodes, i);
  }

  /** The texts of a template that are substituted when it is applied, but for the channel of
      its trigger, of which only the first placeholder is checked. */
  ghost predicate IsTextOf(t: Template, text: string) {
    || (exists i :: 0 <= i < |t.nodes| && IsNodeText(t.nodes[i], text))
    || (exists i :: 0 <= i < |t.edges| && t.edges[i].conditionValue == Some(text))
    || (t.trigger.Some? && t.trigger.value.ChannelMessage?
        && (t.trigger.value.matchValue == Some(text) || t.trigger.value.ackText == Some(text)))
  }

  predicate IsNodeText(n: TemplateNode, text: string) {
    n.title == Some(text) || n.description == text || n.agent == Some(text)
  }

  /** In a template without errors every placeholder of every such text names an input. */
  lemma TextsNameInputs(t: Template, invalidRegex: string -> Option<string>, text: string, k: string)
    requires Sound(t, invalidRegex) && IsTextOf(t, text) && k in ExtractPlaceholders(Some(text))
    ensures Declared(t, k)
  {
    var options := DefaultOptions(invalidRegex);
    if i :| 0 <= i < |t.nodes| && IsNodeText(t.nodes[i], text) {
      assert !Wrong(t, options, UndeclaredInNode(t.nodes[i].key, k));
      assert !Wrong(t, options, AgentInput(t.nodes[i].key, k));
      assert k !in ExtractPlaceholders(t.nodes[i].agent) || HasKind(t, k, "agent");
    } else if i :| 0 <= i < |t.edges| && t.edges[i].conditionValue == Some(text) {
      assert !Wrong(t, options, UndeclaredInEdge(t.edges[i].from, t.edges[i].to, k));
    } else {
      assert !Wrong(t, options, UndeclaredInTrigger(k));
    }
  }

  /** Every input has a value. */
  ghost predicate AllFilled(t: Template, values: Values) {
    forall key :: Declared(t, key) ==> key in values.own
  }

  /** A text with each placeholder replaced by the value of its input, whatever else the
      table would find. */
  function Instantiate(tokens: seq<Token>, inputs: map<string, string>): string
    requires forall k | k in Keys(tokens) :: k in inputs
  {
    if tokens == [] then ""
    else
      assert tokens[0].Placeholder? ==> tokens[0].key in Keys(tokens);
      (if tokens[0].Placeholder? then inputs[tokens[0].key] else PrintOne(tokens[0])) + Instantiate(tokens[1..], inputs)
  }

  lemma {:induction false} InstantiateFills(tokens: seq<Token>, values: Values)
    requires forall k | k in Keys(tokens) :: k in values.own
    ensures Fill(tokens, values) == Instantiate(tokens, values.own)
  {
    if tokens == [] {
    } else {
      InstantiateFills(tokens[1..], values);
    }
  }

  /** With a value for every input, substitution puts the input's value in the place of every
      placeholder of every text of a template without errors. */
  lemma ValuesResolveSoundTemplates(t: Template, invalidRegex: string -> Option<string>, values: Values, text: string)
    requires Sound(t, invalidRegex) && AllFilled(t, values) && IsTextOf(t, text)
    ensures forall k | k in Keys(Tokenize(text)) :: k in values.own
    ensures SubstitutePlaceholders(text, values) == Instantiate(Tokenize(text), values.own)
  {
    SubstituteFillsText(text, values);
    forall k | k in Keys(Tokenize(text))
      ensures k in values.own
    {
      TextsNameInputs(t, invalidRegex, text, k);
    }
    InstantiateFills(Tokenize(text), values);
  }

  /** Such a text has nothing left to resolve exactly when no two opening braces, a word and
      two closing ones come together in it. */
  lemma SoundTextsResolveExactlyWhen(t: Template, invalidRegex: string -> Option<string>, values: Values, text: string)
    requires Sound(t, invalidRegex) && AllFilled(t, values) && IsTextOf(t, text)
    ensures ExtractPlaceholders(Some(SubstitutePlaceholders(text, values))) == []
            <==> !FormsPlaceholder(Spelled(Tokenize(text), values), NO_VALUES)
  {
    SubstituteFillsText(text, values);
    ValuesResolveSoundTemplates(t, invalidRegex, values, text);
    ResolvedExactlyWhen(text, values);
  }

  /** With values that have no braces, only braces of its own can. */
  lemma SoundTextsWithoutBraces(t: Template, invalidRegex: string -> Option<string>, values: Values, text: string)
    requires Sound(t, invalidRegex) && AllFilled(t, values) && IsTextOf(t, text)
    requires forall key :: key in values.own ==> BraceFree(values.own[key])
    ensures ExtractPlaceholders(Some(SubstitutePlaceholders(text, values))) == []
            <==> !FormsPlaceholder(Visible(Tokenize(text), values), values)
  {
    SubstituteFillsText(text, values);
    ValuesResolveSoundTemplates(t, invalidRegex, values, text);
    ResolvedWithoutBraces(text, values);
  }
}
