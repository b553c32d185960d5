/** `newGraphErrors`: which edits of a workflow graph are accepted, and what every
    sequence of accepted edits keeps. */
module GraphEdits {
  import opened Basics
  import opened CycleSearch
  import opened WorkflowGraph
  import opened GraphRules
  import opened GraphReports
  import opened GraphTexts

  /** The texts shown for the errors of a check. */
  ghost function Shown(check: Check): set<string> {
    set e | e in check.errors :: Render(e.message)
  }

  function NewGraphErrors(before: Check, after: Check): seq<Issue> {
    Unseen(set e | e in before.errors :: Render(e.message), after.errors)
  }

  function Unseen(existing: set<string>, errors: seq<Issue>): (unseen: seq<Issue>)
    ensures forall e :: e in unseen <==> e in errors && Render(e.message) !in existing
  {
    if errors == [] then []
    else
      var rest := Unseen(existing, errors[1..]);
      if Render(errors[0].message) in existing then rest else [errors[0]] + rest
  }

  /** An edit is accepted exactly when every text it leads to was shown before it. */
  lemma AcceptedExactlyWhen(before: Check, after: Check)
    ensures NewGraphErrors(before, after) == [] <==> Shown(after) <= Shown(before)
  {
    var unseen := NewGraphErrors(before, after);
    if unseen != [] {
      assert unseen[0] in unseen;
      assert Render(unseen[0].message) in Shown(after) - Shown(before);
    }
  }

  // ---------------------------------------------------------------- rules that do not ask for agents

  /** The agents are looked up anew for every edit; the other rules stay the same. */
  function WithoutAgents(options: Options): Options {
    options.(knownAgentIds := None)
  }

  lemma StepErrorsButAgents(byKey: Index, options: Options, node: Node, e: Issue)
    ensures e in StepErrors(byKey, WithoutAgents(options), node)
            <==> e in StepErrors(byKey, options, node) && !e.message.UnknownAgent?
  {
    assert e in KindErrors(byKey, node) ==> !e.message.UnknownAgent?;
    LoopErrorsButAgents(byKey, options, node, e);
    assert e in AgentErrors(byKey, options, node) ==> e.message.UnknownAgent?;
    assert AgentErrors(byKey, WithoutAgents(options), node) == [];
  }

  lemma LoopErrorsButAgents(byKey: Index, options: Options, node: Node, e: Issue)
    ensures LoopErrors(byKey, WithoutAgents(options), node) == LoopErrors(byKey, options, node)
    ensures e in LoopErrors(byKey, options, node) ==> !e.message.UnknownAgent?
  {
  }

  lemma NodeErrorsButAgents(byKey: Index, options: Options, nodes: seq<Node>, i: nat, e: Issue)
    requires i < |nodes|
    ensures e in NodeErrors(byKey, WithoutAgents(options), nodes, i)
            <==> e in NodeErrors(byKey, options, nodes, i) && !e.message.UnknownAgent?
  {
    StepErrorsButAgents(byKey, options, nodes[i], e);
  }

  lemma EdgeErrorsButAgents(byKey: Index, options: Options, edges: seq<Edge>, i: nat, e: Issue)
    requires i < |edges|
    ensures EdgeErrors(byKey, WithoutAgents(options), edges, i) == EdgeErrors(byKey, options, edges, i)
    ensures e in EdgeErrors(byKey, options, edges, i) ==> !e.message.UnknownAgent?
  {
    assert ConditionErrors(byKey, WithoutAgents(options), edges[i], i) == ConditionErrors(byKey, options, edges[i], i);
    if e in EdgeErrors(byKey, options, edges, i) {
      EdgeErrorShape(byKey, options, edges, i, e);
    }
  }

  /** Leaving the agents out of a check leaves out the issues about agents and no other. */
  lemma ErrorsButAgents(graph: Graph, options: Options, e: Issue)
    ensures e in ErrorsOf(graph, WithoutAgents(options)) <==> e in ErrorsOf(graph, options) && !e.message.UnknownAgent?
  {
    var byKey, less := ByKey(graph.nodes), WithoutAgents(options);
    ErrorsComeFromExactly(graph, options, e);
    ErrorsComeFromExactly(graph, less, e);
    forall i: nat | i < |graph.nodes|
      ensures e in NodeErrors(byKey, less, graph.nodes, i)
              <==> e in NodeErrors(byKey, options, graph.nodes, i) && !e.message.UnknownAgent?
    {
      NodeErrorsButAgents(byKey, options, graph.nodes, i, e);
    }
    forall i: nat | i < |graph.edges|
      ensures e in EdgeErrors(byKey, less, graph.edges, i) <==> e in EdgeErrors(byKey, options, graph.edges, i)
      ensures e in EdgeErrors(byKey, options, graph.edges, i) ==> !e.message.UnknownAgent?
    {
      EdgeErrorsButAgents(byKey, options, graph.edges, i, e);
    }
  }

  // ---------------------------------------------------------------- whole histories

  /** Graphs that follow one another by edits, each accepted against the one before under
      the options of its own time, which differ in the known agents only. */
  ghost predicate AcceptedEdits(history: seq<Graph>, options: seq<Options>, rules: Options) {
    && |options| == |history|
    && (forall i :: 0 <= i < |options| ==> WithoutAgents(options[i]) == WithoutAgents(rules))
    && (forall i :: 0 < i < |history| ==> EditAccepted(history, options, i))
  }

  ghost predicate EditAccepted(history: seq<Graph>, options: seq<Options>, i: nat)
    requires 0 < i < |history| == |options|
  {
    NewGraphErrors(CheckOf(history[i - 1], options[i]), CheckOf(history[i], options[i])) == []
  }

  /** The texts about everything but agents. */
  ghost function ShownButAgents(graph: Graph, rules: Options): set<string> {
    Shown(CheckOf(graph, WithoutAgents(rules)))
  }

  lemma ShownButAgentsExactly(graph: Graph, options: Options, text: string)
    ensures text in ShownButAgents(graph, options)
            <==> exists e :: e in ErrorsOf(graph, options) && !e.message.UnknownAgent? && Render(e.message) == text
  {
    var less := WithoutAgents(options);
    if text in ShownButAgents(graph, options) {
      var e :| e in ErrorsOf(graph, less) && Render(e.message) == text;
      ErrorsButAgents(graph, options, e);
    }
    if e :| e in ErrorsOf(graph, options) && !e.message.UnknownAgent? && Render(e.message) == text {
      ErrorsButAgents(graph, options, e);
      assert e in CheckOf(graph, less).errors;
    }
  }

  /** An accepted edit adds no text about anything but agents, whichever agents there are:
      no such text can be hidden behind one about an agent. */
  lemma EditAddsNoRuleText(before: Graph, after: Graph, options: Options)
    requires NewGraphErrors(CheckOf(before, options), CheckOf(after, options)) == []
    ensures ShownButAgents(after, options) <= ShownButAgents(before, options)
  {
    AcceptedExactlyWhen(CheckOf(before, options), CheckOf(after, options));
    forall text | text in ShownButAgents(after, options)
      ensures text in ShownButAgents(before, options)
    {
      ShownButAgentsExactly(after, options, text);
      var e :| e in ErrorsOf(after, options) && !e.message.UnknownAgent? && Render(e.message) == text;
      assert text in Shown(CheckOf(after, options));
      var f :| f in ErrorsOf(before, options) && Render(f.message) == text;
      AgentTextsStandOut(e.message, f.message);
      ShownButAgentsExactly(before, options, text);
    }
  }

  lemma EditUnderRules(before: Graph, after: Graph, options: Options, rules: Options)
    requires WithoutAgents(options) == WithoutAgents(rules)
    requires NewGraphErrors(CheckOf(before, options), CheckOf(after, options)) == []
    ensures ShownButAgents(after, rules) <= ShownButAgents(before, rules)
  {
    EditAddsNoRuleText(before, after, options);
  }

  ghost function ChecksOf(history: seq<Graph>, options: Options): (checks: seq<Check>)
    ensures |checks| == |history| && forall h :: 0 <= h < |history| ==> checks[h] == CheckOf(history[h], options)
  {
    seq(|history|, h requires 0 <= h < |history| => CheckOf(history[h], options))
  }

  ghost predicate NoneAdded(checks: seq<Check>, h: nat)
    requires 0 < h < |checks|
  {
    Shown(checks[h]) <= Shown(checks[h - 1])
  }

  lemma {:induction false} NeverMore(checks: seq<Check>, i: nat, j: nat)
    requires i <= j < |checks| && forall h :: i < h <= j ==> NoneAdded(checks, h)
    ensures Shown(checks[j]) <= Shown(checks[i])
    decreases j
  {
    if i == j {
    } else {
      NeverMore(checks, i, j - 1);
      assert NoneAdded(checks, j);
    }
  }

  lemma EditOfHistory(history: seq<Graph>, options: seq<Options>, rules: Options, h: nat)
    requires AcceptedEdits(history, options, rules) && 0 < h < |history|
    ensures NoneAdded(ChecksOf(history, WithoutAgents(rules)), h)
  {
    assert EditAccepted(history, options, h);
    EditUnderRules(history[h - 1], history[h], options[h], rules);
  }

  /** No sequence of accepted edits ever shows a text that was not shown at its start, but
      for texts about agents, who may come and go between the edits. */
  lemma EditsNeverAddMessages(history: seq<Graph>, options: seq<Options>, rules: Options, i: nat, j: nat)
    requires AcceptedEdits(history, options, rules) && i <= j < |history|
    ensures ShownButAgents(history[j], rules) <= ShownButAgents(history[i], rules)
  {
    var checks := ChecksOf(history, WithoutAgents(rules));
    forall h | i < h <= j
      ensures NoneAdded(checks, h)
    {
      EditOfHistory(history, options, rules, h);
    }
    NeverMore(checks, i, j);
  }

  lemma EditWithSameAgents(history: seq<Graph>, options: seq<Options>, rules: Options, h: nat)
    requires AcceptedEdits(history, options, rules) && 0 < h < |history| && options[h] == rules
    ensures NoneAdded(ChecksOf(history, rules), h)
  {
    assert EditAccepted(history, options, h);
    AcceptedExactlyWhen(CheckOf(history[h - 1], rules), CheckOf(history[h], rules));
  }

  /** As long as the agents stay the same, not even texts about them. */
  lemma WithSameAgentsNeither(history: seq<Graph>, options: seq<Options>, rules: Options, i: nat, j: nat)
    requires AcceptedEdits(history, options, rules) && i <= j < |history|
    requires forall h :: i < h <= j ==> options[h] == rules
    ensures Shown(CheckOf(history[j], rules)) <= Shown(CheckOf(history[i], rules))
  {
    var checks := ChecksOf(history, rules);
    forall h | i < h <= j
      ensures NoneAdded(checks, h)
    {
      EditWithSameAgents(history, options, rules, h);
    }
    NeverMore(checks, i, j);
  }

  lemma OkShowsNothing(check: Check)
    ensures check.errors == [] <==> Shown(check) == {}
  {
    if check.errors != [] {
      assert check.errors[0] in check.errors;
      assert Render(check.errors[0].message) in Shown(check);
    }
  }

  /** Once a graph meets all rules but for its agents, so does every graph that accepted edits
      lead to, whatever becomes of the agents: in particular none has a cycle. */
  lemma ValidGraphsStayValid(history: seq<Graph>, options: seq<Options>, rules: Options, i: nat, j: nat)
    requires AcceptedEdits(history, options, rules) && i <= j < |history|
    requires CheckOf(history[i], WithoutAgents(rules)).ok
    ensures CheckOf(history[j], WithoutAgents(rules)).ok
    ensures WellFormed(history[j], WithoutAgents(rules)) && NoCycles(history[j])
  {
    EditsNeverAddMessages(history, options, rules, i, j);
    OkShowsNothing(CheckOf(history[i], WithoutAgents(rules)));
    OkShowsNothing(CheckOf(history[j], WithoutAgents(rules)));
    OkExactlyWhen(history[j], WithoutAgents(rules));
  }

  /** As long as the agents stay the same, valid graphs stay valid. */
  lemma WithSameAgentsValid(history: seq<Graph>, options: seq<Options>, rules: Options, i: nat, j: nat)
    requires AcceptedEdits(history, options, rules) && i <= j < |history|
    requires forall h :: i < h <= j ==> options[h] == rules
    requires CheckOf(history[i], rules).ok
    ensures CheckOf(history[j], rules).ok && WellFormed(history[j], rules) && NoCycles(history[j])
  {
    WithSameAgentsNeither(history, options, rules, i, j);
    OkShowsNothing(CheckOf(history[i], rules));
    OkShowsNothing(CheckOf(history[j], rules));
    OkExactlyWhen(history[j], rules);
  }

  /** From a valid graph an edit is accepted exactly when its result is well-formed and
      the pair keys stay faithful. */
  lemma EditOfValidGraph(before: Graph, after: Graph, options: Options)
    requires CheckOf(before, options).ok
    ensures NewGraphErrors(CheckOf(before, options), CheckOf(after, options)) == []
            <==> WellFormed(after, options) && PairKeysFaithful(after)
  {
    AcceptedExactlyWhen(CheckOf(before, options), CheckOf(after, options));
    OkShowsNothing(CheckOf(before, options));
    OkShowsNothing(CheckOf(after, options));
    OkExactlyWhen(after, options);
  }

  // ---------------------------------------------------------------- a limit of comparing texts

  /** A step nobody described yet. */
  function Undescribed(key: string, title: string): Node {
    Node(key, Some(title), None, None, None, None)
  }

  function One(a: string, title: string): Graph {
    Graph([Undescribed(a, title)], [])
  }

  function Two(a: string, b: string, title: string): Graph {
    Graph([Undescribed(a, title), Undescribed(b, title)], [])
  }

  lemma NoLinksNoCycle(keys: seq<string>)
    ensures CycleOf(keys, []).None?
  {
    NullExactlyWhenAcyclic(keys, []);
    forall c
      ensures !IsCycle(BuildAdjacency(keys, []), c)
    {
      assert IsCycle(BuildAdjacency(keys, []), c) ==> Leads(BuildAdjacency(keys, []), c[0], c[1]);
    }
  }

  function Complaint(key: string, title: string): Issue {
    Issue(MissingDescription("\"" + Trim(title) + "\""), Some(key), None)
  }

  lemma UndescribedErrors(byKey: Index, options: Options, nodes: seq<Node>, i: nat, title: string)
    requires i < |nodes| && FirstUse(nodes, i) && !IsBlank(nodes[i].key) && Trim(title) != ""
    requires nodes[i] == Undescribed(nodes[i].key, title)
    requires nodes[i].key in byKey && byKey[nodes[i].key] == nodes[i]
    ensures NodeErrors(byKey, options, nodes, i) == [Complaint(nodes[i].key, title)]
  {
  }

  lemma ErrorsWithoutEdges(graph: Graph, options: Options)
    requires options.allowEmpty != Some(false) && graph.edges == []
    ensures CheckOf(graph, options).errors == AllNodeErrors(ByKey(graph.nodes), options, graph.nodes, |graph.nodes|)
  {
    var byKey := ByKey(graph.nodes);
    NoLinksNoCycle(UsableKeys(graph.nodes, |graph.nodes|));
    assert ValidLinks(byKey, graph.edges, 0) == [] && EdgeErrorParts(byKey, options, graph.edges, 0) == [];
  }

  lemma ErrorsOfOne(options: Options, a: string, title: string)
    requires options.allowEmpty != Some(false) && !IsBlank(a) && Trim(title) != ""
    ensures CheckOf(One(a, title), options).errors == [Complaint(a, title)]
  {
    var g := One(a, title);
    ErrorsWithoutEdges(g, options);
    UndescribedErrors(ByKey(g.nodes), options, g.nodes, 0, title);
    NodeErrorsGrow(ByKey(g.nodes), options, g.nodes, 0);
  }

  lemma FirstTwo(byKey: Index, options: Options, nodes: seq<Node>, x: Issue, y: Issue)
    requires |nodes| == 2
    requires NodeErrors(byKey, options, nodes, 0) == [x] && NodeErrors(byKey, options, nodes, 1) == [y]
    ensures AllNodeErrors(byKey, options, nodes, 2) == [x, y]
  {
    NodeErrorsGrow(byKey, options, nodes, 0);
    NodeErrorsGrow(byKey, options, nodes, 1);
  }

  lemma ErrorsOfTwo(options: Options, a: string, b: string, title: string)
    requires options.allowEmpty != Some(false) && !IsBlank(a) && !IsBlank(b) && a != b && Trim(title) != ""
    ensures CheckOf(Two(a, b, title), options).errors == [Complaint(a, title), Complaint(b, title)]
  {
    var g := Two(a, b, title);
    ErrorsWithoutEdges(g, options);
    UndescribedErrors(ByKey(g.nodes), options, g.nodes, 0, title);
    UndescribedErrors(ByKey(g.nodes), options, g.nodes, 1, title);
    FirstTwo(ByKey(g.nodes), options, g.nodes, Complaint(a, title), Complaint(b, title));
  }

  lemma SameTextsAreAccepted(before: Check, after: Check)
    requires forall e | e in after.errors :: exists f | f in before.errors :: f.message == e.message
    ensures NewGraphErrors(before, after) == []
  {
    AcceptedExactlyWhen(before, after);
  }

  lemma SecondComplaintIsNew(before: Check, after: Check, a: string, b: string, title: string)
    requires a != b
    requires before.errors == [Complaint(a, title)] && after.errors == [Complaint(a, title), Complaint(b, title)]
    ensures NewGraphErrors(before, after) == []
    ensures exists e :: e in after.errors && e !in before.errors
  {
    assert before.errors[0] == Complaint(a, title) && Complaint(a, title) in before.errors;
    assert after.errors[1] == Complaint(b, title) && Complaint(b, title) in after.errors;
    SameTextsAreAccepted(before, after);
  }

  /** In a graph that is already invalid, an accepted edit can add an issue that was not
      there: steps with the same title are told apart by key but not by text. */
  lemma NewIssueCanGoUnreported(options: Options, a: string, b: string, title: string)
    requires options.allowEmpty != Some(false) && !IsBlank(a) && !IsBlank(b) && a != b && Trim(title) != ""
    ensures var before, after := CheckOf(One(a, title), options), CheckOf(Two(a, b, title), options);
            && NewGraphErrors(before, after) == []
            && exists e :: e in after.errors && e !in before.errors
  {
    ErrorsOfOne(options, a, title);
    ErrorsOfTwo(options, a, b, title);
    SecondComplaintIsNew(CheckOf(One(a, title), options), CheckOf(Two(a, b, title), options), a, b, title);
  }
}
