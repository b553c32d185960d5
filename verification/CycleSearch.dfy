/** The three-colour depth-first search of the workflow graph checker
    (packages/workflow-templates/src/graph.ts): its specification on values, what
    its answers mean, and the imperative search that computes it. */
module CycleSearch {
  import opened Basics

  datatype Link = Link(from: string, to: string)
  datatype Mark = Visiting | Done
  type Adjacency = map<string, seq<string>>

  // ---------------------------------------------------------------- the graph

  function Targets(links: seq<Link>, key: string): (targets: seq<string>)
    ensures forall t :: t in targets <==> Link(key, t) in links
  {
    if links == [] then []
    else
      var rest, last := Targets(links[..|links| - 1], key), links[|links| - 1];
      assert links == links[..|links| - 1] + [last];
      if last.from == key then rest + [last.to] else rest
  }

  /** Only listed nodes get an entry: links leaving an unlisted key are dropped. */
  function BuildAdjacency(nodes: seq<string>, links: seq<Link>): Adjacency {
    map k | k in nodes :: Targets(links, k)
  }

  predicate Leads(adjacency: Adjacency, a: string, b: string) {
    a in adjacency && b in adjacency[a]
  }

  ghost predicate IsPath(adjacency: Adjacency, p: seq<string>) {
    forall i :: 0 < i < |p| ==> Leads(adjacency, p[i - 1], p[i])
  }

  ghost predicate Distinct(p: seq<string>) {
    forall i, j :: 0 <= i < j < |p| ==> p[i] != p[j]
  }

  /** A closed walk: the first key is repeated at the end. */
  ghost predicate IsCycle(adjacency: Adjacency, c: seq<string>) {
    |c| >= 2 && c[0] == c[|c| - 1] && IsPath(adjacency, c)
  }

  ghost predicate IsSimpleCycle(adjacency: Adjacency, c: seq<string>) {
    IsCycle(adjacency, c) && Distinct(c[..|c| - 1])
  }

  ghost predicate Acyclic(adjacency: Adjacency) {
    forall c :: !IsCycle(adjacency, c)
  }

  /** `order` lists every listed node, nothing twice, and the source of each link
      strictly before its target. */
  ghost predicate IsTopologicalOrder(adjacency: Adjacency, order: seq<string>) {
    && Distinct(order)
    && (forall k :: k in adjacency ==> k in order)
    && (forall j, b :: 0 <= j < |order| && Leads(adjacency, order[j], b) ==> b in order[j + 1..])
  }

  // ---------------------------------------------------------------- the search

  /** What the closure mutates, and the keys in the order they were marked `Done`. */
  datatype Search = Search(state: map<string, Mark>, stack: seq<string>, finished: seq<string>)

  const START := Search(map[], [], [])

  function SuffixFrom(stack: seq<string>, key: string): seq<string> {
    if stack == [] || stack[0] == key then stack else SuffixFrom(stack[1..], key)
  }

  function Pop(stack: seq<string>): seq<string> {
    if stack == [] then [] else stack[..|stack| - 1]
  }

  predicate Closed(adjacency: Adjacency, universe: set<string>) {
    forall a | a in adjacency :: forall b | b in adjacency[a] :: b in universe
  }

  function Next(adjacency: Adjacency, key: string): seq<string> {
    if key in adjacency then adjacency[key] else []
  }

  /** `visit(key)`. Every visit of a key without a mark marks one more key of the
      finite `universe`, which is why the search ends on every input. */
  function VisitResult(adjacency: Adjacency, universe: set<string>, s: Search, key: string)
    : (r: (Search, Option<seq<string>>))
    requires Closed(adjacency, universe) && key in universe
    ensures s.state.Keys <= r.0.state.Keys
    decreases universe - s.state.Keys, 0
  {
    if key in s.state then
      (s, if s.state[key] == Visiting then Some(SuffixFrom(s.stack, key) + [key]) else None)
    else
      var entered := Search(s.state[key := Visiting], s.stack + [key], s.finished);
      assert key in universe - s.state.Keys && key !in universe - entered.state.Keys;
      var (after, cycle) := VisitEachResult(adjacency, universe, entered, Next(adjacency, key));
      if cycle.Some? then (after, cycle)
      else (Search(after.state[key := Done], Pop(after.stack), after.finished + [key]), None)
  }

  function VisitEachResult(adjacency: Adjacency, universe: set<string>, s: Search, keys: seq<string>)
    : (r: (Search, Option<seq<string>>))
    requires Closed(adjacency, universe) && forall k | k in keys :: k in universe
    ensures s.state.Keys <= r.0.state.Keys
    decreases universe - s.state.Keys, 1 + |keys|
  {
    if keys == [] then (s, None)
    else
      var (after, cycle) := VisitResult(adjacency, universe, s, keys[0]);
      if cycle.Some? then (after, cycle) else VisitEachResult(adjacency, universe, after, keys[1..])
  }

  /** The outer loop starts a visit only from a key without a mark. */
  function VisitRootResult(adjacency: Adjacency, universe: set<string>, s: Search, root: string)
    : (Search, Option<seq<string>>)
    requires Closed(adjacency, universe) && root in universe
  {
    if root in s.state then (s, None) else VisitResult(adjacency, universe, s, root)
  }

  function VisitRootsResult(adjacency: Adjacency, universe: set<string>, s: Search, roots: seq<string>)
    : (r: (Search, Option<seq<string>>))
    requires Closed(adjacency, universe) && forall k | k in roots :: k in universe
    decreases |roots|
  {
    if roots == [] then (s, None)
    else
      var (after, cycle) := VisitRootResult(adjacency, universe, s, roots[0]);
      if cycle.Some? then (after, cycle) else VisitRootsResult(adjacency, universe, after, roots[1..])
  }

  function Universe(nodes: seq<string>, links: seq<Link>): (universe: set<string>)
    ensures Closed(BuildAdjacency(nodes, links), universe)
    ensures forall k :: k in nodes ==> k in universe
  {
    (set k | k in nodes) + (set l | l in links :: l.to)
  }

  function Outcome(nodes: seq<string>, links: seq<Link>): (Search, Option<seq<string>>) {
    VisitRootsResult(BuildAdjacency(nodes, links), Universe(nodes, links), START, nodes)
  }

  function CycleOf(nodes: seq<string>, links: seq<Link>): Option<seq<string>> {
    Outcome(nodes, links).1
  }

  // ---------------------------------------------------------------- the invariant

  /** The stack is a path, and holds exactly the `Visiting` keys. */
  ghost predicate StackInv(adjacency: Adjacency, state: map<string, Mark>, stack: seq<string>) {
    && Distinct(stack)
    && IsPath(adjacency, stack)
    && forall k :: k in stack <==> k in state && state[k] == Visiting
  }

  /** Everything a finished key leads to was finished before it. */
  ghost predicate FinishedInv(adjacency: Adjacency, state: map<string, Mark>, finished: seq<string>) {
    && Distinct(finished)
    && (forall k :: k in finished <==> k in state && state[k] == Done)
    && forall i, b :: 0 <= i < |finished| && Leads(adjacency, finished[i], b) ==> b in finished[..i]
  }

  ghost predicate Inv(adjacency: Adjacency, s: Search) {
    StackInv(adjacency, s.state, s.stack) && FinishedInv(adjacency, s.state, s.finished)
  }

  ghost predicate CanVisit(adjacency: Adjacency, stack: seq<string>, key: string) {
    stack != [] ==> Leads(adjacency, stack[|stack| - 1], key)
  }

  /** What a visit that found nothing leaves behind. */
  ghost predicate Explored(adjacency: Adjacency, before: Search, after: Search) {
    Inv(adjacency, after) && after.stack == before.stack && before.finished <= after.finished
  }

  lemma {:induction false} SuffixFromProperty(stack: seq<string>, key: string) returns (i: nat)
    requires key in stack
    ensures i < |stack| && stack[i] == key && SuffixFrom(stack, key) == stack[i..]
  {
    if stack[0] == key {
      i := 0;
    } else {
      var h := SuffixFromProperty(stack[1..], key);
      i := h + 1;
    }
  }

  lemma PathSlice(adjacency: Adjacency, p: seq<string>, i: nat, j: nat)
    requires IsPath(adjacency, p) && i <= j <= |p|
    ensures IsPath(adjacency, p[i..j])
  {
  }

  lemma {:induction false} BackEdgeClosesCycle(adjacency: Adjacency, s: Search, key: string)
    requires Inv(adjacency, s) && CanVisit(adjacency, s.stack, key) && key in s.stack
    ensures IsSimpleCycle(adjacency, SuffixFrom(s.stack, key) + [key])
  {
    var i := SuffixFromProperty(s.stack, key);
    PathSlice(adjacency, s.stack, i, |s.stack|);
    CloseCycle(adjacency, s.stack[i..|s.stack|], key);
  }

  lemma CloseCycle(adjacency: Adjacency, suffix: seq<string>, key: string)
    requires suffix != [] && suffix[0] == key && Distinct(suffix)
    requires IsPath(adjacency, suffix) && CanVisit(adjacency, suffix, key)
    ensures IsSimpleCycle(adjacency, suffix + [key])
  {
  }

  lemma EnterKeepsInvariant(adjacency: Adjacency, s: Search, key: string)
    requires Inv(adjacency, s) && CanVisit(adjacency, s.stack, key) && key !in s.state
    ensures Inv(adjacency, Search(s.state[key := Visiting], s.stack + [key], s.finished))
  {
  }

  lemma LeaveKeepsStack(adjacency: Adjacency, state: map<string, Mark>, stack: seq<string>, key: string)
    requires StackInv(adjacency, state, stack + [key])
    ensures StackInv(adjacency, state[key := Done], stack)
  {
    var whole := stack + [key];
    PathSlice(adjacency, whole, 0, |stack|);
    assert whole[0..|stack|] == stack;
    assert whole[|stack|] == key;
    forall k
      ensures k in stack <==> k in state[key := Done] && state[key := Done][k] == Visiting
    {
      assert k in whole <==> k in stack || k == key;
    }
  }

  lemma LeaveKeepsFinished(adjacency: Adjacency, state: map<string, Mark>, finished: seq<string>, key: string)
    requires FinishedInv(adjacency, state, finished)
    requires key in state && state[key] == Visiting
    requires forall b :: Leads(adjacency, key, b) ==> b in finished
    ensures FinishedInv(adjacency, state[key := Done], finished + [key])
  {
    var more := finished + [key];
    forall k
      ensures k in more <==> k in state[key := Done] && state[key := Done][k] == Done
    {
      assert k in more <==> k in finished || k == key;
    }
    forall i, b | 0 <= i < |more| && Leads(adjacency, more[i], b)
      ensures b in more[..i]
    {
      assert more[..i] == finished[..i];
    }
  }

  lemma {:induction false} VisitKeepsInvariant(adjacency: Adjacency, universe: set<string>, s: Search, key: string)
    requires Closed(adjacency, universe) && key in universe
    requires Inv(adjacency, s) && CanVisit(adjacency, s.stack, key)
    ensures var (after, cycle) := VisitResult(adjacency, universe, s, key);
      match cycle
      case Some(c) => IsSimpleCycle(adjacency, c)
      case None => Explored(adjacency, s, after) && key in after.finished
    decreases universe - s.state.Keys, 0
  {
    if key in s.state {
      if s.state[key] == Visiting {
        BackEdgeClosesCycle(adjacency, s, key);
      }
    } else {
      var entered := Search(s.state[key := Visiting], s.stack + [key], s.finished);
      EnterKeepsInvariant(adjacency, s, key);
      VisitEachKeepsInvariant(adjacency, universe, entered, Next(adjacency, key));
      var (after, cycle) := VisitEachResult(adjacency, universe, entered, Next(adjacency, key));
      if cycle.None? {
        LeaveKeepsStack(adjacency, after.state, s.stack, key);
        LeaveKeepsFinished(adjacency, after.state, after.finished, key);
      }
    }
  }

  lemma {:induction false} VisitEachKeepsInvariant(adjacency: Adjacency, universe: set<string>, s: Search,
                                                   keys: seq<string>)
    requires Closed(adjacency, universe) && forall k | k in keys :: k in universe
    requires Inv(adjacency, s) && forall k | k in keys :: CanVisit(adjacency, s.stack, k)
    ensures var (after, cycle) := VisitEachResult(adjacency, universe, s, keys);
      match cycle
      case Some(c) => IsSimpleCycle(adjacency, c)
      case None => Explored(adjacency, s, after) && forall k | k in keys :: k in after.finished
    decreases universe - s.state.Keys, 1 + |keys|
  {
    if keys != [] {
      VisitKeepsInvariant(adjacency, universe, s, keys[0]);
      var (after, cycle) := VisitResult(adjacency, universe, s, keys[0]);
      if cycle.None? {
        assert forall k | k in keys[1..] :: k in keys && CanVisit(adjacency, after.stack, k);
        VisitEachKeepsInvariant(adjacency, universe, after, keys[1..]);
      }
    }
  }

  lemma VisitRootKeepsInvariant(adjacency: Adjacency, universe: set<string>, s: Search, root: string)
    requires Closed(adjacency, universe) && root in universe
    requires Inv(adjacency, s) && s.stack == []
    ensures var (after, cycle) := VisitRootResult(adjacency, universe, s, root);
      match cycle
      case Some(c) => IsSimpleCycle(adjacency, c)
      case None => Explored(adjacency, s, after) && root in after.finished
  {
    if root in s.state {
      assert root !in s.stack;
    } else {
      VisitKeepsInvariant(adjacency, universe, s, root);
    }
  }

  lemma {:induction false} VisitRootsKeepsInvariant(adjacency: Adjacency, universe: set<string>, s: Search,
                                                    roots: seq<string>)
    requires Closed(adjacency, universe) && forall k | k in roots :: k in universe
    requires Inv(adjacency, s) && s.stack == []
    ensures var (after, cycle) := VisitRootsResult(adjacency, universe, s, roots);
      match cycle
      case Some(c) => IsSimpleCycle(adjacency, c)
      case None => Explored(adjacency, s, after) && forall k | k in roots :: k in after.finished
    decreases |roots|
  {
    if roots == [] {
    } else {
      VisitRootKeepsInvariant(adjacency, universe, s, roots[0]);
      var (after, cycle) := VisitRootResult(adjacency, universe, s, roots[0]);
      if cycle.None? {
        VisitRootsKeepsInvariant(adjacency, universe, after, roots[1..]);
      }
    }
  }

  // ---------------------------------------------------------------- what the answers mean

  function Reversed(s: seq<string>): (r: seq<string>)
    ensures |r| == |s| && forall i | 0 <= i < |s| :: r[i] == s[|s| - 1 - i]
  {
    seq(|s|, i requires 0 <= i < |s| => s[|s| - 1 - i])
  }

  /** A found list is a genuine simple cycle. */
  lemma FoundCycleIsSimple(nodes: seq<string>, links: seq<Link>)
    requires CycleOf(nodes, links).Some?
    ensures IsSimpleCycle(BuildAdjacency(nodes, links), CycleOf(nodes, links).value)
  {
    VisitRootsKeepsInvariant(BuildAdjacency(nodes, links), Universe(nodes, links), START, nodes);
  }

  lemma ReversedHolds(finished: seq<string>, k: string, n: nat)
    requires n <= |finished| && k in finished[..n]
    ensures k in Reversed(finished)[|finished| - n..]
  {
    var i :| 0 <= i < n && finished[..n][i] == k;
    assert Reversed(finished)[|finished| - n..][n - 1 - i] == k;
  }

  /** When nothing is found, the keys in the reverse of the order in which they were
      marked `Done` are a topological order. */
  lemma FinishOrderIsTopological(nodes: seq<string>, links: seq<Link>)
    requires CycleOf(nodes, links).None?
    ensures IsTopologicalOrder(BuildAdjacency(nodes, links), Reversed(Outcome(nodes, links).0.finished))
  {
    var adjacency := BuildAdjacency(nodes, links);
    VisitRootsKeepsInvariant(adjacency, Universe(nodes, links), START, nodes);
    FinishedReversed(adjacency, Outcome(nodes, links).0);
  }

  lemma FinishedReversed(adjacency: Adjacency, s: Search)
    requires FinishedInv(adjacency, s.state, s.finished)
    requires forall k :: k in adjacency ==> k in s.finished
    ensures IsTopologicalOrder(adjacency, Reversed(s.finished))
  {
    var finished, order := s.finished, Reversed(s.finished);
    forall k | k in adjacency
      ensures k in order
    {
      assert finished[..|finished|] == finished;
      ReversedHolds(finished, k, |finished|);
    }
    forall j, b | 0 <= j < |order| && Leads(adjacency, order[j], b)
      ensures b in order[j + 1..]
    {
      var i := |order| - 1 - j;
      assert order[j] == finished[i];
      ReversedHolds(finished, b, i);
    }
  }

  lemma {:induction false} PathMovesForward(adjacency: Adjacency, order: seq<string>, p: seq<string>, i: nat)
    returns (h: nat, j: nat)
    requires IsTopologicalOrder(adjacency, order) && IsPath(adjacency, p)
    requires |p| >= 2 && i < |p|
    ensures h <= j < |order| && order[h] == p[0] && order[j] == p[i] && (i > 0 ==> h < j)
  {
    if i == 0 {
      assert Leads(adjacency, p[0], p[1]);
      h :| 0 <= h < |order| && order[h] == p[0];
      j := h;
    } else {
      h, j := PathMovesForward(adjacency, order, p, i - 1);
      assert Leads(adjacency, order[j], p[i]);
      var m: nat :| m < |order[j + 1..]| && order[j + 1..][m] == p[i];
      j := j + 1 + m;
    }
  }

  lemma TopologicalOrderExcludesCycles(adjacency: Adjacency, order: seq<string>)
    requires IsTopologicalOrder(adjacency, order)
    ensures Acyclic(adjacency)
  {
    forall c | IsCycle(adjacency, c)
      ensures false
    {
      var h, j := PathMovesForward(adjacency, order, c, |c| - 1);
    }
  }

  /** The search answers null exactly on the acyclic graphs. */
  lemma NullExactlyWhenAcyclic(nodes: seq<string>, links: seq<Link>)
    ensures CycleOf(nodes, links).None? <==> Acyclic(BuildAdjacency(nodes, links))
  {
    if CycleOf(nodes, links).None? {
      FinishOrderIsTopological(nodes, links);
      TopologicalOrderExcludesCycles(BuildAdjacency(nodes, links), Reversed(Outcome(nodes, links).0.finished));
    } else {
      FoundCycleIsSimple(nodes, links);
    }
  }

  // ---------------------------------------------------------------- the imperative search

  method EmptyLists(nodeKeys: seq<string>) returns (built: Adjacency)
    ensures built == BuildAdjacency(nodeKeys, [])
  {
    built := map[];
    for i := 0 to |nodeKeys|
      invariant built.Keys == set k | k in nodeKeys[..i]
      invariant forall k | k in built :: built[k] == []
    {
      built := built[nodeKeys[i] := []];
    }
  }

  method PushTargets(ghost nodeKeys: seq<string>, edges: seq<Link>, empty: Adjacency) returns (built: Adjacency)
    requires empty == BuildAdjacency(nodeKeys, [])
    ensures built == BuildAdjacency(nodeKeys, edges)
  {
    built := empty;
    for i := 0 to |edges|
      invariant built.Keys == empty.Keys
      invariant forall k | k in built :: built[k] == Targets(edges[..i], k)
    {
      var edge := edges[i];
      assert edges[..i + 1][..i] == edges[..i] && edges[..i + 1][i] == edge;
      if edge.from in built {
        built := built[edge.from := built[edge.from] + [edge.to]];
      }
    }
    assert edges[..|edges|] == edges;
  }

  class CycleFinder {
    const adjacency: Adjacency
    var state: map<string, Mark>
    var stack: seq<string>
    ghost var finished: seq<string>

    ghost function Now(): Search
      reads this
    {
      Search(state, stack, finished)
    }

    constructor (nodeKeys: seq<string>, edges: seq<Link>)
      ensures adjacency == BuildAdjacency(nodeKeys, edges) && Now() == START
    {
      var built := EmptyLists(nodeKeys);
      built := PushTargets(nodeKeys, edges, built);
      adjacency := built;
      state, stack, finished := map[], [], [];
    }

    method Visit(key: string, ghost universe: set<string>) returns (cycle: Option<seq<string>>)
      requires Closed(adjacency, universe) && key in universe
      modifies this
      ensures (Now(), cycle) == VisitResult(adjacency, universe, old(Now()), key)
      decreases universe - state.Keys, 0
    {
      if key in state {
        return if state[key] == Visiting then Some(SuffixFrom(stack, key) + [key]) else None;
      }
      state, stack := state[key := Visiting], stack + [key];
      ghost var entered := Now();
      var nexts := Next(adjacency, key);
      var i := 0;
      while i < |nexts|
        invariant 0 <= i <= |nexts|
        invariant entered.state.Keys <= state.Keys
        invariant VisitEachResult(adjacency, universe, Now(), nexts[i..])
               == VisitEachResult(adjacency, universe, entered, nexts)
      {
        assert key in universe - old(state.Keys);
        cycle := Visit(nexts[i], universe);
        if cycle.Some? {
          return;
        }
        i := i + 1;
      }
      stack, state, finished := Pop(stack), state[key := Done], finished + [key];
      cycle := None;
    }
  }

  method FindCycle(nodeKeys: seq<string>, edges: seq<Link>) returns (cycle: Option<seq<string>>)
    ensures cycle == CycleOf(nodeKeys, edges)
    ensures cycle.Some? ==> IsSimpleCycle(BuildAdjacency(nodeKeys, edges), cycle.value)
    ensures cycle.None? <==> Acyclic(BuildAdjacency(nodeKeys, edges))
  {
    NullExactlyWhenAcyclic(nodeKeys, edges);
    ghost var universe := Universe(nodeKeys, edges);
    var finder := new CycleFinder(nodeKeys, edges);
    var i := 0;
    while i < |nodeKeys|
      invariant 0 <= i <= |nodeKeys|
      invariant VisitRootsResult(finder.adjacency, universe, finder.Now(), nodeKeys[i..]) == Outcome(nodeKeys, edges)
    {
      if nodeKeys[i] !in finder.state {
        cycle := finder.Visit(nodeKeys[i], universe);
        if cycle.Some? {
          FoundCycleIsSimple(nodeKeys, edges);
          return;
        }
      }
      i := i + 1;
    }
    cycle := None;
  }
}
