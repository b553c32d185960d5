/** What the texts of issues tell apart: `newGraphErrors` compares nothing else. */
module GraphTexts {
  import opened Basics
  import opened WorkflowGraph

  // ---------------------------------------------------------------- which remark a text is

  ghost predicate EndsIn(text: string, end: string) {
    exists before :: text == before + end
  }

  lemma LastThree(text: string) returns (end: string)
    requires |text| >= 3
    ensures EndsIn(text, end) && |end| == 3 && end[0] == text[|text| - 3] && end[1] == text[|text| - 2]
  {
    end := text[|text| - 3..];
    assert text == text[..|text| - 3] + end;
  }

  lemma OneEnd(text: string, e: string, f: string)
    requires EndsIn(text, e) && EndsIn(text, f) && |e| == |f|
    ensures e == f
  {
    assert text[|text| - |e|..] == e && text[|text| - |f|..] == f;
  }

  lemma EndsAfter(before: string, text: string, end: string)
    requires EndsIn(text, end)
    ensures EndsIn(before + text, end)
  {
    var more :| text == more + end;
    assert before + text == (before + more) + end;
  }

  function StepTag(m: Message): nat {
    if m.InvalidKind? then 1 else if m.MissingDescription? then 2 else if m.UnknownAgent? then 3
    else if m.LoopOnGate? then 4 else if m.LoopInvalidMax? then 5 else if m.LoopInvalidOperator? then 6
    else if m.LoopMissingValue? then 7 else if m.LoopInvalidRegex? then 8 else if m.EdgeSelf? then 9 else 10
  }

  /** Read off the last three characters, by which the remarks about a step differ. */
  function StepTagOf(end: string): nat
    requires |end| == 3
  {
    if end[1] == '\"' then 1 else if end[1] == 'o' then 2 else if end[1] == '0' then 5 else if end[1] == 'x' then 6
    else if end[1] == 'n' then 7 else if end[1] == ')' then 8
    else if end[1] == 'd' then if end[0] == 'e' then 3 else 9
    else if end[0] == 'e' then 4 else 10
  }

  lemma RuleRemarks(m: Message) returns (end: string)
    requires m.InvalidKind? || m.MissingDescription? || m.UnknownAgent?
    ensures EndsIn(Remark(m), end) && |end| == 3 && StepTagOf(end) == StepTag(m)
  {
    end := LastThree(Remark(m));
  }

  lemma LoopRemarks(m: Message) returns (end: string)
    requires m.LoopOnGate? || m.LoopInvalidMax? || m.LoopInvalidOperator?
    ensures EndsIn(Remark(m), end) && |end| == 3 && StepTagOf(end) == StepTag(m)
  {
    end := LastThree(Remark(m));
  }

  lemma LoopConditionRemarks(m: Message) returns (end: string)
    requires m.LoopMissingValue? || m.LoopInvalidRegex?
    ensures EndsIn(Remark(m), end) && |end| == 3 && StepTagOf(end) == StepTag(m)
  {
    end := LastThree(Remark(m));
  }

  lemma PlaceRemarks(m: Message) returns (end: string)
    requires m.EdgeSelf? || m.Disconnected?
    ensures EndsIn(Remark(m), end) && |end| == 3 && StepTagOf(end) == StepTag(m)
  {
    end := LastThree(Remark(m));
  }

  lemma StepRemarks(m: Message) returns (end: string)
    requires AboutStep(m)
    ensures EndsIn(Remark(m), end) && |end| == 3 && StepTagOf(end) == StepTag(m)
  {
    if m.InvalidKind? || m.MissingDescription? || m.UnknownAgent? {
      end := RuleRemarks(m);
    } else if m.LoopOnGate? || m.LoopInvalidMax? || m.LoopInvalidOperator? {
      end := LoopRemarks(m);
    } else if m.LoopMissingValue? || m.LoopInvalidRegex? {
      end := LoopConditionRemarks(m);
    } else {
      end := PlaceRemarks(m);
    }
  }

  function ConnectionTag(m: Message): nat {
    if m.EdgeDuplicate? then 1 else if m.EdgeInvalidKind? then 2 else if m.EdgeUnexpectedCondition? then 3
    else if m.EdgeMissingCondition? then 4 else if m.EdgeInvalidOperator? then 5 else if m.EdgeInvalidRegex? then 6
    else 7
  }

  function ConnectionTagOf(end: string): nat
    requires |end| == 3
  {
    if end[1] == 'e' then if end[0] == 'c' then 1 else 4
    else if end[1] == '\"' then 2 else if end[1] == 'n' then 3 else if end[1] == 'x' then 5
    else if end[1] == ')' then 6 else 7
  }

  lemma EdgeRemarks(m: Message) returns (end: string)
    requires m.EdgeDuplicate? || m.EdgeInvalidKind? || m.EdgeUnexpectedCondition? || m.EdgeMissingCondition?
    ensures EndsIn(Remark(m), end) && |end| == 3 && ConnectionTagOf(end) == ConnectionTag(m)
  {
    end := LastThree(Remark(m));
  }

  lemma ConditionRemarks(m: Message) returns (end: string)
    requires m.EdgeInvalidOperator? || m.EdgeInvalidRegex? || m.GateNeverMatches?
    ensures EndsIn(Remark(m), end) && |end| == 3 && ConnectionTagOf(end) == ConnectionTag(m)
  {
    end := LastThree(Remark(m));
  }

  lemma ConnectionRemarks(m: Message) returns (end: string)
    requires AboutConnection(m)
    ensures EndsIn(Remark(m), end) && |end| == 3 && ConnectionTagOf(end) == ConnectionTag(m)
  {
    if m.EdgeDuplicate? || m.EdgeInvalidKind? || m.EdgeUnexpectedCondition? || m.EdgeMissingCondition? {
      end := EdgeRemarks(m);
    } else {
      end := ConditionRemarks(m);
    }
  }

  // ---------------------------------------------------------------- reading a text from its ends

  lemma SameWithin(before: string, a: string, b: string, after: string)
    requires Within(before, a, after) == Within(before, b, after)
    ensures a == b
  {
    var text := Within(before, a, after);
    assert |a| == |b|;
    assert text[|before|..|before| + |a|] == a && Within(before, b, after)[|before|..|before| + |b|] == b;
  }

  lemma SameRest(before: string, a: string, b: string)
    requires before + a == before + b
    ensures a == b
  {
    assert (before + a)[|before|..] == a && (before + b)[|before|..] == b;
  }

  lemma SplitFirst(c: char, a: string, r: string, b: string, s: string)
    requires c !in a && c !in b && a + [c] + r == b + [c] + s
    ensures a == b && r == s
  {
    var text := a + [c] + r;
    assert text[|a|] == c && text[|b|] == c;
    assert forall i | 0 <= i < |a| :: text[i] == a[i];
    assert forall i | 0 <= i < |b| :: text[i] == b[i];
    assert |a| == |b|;
    assert a == text[..|a|] == b;
    assert r == text[|a| + 1..] == s;
  }

  /** A name in quotes, with no quotation mark inside. */
  predicate IsPlainName(name: string) {
    |name| >= 2 && name[0] == '\"' == name[|name| - 1] && '\"' !in name[1..|name| - 1]
  }

  lemma NameEnds(x: string, r: string, y: string, s: string)
    requires IsPlainName(x) && IsPlainName(y) && x + r == y + s
    ensures x == y && r == s
  {
    var a, b := x[1..|x| - 1], y[1..|y| - 1];
    assert x == ['\"'] + a + ['\"'] && y == ['\"'] + b + ['\"'];
    assert (x + r)[1..] == a + ['\"'] + r && (y + s)[1..] == b + ['\"'] + s;
    SplitFirst('\"', a, r, b, s);
  }

  lemma NameAfter(before: string, x: string, r: string, y: string, s: string)
    requires IsPlainName(x) && IsPlainName(y) && before + x + r == before + y + s
    ensures x == y && r == s
  {
    assert before + x + r == before + (x + r) && before + y + s == before + (y + s);
    SameRest(before, x + r, y + s);
    NameEnds(x, r, y, s);
  }

  // ---------------------------------------------------------------- one text, one message

  lemma StepTextsTell(m: Message, n: Message)
    requires AboutStep(m) && AboutStep(n) && IsPlainName(m.step) && IsPlainName(n.step)
    requires Render(m) == Render(n)
    ensures m == n
  {
    NameAfter("Step ", m.step, Remark(m), n.step, Remark(n));
    SameStepRemark(m, n);
  }

  lemma SameStepTag(m: Message, n: Message)
    requires AboutStep(m) && AboutStep(n) && Remark(m) == Remark(n)
    ensures StepTag(m) == StepTag(n)
  {
    var e := StepRemarks(m);
    var f := StepRemarks(n);
    OneEnd(Remark(m), e, f);
  }

  lemma SameStepRemark(m: Message, n: Message)
    requires AboutStep(m) && AboutStep(n) && Remark(m) == Remark(n) && m.step == n.step
    ensures m == n
  {
    SameStepTag(m, n);
    if m.InvalidKind? {
      SameKind(m, n);
    } else if m.UnknownAgent? {
      SameAgent(m, n);
    } else if m.LoopInvalidRegex? {
      SameProblem(m, n);
    }
  }

  lemma SameProblem(m: Message, n: Message)
    requires m.LoopInvalidRegex? && n.LoopInvalidRegex? && Remark(m) == Remark(n)
    ensures m.problem == n.problem
  {
    SameWithin(REPEAT_NOT_VALID, m.problem, n.problem, ").");
  }

  lemma SameKind(m: Message, n: Message)
    requires m.InvalidKind? && n.InvalidKind? && Remark(m) == Remark(n)
    ensures m.kind == n.kind
  {
    SameWithin(KIND_MUST_BE, m.kind, n.kind, "\".");
  }

  lemma SameAgent(m: Message, n: Message)
    requires m.UnknownAgent? && n.UnknownAgent? && Remark(m) == Remark(n)
    ensures m.agentId == n.agentId
  {
    SameWithin(ASSIGNED_TO, m.agentId, n.agentId, UNKNOWN_AGENT);
  }

  lemma ConnectionTextsTell(m: Message, n: Message)
    requires AboutConnection(m) && AboutConnection(n) && Render(m) == Render(n)
    requires IsPlainName(m.source) && IsPlainName(n.source) && IsPlainName(m.target) && IsPlainName(n.target)
    ensures m == n
  {
    TwoNamesAfter("Connection ", m.source, " \U{2192} ", m.target, Remark(m), n.source, n.target, Remark(n));
    SameConnectionRemark(m, n);
  }

  lemma TwoNamesAfter(before: string, x: string, between: string, y: string, r: string, u: string, v: string, s: string)
    requires IsPlainName(x) && IsPlainName(y) && IsPlainName(u) && IsPlainName(v)
    requires before + x + between + y + r == before + u + between + v + s
    ensures x == u && y == v && r == s
  {
    assert before + x + between + y + r == before + x + (between + y + r);
    assert before + u + between + v + s == before + u + (between + v + s);
    NameAfter(before, x, between + y + r, u, between + v + s);
    NameAfter(between, y, r, v, s);
  }

  lemma SameConnectionTag(m: Message, n: Message)
    requires AboutConnection(m) && AboutConnection(n) && Remark(m) == Remark(n)
    ensures ConnectionTag(m) == ConnectionTag(n)
  {
    var e := ConnectionRemarks(m);
    var f := ConnectionRemarks(n);
    OneEnd(Remark(m), e, f);
  }

  lemma SameConnectionRemark(m: Message, n: Message)
    requires AboutConnection(m) && AboutConnection(n) && Remark(m) == Remark(n)
    requires m.source == n.source && m.target == n.target
    ensures m == n
  {
    SameConnectionTag(m, n);
    match m
    case EdgeInvalidRegex(_, _, problem) => SameWithin(CONDITION_NOT_VALID, problem, n.problem, ").");
    case GateNeverMatches(_, _, value) => SameWithin(GATE_ENDS_AS, value, n.value, "\" never matches.");
    case _ =>
  }

  lemma EmptyJoin(names: seq<string>, separator: string)
    requires forall i | 0 <= i < |names| :: IsPlainName(names[i])
    ensures Join(names, separator) == "" <==> names == []
  {
    assert names != [] ==> names[0] != "";
  }

  /** Quoted names one after another, joined by arrows. */
  lemma {:induction false} SameNames(x: seq<string>, y: seq<string>, separator: string)
    requires (forall i | 0 <= i < |x| :: IsPlainName(x[i])) && (forall i | 0 <= i < |y| :: IsPlainName(y[i]))
    requires Join(x, separator) == Join(y, separator) && separator != ""
    ensures x == y
    decreases |x|
  {
    EmptyJoin(x, separator);
    EmptyJoin(y, separator);
    if x == [] {
    } else {
      var r := if |x| == 1 then "" else separator + Join(x[1..], separator);
      var s := if |y| == 1 then "" else separator + Join(y[1..], separator);
      assert Join(x, separator) == x[0] + r && Join(y, separator) == y[0] + s;
      NameEnds(x[0], r, y[0], s);
      if |x| == 1 || |y| == 1 {
        assert x == [x[0]] && y == [y[0]];
      } else {
        SameRest(separator, Join(x[1..], separator), Join(y[1..], separator));
        SameNames(x[1..], y[1..], separator);
        assert x == [x[0]] + x[1..] && y == [y[0]] + y[1..];
      }
    }
  }

  lemma CycleTextsTell(m: Message, n: Message)
    requires m.GraphCycle? && n.GraphCycle? && Render(m) == Render(n)
    requires forall i | 0 <= i < |m.steps| :: IsPlainName(m.steps[i])
    requires forall i | 0 <= i < |n.steps| :: IsPlainName(n.steps[i])
    ensures m == n
  {
    var arrow := " \U{2192} ";
    SameRest("The graph", Within(" contains a cycle: ", Join(m.steps, arrow), REPEAT_BY_LOOP),
                          Within(" contains a cycle: ", Join(n.steps, arrow), REPEAT_BY_LOOP));
    SameWithin(" contains a cycle: ", Join(m.steps, arrow), Join(n.steps, arrow), REPEAT_BY_LOOP);
    SameNames(m.steps, n.steps, arrow);
  }

  lemma NodeTextsTell(m: Message, n: Message)
    requires (m.NodeWithoutKey? && n.NodeWithoutKey?) || (m.DuplicateKey? && n.DuplicateKey?)
    requires Render(m) == Render(n)
    ensures m == n
  {
    if m.NodeWithoutKey? {
      SameWithin("Node ", Decimal(m.number), Decimal(n.number), NO_KEY);
      NumeralInjective(m.number, n.number, 10);
    } else {
      SameWithin("Node key \"", m.key, n.key, USED_TWICE);
    }
  }

  predicate PlainEnds(m: Message)
    requires m.EdgeUnknownNode?
  {
    '\U{2192}' !in m.from && '\"' !in m.to
  }

  lemma EndTextsTell(m: Message, n: Message)
    requires m.EdgeUnknownNode? && n.EdgeUnknownNode? && Render(m) == Render(n) && PlainEnds(m) && PlainEnds(n)
    ensures m == n
  {
    SameNumber(m.number, UnknownEnd(m.from, m.to, m.end), n.number, UnknownEnd(n.from, n.to, n.end));
    SameEnds(m.from, m.to, m.end, n.from, n.to, n.end);
  }

  lemma SameNumber(m: nat, r: string, n: nat, s: string)
    requires "Edge " + Decimal(m) + " " + r == "Edge " + Decimal(n) + " " + s
    ensures m == n && r == s
  {
    assert "Edge " + Decimal(m) + " " + r == "Edge " + (Decimal(m) + [' '] + r);
    assert "Edge " + Decimal(n) + " " + s == "Edge " + (Decimal(n) + [' '] + s);
    SameRest("Edge ", Decimal(m) + [' '] + r, Decimal(n) + [' '] + s);
    NumeralExactly(m, 10);
    NumeralExactly(n, 10);
    SplitFirst(' ', Decimal(m), r, Decimal(n), s);
    NumeralInjective(m, n, 10);
  }

  lemma SameEnds(from: string, to: string, end: string, from': string, to': string, end': string)
    requires '\U{2192}' !in from && '\U{2192}' !in from' && '\"' !in to && '\"' !in to'
    requires UnknownEnd(from, to, end) == UnknownEnd(from', to', end')
    ensures from == from' && to == to' && end == end'
  {
    SameParts("(", from, " ", to, "): unknown node ", end, "\".", from', to', end');
  }

  lemma SameParts(open: string, from: string, gap: string, to: string, unknown: string, end: string, close: string,
                  from': string, to': string, end': string)
    requires '\U{2192}' !in from && '\U{2192}' !in from' && '\"' !in to && '\"' !in to'
    requires '\U{2192}' !in gap && '\"' !in unknown
    requires open + from + gap + "\U{2192}" + gap + to + unknown + "\"" + end + close
          == open + from' + gap + "\U{2192}" + gap + to' + unknown + "\"" + end' + close
    ensures from == from' && to == to' && end == end'
  {
    var r, s := gap + to + unknown + "\"" + end + close, gap + to' + unknown + "\"" + end' + close;
    Regroup(open + from + gap + "\U{2192}", gap, to, unknown, "\"", end, close);
    Regroup(open + from' + gap + "\U{2192}", gap, to', unknown, "\"", end', close);
    SameSource(open, from, gap, r, from', s);
    SameTarget(gap, to, unknown, end + close, to', end' + close);
    SameFront(end, end', close);
  }

  lemma Regroup(a: string, b: string, c: string, d: string, e: string, f: string, g: string)
    ensures a + b + c + d + e + f + g == a + (b + c + d + e + f + g)
    ensures b + c + d + e + f + g == b + c + d + e + (f + g)
  {
  }

  /** Up to the arrow. */
  lemma SameSource(open: string, from: string, gap: string, r: string, from': string, s: string)
    requires '\U{2192}' !in from && '\U{2192}' !in from' && '\U{2192}' !in gap
    requires open + from + gap + "\U{2192}" + r == open + from' + gap + "\U{2192}" + s
    ensures from == from' && r == s
  {
    var a, b := from + gap, from' + gap;
    assert open + from + gap + "\U{2192}" + r == open + (a + ['\U{2192}'] + r);
    assert open + from' + gap + "\U{2192}" + s == open + (b + ['\U{2192}'] + s);
    SameRest(open, a + ['\U{2192}'] + r, b + ['\U{2192}'] + s);
    SplitFirst('\U{2192}', a, r, b, s);
    SameFront(from, from', gap);
  }

  /** Up to the quotation mark. */
  lemma SameTarget(gap: string, to: string, unknown: string, r: string, to': string, s: string)
    requires '\"' !in to && '\"' !in to' && '\"' !in unknown
    requires gap + to + unknown + "\"" + r == gap + to' + unknown + "\"" + s
    ensures to == to' && r == s
  {
    var x, y := to + unknown, to' + unknown;
    assert gap + to + unknown + "\"" + r == gap + (x + ['\"'] + r);
    assert gap + to' + unknown + "\"" + s == gap + (y + ['\"'] + s);
    SameRest(gap, x + ['\"'] + r, y + ['\"'] + s);
    SplitFirst('\"', x, r, y, s);
    SameFront(to, to', unknown);
  }

  lemma SameFront(a: string, b: string, after: string)
    requires a + after == b + after
    ensures a == b
  {
    assert |a| == |b|;
    assert (a + after)[..|a|] == a && (b + after)[..|b|] == b;
  }

  // ---------------------------------------------------------------- any two texts

  function Group(m: Message): nat {
    if AboutStep(m) then 1 else if AboutConnection(m) then 2 else if m.EdgeUnknownNode? then 3
    else if m.DuplicateKey? then 4 else if m.NodeWithoutKey? then 5 else if m.GraphEmpty? then 6 else 7
  }

  function Prefix(m: Message): string {
    if AboutStep(m) then "Step " else if AboutConnection(m) then "Connection " else if m.EdgeUnknownNode? then "Edge "
    else if m.DuplicateKey? then "Node key \"" else if m.NodeWithoutKey? then "Node "
    else if m.GraphEmpty? then "The workflow" else "The graph"
  }

  lemma StepBegins(m: Message) returns (rest: string)
    requires AboutStep(m)
    ensures Render(m) == "Step " + rest
  {
    rest := Joined("Step ", m.step, Remark(m));
  }

  lemma ConnectionBegins(m: Message) returns (rest: string)
    requires AboutConnection(m)
    ensures Render(m) == "Connection " + rest
  {
    rest := BeginsWithConnection(m.source, m.target, Remark(m));
  }

  lemma NodeBegins(m: Message) returns (rest: string)
    requires m.NodeWithoutKey? || m.DuplicateKey?
    ensures Render(m) == Prefix(m) + rest
    ensures m.NodeWithoutKey? ==> rest != "" && rest[0] != 'k'
  {
    if m.DuplicateKey? {
      rest := Joined("Node key \"", m.key, USED_TWICE);
    } else {
      rest := Joined("Node ", Decimal(m.number), NO_KEY);
      NumeralExactly(m.number, 10);
      assert rest[0] == Decimal(m.number)[0] && Decimal(m.number)[0] in Decimal(m.number);
    }
  }

  lemma OtherBegins(m: Message) returns (rest: string)
    requires m.EdgeUnknownNode? || m.GraphEmpty? || m.GraphCycle?
    ensures Render(m) == Prefix(m) + rest
  {
    if m.EdgeUnknownNode? {
      rest := Joined("Edge ", Decimal(m.number) + " ", UnknownEnd(m.from, m.to, m.end));
      assert "Edge " + (Decimal(m.number) + " ") == "Edge " + Decimal(m.number) + " ";
    } else if m.GraphEmpty? {
      rest := NO_STEPS;
    } else {
      rest := Within(" contains a cycle: ", Join(m.steps, " \U{2192} "), REPEAT_BY_LOOP);
    }
  }

  lemma TextBegins(m: Message) returns (rest: string)
    ensures Render(m) == Prefix(m) + rest
    ensures m.NodeWithoutKey? ==> rest != "" && rest[0] != 'k'
  {
    if AboutStep(m) {
      rest := StepBegins(m);
    } else if AboutConnection(m) {
      rest := ConnectionBegins(m);
    } else if m.NodeWithoutKey? || m.DuplicateKey? {
      rest := NodeBegins(m);
    } else {
      rest := OtherBegins(m);
    }
  }

  lemma Joined(before: string, text: string, after: string) returns (rest: string)
    ensures before + text + after == before + rest && rest == text + after
  {
    rest := text + after;
  }

  lemma BeginsWithConnection(source: string, target: string, remark: string) returns (rest: string)
    ensures Connection(source, target) + remark == "Connection " + rest
  {
    var arrow := " \U{2192} ";
    rest := source + arrow + target + remark;
    ThreeParts("Connection ", source, arrow + target, remark);
    ThreeParts("Connection ", source, arrow, target);
    ThreeParts(source, arrow, target, remark);
  }

  lemma ThreeParts(a: string, b: string, c: string, d: string)
    ensures a + b + c + d == a + (b + c + d) && b + c + d == b + (c + d)
  {
  }

  /** Equal texts begin alike. */
  lemma SameBeginning(p: string, r: string, q: string, s: string)
    requires p + r == q + s && |p| > 4 && |q| > 4
    ensures p[0] == q[0] && p[4] == q[4]
    ensures |p| == 5 < |q| && r != "" ==> r[0] == q[5]
  {
    var text := p + r;
    assert text[0] == p[0] && text[0] == (q + s)[0] == q[0];
    assert text[4] == p[4] && text[4] == (q + s)[4] == q[4];
    if |p| == 5 < |q| && r != "" {
      assert text[5] == r[0] && text[5] == (q + s)[5] == q[5];
    }
  }

  /** Whatever the names are, a text shows what it is about. */
  lemma SameGroup(m: Message, n: Message)
    requires Render(m) == Render(n)
    ensures Group(m) == Group(n)
  {
    var r := TextBegins(m);
    var s := TextBegins(n);
    PrefixesDiffer(m, r, n, s);
  }

  function FirstLetter(m: Message): char {
    if AboutStep(m) then 'S' else if AboutConnection(m) then 'C' else if m.EdgeUnknownNode? then 'E'
    else if m.DuplicateKey? || m.NodeWithoutKey? then 'N' else 'T'
  }

  lemma PrefixLetters(m: Message)
    ensures |Prefix(m)| > 4 && Prefix(m)[0] == FirstLetter(m)
    ensures m.GraphEmpty? ==> Prefix(m)[4] == 'w'
    ensures m.GraphCycle? ==> Prefix(m)[4] == 'g'
    ensures m.NodeWithoutKey? ==> |Prefix(m)| == 5
    ensures m.DuplicateKey? ==> |Prefix(m)| > 5 && Prefix(m)[5] == 'k'
  {
  }

  lemma PrefixesDiffer(m: Message, r: string, n: Message, s: string)
    requires Prefix(m) + r == Prefix(n) + s
    requires (m.NodeWithoutKey? ==> r != "" && r[0] != 'k') && (n.NodeWithoutKey? ==> s != "" && s[0] != 'k')
    ensures Group(m) == Group(n)
  {
    PrefixLetters(m);
    PrefixLetters(n);
    SameBeginning(Prefix(m), r, Prefix(n), s);
    SameBeginning(Prefix(n), s, Prefix(m), r);
    SameLetterSameGroup(m, n);
  }

  lemma SameLetterSameGroup(m: Message, n: Message)
    requires FirstLetter(m) == FirstLetter(n)
    requires !(m.NodeWithoutKey? && n.DuplicateKey?) && !(m.DuplicateKey? && n.NodeWithoutKey?)
    requires !(m.GraphEmpty? && n.GraphCycle?) && !(m.GraphCycle? && n.GraphEmpty?)
    ensures Group(m) == Group(n)
  {
  }

  /** Every name in the message is free of quotation marks, every key of arrows or of
      quotation marks. */
  predicate IsPlain(m: Message) {
    if AboutStep(m) then IsPlainName(m.step)
    else if AboutConnection(m) then IsPlainName(m.source) && IsPlainName(m.target)
    else if m.GraphCycle? then forall i | 0 <= i < |m.steps| :: IsPlainName(m.steps[i])
    else m.EdgeUnknownNode? ==> PlainEnds(m)
  }

  /** Equal texts of plain messages are texts of one message. */
  lemma TextsTell(m: Message, n: Message)
    requires IsPlain(m) && IsPlain(n) && Render(m) == Render(n)
    ensures m == n
  {
    SameGroup(m, n);
    if AboutStep(m) {
      StepTextsTell(m, n);
    } else if AboutConnection(m) {
      ConnectionTextsTell(m, n);
    } else if m.GraphCycle? {
      CycleTextsTell(m, n);
    } else if m.EdgeUnknownNode? {
      EndTextsTell(m, n);
    } else if m.NodeWithoutKey? || m.DuplicateKey? {
      NodeTextsTell(m, n);
    }
  }

  /** No other text can pass for one about an unknown agent. */
  lemma AgentTextsStandOut(m: Message, n: Message)
    requires Render(m) == Render(n)
    ensures m.UnknownAgent? == n.UnknownAgent?
  {
    SameGroup(m, n);
    if Group(m) == 1 {
      AgentRemarksStandOut(m, n);
    }
  }

  lemma AgentRemarksStandOut(m: Message, n: Message)
    requires AboutStep(m) && AboutStep(n) && Render(m) == Render(n)
    ensures m.UnknownAgent? == n.UnknownAgent?
  {
    var e := StepTextEnds(m);
    var f := StepTextEnds(n);
    OneEnd(Render(m), e, f);
  }

  lemma StepTextEnds(m: Message) returns (end: string)
    requires AboutStep(m)
    ensures EndsIn(Render(m), end) && |end| == 3 && StepTagOf(end) == StepTag(m)
  {
    end := StepRemarks(m);
    EndsAfter("Step " + m.step, Remark(m), end);
  }
}
