/** `{{inputKey}}` placeholders in template text (packages/workflow-templates/src/validate.ts):
    the pattern, what extraction and substitution make of it, and what they guarantee. */
module Placeholders {
  import opened Basics

  /** The characters of `\w`. */
  predicate IsWordChar(c: char) {
    'a' <= c <= 'z' || 'A' <= c <= 'Z' || '0' <= c <= '9' || c == '_'
  }

  predicate IsWord(s: string) {
    s != "" && forall i | 0 <= i < |s| :: IsWordChar(s[i])
  }

  function Quote(key: string): string {
    "{{" + key + "}}"
  }

  /** The pattern matches at the start of `text`, capturing `key`. */
  predicate MatchesAs(text: string, key: string) {
    IsWord(key) && Quote(key) <= text
  }

  // ---------------------------------------------------------------- scanning

  function WordLength(text: string): (n: nat)
    ensures n <= |text| && forall i | 0 <= i < n :: IsWordChar(text[i])
    ensures n < |text| ==> !IsWordChar(text[n])
  {
    if text != "" && IsWordChar(text[0]) then 1 + WordLength(text[1..]) else 0
  }

  /** The key captured by a match at the start of `text`, if there is one. */
  function KeyAt(text: string): (key: Option<string>)
    ensures key.Some? ==> MatchesAs(text, key.value)
  {
    if |text| < 2 || text[0] != '{' || text[1] != '{' then None
    else
      var n := WordLength(text[2..]);
      if n == 0 || |text| < n + 4 || text[n + 2] != '}' || text[n + 3] != '}' then None
      else
        assert text[..n + 4] == Quote(text[2..n + 2]);
        Some(text[2..n + 2])
  }

  lemma {:induction false} WordExtends(word: string, rest: string)
    requires forall i | 0 <= i < |word| :: IsWordChar(word[i])
    ensures WordLength(word + rest) == |word| + WordLength(rest)
  {
    if word == "" {
      assert word + rest == rest;
    } else {
      WordExtends(word[1..], rest);
      assert (word + rest)[1..] == word[1..] + rest;
    }
  }

  lemma KeyAtExactly(text: string, key: string)
    ensures KeyAt(text) == Some(key) <==> MatchesAs(text, key)
  {
    if MatchesAs(text, key) {
      var rest := text[|Quote(key)|..];
      assert text == Quote(key) + rest;
      assert text[2..] == key + ("}}" + rest);
      WordExtends(key, "}}" + rest);
      assert text[2..|key| + 2] == key;
    }
  }

  /** A text is read from left to right as single characters and placeholders. */
  datatype Token = Char(c: char) | Placeholder(key: string)

  function Tokenize(text: string): seq<Token>
    decreases |text|
  {
    if text == "" then []
    else if KeyAt(text).Some? then
      var key := KeyAt(text).value;
      [Placeholder(key)] + Tokenize(text[|Quote(key)|..])
    else [Char(text[0])] + Tokenize(text[1..])
  }

  function PrintOne(t: Token): string {
    match t
    case Char(c) => [c]
    case Placeholder(key) => Quote(key)
  }

  function Print(tokens: seq<Token>): string {
    if tokens == [] then "" else PrintOne(tokens[0]) + Print(tokens[1..])
  }

  /** Leftmost matching: a character stands for itself only where no match begins. */
  ghost predicate Leftmost(tokens: seq<Token>) {
    tokens != [] ==>
      && (match tokens[0]
          case Placeholder(key) => IsWord(key)
          case Char(_) => forall key :: !MatchesAs(Print(tokens), key))
      && Leftmost(tokens[1..])
  }

  lemma {:induction false} TokenizePrints(text: string)
    ensures Print(Tokenize(text)) == text && Leftmost(Tokenize(text))
    decreases |text|
  {
    if text == "" {
    } else {
      if KeyAt(text).Some? {
        var key := KeyAt(text).value;
        TokenizePrints(text[|Quote(key)|..]);
        assert text == Quote(key) + text[|Quote(key)|..];
        assert Tokenize(text)[1..] == Tokenize(text[|Quote(key)|..]);
      } else {
        TokenizePrints(text[1..]);
        assert text == [text[0]] + text[1..];
        assert Tokenize(text)[1..] == Tokenize(text[1..]);
        forall key
          ensures !MatchesAs(text, key)
        {
          KeyAtExactly(text, key);
        }
      }
    }
  }

  /** The first token of a leftmost reading is what the scan finds first. */
  lemma LeftmostHead(tokens: seq<Token>)
    requires Leftmost(tokens) && tokens != []
    ensures Print(tokens) != ""
    ensures tokens[0].Placeholder? ==>
              && KeyAt(Print(tokens)) == Some(tokens[0].key)
              && Print(tokens)[|Quote(tokens[0].key)|..] == Print(tokens[1..])
    ensures tokens[0].Char? ==>
              && KeyAt(Print(tokens)) == None && Print(tokens)[0] == tokens[0].c
              && Print(tokens)[1..] == Print(tokens[1..])
  {
    var text := Print(tokens);
    if tokens[0].Placeholder? {
      assert text[..|Quote(tokens[0].key)|] == Quote(tokens[0].key);
      KeyAtExactly(text, tokens[0].key);
    }
  }

  lemma TokenizeHead(text: string, head: Token, rest: string)
    requires text != ""
    requires head.Placeholder? ==> KeyAt(text) == Some(head.key) && text[|Quote(head.key)|..] == rest
    requires head.Char? ==> KeyAt(text) == None && text[0] == head.c && text[1..] == rest
    ensures Tokenize(text) == [head] + Tokenize(rest)
  {
  }

  lemma {:induction false} LeftmostIsTokenize(tokens: seq<Token>)
    requires Leftmost(tokens)
    ensures Tokenize(Print(tokens)) == tokens
  {
    if tokens == [] {
    } else {
      LeftmostHead(tokens);
      LeftmostIsTokenize(tokens[1..]);
      TokenizeHead(Print(tokens), tokens[0], Print(tokens[1..]));
      assert tokens == [tokens[0]] + tokens[1..];
    }
  }

  /** The scan is the one leftmost reading of a text. */
  lemma TokenizationExactly(text: string, tokens: seq<Token>)
    ensures tokens == Tokenize(text) <==> Print(tokens) == text && Leftmost(tokens)
  {
    TokenizePrints(text);
    if Leftmost(tokens) {
      LeftmostIsTokenize(tokens);
    }
  }

  // ---------------------------------------------------------------- extraction and substitution

  function Keys(tokens: seq<Token>): seq<string> {
    if tokens == [] then []
    else (if tokens[0].Placeholder? then [tokens[0].key] else []) + Keys(tokens[1..])
  }

  function ExtractPlaceholders(text: Option<string>): seq<string> {
    if text.None? || text.value == "" then [] else Keys(Tokenize(text.value))
  }

  /** The texts of what every plain object inherits, `constructor`, `toString`, `__proto__` and
      the like: of built-in functions and of an object, so none begins with a brace. */
  type Inherited = texts: map<string, string> | forall k | k in texts :: texts[k] != "" && texts[k][0] != '{'
    witness map[]

  /** A plain object used as a table. */
  datatype Values = Values(own: map<string, string>, inherited: Inherited) {
    function Find(key: string): Option<string> {
      if key in own then Some(own[key]) else if key in inherited then Some(inherited[key]) else None
    }
  }

  /** `values[key] ?? match` */
  function FillOne(t: Token, values: Values): string {
    if t.Placeholder? && values.Find(t.key).Some? then values.Find(t.key).value else PrintOne(t)
  }

  /** `text.replace(PLACEHOLDER_PATTERN, ...)`: the scan goes on after each match in the
      original text, so inserted values are never looked at. */
  function SubstitutePlaceholders(text: string, values: Values): string
    decreases |text|
  {
    if text == "" then ""
    else if KeyAt(text).Some? then
      var key := KeyAt(text).value;
      var found := values.Find(key);
      (if found.Some? then found.value else Quote(key)) + SubstitutePlaceholders(text[|Quote(key)|..], values)
    else [text[0]] + SubstitutePlaceholders(text[1..], values)
  }

  function Fill(tokens: seq<Token>, values: Values): string {
    if tokens == [] then "" else FillOne(tokens[0], values) + Fill(tokens[1..], values)
  }

  /** Substitution replaces token by token in any leftmost reading of the text. */
  lemma {:induction false} SubstituteFills(tokens: seq<Token>, values: Values)
    requires Leftmost(tokens)
    ensures SubstitutePlaceholders(Print(tokens), values) == Fill(tokens, values)
  {
    if tokens == [] {
    } else {
      LeftmostHead(tokens);
      SubstituteFills(tokens[1..], values);
    }
  }

  lemma SubstituteFillsText(text: string, values: Values)
    ensures SubstitutePlaceholders(text, values) == Fill(Tokenize(text), values)
    ensures ExtractPlaceholders(Some(text)) == Keys(Tokenize(text))
  {
    TokenizePrints(text);
    SubstituteFills(Tokenize(text), values);
  }

  lemma {:induction false} FillsLikePrintExactly(tokens: seq<Token>, values: Values)
    requires forall k | k in Keys(tokens) :: k !in values.own
    ensures Fill(tokens, values) == Print(tokens) <==> forall k | k in Keys(tokens) :: k !in values.inherited
  {
    if tokens == [] {
    } else {
      var t, rest := tokens[0], tokens[1..];
      assert t.Placeholder? ==> t.key in Keys(tokens);
      assert forall k :: k in Keys(tokens) <==> k in Keys(rest) || (t.Placeholder? && k == t.key);
      FillsLikePrintExactly(rest, values);
      if t.Placeholder? && t.key in values.inherited {
        assert Fill(tokens, values)[0] == values.inherited[t.key][0];
        assert Print(tokens)[0] == '{';
      } else {
        assert FillOne(t, values) == PrintOne(t);
        SameTails(PrintOne(t), Fill(rest, values), Print(rest));
      }
    }
  }

  lemma SameTails(head: string, a: string, b: string)
    ensures head + a == head + b <==> a == b
  {
    assert (head + a)[|head|..] == a && (head + b)[|head|..] == b;
  }

  /** A text whose placeholders have no value of their own stays as it is exactly when none
      of them is a name that every object inherits. */
  lemma UnknownKeysUntouchedExactlyWhen(text: string, values: Values)
    requires forall k | k in ExtractPlaceholders(Some(text)) :: k !in values.own
    ensures SubstitutePlaceholders(text, values) == text
            <==> forall k | k in ExtractPlaceholders(Some(text)) :: k !in values.inherited
  {
    SubstituteFillsText(text, values);
    TokenizePrints(text);
    FillsLikePrintExactly(Tokenize(text), values);
  }

  /** With no values at all, the placeholder of an inherited name is replaced all the same. */
  lemma InheritedNamesAreFilled(key: string, inherited: Inherited)
    requires IsWord(key) && key in inherited
    ensures SubstitutePlaceholders(Quote(key), Values(map[], inherited)) == inherited[key] != Quote(key)
  {
    KeyAtExactly(Quote(key), key);
    assert Quote(key)[|Quote(key)|..] == "";
  }

  lemma ConstructorIsFilled(inherited: Inherited)
    requires "constructor" in inherited && inherited["constructor"] == "function Object() { [native code] }"
    ensures SubstitutePlaceholders("{{constructor}}", Values(map[], inherited)) == "function Object() { [native code] }"
  {
    assert "{{constructor}}" == Quote("constructor");
    InheritedNamesAreFilled("constructor", inherited);
  }

  /** Only what the table has for the keys that extraction lists matters. */
  lemma {:induction false} OnlyListedKeysMatter(tokens: seq<Token>, v: Values, w: Values)
    requires forall k | k in Keys(tokens) :: v.Find(k) == w.Find(k)
    ensures Fill(tokens, v) == Fill(tokens, w)
  {
    if tokens == [] {
    } else {
      OnlyListedKeysMatter(tokens[1..], v, w);
      assert tokens[0].Placeholder? ==> tokens[0].key in Keys(tokens);
    }
  }

  lemma SubstitutionDependsOnListedKeys(text: string, v: Values, w: Values)
    requires forall k | k in ExtractPlaceholders(Some(text)) :: v.Find(k) == w.Find(k)
    ensures SubstitutePlaceholders(text, v) == SubstitutePlaceholders(text, w)
  {
    SubstituteFillsText(text, v);
    SubstituteFillsText(text, w);
    OnlyListedKeysMatter(Tokenize(text), v, w);
  }

  // ---------------------------------------------------------------- what is left to resolve

  /** The pattern matches somewhere in the text. */
  ghost predicate Occurs(text: string) {
    text != "" && (KeyAt(text).Some? || Occurs(text[1..]))
  }

  lemma {:induction false} ListsExactlyWhenOccurs(text: string)
    ensures Keys(Tokenize(text)) != [] <==> Occurs(text)
    decreases |text|
  {
    if text == "" {
    } else if KeyAt(text).None? {
      ListsExactlyWhenOccurs(text[1..]);
    }
  }

  lemma {:induction false} OccursExactly(text: string)
    ensures Occurs(text) <==> exists i, key :: 0 <= i <= |text| && MatchesAs(text[i..], key)
    decreases |text|
  {
    if text == "" {
      assert forall key :: !MatchesAs(text[0..], key);
    } else {
      OccursExactly(text[1..]);
      assert text[0..] == text;
      assert forall i | 1 <= i <= |text| :: text[i..] == text[1..][i - 1..];
      if i, key :| 0 <= i <= |text| && MatchesAs(text[i..], key) {
        if i == 0 {
          KeyAtExactly(text, key);
        } else {
          assert MatchesAs(text[1..][i - 1..], key);
        }
      }
      if Occurs(text[1..]) {
        var i, key :| 0 <= i <= |text[1..]| && MatchesAs(text[1..][i..], key);
        assert MatchesAs(text[i + 1..], key);
      }
    }
  }

  /** Extraction lists something exactly when the pattern matches anywhere, though it goes on
      after each match only. */
  lemma NothingListedExactlyWhen(text: string)
    ensures ExtractPlaceholders(Some(text)) == []
            <==> forall i, key :: 0 <= i <= |text| ==> !MatchesAs(text[i..], key)
  {
    ListsExactlyWhenOccurs(text);
    OccursExactly(text);
  }

  ghost predicate BraceFree(s: string) {
    forall i :: 0 <= i < |s| ==> s[i] != '{' && s[i] != '}'
  }

  /** The tokens that leave something in the result. */
  function Visible(tokens: seq<Token>, values: Values): seq<Token> {
    if tokens == [] then []
    else (if FillOne(tokens[0], values) == "" then [] else [tokens[0]]) + Visible(tokens[1..], values)
  }

  predicate IsWordPart(t: Token, values: Values) {
    IsWord(FillOne(t, values))
  }

  /** Two opening braces at `i`, two closing ones at `j`, and a word between them. */
  ghost predicate FormsAt(tokens: seq<Token>, values: Values, i: nat, j: nat) {
    && i + 2 < j && j + 1 < |tokens|
    && tokens[i] == Char('{') == tokens[i + 1]
    && tokens[j] == Char('}') == tokens[j + 1]
    && forall h | i + 2 <= h < j :: IsWordPart(tokens[h], values)
  }

  ghost predicate FormsPlaceholder(tokens: seq<Token>, values: Values) {
    exists i, j :: FormsAt(tokens, values, i, j)
  }

  // -- the tokens against the filled text: every token leaves something, placeholders no brace

  ghost predicate Solid(tokens: seq<Token>, values: Values) {
    forall t | t in tokens :: FillOne(t, values) != "" && (t.Placeholder? ==> BraceFree(FillOne(t, values)))
  }

  lemma {:induction false} VisibleFills(tokens: seq<Token>, values: Values)
    ensures Fill(Visible(tokens, values), values) == Fill(tokens, values)
    ensures forall t :: t in Visible(tokens, values) <==> t in tokens && FillOne(t, values) != ""
  {
    if tokens == [] {
    } else {
      VisibleFills(tokens[1..], values);
      var first, visible := FillOne(tokens[0], values), Visible(tokens[1..], values);
      assert tokens == [tokens[0]] + tokens[1..];
      if first == "" {
        assert Visible(tokens, values) == visible;
      } else {
        assert Visible(tokens, values) == [tokens[0]] + visible;
        assert ([tokens[0]] + visible)[1..] == visible;
      }
    }
  }

  function RunLength(tokens: seq<Token>, values: Values): (n: nat)
    ensures n <= |tokens| && forall i | 0 <= i < n :: IsWordPart(tokens[i], values)
    ensures n < |tokens| ==> !IsWordPart(tokens[n], values)
  {
    if tokens != [] && IsWordPart(tokens[0], values) then 1 + RunLength(tokens[1..], values) else 0
  }

  ghost predicate ClosesAt(tokens: seq<Token>, n: nat) {
    n + 1 < |tokens| && tokens[n] == Char('}') == tokens[n + 1]
  }

  ghost predicate TextClosesAt(text: string, n: nat) {
    n + 1 < |text| && text[n] == '}' == text[n + 1]
  }

  /** The first character of the filled text is a brace exactly when the first token is. */
  lemma FirstBrace(tokens: seq<Token>, values: Values, brace: char)
    requires Solid(tokens, values) && (brace == '{' || brace == '}')
    ensures Fill(tokens, values) != "" && Fill(tokens, values)[0] == brace <==> tokens != [] && tokens[0] == Char(brace)
  {
    if tokens != [] {
      assert tokens[0] in tokens;
      assert Fill(tokens, values)[0] == FillOne(tokens[0], values)[0];
    }
  }

  lemma {:induction false} WordStops(word: string, rest: string)
    requires word != "" && !IsWord(word)
    ensures WordLength(word + rest) < |word|
  {
    if !IsWordChar(word[0]) {
    } else {
      WordStops(word[1..], rest);
      assert (word + rest)[1..] == word[1..] + rest;
    }
  }

  lemma {:induction false} RunCloses(tokens: seq<Token>, values: Values)
    requires Solid(tokens, values)
    ensures var text, n := Fill(tokens, values), RunLength(tokens, values);
            && (TextClosesAt(text, WordLength(text)) <==> ClosesAt(tokens, n))
            && (ClosesAt(tokens, n) ==> (WordLength(text) > 0 <==> n > 0))
  {
    if tokens == [] {
    } else {
      var first, rest := FillOne(tokens[0], values), tokens[1..];
      var text, tail := Fill(tokens, values), Fill(rest, values);
      assert text == first + tail && tokens[0] in tokens;
      if IsWordPart(tokens[0], values) {
        RunCloses(rest, values);
        WordExtends(first, tail);
      } else if tokens[0].Char? {
        FirstBrace(rest, values, '}');
        assert WordLength(text) == 0 && text[1..] == tail;
      } else {
        WordStops(first, tail);
      }
    }
  }

  ghost predicate FormsHere(tokens: seq<Token>, values: Values) {
    && |tokens| > 2 && tokens[0] == Char('{') == tokens[1]
    && RunLength(tokens[2..], values) > 0 && ClosesAt(tokens[2..], RunLength(tokens[2..], values))
  }

  lemma KeyAtCloses(text: string)
    requires |text| >= 2 && text[0] == '{' == text[1]
    ensures KeyAt(text).Some?
            <==> WordLength(text[2..]) > 0 && TextClosesAt(text[2..], WordLength(text[2..]))
  {
  }

  lemma MatchesExactlyWhenForms(tokens: seq<Token>, values: Values)
    requires Solid(tokens, values)
    ensures KeyAt(Fill(tokens, values)).Some? <==> FormsHere(tokens, values)
  {
    var text := Fill(tokens, values);
    FirstBrace(tokens, values, '{');
    if tokens != [] && tokens[0] == Char('{') {
      var tail := Fill(tokens[1..], values);
      assert text == ['{'] + tail;
      FirstBrace(tokens[1..], values, '{');
      if |tokens| > 1 && tokens[1] == Char('{') {
        assert tokens[1..][1..] == tokens[2..];
        assert tail == ['{'] + Fill(tokens[2..], values);
        assert text[2..] == Fill(tokens[2..], values);
        RunCloses(tokens[2..], values);
        KeyAtCloses(text);
      } else {
        assert KeyAt(text).None?;
      }
    }
  }

  lemma {:induction false} BraceFreeAdds(s: string, rest: string)
    requires BraceFree(s)
    ensures Occurs(s + rest) <==> Occurs(rest)
  {
    if s == "" {
      assert s + rest == rest;
    } else {
      BraceFreeAdds(s[1..], rest);
      assert (s + rest)[1..] == s[1..] + rest && (s + rest)[0] == s[0];
    }
  }

  lemma FormsAtShifts(tokens: seq<Token>, values: Values, i: nat, j: nat)
    requires tokens != []
    ensures FormsAt(tokens, values, i + 1, j + 1) <==> FormsAt(tokens[1..], values, i, j)
  {
    var rest := tokens[1..];
    assert forall h: nat | h < |rest| :: rest[h] == tokens[h + 1];
    if FormsAt(rest, values, i, j) {
      assert forall h | i + 3 <= h < j + 1 :: tokens[h] == rest[h - 1];
    }
  }

  /** The run of word parts ends where the placeholder closes. */
  lemma FormsHereExactly(tokens: seq<Token>, values: Values, j: nat)
    requires FormsAt(tokens, values, 0, j)
    ensures FormsHere(tokens, values)
  {
    var run := RunLength(tokens[2..], values);
    assert forall h | 0 <= h < j - 2 :: tokens[2..][h] == tokens[h + 2];
    assert tokens[2..][j - 2] == tokens[j] && !IsWordPart(tokens[j], values);
    assert run == j - 2;
  }

  lemma FormsHereForms(tokens: seq<Token>, values: Values)
    requires FormsHere(tokens, values)
    ensures FormsAt(tokens, values, 0, RunLength(tokens[2..], values) + 2)
  {
    var rest := tokens[2..];
    var run := RunLength(rest, values);
    assert tokens[run + 2] == rest[run] && tokens[run + 3] == rest[run + 1];
    forall h | 2 <= h < run + 2
      ensures IsWordPart(tokens[h], values)
    {
      assert tokens[h] == rest[h - 2];
    }
  }

  lemma FormsEarlierOrLater(tokens: seq<Token>, values: Values)
    requires tokens != []
    ensures FormsPlaceholder(tokens, values) <==> FormsHere(tokens, values) || FormsPlaceholder(tokens[1..], values)
  {
    if i: nat, j: nat :| FormsAt(tokens, values, i, j) {
      if i == 0 {
        FormsHereExactly(tokens, values, j);
      } else {
        FormsAtShifts(tokens, values, i - 1, j - 1);
      }
    }
    if FormsHere(tokens, values) {
      FormsHereForms(tokens, values);
    }
    if i: nat, j: nat :| FormsAt(tokens[1..], values, i, j) {
      FormsAtShifts(tokens, values, i, j);
    }
  }

  lemma {:induction false} OccursExactlyWhenForms(tokens: seq<Token>, values: Values)
    requires Solid(tokens, values)
    ensures Occurs(Fill(tokens, values)) <==> FormsPlaceholder(tokens, values)
  {
    if tokens == [] {
    } else {
      var text, tail := Fill(tokens, values), Fill(tokens[1..], values);
      OccursExactlyWhenForms(tokens[1..], values);
      FormsEarlierOrLater(tokens, values);
      MatchesExactlyWhenForms(tokens, values);
      assert tokens[0] in tokens;
      if tokens[0].Placeholder? {
        BraceFreeAdds(FillOne(tokens[0], values), tail);
      } else {
        assert text[1..] == tail;
      }
    }
  }

  lemma {:induction false} OccursAfter(s: string, rest: string)
    requires Occurs(rest)
    ensures Occurs(s + rest)
  {
    if s == "" {
      assert s + rest == rest;
    } else {
      OccursAfter(s[1..], rest);
      assert (s + rest)[1..] == s[1..] + rest;
    }
  }

  lemma {:induction false} UnfilledOccurs(tokens: seq<Token>, values: Values, key: string)
    requires Leftmost(tokens) && key in Keys(tokens) && values.Find(key).None?
    ensures Occurs(Fill(tokens, values))
  {
    var tail := Fill(tokens[1..], values);
    if tokens[0] == Placeholder(key) {
      assert Fill(tokens, values) == Quote(key) + tail;
      KeyAtExactly(Quote(key) + tail, key);
    } else {
      UnfilledOccurs(tokens[1..], values, key);
      OccursAfter(FillOne(tokens[0], values), tail);
    }
  }

  lemma {:induction false} TokensOfKeys(tokens: seq<Token>, t: Token)
    requires t in tokens && t.Placeholder?
    ensures t.key in Keys(tokens)
  {
    if tokens[0] == t {
    } else {
      TokensOfKeys(tokens[1..], t);
    }
  }

  const NO_VALUES := Values(map[], map[])

  /** The tokens with every filled placeholder replaced by the characters of its value. */
  function Spelled(tokens: seq<Token>, values: Values): seq<Token> {
    if tokens == [] then []
    else
      var t := tokens[0];
      (if t.Placeholder? && values.Find(t.key).Some? then Characters(values.Find(t.key).value) else [t])
      + Spelled(tokens[1..], values)
  }

  function Characters(s: string): (tokens: seq<Token>)
    ensures |tokens| == |s| && forall i :: 0 <= i < |s| ==> tokens[i] == Char(s[i])
  {
    seq(|s|, i requires 0 <= i < |s| => Char(s[i]))
  }

  lemma FillHead(t: Token, rest: seq<Token>, values: Values)
    ensures Fill([t] + rest, values) == FillOne(t, values) + Fill(rest, values)
  {
    assert ([t] + rest)[1..] == rest;
  }

  lemma {:induction false} FillJoins(some: seq<Token>, more: seq<Token>, values: Values)
    ensures Fill(some + more, values) == Fill(some, values) + Fill(more, values)
  {
    if some == [] {
      assert some + more == more;
    } else {
      FillJoins(some[1..], more, values);
      JoinOneMore(some[0], some[1..], more, values);
      assert some == [some[0]] + some[1..];
    }
  }

  lemma JoinOneMore(t: Token, rest: seq<Token>, more: seq<Token>, values: Values)
    requires Fill(rest + more, values) == Fill(rest, values) + Fill(more, values)
    ensures Fill([t] + rest + more, values) == Fill([t] + rest, values) + Fill(more, values)
  {
    Associate([t], rest, more);
    FillHead(t, rest + more, values);
    FillHead(t, rest, values);
    Associate(FillOne(t, values), Fill(rest, values), Fill(more, values));
  }

  lemma Associate<T>(a: seq<T>, b: seq<T>, c: seq<T>)
    ensures a + b + c == a + (b + c)
  {
  }

  lemma {:induction false} CharactersFill(s: string, values: Values)
    ensures Fill(Characters(s), values) == s
  {
    if s == "" {
    } else {
      CharactersFill(s[1..], values);
      assert Characters(s)[1..] == Characters(s[1..]);
    }
  }

  lemma {:induction false} SpelledFills(tokens: seq<Token>, values: Values)
    requires forall k | k in Keys(tokens) :: values.Find(k).Some?
    ensures Fill(Spelled(tokens, values), NO_VALUES) == Fill(tokens, values)
    ensures forall t :: t in Spelled(tokens, values) ==> t.Char?
  {
    if tokens == [] {
    } else {
      var t, rest := tokens[0], Spelled(tokens[1..], values);
      assert t.Placeholder? ==> t.key in Keys(tokens);
      SpelledFills(tokens[1..], values);
      var first := if t.Placeholder? then Characters(values.Find(t.key).value) else [t];
      FillJoins(first, rest, NO_VALUES);
      if t.Placeholder? {
        CharactersFill(values.Find(t.key).value, NO_VALUES);
      } else {
        assert Fill([t], NO_VALUES) == FillOne(t, NO_VALUES) + Fill([], NO_VALUES);
      }
    }
  }

  /** For any values, nothing is left to resolve exactly when every listed key has a value
      and no two opening braces, word characters and two closing braces, of the text or of
      values, come together once the placeholders are filled. */
  lemma ResolvedExactlyWhen(text: string, values: Values)
    ensures ExtractPlaceholders(Some(SubstitutePlaceholders(text, values))) == []
            <==> && (forall k | k in ExtractPlaceholders(Some(text)) :: values.Find(k).Some?)
                 && !FormsPlaceholder(Spelled(Tokenize(text), values), NO_VALUES)
  {
    var tokens, result := Tokenize(text), SubstitutePlaceholders(text, values);
    SubstituteFillsText(text, values);
    TokenizePrints(text);
    ListsExactlyWhenOccurs(result);
    if key :| key in Keys(tokens) && values.Find(key).None? {
      UnfilledOccurs(tokens, values, key);
    } else {
      SpelledFills(tokens, values);
      OccursExactlyWhenForms(Spelled(tokens, values), NO_VALUES);
    }
  }

  /** When the values have no braces, the braces have to be the text's own, and each value
      counts as a whole. */
  lemma ResolvedWithoutBraces(text: string, values: Values)
    requires forall k | k in ExtractPlaceholders(Some(text)) && values.Find(k).Some? :: BraceFree(values.Find(k).value)
    ensures ExtractPlaceholders(Some(SubstitutePlaceholders(text, values))) == []
            <==> && (forall k | k in ExtractPlaceholders(Some(text)) :: values.Find(k).Some?)
                 && !FormsPlaceholder(Visible(Tokenize(text), values), values)
  {
    var tokens, result := Tokenize(text), SubstitutePlaceholders(text, values);
    SubstituteFillsText(text, values);
    TokenizePrints(text);
    ListsExactlyWhenOccurs(result);
    if key :| key in Keys(tokens) && values.Find(key).None? {
      UnfilledOccurs(tokens, values, key);
    } else {
      VisibleFills(tokens, values);
      forall t | t in Visible(tokens, values) && t.Placeholder?
        ensures BraceFree(FillOne(t, values))
      {
        TokensOfKeys(tokens, t);
      }
      OccursExactlyWhenForms(Visible(tokens, values), values);
    }
  }

  ghost predicate NoOpeningBrace(s: string) {
    forall i :: 0 <= i < |s| ==> s[i] != '{'
  }

  lemma {:induction false} NoOpeningBraceNoMatch(text: string)
    requires NoOpeningBrace(text)
    ensures !Occurs(text)
  {
    if text == "" {
    } else {
      NoOpeningBraceNoMatch(text[1..]);
    }
  }

  lemma {:induction false} FillIsBraceFree(tokens: seq<Token>, values: Values)
    requires forall k | k in Keys(tokens) :: values.Find(k).Some? && NoOpeningBrace(values.Find(k).value)
    requires forall i :: 0 <= i < |tokens| ==> tokens[i] != Char('{')
    ensures NoOpeningBrace(Fill(tokens, values))
  {
    if tokens == [] {
    } else {
      FillIsBraceFree(tokens[1..], values);
      assert tokens[0].Placeholder? ==> tokens[0].key in Keys(tokens);
    }
  }

  /** Values may also contain closing braces, if nothing but the placeholders opens one. */
  lemma FullyResolved(text: string, values: Values)
    requires forall k | k in ExtractPlaceholders(Some(text)) ::
               values.Find(k).Some? && NoOpeningBrace(values.Find(k).value)
    requires Char('{') !in Tokenize(text)
    ensures ExtractPlaceholders(Some(SubstitutePlaceholders(text, values))) == []
  {
    SubstituteFillsText(text, values);
    FillIsBraceFree(Tokenize(text), values);
    NoOpeningBraceNoMatch(SubstitutePlaceholders(text, values));
    ListsExactlyWhenOccurs(SubstitutePlaceholders(text, values));
  }

  lemma Cons(t: Token, rest: seq<Token>, values: Values)
    ensures var tokens := [t] + rest;
            && Print(tokens) == PrintOne(t) + Print(rest)
            && Keys(tokens) == (if t.Placeholder? then [t.key] else []) + Keys(rest)
            && Fill(tokens, values)
               == FillOne(t, values) + Fill(rest, values)
    ensures t.Placeholder? && IsWord(t.key) && Leftmost(rest) ==> Leftmost([t] + rest)
    ensures t.Char? && (forall key :: !MatchesAs(PrintOne(t) + Print(rest), key)) && Leftmost(rest)
            ==> Leftmost([t] + rest)
  {
  }

  lemma OpensWithWord(text: string, key: string)
    ensures MatchesAs(text, key) ==> |text| > 2 && text[0] == '{' && text[1] == '{' && IsWordChar(text[2])
  {
  }

  /** A character that cannot open a match stands for itself. */
  lemma ConsChar(c: char, rest: seq<Token>, values: Values)
    requires Leftmost(rest)
    requires c == '{' && |Print(rest)| >= 2 ==> Print(rest)[0] != '{' || !IsWordChar(Print(rest)[1])
    ensures var tokens := [Char(c)] + rest;
            && Leftmost(tokens) && Print(tokens) == [c] + Print(rest)
            && Keys(tokens) == Keys(rest) && Fill(tokens, values) == [c] + Fill(rest, values)
  {
    Cons(Char(c), rest, values);
    forall key
      ensures !MatchesAs([c] + Print(rest), key)
    {
      OpensWithWord([c] + Print(rest), key);
    }
  }

  /** Any leftmost reading of a text gives what extraction and substitution give. */
  lemma ReadingGives(tokens: seq<Token>, text: string, values: Values)
    requires Leftmost(tokens) && Print(tokens) == text && text != ""
    ensures ExtractPlaceholders(Some(text)) == Keys(tokens)
    ensures SubstitutePlaceholders(text, values) == Fill(tokens, values)
  {
    LeftmostIsTokenize(tokens);
    SubstituteFills(tokens, values);
  }

  lemma ClosingReading(values: Values) returns (tokens: seq<Token>)
    ensures Leftmost(tokens) && Print(tokens) == "}}" && Keys(tokens) == [] && Fill(tokens, values) == "}}"
  {
    ConsChar('}', [], values);
    tokens := [Char('}')] + [];
    ConsChar('}', tokens, values);
    tokens := [Char('}')] + tokens;
  }

  lemma BraceBefore(rest: seq<Token>, values: Values) returns (tokens: seq<Token>)
    requires Leftmost(rest) && |Print(rest)| >= 2 && Print(rest)[0] == '{' == Print(rest)[1]
    ensures Leftmost(tokens) && Keys(tokens) == Keys(rest)
    ensures Print(tokens) == ['{'] + Print(rest) && Fill(tokens, values) == ['{'] + Fill(rest, values)
  {
    ConsChar('{', rest, values);
    tokens := [Char('{')] + rest;
  }

  lemma QuotedReading(key: string, values: Values) returns (tokens: seq<Token>)
    requires IsWord(key) && key in values.own
    ensures Leftmost(tokens) && Keys(tokens) == [key]
    ensures Print(tokens) == Quote(key) + "}}" && Fill(tokens, values) == values.own[key] + "}}"
  {
    var closing := ClosingReading(values);
    Cons(Placeholder(key), closing, values);
    tokens := [Placeholder(key)] + closing;
  }

  lemma NestedReading(key: string, values: Values) returns (tokens: seq<Token>)
    requires IsWord(key) && key in values.own
    ensures Leftmost(tokens) && Keys(tokens) == [key]
    ensures Print(tokens) == "{{" + (Quote(key) + "}}") && Fill(tokens, values) == "{{" + (values.own[key] + "}}")
  {
    tokens := QuotedReading(key, values);
    tokens := BraceBefore(tokens, values);
    tokens := BraceBefore(tokens, values);
    TwoBraces(Quote(key) + "}}");
    TwoBraces(values.own[key] + "}}");
  }

  lemma TwoBraces(s: string)
    ensures ['{'] + (['{'] + s) == "{{" + s
  {
  }

  /** Braces next to a placeholder can make a new one of its value: for any words,
      `{{{{key}}}}` becomes `{{word}}`. */
  lemma BracesCanFormPlaceholder(key: string, word: string, inherited: Inherited)
    requires IsWord(key) && IsWord(word)
    ensures ExtractPlaceholders(Some("{{" + Quote(key) + "}}")) == [key]
    ensures SubstitutePlaceholders("{{" + Quote(key) + "}}", Values(map[key := word], inherited)) == Quote(word)
    ensures ExtractPlaceholders(Some(Quote(word))) == [word]
  {
    var values := Values(map[key := word], inherited);
    var tokens := NestedReading(key, values);
    assert "{{" + Quote(key) + "}}" == "{{" + (Quote(key) + "}}") && Quote(word) == "{{" + (word + "}}");
    ReadingGives(tokens, "{{" + Quote(key) + "}}", values);
    Cons(Placeholder(word), [], values);
    ReadingGives([Placeholder(word)] + [], Quote(word), values);
  }
}
