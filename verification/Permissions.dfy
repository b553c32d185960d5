/** Addon permissions (apps/server/src/addons/permission.ts and proxy.ts): parsing and
    formatting, the checker, and the proxy's own scoped check. */
module Permissions {
  import opened Basics

  datatype ParsedPermission = ParsedPermission(resource: string, action: string, scope: Option<string>)

  // ---------------------------------------------------------------- the format

  predicate IsLower(c: char) {
    'a' <= c <= 'z'
  }

  predicate IsResource(s: string) {
    s != "" && IsLower(s[0]) && forall i | 0 <= i < |s| :: IsLower(s[i]) || '0' <= s[i] <= '9' || s[i] == '_'
  }

  predicate IsAction(s: string) {
    s != "" && forall i | 0 <= i < |s| :: IsLower(s[i])
  }

  /** `.+` stops at line terminators. */
  predicate IsScope(s: string) {
    s != "" && forall i | 0 <= i < |s| :: s[i] !in {'\n', '\r', '\U{2028}', '\U{2029}'}
  }

  predicate IsWellFormed(p: ParsedPermission) {
    IsResource(p.resource) && IsAction(p.action) && (p.scope.Some? ==> IsScope(p.scope.value))
  }

  function FormatPermission(resource: string, action: string, scope: Option<string>): string {
    if scope.Some? && scope.value != "" then resource + "." + action + ":" + scope.value
    else resource + "." + action
  }

  function Format(p: ParsedPermission): string {
    FormatPermission(p.resource, p.action, p.scope)
  }

  function Find(s: string, c: char): (i: Option<nat>)
    ensures i.Some? ==> i.value < |s| && s[i.value] == c && forall j :: 0 <= j < i.value ==> s[j] != c
    ensures i.None? ==> c !in s
  {
    if s == "" then None
    else if s[0] == c then Some(0)
    else
      var i := Find(s[1..], c);
      assert s == [s[0]] + s[1..];
      if i.Some? then Some(i.value + 1) else None
  }

  function ReadAction(resource: string, rest: string): ParsedPermission {
    var colon := Find(rest, ':');
    if colon.None? then ParsedPermission(resource, rest, None)
    else ParsedPermission(resource, rest[..colon.value], Some(rest[colon.value + 1..]))
  }

  /** The pattern `^([a-z][a-z0-9_]*)\.([a-z]+)(?::(.+))?$`, read off by its first dot and
      the first colon after it: neither can occur inside what precedes it. */
  function ParsePermission(permission: string): (r: Option<ParsedPermission>)
    ensures r.Some? ==> IsWellFormed(r.value)
  {
    var dot := Find(permission, '.');
    if dot.None? then None
    else
      var parsed := ReadAction(permission[..dot.value], permission[dot.value + 1..]);
      if IsWellFormed(parsed) then Some(parsed) else None
  }

  lemma FindFirst(before: string, c: char, after: string)
    requires c !in before
    ensures Find(before + [c] + after, c) == Some(|before|)
  {
    var s := before + [c] + after;
    assert s[|before|] == c;
    assert forall j | 0 <= j < |before| :: s[j] == before[j] && before[j] in before;
  }

  lemma ReadsFirstDot(resource: string, rest: string)
    requires '.' !in resource
    ensures ParsePermission(resource + "." + rest)
            == if IsWellFormed(ReadAction(resource, rest)) then Some(ReadAction(resource, rest)) else None
  {
    var text := resource + "." + rest;
    FindFirst(resource, '.', rest);
    assert text[..|resource|] == resource && text[|resource| + 1..] == rest;
  }

  lemma ReadsFirstColon(resource: string, action: string, scope: string)
    requires ':' !in action
    ensures ReadAction(resource, action + ":" + scope) == ParsedPermission(resource, action, Some(scope))
  {
    var rest := action + ":" + scope;
    FindFirst(action, ':', scope);
    assert rest[..|action|] == action && rest[|action| + 1..] == scope;
  }

  lemma FormatParses(p: ParsedPermission)
    requires IsWellFormed(p)
    ensures ParsePermission(Format(p)) == Some(p)
  {
    var rest := if p.scope.Some? then p.action + ":" + p.scope.value else p.action;
    assert Format(p) == p.resource + "." + rest;
    ReadsFirstDot(p.resource, rest);
    if p.scope.Some? {
      ReadsFirstColon(p.resource, p.action, p.scope.value);
    }
  }

  lemma SplitAt(s: string, c: char)
    requires Find(s, c).Some?
    ensures var i := Find(s, c).value; s == s[..i] + [c] + s[i + 1..]
  {
  }

  lemma ReadActionFormats(resource: string, rest: string)
    requires IsWellFormed(ReadAction(resource, rest))
    ensures Format(ReadAction(resource, rest)) == resource + "." + rest
  {
    var colon := Find(rest, ':');
    if colon.Some? {
      SplitAt(rest, ':');
      var head, action, scope := resource + ".", rest[..colon.value], rest[colon.value + 1..];
      assert head + action + ":" + scope == head + (action + ":" + scope);
    }
  }

  lemma ParseFormats(permission: string)
    requires ParsePermission(permission).Some?
    ensures Format(ParsePermission(permission).value) == permission
  {
    var dot := Find(permission, '.').value;
    SplitAt(permission, '.');
    ReadActionFormats(permission[..dot], permission[dot + 1..]);
  }

  /** Parsing and formatting are inverse: a text parses to a permission exactly when that
      permission is well-formed and formats to the text. */
  lemma ParseExactly(permission: string, p: ParsedPermission)
    ensures ParsePermission(permission) == Some(p) <==> IsWellFormed(p) && Format(p) == permission
  {
    if ParsePermission(permission) == Some(p) {
      ParseFormats(permission);
    }
    if IsWellFormed(p) {
      FormatParses(p);
    }
  }

  // ---------------------------------------------------------------- the checker

  datatype Reason = Wildcard | InvalidFormat | ResourceWildcard(resource: string) | NotGranted(permission: string)

  datatype CheckResult = CheckResult(allowed: bool, reason: Option<Reason>)

  predicate MentionsResource(granted: seq<string>, resource: string) {
    exists i | 0 <= i < |granted| ::
      ParsePermission(granted[i]).Some? && ParsePermission(granted[i]).value.resource == resource
  }

  function Check(strictMode: bool, granted: seq<string>, permission: string): CheckResult {
    if permission in granted then CheckResult(true, None)
    else if "*" in granted then CheckResult(true, Some(Wildcard))
    else
      var parsed := ParsePermission(permission);
      if parsed.None? then CheckResult(false, Some(InvalidFormat))
      else
        var p := parsed.value;
        if p.resource + ".*" in granted then CheckResult(true, Some(ResourceWildcard(p.resource + ".*")))
        else if p.resource + "." + p.action in granted then CheckResult(true, None)
        else if p.scope.Some? && p.scope.value != "" && p.resource + "." + p.action + ":" + p.scope.value in granted
        then CheckResult(true, None)
        else if strictMode then CheckResult(false, Some(NotGranted(permission)))
        else if MentionsResource(granted, p.resource) then CheckResult(true, None)
        else CheckResult(false, Some(NotGranted(permission)))
  }

  /** What a strict check allows: the permission itself, everything, everything of its
      resource, or its action on every target. The scoped branch adds nothing to these. */
  lemma StrictCheckExactly(granted: seq<string>, permission: string)
    ensures Check(true, granted, permission).allowed <==>
            || permission in granted
            || "*" in granted
            || (ParsePermission(permission).Some? &&
                var p := ParsePermission(permission).value;
                p.resource + ".*" in granted || FormatPermission(p.resource, p.action, None) in granted)
  {
    if ParsePermission(permission).Some? {
      ParseFormats(permission);
    }
  }

  ghost predicate GrantsSomeOf(granted: seq<string>, resource: string) {
    exists q :: IsWellFormed(q) && Format(q) in granted && q.resource == resource
  }

  lemma MentionsExactly(granted: seq<string>, resource: string)
    ensures MentionsResource(granted, resource) <==> GrantsSomeOf(granted, resource)
  {
    if MentionsResource(granted, resource) {
      var i :| 0 <= i < |granted| && ParsePermission(granted[i]).Some?
               && ParsePermission(granted[i]).value.resource == resource;
      ParseExactly(granted[i], ParsePermission(granted[i]).value);
      assert Format(ParsePermission(granted[i]).value) in granted;
    }
    if q :| IsWellFormed(q) && Format(q) in granted && q.resource == resource {
      ParseExactly(Format(q), q);
      var i :| 0 <= i < |granted| && granted[i] == Format(q);
      assert ParsePermission(granted[i]) == Some(q);
    }
  }

  lemma ModesDiffer(granted: seq<string>, permission: string)
    ensures Check(false, granted, permission).allowed <==>
            || Check(true, granted, permission).allowed
            || (ParsePermission(permission).Some?
                && MentionsResource(granted, ParsePermission(permission).value.resource))
  {
  }

  /** What a check that is not strict allows besides: any permission of a resource of which
      some permission is granted. */
  lemma LenientCheckExactly(granted: seq<string>, permission: string)
    ensures Check(false, granted, permission).allowed <==>
            || Check(true, granted, permission).allowed
            || exists p :: IsWellFormed(p) && Format(p) == permission && GrantsSomeOf(granted, p.resource)
  {
    ModesDiffer(granted, permission);
    var parsed := ParsePermission(permission);
    if parsed.Some? {
      ParseExactly(permission, parsed.value);
      MentionsExactly(granted, parsed.value.resource);
    }
    if p :| IsWellFormed(p) && Format(p) == permission && GrantsSomeOf(granted, p.resource) {
      ParseExactly(permission, p);
      assert parsed == Some(p);
    }
  }

  /** The reasons given: which wildcard let the permission through, or why nothing did. */
  lemma ReasonsExactly(strictMode: bool, granted: seq<string>, permission: string)
    ensures var result, parsed := Check(strictMode, granted, permission), ParsePermission(permission);
            && (result.reason == Some(Wildcard) <==> permission !in granted && "*" in granted)
            && (result.reason.Some? && result.reason.value.ResourceWildcard?
                <==> && permission !in granted && "*" !in granted
                     && parsed.Some? && parsed.value.resource + ".*" in granted)
            && (result.reason.Some? && result.reason.value.ResourceWildcard?
                ==> result.reason.value.resource == parsed.value.resource + ".*")
            && (!result.allowed ==>
                  result.reason == Some(if parsed.None? then InvalidFormat else NotGranted(permission)))
            && (result.allowed ==> result.reason.None? || result.reason.value.Wildcard?
                                   || result.reason.value.ResourceWildcard?)
  {
  }

  /** Granting more never revokes, in either mode. */
  lemma GrantingMoreNeverRevokes(strictMode: bool, granted: seq<string>, more: seq<string>, permission: string)
    requires forall g :: g in granted ==> g in more
    requires Check(strictMode, granted, permission).allowed
    ensures Check(strictMode, more, permission).allowed
  {
    var parsed := ParsePermission(permission);
    if parsed.Some? && MentionsResource(granted, parsed.value.resource) {
      var i :| 0 <= i < |granted| && ParsePermission(granted[i]).Some?
               && ParsePermission(granted[i]).value.resource == parsed.value.resource;
      assert granted[i] in more;
      var j :| 0 <= j < |more| && more[j] == granted[i];
      assert MentionsResource(more, parsed.value.resource);
    }
    if parsed.Some? {
      ParseFormats(permission);
    }
  }

  function Denied(strictMode: bool, granted: seq<string>, permissions: seq<string>): (missing: seq<string>)
    ensures forall p :: p in missing <==> p in permissions && !Check(strictMode, granted, p).allowed
  {
    if permissions == [] then []
    else
      var rest, last := Denied(strictMode, granted, permissions[..|permissions| - 1]), permissions[|permissions| - 1];
      assert permissions == permissions[..|permissions| - 1] + [last];
      if Check(strictMode, granted, last).allowed then rest else rest + [last]
  }

  method CheckAll(strictMode: bool, granted: seq<string>, permissions: seq<string>)
    returns (allowed: bool, missing: seq<string>)
    ensures missing == Denied(strictMode, granted, permissions)
    ensures allowed <==> forall p :: p in permissions ==> Check(strictMode, granted, p).allowed
  {
    missing := [];
    for i := 0 to |permissions|
      invariant missing == Denied(strictMode, granted, permissions[..i])
    {
      assert permissions[..i + 1][..i] == permissions[..i];
      if !Check(strictMode, granted, permissions[i]).allowed {
        missing := missing + [permissions[i]];
      }
    }
    assert permissions[..|permissions|] == permissions;
    allowed := |missing| == 0;
    assert missing != [] ==> missing[0] in missing;
  }

  // ---------------------------------------------------------------- the proxy's check

  /** `split('.')[0]` */
  function Namespace(basePermission: string): string {
    var dot := Find(basePermission, '.');
    if dot.Some? then basePermission[..dot.value] else basePermission
  }

  predicate HasScopedAccess(granted: seq<string>, basePermission: string, targetId: string) {
    || basePermission in granted
    || Namespace(basePermission) + ".*" in granted
    || "*" in granted
    || basePermission + ":" + targetId in granted
  }

  lemma ScopedParses(base: ParsedPermission, target: string)
    requires IsWellFormed(base) && base.scope == None
    ensures ParsePermission(Format(base) + ":" + target)
            == if IsScope(target) then Some(base.(scope := Some(target))) else None
  {
    assert Format(base) + ":" + target == base.resource + "." + (base.action + ":" + target);
    ReadsFirstDot(base.resource, base.action + ":" + target);
    ReadsFirstColon(base.resource, base.action, target);
  }

  lemma NamespaceIsResource(base: ParsedPermission)
    requires IsWellFormed(base)
    ensures Namespace(Format(base)) == base.resource
  {
    var rest := if base.scope.Some? then base.action + ":" + base.scope.value else base.action;
    assert Format(base) == base.resource + "." + rest;
    assert '.' !in base.resource;
    FindFirst(base.resource, '.', rest);
    assert Format(base)[..|base.resource|] == base.resource;
  }

  /** For every grant list and every well-formed base permission, the proxy's scoped check
      and the strict checker decide alike exactly when the target can be a scope, or the
      permission or everything is granted outright, or nothing unscoped is granted at all. */
  lemma ScopedAccessAgreesExactlyWhen(granted: seq<string>, base: ParsedPermission, target: string)
    requires IsWellFormed(base) && base.scope == None
    ensures var text := Format(base) + ":" + target;
            (HasScopedAccess(granted, Format(base), target) <==> Check(true, granted, text).allowed)
            <==>
            || IsScope(target)
            || text in granted || "*" in granted
            || (Format(base) !in granted && base.resource + ".*" !in granted)
  {
    var text := Format(base) + ":" + target;
    NamespaceIsResource(base);
    ScopedParses(base, target);
    StrictCheckExactly(granted, text);
  }

  const AGENTS_INVOKE := ParsedPermission("agents", "invoke", None)
  const WORKSPACE_WRITE := ParsedPermission("workspace", "write", None)

  predicate HasAgentAccess(granted: seq<string>, agentId: string) {
    HasScopedAccess(granted, "agents.invoke", agentId)
  }

  predicate HasWorkspaceAccess(granted: seq<string>, agentId: string) {
    HasScopedAccess(granted, "workspace.write", agentId)
  }

  lemma AgentsInvokeFormat()
    ensures IsWellFormed(AGENTS_INVOKE) && Format(AGENTS_INVOKE) == "agents.invoke"
  {
  }

  lemma WorkspaceWriteFormat()
    ensures IsWellFormed(WORKSPACE_WRITE) && Format(WORKSPACE_WRITE) == "workspace.write"
  {
  }

  /** Agent access is the strict check of the scoped permission, for every agent id that can
      be a scope. */
  lemma AgentAccessIsStrictCheck(granted: seq<string>, agentId: string)
    requires IsScope(agentId)
    ensures HasAgentAccess(granted, agentId) <==> Check(true, granted, Format(AGENTS_INVOKE) + ":" + agentId).allowed
  {
    AgentsInvokeFormat();
    ScopedAccessAgreesExactlyWhen(granted, AGENTS_INVOKE, agentId);
  }

  lemma WorkspaceAccessIsStrictCheck(granted: seq<string>, agentId: string)
    requires IsScope(agentId)
    ensures HasWorkspaceAccess(granted, agentId)
            <==> Check(true, granted, Format(WORKSPACE_WRITE) + ":" + agentId).allowed
  {
    WorkspaceWriteFormat();
    ScopedAccessAgreesExactlyWhen(granted, WORKSPACE_WRITE, agentId);
  }
}
