/** The cross-reference check of the application configuration
    (packages/config/src/app-config.ts, the `superRefine` body of `appConfigSchema`). */
module AppConfig {
  import opened Basics

  datatype Model = Model(id: string, enabled: Option<bool>)
  datatype Provider = Provider(id: string, models: seq<Model>, defaultModel: Option<string>)
  datatype Agent = Agent(id: string, enabled: bool, model: Option<string>)
  datatype Defaults = Defaults(providerId: Option<string>, modelId: Option<string>, agentId: string)

  /** Of MCP servers and channels only the ids are looked at. */
  datatype Config = Config(
    defaults: Defaults,
    providers: seq<Provider>,
    agents: seq<Agent>,
    mcpServers: Option<seq<string>>,
    channels: Option<seq<string>>)

  /** One constructor per wording, with the position in the issue's path. */
  datatype Issue =
    | DuplicateProvider(provider: nat)
    | DuplicateModel(provider: nat, model: nat)
    | UndefinedDefaultModel(provider: nat)
    | DisabledDefaultModel(provider: nat)
    | DuplicateAgent(agent: nat)
    | ModelFormat(agent: nat)
    | UnknownProvider(agent: nat)
    | UnknownModel(agent: nat)
    | DisabledModel(agent: nat)
    | DefaultProviderRequired
    | DefaultModelRequired
    | UnknownDefaultProvider
    | UnknownDefaultModel
    | DefaultDisabled
    | UnknownDefaultAgent
    | NoEnabledAgent
    | DuplicateMcpServer(server: nat)
    | DuplicateChannel(channel: nat)

  // ---------------------------------------------------------------- lookups

  predicate Enabled(m: Model) {
    m.enabled != Some(false)
  }

  function ModelIds(models: seq<Model>): set<string> {
    set m | m in models :: m.id
  }

  function EnabledIds(models: seq<Model>): set<string> {
    set m | m in models && Enabled(m) :: m.id
  }

  /** A map filled in a loop keeps the last provider of each id. */
  function Lookup(providers: seq<Provider>, id: string): (p: Option<Provider>)
    ensures p.Some? ==> p.value in providers && p.value.id == id
    ensures p.None? ==> forall q :: q in providers ==> q.id != id
  {
    if providers == [] then None
    else if providers[|providers| - 1].id == id then Some(providers[|providers| - 1])
    else
      assert providers == providers[..|providers| - 1] + [providers[|providers| - 1]];
      Lookup(providers[..|providers| - 1], id)
  }

  /** `split('/')` when it yields exactly two parts. */
  function SplitModel(text: string): (parts: Option<(string, string)>)
    ensures parts.Some? ==>
              && text == parts.value.0 + "/" + parts.value.1
              && '/' !in parts.value.0 && '/' !in parts.value.1
    ensures parts.None? ==> forall p, m :: '/' !in p && '/' !in m ==> text != p + "/" + m
  {
    var i := FindSlash(text);
    if i.None? then
      assert forall p: string, m: string :: (p + "/" + m)[|p|] == '/';
      None
    else
      var p, m := text[..i.value], text[i.value + 1..];
      assert text == p + "/" + m;
      if '/' in m then
        OneSlash(text, i.value);
        None
      else Some((p, m))
  }

  function FindSlash(text: string): (i: Option<nat>)
    ensures i.Some? ==> i.value < |text| && text[i.value] == '/' && '/' !in text[..i.value]
    ensures i.None? ==> '/' !in text
  {
    if text == "" then None
    else if text[0] == '/' then Some(0)
    else
      var i := FindSlash(text[1..]);
      assert text == [text[0]] + text[1..];
      assert i.Some? ==> text[..i.value + 1] == [text[0]] + text[1..][..i.value];
      if i.Some? then Some(i.value + 1) else None
  }

  lemma OneSlash(text: string, i: nat)
    requires i < |text| && text[i] == '/' && '/' !in text[..i] && '/' in text[i + 1..]
    ensures forall p, m :: '/' !in p && '/' !in m ==> text != p + "/" + m
  {
  }

  // ---------------------------------------------------------------- what each issue claims

  ghost predicate Repeats(ids: seq<string>, i: nat) {
    i < |ids| && exists j :: 0 <= j < i && ids[j] == ids[i]
  }

  function ProviderIds(c: Config): seq<string> {
    seq(|c.providers|, i requires 0 <= i < |c.providers| => c.providers[i].id)
  }

  function ModelIdList(p: Provider): seq<string> {
    seq(|p.models|, i requires 0 <= i < |p.models| => p.models[i].id)
  }

  function AgentIds(c: Config): seq<string> {
    seq(|c.agents|, i requires 0 <= i < |c.agents| => c.agents[i].id)
  }

  ghost predicate HasDefault(p: Provider) {
    p.defaultModel.Some? && p.defaultModel.value != ""
  }

  /** The parts of an agent's model, when it has one of the right form. */
  ghost function PartsOf(a: Agent): Option<(string, string)> {
    if a.model.None? then None else SplitModel(a.model.value)
  }

  ghost predicate DefaultsSet(c: Config) {
    c.defaults.providerId.Some? && c.defaults.modelId.Some?
  }

  ghost function DefaultProvider(c: Config): Option<Provider> {
    if c.defaults.providerId.None? then None else Lookup(c.providers, c.defaults.providerId.value)
  }

  ghost predicate Wrong(c: Config, e: Issue) {
    match e
    case DuplicateProvider(i) => Repeats(ProviderIds(c), i)
    case DuplicateModel(i, j) => i < |c.providers| && Repeats(ModelIdList(c.providers[i]), j)
    case UndefinedDefaultModel(i) => i < |c.providers| && ProviderWrong(c.providers[i], false)
    case DisabledDefaultModel(i) => i < |c.providers| && ProviderWrong(c.providers[i], true)
    case DuplicateAgent(i) => Repeats(AgentIds(c), i)
    case ModelFormat(i) => i < |c.agents| && c.agents[i].model.Some? && PartsOf(c.agents[i]).None?
    case UnknownProvider(i) =>
      i < |c.agents| && PartsOf(c.agents[i]).Some? && Lookup(c.providers, PartsOf(c.agents[i]).value.0).None?
    case UnknownModel(i) => i < |c.agents| && AgentWrong(c, c.agents[i], false)
    case DisabledModel(i) => i < |c.agents| && AgentWrong(c, c.agents[i], true)
    case DefaultProviderRequired => c.defaults.providerId.None? && c.defaults.modelId.Some?
    case DefaultModelRequired => c.defaults.providerId.Some? && c.defaults.modelId.None?
    case UnknownDefaultProvider => DefaultsSet(c) && DefaultProvider(c).None?
    case UnknownDefaultModel =>
      DefaultsSet(c)
      && (DefaultProvider(c).Some? ==> c.defaults.modelId.value !in ModelIds(DefaultProvider(c).value.models))
    case DefaultDisabled =>
      && DefaultsSet(c) && DefaultProvider(c).Some?
      && c.defaults.modelId.value in ModelIds(DefaultProvider(c).value.models)
      && c.defaults.modelId.value !in EnabledIds(DefaultProvider(c).value.models)
    case UnknownDefaultAgent => c.defaults.agentId !in AgentIds(c)
    case NoEnabledAgent => forall i :: 0 <= i < |c.agents| ==> !c.agents[i].enabled
    case DuplicateMcpServer(i) => c.mcpServers.Some? && Repeats(c.mcpServers.value, i)
    case DuplicateChannel(i) => c.channels.Some? && Repeats(c.channels.value, i)
  }

  /** The default model is not there, or there but disabled. */
  ghost predicate ProviderWrong(p: Provider, known: bool) {
    && HasDefault(p)
    && (p.defaultModel.value in ModelIds(p.models) <==> known)
    && p.defaultModel.value !in EnabledIds(p.models)
  }

  ghost predicate AgentWrong(c: Config, a: Agent, known: bool) {
    PartsOf(a).Some? &&
    var (providerId, modelId) := PartsOf(a).value;
    var p := Lookup(c.providers, providerId);
    p.Some? && (modelId in ModelIds(p.value.models) <==> known) && modelId !in EnabledIds(p.value.models)
  }

  // ---------------------------------------------------------------- the one-pass check

  type Table = map<string, set<string>>

  ghost predicate Tabulates(providers: seq<Provider>, ids: set<string>, models: Table, enabled: Table) {
    && (forall id :: id in ids <==> Lookup(providers, id).Some?)
    && models.Keys == ids && enabled.Keys == ids
    && (forall id :: id in ids ==> models[id] == ModelIds(Lookup(providers, id).value.models))
    && (forall id :: id in ids ==> enabled[id] == EnabledIds(Lookup(providers, id).value.models))
  }

  function Seen(ids: seq<string>, n: nat): set<string>
    requires n <= |ids|
  {
    set h | 0 <= h < n :: ids[h]
  }

  lemma SeenExactly(ids: seq<string>, i: nat)
    requires i < |ids|
    ensures ids[i] in Seen(ids, i) <==> Repeats(ids, i)
    ensures Seen(ids, i + 1) == Seen(ids, i) + {ids[i]}
  {
  }

  lemma AllModelIdsSeen(p: Provider)
    ensures Seen(ModelIdList(p), |p.models|) == ModelIds(p.models)
  {
    var ids := ModelIdList(p);
    forall id
      ensures id in Seen(ids, |p.models|) <==> id in ModelIds(p.models)
    {
      if id in Seen(ids, |p.models|) {
        var h :| 0 <= h < |ids| && ids[h] == id;
        assert p.models[h] in p.models;
      }
      if id in ModelIds(p.models) {
        var m :| m in p.models && m.id == id;
        var h :| 0 <= h < |p.models| && p.models[h] == m;
        assert ids[h] == id;
      }
    }
  }

  method CheckModels(c: Config, i: nat)
    returns (issues: seq<Issue>, modelIds: set<string>, enabledModelIds: set<string>)
    requires i < |c.providers|
    ensures forall e :: e in issues <==> e.DuplicateModel? && e.provider == i && Wrong(c, e)
    ensures modelIds == ModelIds(c.providers[i].models) && enabledModelIds == EnabledIds(c.providers[i].models)
  {
    issues, modelIds, enabledModelIds := [], {}, {};
    var models := c.providers[i].models;
    ghost var ids := ModelIdList(c.providers[i]);
    for j := 0 to |models|
      invariant forall e :: e in issues <==> e.DuplicateModel? && e.provider == i && e.model < j && Wrong(c, e)
      invariant modelIds == Seen(ids, j)
      invariant enabledModelIds == set h | 0 <= h < j && Enabled(models[h]) :: models[h].id
    {
      SeenExactly(ids, j);
      if models[j].id in modelIds {
        issues := issues + [DuplicateModel(i, j)];
      }
      modelIds := modelIds + {models[j].id};
      if models[j].enabled != Some(false) {
        enabledModelIds := enabledModelIds + {models[j].id};
      }
    }
    AllModelIdsSeen(c.providers[i]);
  }

  ghost predicate AboutProvider(e: Issue) {
    e.DuplicateProvider? || e.DuplicateModel? || e.UndefinedDefaultModel? || e.DisabledDefaultModel?
  }

  method CheckProvider(c: Config, i: nat, seen: bool)
    returns (issues: seq<Issue>, modelIds: set<string>, enabledModelIds: set<string>)
    requires i < |c.providers| && (seen <==> Repeats(ProviderIds(c), i))
    ensures forall e :: e in issues <==> AboutProvider(e) && e.provider == i && Wrong(c, e)
    ensures modelIds == ModelIds(c.providers[i].models) && enabledModelIds == EnabledIds(c.providers[i].models)
  {
    var provider := c.providers[i];
    issues, modelIds, enabledModelIds := CheckModels(c, i);
    if seen {
      issues := [DuplicateProvider(i)] + issues;
    }
    if provider.defaultModel.Some? && provider.defaultModel.value != "" {
      if provider.defaultModel.value !in modelIds {
        EnabledAreModels(provider.models);
        issues := issues + [UndefinedDefaultModel(i)];
      } else if provider.defaultModel.value !in enabledModelIds {
        issues := issues + [DisabledDefaultModel(i)];
      }
    }
  }

  lemma EnabledAreModels(models: seq<Model>)
    ensures EnabledIds(models) <= ModelIds(models)
  {
  }

  lemma LookupOneMore(providers: seq<Provider>, i: nat, id: string)
    requires i < |providers|
    ensures Lookup(providers[..i + 1], id)
         == if providers[i].id == id then Some(providers[i]) else Lookup(providers[..i], id)
  {
    assert providers[..i + 1][..i] == providers[..i];
  }

  lemma TabulateOne(c: Config, i: nat, ids: set<string>, models: Table, enabled: Table)
    requires i < |c.providers| && Tabulates(c.providers[..i], ids, models, enabled)
    ensures var p := c.providers[i];
            Tabulates(c.providers[..i + 1], ids + {p.id}, models[p.id := ModelIds(p.models)],
                      enabled[p.id := EnabledIds(p.models)])
  {
    forall id
      ensures Lookup(c.providers[..i + 1], id)
              == if c.providers[i].id == id then Some(c.providers[i]) else Lookup(c.providers[..i], id)
    {
      LookupOneMore(c.providers, i, id);
    }
  }

  method CheckProviders(c: Config) returns (issues: seq<Issue>, ids: set<string>, models: Table, enabled: Table)
    ensures forall e :: e in issues <==> AboutProvider(e) && Wrong(c, e)
    ensures Tabulates(c.providers, ids, models, enabled)
  {
    issues, ids, models, enabled := [], {}, map[], map[];
    for i := 0 to |c.providers|
      invariant forall e :: e in issues <==> AboutProvider(e) && e.provider < i && Wrong(c, e)
      invariant Tabulates(c.providers[..i], ids, models, enabled)
    {
      var provider := c.providers[i];
      SeenProviders(c, i);
      TabulateOne(c, i, ids, models, enabled);
      var here, modelIds, enabledModelIds := CheckProvider(c, i, provider.id in ids);
      ids := ids + {provider.id};
      models, enabled := models[provider.id := modelIds], enabled[provider.id := enabledModelIds];
      issues := issues + here;
    }
    assert c.providers[..|c.providers|] == c.providers;
  }

  lemma SeenProviders(c: Config, i: nat)
    requires i < |c.providers|
    ensures Lookup(c.providers[..i], c.providers[i].id).Some? <==> Repeats(ProviderIds(c), i)
  {
    if Repeats(ProviderIds(c), i) {
      var j :| 0 <= j < i && ProviderIds(c)[j] == ProviderIds(c)[i];
      assert c.providers[..i][j] in c.providers[..i];
    }
    if Lookup(c.providers[..i], c.providers[i].id).Some? {
      var p := Lookup(c.providers[..i], c.providers[i].id).value;
      var j :| 0 <= j < i && c.providers[..i][j] == p;
      assert ProviderIds(c)[j] == ProviderIds(c)[i];
    }
  }

  ghost predicate AboutAgent(e: Issue) {
    e.DuplicateAgent? || e.ModelFormat? || e.UnknownProvider? || e.UnknownModel? || e.DisabledModel?
  }

  method CheckAgentModel(c: Config, i: nat, ids: set<string>, models: Table, enabled: Table)
    returns (issues: seq<Issue>)
    requires i < |c.agents| && Tabulates(c.providers, ids, models, enabled)
    ensures forall e :: e in issues <==> AboutAgent(e) && !e.DuplicateAgent? && e.agent == i && Wrong(c, e)
  {
    issues := [];
    if c.agents[i].model.None? {
      return;
    }
    var parts := SplitModel(c.agents[i].model.value);
    if parts.None? {
      issues := [ModelFormat(i)];
    } else if parts.value.0 !in ids {
      issues := [UnknownProvider(i)];
    } else if parts.value.1 !in models[parts.value.0] {
      issues := [UnknownModel(i)];
    } else if parts.value.1 !in enabled[parts.value.0] {
      issues := [DisabledModel(i)];
    }
  }

  method CheckAgents(c: Config, ids: set<string>, models: Table, enabled: Table)
    returns (issues: seq<Issue>, agentIds: set<string>, enabledAgentIds: set<string>)
    requires Tabulates(c.providers, ids, models, enabled)
    ensures forall e :: e in issues <==> AboutAgent(e) && Wrong(c, e)
    ensures forall id :: id in agentIds <==> id in AgentIds(c)
    ensures enabledAgentIds == {} <==> Wrong(c, NoEnabledAgent)
  {
    issues, agentIds, enabledAgentIds := [], {}, {};
    for i := 0 to |c.agents|
      invariant forall e :: e in issues <==> AboutAgent(e) && e.agent < i && Wrong(c, e)
      invariant agentIds == Seen(AgentIds(c), i)
      invariant enabledAgentIds == set h | 0 <= h < i && c.agents[h].enabled :: c.agents[h].id
    {
      SeenExactly(AgentIds(c), i);
      var here: seq<Issue> := if c.agents[i].id in agentIds then [DuplicateAgent(i)] else [];
      agentIds := agentIds + {c.agents[i].id};
      if c.agents[i].enabled {
        enabledAgentIds := enabledAgentIds + {c.agents[i].id};
      }
      var modelIssues := CheckAgentModel(c, i, ids, models, enabled);
      issues := issues + here + modelIssues;
    }
    forall i | 0 <= i < |c.agents| && c.agents[i].enabled
      ensures enabledAgentIds != {}
    {
      assert c.agents[i].id in enabledAgentIds;
    }
    forall id
      ensures id in agentIds <==> id in AgentIds(c)
    {
    }
  }

  ghost predicate AboutDefaults(e: Issue) {
    || e.DefaultProviderRequired? || e.DefaultModelRequired? || e.UnknownDefaultProvider?
    || e.UnknownDefaultModel? || e.DefaultDisabled?
  }

  method CheckDefaults(c: Config, ids: set<string>, models: Table, enabled: Table) returns (issues: seq<Issue>)
    requires Tabulates(c.providers, ids, models, enabled)
    ensures forall e :: e in issues <==> AboutDefaults(e) && Wrong(c, e)
  {
    issues := [];
    var providerId, modelId := c.defaults.providerId, c.defaults.modelId;
    if providerId.None? && modelId.None? {
      return;
    }
    if providerId.None? {
      issues := [DefaultProviderRequired];
    } else if modelId.None? {
      issues := [DefaultModelRequired];
    } else {
      if providerId.value !in ids {
        issues := [UnknownDefaultProvider];
      }
      if providerId.value !in models || modelId.value !in models[providerId.value] {
        issues := issues + [UnknownDefaultModel];
      } else if modelId.value !in enabled[providerId.value] {
        issues := issues + [DefaultDisabled];
      }
    }
  }

  method FindRepeats(ids: seq<string>) returns (repeats: seq<nat>)
    ensures forall i: nat :: i in repeats <==> Repeats(ids, i)
  {
    repeats := [];
    var seen: set<string> := {};
    for i := 0 to |ids|
      invariant forall j: nat :: j in repeats <==> j < i && Repeats(ids, j)
      invariant seen == Seen(ids, i)
    {
      SeenExactly(ids, i);
      if ids[i] in seen {
        repeats := repeats + [i];
      }
      seen := seen + {ids[i]};
    }
  }

  method CheckLists(c: Config) returns (issues: seq<Issue>)
    ensures forall e :: e in issues <==> (e.DuplicateMcpServer? || e.DuplicateChannel?) && Wrong(c, e)
  {
    issues := [];
    if c.mcpServers.Some? {
      var repeats := FindRepeats(c.mcpServers.value);
      issues := seq(|repeats|, i requires 0 <= i < |repeats| => DuplicateMcpServer(repeats[i]));
      assert forall i: nat :: DuplicateMcpServer(i) in issues <==> i in repeats by {
        forall i: nat
          ensures DuplicateMcpServer(i) in issues <==> i in repeats
        {
          if i in repeats {
            var h :| 0 <= h < |repeats| && repeats[h] == i;
            assert issues[h] == DuplicateMcpServer(i);
          }
        }
      }
    }
    if c.channels.Some? {
      var repeats := FindRepeats(c.channels.value);
      var more := seq(|repeats|, i requires 0 <= i < |repeats| => DuplicateChannel(repeats[i]));
      assert forall i: nat :: DuplicateChannel(i) in more <==> i in repeats by {
        forall i: nat
          ensures DuplicateChannel(i) in more <==> i in repeats
        {
          if i in repeats {
            var h :| 0 <= h < |repeats| && repeats[h] == i;
            assert more[h] == DuplicateChannel(i);
          }
        }
      }
      issues := issues + more;
    }
  }

  /** Reports exactly the issues that hold, and none exactly when every reference resolves. */
  method SuperRefine(c: Config) returns (issues: seq<Issue>)
    ensures forall e :: e in issues <==> Wrong(c, e)
    ensures issues == [] <==> Integrity(c)
  {
    var ids, models, enabled, agentIds, enabledAgentIds;
    var more: seq<Issue>;
    issues, ids, models, enabled := CheckProviders(c);
    more, agentIds, enabledAgentIds := CheckAgents(c, ids, models, enabled);
    issues := issues + more;
    more := CheckDefaults(c, ids, models, enabled);
    issues := issues + more;
    if c.defaults.agentId !in agentIds {
      issues := issues + [UnknownDefaultAgent];
    }
    if |enabledAgentIds| == 0 {
      issues := issues + [NoEnabledAgent];
    }
    more := CheckLists(c);
    issues := issues + more;
    NothingWrongExactlyWhen(c);
    assert issues != [] ==> issues[0] in issues;
  }

  // ---------------------------------------------------------------- referential integrity

  ghost predicate AllDifferent(ids: seq<string>) {
    forall i, j :: 0 <= i < j < |ids| ==> ids[i] != ids[j]
  }

  /** Some provider has an enabled model of that id. */
  ghost predicate Offers(c: Config, providerId: string, modelId: string) {
    exists i, j :: 0 <= i < |c.providers| && 0 <= j < |c.providers[i].models| &&
      c.providers[i].id == providerId && c.providers[i].models[j].id == modelId && Enabled(c.providers[i].models[j])
  }

  ghost predicate Resolves(c: Config, text: string) {
    exists p, m :: text == p + "/" + m && '/' !in p && '/' !in m && Offers(c, p, m)
  }

  /** Model ids differ, and the default model, if any, is one of them and enabled. */
  ghost predicate ProviderIntact(p: Provider) {
    && AllDifferent(ModelIdList(p))
    && (HasDefault(p) ==> exists m :: m in p.models && m.id == p.defaultModel.value && Enabled(m))
  }

  ghost predicate AgentIntact(c: Config, a: Agent) {
    a.model.Some? ==> Resolves(c, a.model.value)
  }

  /** Both set, to an enabled model of an existing provider, or both absent. */
  ghost predicate DefaultsIntact(c: Config) {
    && (c.defaults.providerId.Some? <==> c.defaults.modelId.Some?)
    && (DefaultsSet(c) ==> Offers(c, c.defaults.providerId.value, c.defaults.modelId.value))
  }

  /** The default agent exists, though it may be disabled, and some agent is enabled. */
  ghost predicate AgentIdsIntact(c: Config) {
    && AllDifferent(AgentIds(c))
    && (exists a :: a in c.agents && a.id == c.defaults.agentId)
    && (exists a :: a in c.agents && a.enabled)
  }

  ghost predicate ListsIntact(c: Config) {
    && (c.mcpServers.Some? ==> AllDifferent(c.mcpServers.value))
    && (c.channels.Some? ==> AllDifferent(c.channels.value))
  }

  ghost predicate Integrity(c: Config) {
    && AllDifferent(ProviderIds(c))
    && (forall p :: p in c.providers ==> ProviderIntact(p))
    && (forall a :: a in c.agents ==> AgentIntact(c, a))
    && DefaultsIntact(c) && AgentIdsIntact(c) && ListsIntact(c)
  }

  lemma NoRepeatsExactly(ids: seq<string>)
    ensures (forall i: nat :: !Repeats(ids, i)) <==> AllDifferent(ids)
  {
    if forall i: nat :: !Repeats(ids, i) {
      forall i, j | 0 <= i < j < |ids|
        ensures ids[i] != ids[j]
      {
        assert !Repeats(ids, j);
      }
    }
  }

  /** With distinct provider ids, looking one up leaves no choice. */
  lemma OffersExactly(c: Config, providerId: string, modelId: string)
    requires AllDifferent(ProviderIds(c))
    ensures Offers(c, providerId, modelId) <==>
            Lookup(c.providers, providerId).Some? && modelId in EnabledIds(Lookup(c.providers, providerId).value.models)
  {
    var found := Lookup(c.providers, providerId);
    if Offers(c, providerId, modelId) {
      var i, j :| 0 <= i < |c.providers| && 0 <= j < |c.providers[i].models| &&
        c.providers[i].id == providerId && c.providers[i].models[j].id == modelId && Enabled(c.providers[i].models[j]);
      assert c.providers[i] in c.providers;
      var h :| 0 <= h < |c.providers| && c.providers[h] == found.value;
      assert ProviderIds(c)[h] == ProviderIds(c)[i];
      assert h == i;
    }
    if found.Some? && modelId in EnabledIds(found.value.models) {
      var i :| 0 <= i < |c.providers| && c.providers[i] == found.value;
      var m :| m in found.value.models && Enabled(m) && m.id == modelId;
      var j :| 0 <= j < |found.value.models| && found.value.models[j] == m;
      assert c.providers[i].models[j] == m;
    }
  }

  ghost predicate ProviderFine(c: Config, i: nat)
    requires i < |c.providers|
  {
    && (forall j: nat :: !Wrong(c, DuplicateModel(i, j)))
    && !Wrong(c, UndefinedDefaultModel(i)) && !Wrong(c, DisabledDefaultModel(i))
  }

  lemma ProviderFineExactly(c: Config, i: nat)
    requires i < |c.providers|
    ensures ProviderFine(c, i) <==> ProviderIntact(c.providers[i])
  {
    var p := c.providers[i];
    NoRepeatsExactly(ModelIdList(p));
    EnabledAreModels(p.models);
    assert (forall j: nat :: !Wrong(c, DuplicateModel(i, j))) <==> forall j: nat :: !Repeats(ModelIdList(p), j) by {
      assert forall j: nat :: Wrong(c, DuplicateModel(i, j)) <==> Repeats(ModelIdList(p), j);
    }
  }

  ghost predicate AgentFine(c: Config, i: nat)
    requires i < |c.agents|
  {
    && !Wrong(c, ModelFormat(i)) && !Wrong(c, UnknownProvider(i))
    && !Wrong(c, UnknownModel(i)) && !Wrong(c, DisabledModel(i))
  }

  lemma AgentFineExactly(c: Config, i: nat)
    requires i < |c.agents| && AllDifferent(ProviderIds(c))
    ensures AgentFine(c, i) <==> AgentIntact(c, c.agents[i])
  {
    var a := c.agents[i];
    if a.model.Some? {
      var parts := SplitModel(a.model.value);
      if parts.Some? {
        var (p, m) := parts.value;
        OffersExactly(c, p, m);
        if Lookup(c.providers, p).Some? {
          EnabledAreModels(Lookup(c.providers, p).value.models);
        }
        if Resolves(c, a.model.value) {
          var q, n :| a.model.value == q + "/" + n && '/' !in q && '/' !in n && Offers(c, q, n);
          OneWayToSplit(p, m, q, n);
        }
      }
    }
  }

  lemma OneWayToSplit(p: string, m: string, q: string, n: string)
    requires p + "/" + m == q + "/" + n && '/' !in p && '/' !in q
    ensures p == q && m == n
  {
    var text := p + "/" + m;
    assert text[|p|] == '/' == text[|q|];
    assert forall i | 0 <= i < |p| :: text[i] == p[i];
    assert forall i | 0 <= i < |q| :: text[i] == q[i];
    assert |p| == |q|;
    assert p == text[..|p|] == q;
    assert m == text[|p| + 1..] == n;
  }

  ghost predicate DefaultsFine(c: Config) {
    && !Wrong(c, DefaultProviderRequired) && !Wrong(c, DefaultModelRequired)
    && !Wrong(c, UnknownDefaultProvider) && !Wrong(c, UnknownDefaultModel) && !Wrong(c, DefaultDisabled)
  }

  lemma DefaultsFineExactly(c: Config)
    requires AllDifferent(ProviderIds(c))
    ensures DefaultsFine(c) <==> DefaultsIntact(c)
  {
    if DefaultsSet(c) {
      OffersExactly(c, c.defaults.providerId.value, c.defaults.modelId.value);
      if DefaultProvider(c).Some? {
        EnabledAreModels(DefaultProvider(c).value.models);
      }
    }
  }

  ghost predicate AgentIdsFine(c: Config) {
    && !Wrong(c, UnknownDefaultAgent) && !Wrong(c, NoEnabledAgent)
    && (forall i: nat :: !Wrong(c, DuplicateAgent(i)))
  }

  lemma AgentIdsFineExactly(c: Config)
    ensures AgentIdsFine(c) <==> AgentIdsIntact(c)
  {
    NoRepeatsExactly(AgentIds(c));
    assert forall i: nat :: Wrong(c, DuplicateAgent(i)) <==> Repeats(AgentIds(c), i);
    forall a | a in c.agents
      ensures a.id in AgentIds(c)
    {
      var i :| 0 <= i < |c.agents| && c.agents[i] == a;
      assert AgentIds(c)[i] == a.id;
    }
    if c.defaults.agentId in AgentIds(c) {
      var i :| 0 <= i < |AgentIds(c)| && AgentIds(c)[i] == c.defaults.agentId;
      assert c.agents[i] in c.agents;
    }
  }

  ghost predicate ListsFine(c: Config) {
    && (forall i: nat :: !Wrong(c, DuplicateMcpServer(i)))
    && (forall i: nat :: !Wrong(c, DuplicateChannel(i)))
  }

  lemma ListsFineExactly(c: Config)
    ensures ListsFine(c) <==> ListsIntact(c)
  {
    if c.mcpServers.Some? {
      NoRepeatsExactly(c.mcpServers.value);
      assert forall i: nat :: Wrong(c, DuplicateMcpServer(i)) <==> Repeats(c.mcpServers.value, i);
    }
    if c.channels.Some? {
      NoRepeatsExactly(c.channels.value);
      assert forall i: nat :: Wrong(c, DuplicateChannel(i)) <==> Repeats(c.channels.value, i);
    }
  }

  ghost predicate AllFine(c: Config) {
    && (forall i: nat :: !Wrong(c, DuplicateProvider(i)))
    && (forall i: nat :: i < |c.providers| ==> ProviderFine(c, i))
    && (forall i: nat :: i < |c.agents| ==> AgentFine(c, i))
    && DefaultsFine(c) && AgentIdsFine(c) && ListsFine(c)
  }

  lemma FineMeansNotWrong(c: Config, e: Issue)
    requires AllFine(c)
    ensures !Wrong(c, e)
  {
    if AboutProvider(e) {
      assert !e.DuplicateProvider? && e.provider < |c.providers| ==> ProviderFine(c, e.provider);
    } else if AboutAgent(e) {
      assert !e.DuplicateAgent? && e.agent < |c.agents| ==> AgentFine(c, e.agent);
    }
  }

  lemma NotWrongMeansFine(c: Config)
    requires forall e :: !Wrong(c, e)
    ensures AllFine(c)
  {
  }

  lemma EachProvider(c: Config)
    ensures (forall i: nat :: i < |c.providers| ==> ProviderFine(c, i))
            <==> forall p :: p in c.providers ==> ProviderIntact(p)
  {
    forall i: nat | i < |c.providers|
      ensures ProviderFine(c, i) <==> ProviderIntact(c.providers[i])
    {
      ProviderFineExactly(c, i);
    }
    forall i: nat | i < |c.providers|
      ensures c.providers[i] in c.providers
    {
    }
  }

  lemma EachAgent(c: Config)
    requires AllDifferent(ProviderIds(c))
    ensures (forall i: nat :: i < |c.agents| ==> AgentFine(c, i)) <==> forall a :: a in c.agents ==> AgentIntact(c, a)
  {
    forall i: nat | i < |c.agents|
      ensures AgentFine(c, i) <==> AgentIntact(c, c.agents[i])
    {
      AgentFineExactly(c, i);
    }
    forall i: nat | i < |c.agents|
      ensures c.agents[i] in c.agents
    {
    }
  }

  lemma ProviderIdsFineExactly(c: Config)
    ensures (forall i: nat :: !Wrong(c, DuplicateProvider(i))) <==> AllDifferent(ProviderIds(c))
  {
    NoRepeatsExactly(ProviderIds(c));
    assert forall i: nat :: Wrong(c, DuplicateProvider(i)) <==> Repeats(ProviderIds(c), i);
  }

  lemma AllFineExactly(c: Config)
    ensures AllFine(c) <==> Integrity(c)
  {
    ProviderIdsFineExactly(c);
    if AllDifferent(ProviderIds(c)) {
      EachProvider(c);
      EachAgent(c);
      DefaultsFineExactly(c);
      AgentIdsFineExactly(c);
      ListsFineExactly(c);
    }
  }

  /** No issue holds exactly when the configuration has referential integrity. */
  lemma NothingWrongExactlyWhen(c: Config)
    ensures (forall e :: !Wrong(c, e)) <==> Integrity(c)
  {
    AllFineExactly(c);
    if AllFine(c) {
      forall e
        ensures !Wrong(c, e)
      {
        FineMeansNotWrong(c, e);
      }
    } else if forall e :: !Wrong(c, e) {
      NotWrongMeansFine(c);
    }
  }
}
