/** Whole runs of the cache: its answers against the plain map it stands for, its
    bookkeeping, and its bound. */
module CacheRuns {
  import opened Basics
  import opened CacheStore

  datatype Operation<T> =
    | Get(key: string)
    | Set(key: string, value: T, ttlMs: Option<int>)
    | Delete(key: string)
    | Has(key: string)
    | Clear
    | Cleanup

  datatype Call<T> = Call(now: int, operation: Operation<T>)

  function Step<T>(config: Config, sizeOf: T -> nat, s: Store<T>, c: Call<T>): Store<T> {
    match c.operation
    case Get(key) => Got(s, key, c.now).0
    case Set(key, value, ttlMs) => Put(config, s, key, value, sizeOf(value), ttlMs, c.now)
    case Delete(key) => Deleted(s, key)
    case Has(key) => Had(s, key, c.now).0
    case Clear => Store([], s.stats.(size := 0, entries := 0))
    case Cleanup => Cleaned(s, c.now)
  }

  function After<T>(config: Config, sizeOf: T -> nat, calls: seq<Call<T>>): Store<T> {
    if calls == [] then Store([], NO_STATS)
    else Step(config, sizeOf, After(config, sizeOf, calls[..|calls| - 1]), calls[|calls| - 1])
  }

  // ---------------------------------------------------------------- bookkeeping

  lemma StepKeepsConsistent<T>(config: Config, sizeOf: T -> nat, s: Store<T>, c: Call<T>)
    requires Consistent(s)
    ensures Consistent(Step(config, sizeOf, s, c))
  {
    match c.operation
    case Get(key) => GotKeepsConsistent(s, key, c.now);
    case Set(key, value, ttlMs) => PutKeepsConsistent(config, s, key, value, sizeOf(value), ttlMs, c.now);
    case Delete(key) =>
      var i := IndexOf(s.entries, key);
      if i.Some? { DroppedKeepsConsistent(s, i.value); }
    case Has(key) =>
      var i := IndexOf(s.entries, key);
      if i.Some? { DroppedKeepsConsistent(s, i.value); }
    case Clear =>
    case Cleanup => CleanedKeepsConsistent(s, c.now);
  }

  /** In every reachable state there is one entry per key, `stats.size` is the sum of the
      entries' sizes, `stats.entries` their number, and the hit rate is up to date. */
  lemma {:induction false} AlwaysConsistent<T>(config: Config, sizeOf: T -> nat, calls: seq<Call<T>>)
    ensures Consistent(After(config, sizeOf, calls))
    decreases |calls|
  {
    if calls == [] {
    } else {
      AlwaysConsistent(config, sizeOf, calls[..|calls| - 1]);
      StepKeepsConsistent(config, sizeOf, After(config, sizeOf, calls[..|calls| - 1]), calls[|calls| - 1]);
    }
  }

  // ---------------------------------------------------------------- the plain map

  /** What was set under a key and until when it is good; when it was set, how often it has
      been asked for since, and when it was last set or asked for. */
  datatype Kept<T> = Kept(value: T, expiresAt: int, setAt: int, gets: nat, lastUse: int)

  /** A map without limits: what was last set under each key and not deleted since. */
  ghost function PlainStep<T>(config: Config, plain: map<string, Kept<T>>, c: Call<T>): map<string, Kept<T>> {
    match c.operation
    case Set(key, value, ttlMs) =>
      plain[key := Kept(value, c.now + (if ttlMs.Some? then ttlMs.value else config.ttl * 1000), c.now, 0, c.now)]
    case Get(key) => Asked(plain, key, c.now)
    case Delete(key) => plain - {key}
    case Clear => map[]
    case _ => plain
  }

  ghost function Asked<T>(plain: map<string, Kept<T>>, key: string, now: int): map<string, Kept<T>> {
    if key in plain then plain[key := plain[key].(gets := plain[key].gets + 1, lastUse := now)] else plain
  }

  ghost function Plain<T>(config: Config, calls: seq<Call<T>>): map<string, Kept<T>> {
    if calls == [] then map[] else PlainStep(config, Plain(config, calls[..|calls| - 1]), calls[|calls| - 1])
  }

  ghost function KeptOf<T>(e: Entry<T>): Kept<T> {
    Kept(e.value, e.expiresAt, e.createdAt, e.hitCount, e.lastAccessed)
  }

  ghost predicate Backed<T>(e: Entry<T>, plain: map<string, Kept<T>>) {
    e.key in plain && plain[e.key] == KeptOf(e)
  }

  /** Every entry is what the plain map has under its key. */
  ghost predicate Agrees<T>(entries: seq<Entry<T>>, plain: map<string, Kept<T>>) {
    forall i :: 0 <= i < |entries| ==> Backed(entries[i], plain)
  }

  lemma DroppedAgrees<T>(s: Store<T>, i: nat, plain: map<string, Kept<T>>)
    requires i < |s.entries| && KeysDiffer(s.entries) && Agrees(s.entries, plain)
    ensures Agrees(Dropped(s, i).entries, plain - {s.entries[i].key})
    ensures Agrees(Dropped(s, i).entries, plain)
  {
  }

  lemma LookupsAgree<T>(s: Store<T>, key: string, now: int, plain: map<string, Kept<T>>)
    requires Consistent(s) && Agrees(s.entries, plain)
    ensures Agrees(Got(s, key, now).0.entries, Asked(plain, key, now))
    ensures Agrees(Had(s, key, now).0.entries, plain)
    ensures Agrees(Deleted(s, key).entries, plain - {key})
  {
    var i := IndexOf(s.entries, key);
    if i.Some? {
      DroppedAgrees(s, i.value, plain);
    }
  }

  lemma PutAgrees<T>(config: Config, s: Store<T>, key: string, value: T, size: nat, ttlMs: Option<int>, now: int,
                     plain: map<string, Kept<T>>)
    requires Consistent(s) && Agrees(s.entries, plain)
    ensures var e := NewEntry(config, key, value, size, ttlMs, now);
            Agrees(Put(config, s, key, value, size, ttlMs, now).entries, plain[key := KeptOf(e)])
  {
  }

  lemma LiveAgrees<T>(entries: seq<Entry<T>>, now: int, plain: map<string, Kept<T>>)
    requires Agrees(entries, plain)
    ensures Agrees(Live(entries, now), plain)
  {
  }

  lemma StepKeepsAgreement<T>(config: Config, sizeOf: T -> nat, s: Store<T>, c: Call<T>, plain: map<string, Kept<T>>)
    requires Consistent(s) && Agrees(s.entries, plain)
    ensures Agrees(Step(config, sizeOf, s, c).entries, PlainStep(config, plain, c))
  {
    match c.operation
    case Get(key) => LookupsAgree(s, key, c.now, plain);
    case Set(key, value, ttlMs) => PutAgrees(config, s, key, value, sizeOf(value), ttlMs, c.now, plain);
    case Delete(key) => LookupsAgree(s, key, c.now, plain);
    case Has(key) => LookupsAgree(s, key, c.now, plain);
    case Clear =>
    case Cleanup => LiveAgrees(s.entries, c.now, plain);
  }

  lemma {:induction false} AlwaysAgrees<T>(config: Config, sizeOf: T -> nat, calls: seq<Call<T>>)
    ensures Agrees(After(config, sizeOf, calls).entries, Plain(config, calls))
    decreases |calls|
  {
    if calls == [] {
    } else {
      var before := calls[..|calls| - 1];
      AlwaysAgrees(config, sizeOf, before);
      AlwaysConsistent(config, sizeOf, before);
      StepKeepsAgreement(config, sizeOf, After(config, sizeOf, before), calls[|calls| - 1], Plain(config, before));
    }
  }

  /** Whatever was evicted, any value the cache returns is the latest one set under that
      key, not deleted since, and not expired. */
  lemma GetIsLatestSet<T>(config: Config, sizeOf: T -> nat, calls: seq<Call<T>>, key: string, now: int)
    requires Got(After(config, sizeOf, calls), key, now).1.Some?
    ensures var plain := Plain(config, calls);
            && key in plain && now <= plain[key].expiresAt
            && Got(After(config, sizeOf, calls), key, now).1.value == plain[key].value
  {
    AlwaysAgrees(config, sizeOf, calls);
    var s := After(config, sizeOf, calls);
    assert Backed(s.entries[IndexOf(s.entries, key).value], Plain(config, calls));
  }

  /** How a policy ranks a key by what has happened to it: by when it was last set or asked
      for, by how often it has been asked for since it was set, or by when it was set. */
  ghost function HistoryRank<T>(k: Kept<T>, policy: Policy): int {
    match policy
    case LRU => k.lastUse
    case LFU => k.gets
    case FIFO => k.setAt
  }

  /** In every reachable state, what would be evicted is least by its history, and the
      earliest in the map among those that are. */
  lemma VictimIsLeastByHistory<T>(config: Config, sizeOf: T -> nat, calls: seq<Call<T>>, i: nat)
    requires i < |After(config, sizeOf, calls).entries|
    ensures var entries, plain := After(config, sizeOf, calls).entries, Plain(config, calls);
            var v := Victim(entries, config.policy);
            && entries[v].key in plain && entries[i].key in plain
            && HistoryRank(plain[entries[v].key], config.policy) <= HistoryRank(plain[entries[i].key], config.policy)
            && (i < v ==>
                  HistoryRank(plain[entries[v].key], config.policy) < HistoryRank(plain[entries[i].key], config.policy))
  {
    AlwaysAgrees(config, sizeOf, calls);
    var entries, plain := After(config, sizeOf, calls).entries, Plain(config, calls);
    assert Backed(entries[Victim(entries, config.policy)], plain) && Backed(entries[i], plain);
  }

  /** How many calls of a run found something, and how many did not. */
  ghost function Found<T>(config: Config, sizeOf: T -> nat, calls: seq<Call<T>>, hit: bool): nat {
    if calls == [] then 0
    else
      var before, c := calls[..|calls| - 1], calls[|calls| - 1];
      Found(config, sizeOf, before, hit)
      + if c.operation.Get? && (Got(After(config, sizeOf, before), c.operation.key, c.now).1.Some? <==> hit)
        then 1 else 0
  }

  lemma StepCounts<T>(config: Config, sizeOf: T -> nat, s: Store<T>, c: Call<T>)
    ensures var after := Step(config, sizeOf, s, c);
            var hit := c.operation.Get? && Got(s, c.operation.key, c.now).1.Some?;
            && after.stats.hits == s.stats.hits + (if hit then 1 else 0)
            && after.stats.misses == s.stats.misses + (if c.operation.Get? && !hit then 1 else 0)
  {
  }

  /** Hits are the lookups that returned a value, misses those that did not. */
  lemma {:induction false} LookupsAreCounted<T>(config: Config, sizeOf: T -> nat, calls: seq<Call<T>>)
    ensures var stats := After(config, sizeOf, calls).stats;
            stats.hits == Found(config, sizeOf, calls, true) && stats.misses == Found(config, sizeOf, calls, false)
    decreases |calls|
  {
    if calls == [] {
    } else {
      LookupsAreCounted(config, sizeOf, calls[..|calls| - 1]);
      StepCounts(config, sizeOf, After(config, sizeOf, calls[..|calls| - 1]), calls[|calls| - 1]);
    }
  }

  // ---------------------------------------------------------------- what eviction takes away

  ghost predicate ClockRuns<T>(calls: seq<Call<T>>, now: int) {
    && (forall i :: 0 <= i < |calls| ==> calls[i].now <= now)
    && (forall i, j :: 0 <= i < j < |calls| ==> calls[i].now <= calls[j].now)
  }

  ghost predicate Holds<T>(entries: seq<Entry<T>>, key: string) {
    exists i :: 0 <= i < |entries| && entries[i].key == key
  }

  /** A `set` in this state really evicts. */
  ghost predicate Evicts<T>(config: Config, s: Store<T>) {
    ShouldEvict(config, s) && s.entries != [] && s.entries[Victim(s.entries, config.policy)].key != ""
  }

  ghost function GoneStep<T>(config: Config, s: Store<T>, gone: set<string>, c: Call<T>): set<string> {
    match c.operation
    case Set(key, _, _) =>
      (if Evicts(config, s) then gone + {s.entries[Victim(s.entries, config.policy)].key} else gone) - {key}
    case _ => gone
  }

  /** The keys that have been evicted and not been set since. */
  ghost function Gone<T>(config: Config, sizeOf: T -> nat, calls: seq<Call<T>>): set<string> {
    if calls == [] then {}
    else
      var before := calls[..|calls| - 1];
      GoneStep(config, After(config, sizeOf, before), Gone(config, sizeOf, before), calls[|calls| - 1])
  }

  ghost predicate Complete<T>(entries: seq<Entry<T>>, plain: map<string, Kept<T>>, gone: set<string>, now: int) {
    forall key :: key in plain && now <= plain[key].expiresAt && key !in gone ==> Holds(entries, key)
  }

  ghost predicate Absent<T>(entries: seq<Entry<T>>, gone: set<string>) {
    forall key :: key in gone ==> !Holds(entries, key)
  }

  lemma DroppedHolds<T>(s: Store<T>, i: nat, key: string)
    requires i < |s.entries|
    ensures Holds(s.entries, key) && key != s.entries[i].key ==> Holds(Dropped(s, i).entries, key)
  {
    if Holds(s.entries, key) && key != s.entries[i].key {
      var j :| 0 <= j < |s.entries| && s.entries[j].key == key;
      assert Dropped(s, i).entries[if j < i then j else j - 1] == s.entries[j];
    }
  }

  lemma PlacedHolds<T>(s: Store<T>, e: Entry<T>, key: string)
    ensures Holds(Placed(s, e).entries, key) <==> Holds(s.entries, key) || key == e.key
  {
    var after := Placed(s, e);
    var i := IndexOf(s.entries, e.key);
    if Holds(s.entries, key) {
      var j :| 0 <= j < |s.entries| && s.entries[j].key == key;
      assert after.entries[j].key == key;
    }
    assert after.entries[if i.Some? then i.value else |s.entries|].key == e.key;
  }

  lemma {:induction false} LiveHolds<T>(entries: seq<Entry<T>>, i: nat, now: int)
    requires i < |entries| && now <= entries[i].expiresAt
    ensures Holds(Live(entries, now), entries[i].key)
  {
    var last := |entries| - 1;
    if i < last {
      LiveHolds(entries[..last], i, now);
      var j :| 0 <= j < |Live(entries[..last], now)| && Live(entries[..last], now)[j].key == entries[i].key;
      assert Live(entries, now)[j].key == entries[i].key;
    } else {
      assert Live(entries, now)[|Live(entries, now)| - 1] == entries[last];
    }
  }

  /** What a `set` of another key keeps. */
  lemma PutHolds<T>(config: Config, s: Store<T>, e: Entry<T>, key: string)
    requires KeysDiffer(s.entries) && key != e.key
    ensures var after := Placed(if ShouldEvict(config, s) then Evicted(config, s) else s, e);
            Holds(after.entries, key)
            <==> Holds(s.entries, key)
                 && !(Evicts(config, s) && key == s.entries[Victim(s.entries, config.policy)].key)
  {
    PlacedHolds(if ShouldEvict(config, s) then Evicted(config, s) else s, e, key);
    if Evicts(config, s) {
      var v := Victim(s.entries, config.policy);
      DroppedHolds(s, v, key);
      DroppedIsAbsent(s, v, key);
    }
  }

  lemma DroppedIsAbsent<T>(s: Store<T>, i: nat, key: string)
    requires i < |s.entries| && KeysDiffer(s.entries)
    ensures Holds(Dropped(s, i).entries, key) ==> Holds(s.entries, key) && key != s.entries[i].key
  {
    if Holds(Dropped(s, i).entries, key) {
      var j :| 0 <= j < |s.entries| - 1 && Dropped(s, i).entries[j].key == key;
      assert s.entries[if j < i then j else j + 1].key == key;
    }
  }

  lemma StepKeepsComplete<T>(config: Config, sizeOf: T -> nat, s: Store<T>, c: Call<T>,
                             plain: map<string, Kept<T>>, gone: set<string>)
    requires Consistent(s) && Agrees(s.entries, plain) && Complete(s.entries, plain, gone, c.now)
    ensures Complete(Step(config, sizeOf, s, c).entries, PlainStep(config, plain, c),
                     GoneStep(config, s, gone, c), c.now)
  {
    forall key | key in PlainStep(config, plain, c) && c.now <= PlainStep(config, plain, c)[key].expiresAt
                 && key !in GoneStep(config, s, gone, c)
      ensures Holds(Step(config, sizeOf, s, c).entries, key)
    {
      match c.operation
      case Set(k, value, ttlMs) =>
        var e := NewEntry(config, k, value, sizeOf(value), ttlMs, c.now);
        if key == k {
          PlacedHolds(if ShouldEvict(config, s) then Evicted(config, s) else s, e, key);
        } else {
          PutHolds(config, s, e, key);
        }
      case Cleanup =>
        var i :| 0 <= i < |s.entries| && s.entries[i].key == key;
        assert Backed(s.entries[i], plain);
        LiveHolds(s.entries, i, c.now);
      case Clear =>
      case Get(k) => KeepsOthers(s, k, key, plain, c.now);
      case Has(k) => KeepsOthers(s, k, key, plain, c.now);
      case Delete(k) =>
        var i := IndexOf(s.entries, k);
        if i.Some? { DroppedHolds(s, i.value, key); }
    }
  }

  lemma LookupsAddNothing<T>(s: Store<T>, k: string, key: string, now: int)
    requires KeysDiffer(s.entries) && !Holds(s.entries, key)
    ensures !Holds(Got(s, k, now).0.entries, key)
    ensures !Holds(Had(s, k, now).0.entries, key)
    ensures !Holds(Deleted(s, k).entries, key)
  {
    var i := IndexOf(s.entries, k);
    if i.Some? {
      DroppedIsAbsent(s, i.value, key);
    }
  }

  lemma StepKeepsAbsent<T>(config: Config, sizeOf: T -> nat, s: Store<T>, c: Call<T>, gone: set<string>)
    requires Consistent(s) && Absent(s.entries, gone)
    ensures Absent(Step(config, sizeOf, s, c).entries, GoneStep(config, s, gone, c))
  {
    forall key | key in GoneStep(config, s, gone, c)
      ensures !Holds(Step(config, sizeOf, s, c).entries, key)
    {
      match c.operation
      case Set(k, value, ttlMs) => PutHolds(config, s, NewEntry(config, k, value, sizeOf(value), ttlMs, c.now), key);
      case Cleanup => LiveAreEntries(s.entries, c.now);
      case Clear =>
      case Get(k) => LookupsAddNothing(s, k, key, c.now);
      case Has(k) => LookupsAddNothing(s, k, key, c.now);
      case Delete(k) => LookupsAddNothing(s, k, key, c.now);
    }
  }

  lemma KeepsOthers<T>(s: Store<T>, k: string, key: string, plain: map<string, Kept<T>>, now: int)
    requires Agrees(s.entries, plain) && Holds(s.entries, key)
    requires key in plain && now <= plain[key].expiresAt
    ensures Holds(Got(s, k, now).0.entries, key) && Holds(Had(s, k, now).0.entries, key)
  {
    var i := IndexOf(s.entries, k);
    if i.Some? {
      DroppedHolds(s, i.value, key);
      assert Backed(s.entries[i.value], plain);
      var j :| 0 <= j < |s.entries| && s.entries[j].key == key;
      assert now <= s.entries[i.value].expiresAt ==> Got(s, k, now).0.entries[j].key == key;
    }
  }

  lemma EvictionsOnlyGrow<T>(config: Config, sizeOf: T -> nat, s: Store<T>, c: Call<T>)
    ensures s.stats.evictions <= Step(config, sizeOf, s, c).stats.evictions
  {
  }

  lemma {:induction false} AlwaysComplete<T>(config: Config, sizeOf: T -> nat, calls: seq<Call<T>>, now: int)
    requires ClockRuns(calls, now)
    ensures Complete(After(config, sizeOf, calls).entries, Plain(config, calls), Gone(config, sizeOf, calls), now)
    ensures Absent(After(config, sizeOf, calls).entries, Gone(config, sizeOf, calls))
    decreases |calls|
  {
    if calls == [] {
    } else {
      var before, c := calls[..|calls| - 1], calls[|calls| - 1];
      AlwaysComplete(config, sizeOf, before, c.now);
      AlwaysAgrees(config, sizeOf, before);
      AlwaysConsistent(config, sizeOf, before);
      var s, gone := After(config, sizeOf, before), Gone(config, sizeOf, before);
      StepKeepsComplete(config, sizeOf, s, c, Plain(config, before), gone);
      StepKeepsAbsent(config, sizeOf, s, c, gone);
    }
  }

  /** What a `set` of one key takes away from the others: with a limit reached, the entry least
      by the policy, unless its key is the empty string; otherwise nothing. */
  lemma SetRemovesExactly<T>(config: Config, s: Store<T>, key: string, value: T, size: nat, ttlMs: Option<int>,
                             now: int, k: string)
    requires Consistent(s) && k != key
    ensures Holds(s.entries, k) && !Holds(Put(config, s, key, value, size, ttlMs, now).entries, k)
            <==> && (|s.entries| >= config.maxEntries || TotalSize(s.entries) >= config.maxSize)
                 && k != "" && exists v: nat :: IsVictim(s.entries, config.policy, v) && s.entries[v].key == k
  {
    PutHolds(config, s, NewEntry(config, key, value, size, ttlMs, now), k);
    if s.entries != [] {
      var v := Victim(s.entries, config.policy);
      OneVictim(s.entries, config.policy, v);
      assert Holds(s.entries, s.entries[v].key);
    }
  }

  lemma OneVictim<T>(entries: seq<Entry<T>>, policy: Policy, v: nat)
    requires IsVictim(entries, policy, v)
    ensures forall u: nat :: IsVictim(entries, policy, u) ==> u == v
  {
    forall u: nat | IsVictim(entries, policy, u)
      ensures u == v
    {
      var a, b := Rank(entries[u], policy), Rank(entries[v], policy);
      assert (u < v ==> b < a) && (v < u ==> a < b);
      assert (u < v ==> a <= b) && (v < u ==> b <= a);
    }
  }

  function KeysOf<T>(entries: seq<Entry<T>>): (keys: seq<string>)
    ensures |keys| == |entries| && forall i :: 0 <= i < |entries| ==> keys[i] == entries[i].key
  {
    seq(|entries|, i requires 0 <= i < |entries| => entries[i].key)
  }

  lemma PlacedKeepsPlaces<T>(s: Store<T>, e: Entry<T>)
    ensures KeysOf(Placed(s, e).entries)
         == if e.key in KeysOf(s.entries) then KeysOf(s.entries) else KeysOf(s.entries) + [e.key]
  {
    var i := IndexOf(s.entries, e.key);
    if i.Some? {
      assert KeysOf(s.entries)[i.value] == e.key;
    }
  }

  /** A `set` leaves the keys that stay in their order in the map: one that is there keeps its
      place, a new one comes last. */
  lemma SetKeepsPlaces<T>(config: Config, s: Store<T>, key: string, value: T, size: nat, ttlMs: Option<int>, now: int,
                          v: nat)
    requires Consistent(s) && (s.entries != [] ==> IsVictim(s.entries, config.policy, v))
    ensures var keys := KeysOf(s.entries);
            var kept := if MustEvict(config, s.entries) then keys[..v] + keys[v + 1..] else keys;
            KeysOf(Put(config, s, key, value, size, ttlMs, now).entries)
            == if key in kept then kept else kept + [key]
  {
    var keys, e := KeysOf(s.entries), NewEntry(config, key, value, size, ttlMs, now);
    EvictsExactly(config, s);
    PlacedKeepsPlaces(if ShouldEvict(config, s) then Evicted(config, s) else s, e);
    if Evicts(config, s) {
      OneVictim(s.entries, config.policy, v);
      assert KeysOf(Evicted(config, s).entries) == keys[..v] + keys[v + 1..];
    }
  }

  /** No `set` of the run found a limit reached. */
  ghost predicate BelowLimits<T>(config: Config, sizeOf: T -> nat, calls: seq<Call<T>>) {
    calls != [] ==>
      var before := calls[..|calls| - 1];
      var entries := After(config, sizeOf, before).entries;
      && BelowLimits(config, sizeOf, before)
      && (calls[|calls| - 1].operation.Set? ==> |entries| < config.maxEntries && TotalSize(entries) < config.maxSize)
  }

  /** Then nothing is evicted. */
  lemma {:induction false} NothingGoneBelowLimits<T>(config: Config, sizeOf: T -> nat, calls: seq<Call<T>>)
    requires BelowLimits(config, sizeOf, calls)
    ensures Gone(config, sizeOf, calls) == {} && After(config, sizeOf, calls).stats.evictions == 0
    decreases |calls|
  {
    if calls == [] {
    } else {
      NothingGoneBelowLimits(config, sizeOf, calls[..|calls| - 1]);
      AlwaysConsistent(config, sizeOf, calls[..|calls| - 1]);
    }
  }

  /** So the cache answers as the plain map with expiry. */
  lemma ExactBelowLimits<T>(config: Config, sizeOf: T -> nat, calls: seq<Call<T>>, key: string, now: int)
    requires ClockRuns(calls, now) && BelowLimits(config, sizeOf, calls)
    ensures var plain := Plain(config, calls);
            Got(After(config, sizeOf, calls), key, now).1
            == if key in plain && now <= plain[key].expiresAt then Some(plain[key].value) else None
  {
    NothingGoneBelowLimits(config, sizeOf, calls);
    AnswersExactly(config, sizeOf, calls, key, now);
  }

  /** A limit is reached, and the entry least by the policy can go. */
  ghost predicate MustEvict<T>(config: Config, entries: seq<Entry<T>>) {
    && (|entries| >= config.maxEntries || TotalSize(entries) >= config.maxSize)
    && exists v: nat :: IsVictim(entries, config.policy, v) && entries[v].key != ""
  }

  /** How many sets of a run found that. */
  ghost function Evictions<T>(config: Config, sizeOf: T -> nat, calls: seq<Call<T>>): nat {
    if calls == [] then 0
    else
      var before, c := calls[..|calls| - 1], calls[|calls| - 1];
      Evictions(config, sizeOf, before)
      + if c.operation.Set? && MustEvict(config, After(config, sizeOf, before).entries) then 1 else 0
  }

  lemma EvictsExactly<T>(config: Config, s: Store<T>)
    requires Consistent(s)
    ensures Evicts(config, s) <==> MustEvict(config, s.entries)
  {
    if s.entries != [] {
      OneVictim(s.entries, config.policy, Victim(s.entries, config.policy));
    }
  }

  lemma StepEvicts<T>(config: Config, sizeOf: T -> nat, s: Store<T>, c: Call<T>)
    ensures Step(config, sizeOf, s, c).stats.evictions
         == s.stats.evictions + if c.operation.Set? && Evicts(config, s) then 1 else 0
  {
  }

  lemma {:induction false} EvictionsAreCounted<T>(config: Config, sizeOf: T -> nat, calls: seq<Call<T>>)
    ensures After(config, sizeOf, calls).stats.evictions == Evictions(config, sizeOf, calls)
    decreases |calls|
  {
    if calls == [] {
    } else {
      var before := calls[..|calls| - 1];
      EvictionsAreCounted(config, sizeOf, before);
      AlwaysConsistent(config, sizeOf, before);
      EvictsExactly(config, After(config, sizeOf, before));
      StepEvicts(config, sizeOf, After(config, sizeOf, before), calls[|calls| - 1]);
    }
  }

  ghost predicate Sized<T>(entries: seq<Entry<T>>, sizeOf: T -> nat) {
    forall i :: 0 <= i < |entries| ==> entries[i].size == sizeOf(entries[i].value)
  }

  lemma DroppedKeepsSized<T>(s: Store<T>, i: nat, sizeOf: T -> nat)
    requires i < |s.entries| && Sized(s.entries, sizeOf)
    ensures Sized(Dropped(s, i).entries, sizeOf)
  {
  }

  lemma PlacedKeepsSized<T>(s: Store<T>, e: Entry<T>, sizeOf: T -> nat)
    requires Sized(s.entries, sizeOf) && e.size == sizeOf(e.value)
    ensures Sized(Placed(s, e).entries, sizeOf)
  {
  }

  lemma PutKeepsSized<T>(config: Config, s: Store<T>, key: string, value: T, ttlMs: Option<int>, now: int,
                         sizeOf: T -> nat)
    requires Sized(s.entries, sizeOf)
    ensures Sized(Put(config, s, key, value, sizeOf(value), ttlMs, now).entries, sizeOf)
  {
    if ShouldEvict(config, s) && s.entries != [] {
      DroppedKeepsSized(s, Victim(s.entries, config.policy), sizeOf);
    }
    PlacedKeepsSized(if ShouldEvict(config, s) then Evicted(config, s) else s,
                     NewEntry(config, key, value, sizeOf(value), ttlMs, now), sizeOf);
  }

  lemma LookupsKeepSized<T>(s: Store<T>, key: string, now: int, sizeOf: T -> nat)
    requires Sized(s.entries, sizeOf)
    ensures Sized(Got(s, key, now).0.entries, sizeOf)
    ensures Sized(Had(s, key, now).0.entries, sizeOf) && Sized(Deleted(s, key).entries, sizeOf)
  {
    var i := IndexOf(s.entries, key);
    if i.Some? {
      DroppedKeepsSized(s, i.value, sizeOf);
    }
  }

  lemma LiveKeepsSized<T>(entries: seq<Entry<T>>, now: int, sizeOf: T -> nat)
    requires Sized(entries, sizeOf)
    ensures Sized(Live(entries, now), sizeOf)
  {
    LiveAreEntries(entries, now);
  }

  /** Every entry counts with the size of its value. */
  lemma {:induction false} AlwaysSized<T>(config: Config, sizeOf: T -> nat, calls: seq<Call<T>>)
    ensures Sized(After(config, sizeOf, calls).entries, sizeOf)
    decreases |calls|
  {
    if calls == [] {
    } else {
      var before, c := calls[..|calls| - 1], calls[|calls| - 1];
      AlwaysSized(config, sizeOf, before);
      var s := After(config, sizeOf, before);
      match c.operation
      case Get(key) => LookupsKeepSized(s, key, c.now, sizeOf);
      case Set(key, value, ttlMs) => PutKeepsSized(config, s, key, value, ttlMs, c.now, sizeOf);
      case Delete(key) => LookupsKeepSized(s, key, c.now, sizeOf);
      case Has(key) => LookupsKeepSized(s, key, c.now, sizeOf);
      case Clear =>
      case Cleanup => LiveKeepsSized(s.entries, c.now, sizeOf);
    }
  }

  /** After a lookup of a key, an entry of that key that is still there has not expired. */
  lemma LookupsDropExpired<T>(s: Store<T>, key: string, now: int, i: nat)
    requires Consistent(s)
    ensures var e := Got(s, key, now).0.entries; i < |e| && e[i].key == key ==> now <= e[i].expiresAt
    ensures var e := Had(s, key, now).0.entries; i < |e| && e[i].key == key ==> now <= e[i].expiresAt
  {
    var at := IndexOf(s.entries, key);
    if at.Some? && now > s.entries[at.value].expiresAt {
      DroppedIsAbsent(s, at.value, key);
    }
  }

  /** A clean-up leaves exactly the entries that have not expired. */
  lemma {:induction false} CleanedExactly<T>(entries: seq<Entry<T>>, now: int, e: Entry<T>)
    ensures e in Live(entries, now) <==> e in entries && now <= e.expiresAt
  {
    if entries == [] {
    } else {
      CleanedExactly(entries[..|entries| - 1], now, e);
      assert entries == entries[..|entries| - 1] + [entries[|entries| - 1]];
    }
  }

  /** And in the order they had. */
  lemma {:induction false} CleanedInOrder<T>(entries: seq<Entry<T>>, now: int, i: nat, j: nat) returns (g: nat, h: nat)
    requires i < j < |Live(entries, now)|
    ensures g < h < |entries| && entries[g] == Live(entries, now)[i] && entries[h] == Live(entries, now)[j]
    decreases |entries|
  {
    var last := |entries| - 1;
    if j < |Live(entries[..last], now)| {
      g, h := CleanedInOrder(entries[..last], now, i, j);
    } else {
      h := last;
      assert Live(entries, now)[i] == Live(entries[..last], now)[i];
      CleanedExactly(entries[..last], now, Live(entries[..last], now)[i]);
      g :| 0 <= g < last && entries[..last][g] == Live(entries, now)[i];
    }
  }

  lemma HitRateExactly(hits: nat, misses: nat)
    ensures HitRate(hits, misses) * (hits + misses) as real == hits as real
    ensures hits + misses == 0 ==> HitRate(hits, misses) == 0.0
  {
  }

  /** With a clock that does not run backwards, the cache answers as the plain map with
      expiry would, except that it misses exactly the keys evicted since they were last set. */
  lemma AnswersExactly<T>(config: Config, sizeOf: T -> nat, calls: seq<Call<T>>, key: string, now: int)
    requires ClockRuns(calls, now)
    ensures var plain := Plain(config, calls);
            Got(After(config, sizeOf, calls), key, now).1
            == if key in plain && now <= plain[key].expiresAt && key !in Gone(config, sizeOf, calls)
               then Some(plain[key].value) else None
    ensures Had(After(config, sizeOf, calls), key, now).1
            <==> Got(After(config, sizeOf, calls), key, now).1.Some?
  {
    var s, plain := After(config, sizeOf, calls), Plain(config, calls);
    AlwaysAgrees(config, sizeOf, calls);
    AlwaysComplete(config, sizeOf, calls, now);
    var i := IndexOf(s.entries, key);
    assert i.Some? <==> Holds(s.entries, key);
    if i.Some? {
      assert Backed(s.entries[i.value], plain);
    }
  }

  lemma {:induction false} NothingGone<T>(config: Config, sizeOf: T -> nat, calls: seq<Call<T>>)
    requires After(config, sizeOf, calls).stats.evictions == 0
    ensures Gone(config, sizeOf, calls) == {}
    decreases |calls|
  {
    if calls == [] {
    } else {
      var before, c := calls[..|calls| - 1], calls[|calls| - 1];
      EvictionsOnlyGrow(config, sizeOf, After(config, sizeOf, before), c);
      NothingGone(config, sizeOf, before);
    }
  }

  /** So until the first eviction it is the plain map with expiry. */
  lemma ExactUntilEviction<T>(config: Config, sizeOf: T -> nat, calls: seq<Call<T>>, key: string, now: int)
    requires ClockRuns(calls, now) && After(config, sizeOf, calls).stats.evictions == 0
    ensures var plain := Plain(config, calls);
            Got(After(config, sizeOf, calls), key, now).1
            == if key in plain && now <= plain[key].expiresAt then Some(plain[key].value) else None
  {
    AnswersExactly(config, sizeOf, calls, key, now);
    NothingGone(config, sizeOf, calls);
  }

  // ---------------------------------------------------------------- the bound

  function Limit(config: Config): int {
    if config.maxEntries > 1 then config.maxEntries else 1
  }

  /** A `set` within the limit stays within it unless the cache is full, the key is new,
      and the victim is the entry with the empty key, which is never evicted. */
  lemma SetKeepsLimitExactlyWhen<T>(config: Config, s: Store<T>, key: string, value: T, size: nat,
                                    ttlMs: Option<int>, now: int)
    requires Consistent(s) && |s.entries| <= Limit(config)
    ensures |Put(config, s, key, value, size, ttlMs, now).entries| <= Limit(config)
            <==> !(&& |s.entries| == Limit(config)
                   && IndexOf(s.entries, key).None?
                   && s.entries[Victim(s.entries, config.policy)].key == "")
  {
  }

  function Letters(n: nat): string {
    seq(n, i => 'a')
  }

  /** Sets of the keys "", "a", "aa" and so on, all at the same time. */
  function SetsOfLetters<T>(value: T, n: nat): seq<Call<T>> {
    seq(n, i requires 0 <= i => Call(0, Set(Letters(i), value, None)))
  }

  ghost predicate HoldsLetters<T>(entries: seq<Entry<T>>, n: nat) {
    |entries| == n && forall i :: 0 <= i < n ==> entries[i].key == Letters(i) && Unused(entries[i])
  }

  ghost predicate Unused<T>(e: Entry<T>) {
    e.lastAccessed == 0 && e.createdAt == 0 && e.hitCount == 0
  }

  lemma AnotherLetterStays<T>(config: Config, s: Store<T>, value: T, size: nat)
    requires HoldsLetters(s.entries, |s.entries|)
    ensures HoldsLetters(Put(config, s, Letters(|s.entries|), value, size, None, 0).entries, |s.entries| + 1)
  {
    if s.entries != [] {
      var v := Victim(s.entries, config.policy);
      assert Unused(s.entries[0]) && Unused(s.entries[v]);
      assert Rank(s.entries[v], config.policy) == Rank(s.entries[0], config.policy) == 0;
      assert v == 0;
    }
    assert IndexOf(s.entries, Letters(|s.entries|)).None? by {
      assert forall i | 0 <= i < |s.entries| :: |s.entries[i].key| == i;
    }
  }

  /** The empty key defeats every limit under every policy: once it is the victim nothing
      is evicted any more, so `n` sets can leave `n` entries, whatever `maxEntries` is. */
  lemma {:induction false} EmptyKeyDefeatsLimit<T>(config: Config, sizeOf: T -> nat, value: T, n: nat)
    ensures HoldsLetters(After(config, sizeOf, SetsOfLetters(value, n)).entries, n)
    decreases n
  {
    if n == 0 {
    } else {
      EmptyKeyDefeatsLimit(config, sizeOf, value, n - 1);
      var calls := SetsOfLetters(value, n);
      assert calls[..n - 1] == SetsOfLetters(value, n - 1);
      AnotherLetterStays(config, After(config, sizeOf, calls[..n - 1]), value, sizeOf(value));
    }
  }

  ghost predicate NoEmptyKeys<T>(calls: seq<Call<T>>) {
    forall i :: 0 <= i < |calls| && calls[i].operation.Set? ==> calls[i].operation.key != ""
  }

  ghost predicate WithinLimit<T>(config: Config, entries: seq<Entry<T>>) {
    |entries| <= Limit(config) && forall i :: 0 <= i < |entries| ==> entries[i].key != ""
  }

  lemma PutKeepsWithinLimit<T>(config: Config, s: Store<T>, key: string, value: T, size: nat,
                               ttlMs: Option<int>, now: int)
    requires Consistent(s) && WithinLimit(config, s.entries) && key != ""
    ensures WithinLimit(config, Put(config, s, key, value, size, ttlMs, now).entries)
  {
  }

  lemma CleanedKeepsWithinLimit<T>(config: Config, s: Store<T>, now: int)
    requires WithinLimit(config, s.entries)
    ensures WithinLimit(config, Cleaned(s, now).entries)
  {
    LiveIsShorter(s.entries, now);
    LiveAreEntries(s.entries, now);
  }

  lemma StepKeepsWithinLimit<T>(config: Config, sizeOf: T -> nat, s: Store<T>, c: Call<T>)
    requires Consistent(s) && WithinLimit(config, s.entries)
    requires c.operation.Set? ==> c.operation.key != ""
    ensures WithinLimit(config, Step(config, sizeOf, s, c).entries)
  {
    match c.operation
    case Set(key, value, ttlMs) => PutKeepsWithinLimit(config, s, key, value, sizeOf(value), ttlMs, c.now);
    case Cleanup => CleanedKeepsWithinLimit(config, s, c.now);
    case _ =>
  }

  /** When no key is the empty string, every reachable state is within the limit. */
  lemma {:induction false} AlwaysWithinLimit<T>(config: Config, sizeOf: T -> nat, calls: seq<Call<T>>)
    requires NoEmptyKeys(calls)
    ensures WithinLimit(config, After(config, sizeOf, calls).entries)
    decreases |calls|
  {
    if calls == [] {
    } else {
      var before := calls[..|calls| - 1];
      AlwaysWithinLimit(config, sizeOf, before);
      AlwaysConsistent(config, sizeOf, before);
      StepKeepsWithinLimit(config, sizeOf, After(config, sizeOf, before), calls[|calls| - 1]);
    }
  }

  lemma {:induction false} LiveIsShorter<T>(entries: seq<Entry<T>>, now: int)
    ensures |Live(entries, now)| <= |entries|
  {
    if entries == [] {
    } else {
      LiveIsShorter(entries[..|entries| - 1], now);
    }
  }
}
