/** The addon proxy's in-memory cache (apps/server/src/addons/proxy-cache.ts, class
    `CacheStore`): entries in the insertion order of a JavaScript Map, running statistics,
    and one victim chosen by policy when a limit is reached. */
module CacheStore {
  import opened Basics

  datatype Entry<T> = Entry(
    key: string,
    value: T,
    expiresAt: int,
    createdAt: int,
    size: nat,
    hitCount: nat,
    lastAccessed: int)

  datatype Stats = Stats(hits: nat, misses: nat, size: int, entries: nat, evictions: nat, hitRate: real)

  datatype Policy = LRU | LFU | FIFO

  /** `ttl` is in seconds. */
  datatype Config = Config(ttl: int, maxSize: int, maxEntries: int, policy: Policy)

  datatype Store<T> = Store(entries: seq<Entry<T>>, stats: Stats)

  const NO_STATS := Stats(0, 0, 0, 0, 0, 0.0)

  // ---------------------------------------------------------------- the ordered map

  function IndexOf<T>(entries: seq<Entry<T>>, key: string): (i: Option<nat>)
    ensures i.Some? ==> i.value < |entries| && entries[i.value].key == key
    ensures i.None? ==> forall j :: 0 <= j < |entries| ==> entries[j].key != key
  {
    if entries == [] then None
    else if entries[|entries| - 1].key == key then Some(|entries| - 1)
    else IndexOf(entries[..|entries| - 1], key)
  }

  function Without<T>(entries: seq<Entry<T>>, i: nat): seq<Entry<T>>
    requires i < |entries|
  {
    entries[..i] + entries[i + 1..]
  }

  ghost predicate KeysDiffer<T>(entries: seq<Entry<T>>) {
    forall i, j :: 0 <= i < j < |entries| ==> entries[i].key != entries[j].key
  }

  // ---------------------------------------------------------------- what each operation does

  function HitRate(hits: nat, misses: nat): real {
    if hits + misses > 0 then hits as real / (hits + misses) as real else 0.0
  }

  function Missed(stats: Stats): Stats {
    stats.(misses := stats.misses + 1, hitRate := HitRate(stats.hits, stats.misses + 1))
  }

  function Dropped<T>(s: Store<T>, i: nat): Store<T>
    requires i < |s.entries|
  {
    Store(Without(s.entries, i), s.stats.(size := s.stats.size - s.entries[i].size, entries := |s.entries| - 1))
  }

  function Deleted<T>(s: Store<T>, key: string): Store<T> {
    var i := IndexOf(s.entries, key);
    if i.Some? then Dropped(s, i.value) else s
  }

  function Touched<T>(e: Entry<T>, now: int): Entry<T> {
    e.(lastAccessed := now, hitCount := e.hitCount + 1)
  }

  function Got<T>(s: Store<T>, key: string, now: int): (Store<T>, Option<T>) {
    var i := IndexOf(s.entries, key);
    if i.None? then (s.(stats := Missed(s.stats)), None)
    else if now > s.entries[i.value].expiresAt then
      var less := Dropped(s, i.value);
      (less.(stats := Missed(less.stats)), None)
    else
      var e := s.entries[i.value];
      var stats := s.stats.(hits := s.stats.hits + 1, hitRate := HitRate(s.stats.hits + 1, s.stats.misses));
      (Store(s.entries[i.value := Touched(e, now)], stats), Some(e.value))
  }

  function Had<T>(s: Store<T>, key: string, now: int): (Store<T>, bool) {
    var i := IndexOf(s.entries, key);
    if i.None? then (s, false)
    else if now > s.entries[i.value].expiresAt then (Dropped(s, i.value), false)
    else (s, true)
  }

  /** What the policy compares: the smallest goes first. */
  function Rank<T>(e: Entry<T>, policy: Policy): int {
    match policy
    case LRU => e.lastAccessed
    case LFU => e.hitCount
    case FIFO => e.createdAt
  }

  /** Least by the policy; among equals, earliest in the map. */
  predicate IsVictim<T>(entries: seq<Entry<T>>, policy: Policy, v: nat) {
    && v < |entries|
    && (forall j | 0 <= j < v :: Rank(entries[v], policy) < Rank(entries[j], policy))
    && (forall j | v < j < |entries| :: Rank(entries[v], policy) <= Rank(entries[j], policy))
  }

  function Victim<T>(entries: seq<Entry<T>>, policy: Policy): (v: nat)
    requires entries != []
    ensures IsVictim(entries, policy, v)
  {
    if |entries| == 1 then 0
    else
      var v := Victim(entries[..|entries| - 1], policy);
      assert forall j | 0 <= j < |entries| - 1 :: entries[j] == entries[..|entries| - 1][j];
      if Rank(entries[|entries| - 1], policy) < Rank(entries[v], policy) then |entries| - 1 else v
  }

  predicate ShouldEvict<T>(config: Config, s: Store<T>) {
    |s.entries| >= config.maxEntries || s.stats.size >= config.maxSize
  }

  /** At most one entry goes, and none if the victim's key is the empty string. */
  function Evicted<T>(config: Config, s: Store<T>): Store<T> {
    if s.entries == [] then s
    else
      var v := Victim(s.entries, config.policy);
      if s.entries[v].key == "" then s
      else
        var less := Dropped(s, v);
        less.(stats := less.stats.(evictions := less.stats.evictions + 1))
  }

  function NewEntry<T>(config: Config, key: string, value: T, size: nat, ttlMs: Option<int>, now: int): Entry<T> {
    Entry(key, value, now + (if ttlMs.Some? then ttlMs.value else config.ttl * 1000), now, size, 0, now)
  }

  function Placed<T>(s: Store<T>, e: Entry<T>): Store<T> {
    var i := IndexOf(s.entries, e.key);
    if i.Some? then
      Store(s.entries[i.value := e],
            s.stats.(size := s.stats.size - s.entries[i.value].size + e.size, entries := |s.entries|))
    else
      Store(s.entries + [e], s.stats.(size := s.stats.size + e.size, entries := |s.entries| + 1))
  }

  function Put<T>(config: Config, s: Store<T>, key: string, value: T, size: nat, ttlMs: Option<int>, now: int)
    : Store<T>
  {
    Placed(if ShouldEvict(config, s) then Evicted(config, s) else s, NewEntry(config, key, value, size, ttlMs, now))
  }

  function Live<T>(entries: seq<Entry<T>>, now: int): seq<Entry<T>> {
    if entries == [] then []
    else
      var rest, last := Live(entries[..|entries| - 1], now), entries[|entries| - 1];
      if now > last.expiresAt then rest else rest + [last]
  }

  function TotalSize<T>(entries: seq<Entry<T>>): nat {
    if entries == [] then 0 else TotalSize(entries[..|entries| - 1]) + entries[|entries| - 1].size
  }

  function Cleaned<T>(s: Store<T>, now: int): Store<T> {
    var live := Live(s.entries, now);
    Store(live, s.stats.(size := s.stats.size - (TotalSize(s.entries) - TotalSize(live)), entries := |live|))
  }

  // ---------------------------------------------------------------- bookkeeping

  /** One entry per key, and statistics that agree with the entries. */
  ghost predicate Consistent<T>(s: Store<T>) {
    && KeysDiffer(s.entries)
    && s.stats.size == TotalSize(s.entries)
    && s.stats.entries == |s.entries|
    && s.stats.hitRate == HitRate(s.stats.hits, s.stats.misses)
  }

  lemma IndexOfEntry<T>(entries: seq<Entry<T>>, i: nat)
    requires KeysDiffer(entries) && i < |entries|
    ensures IndexOf(entries, entries[i].key) == Some(i)
  {
  }

  lemma {:induction false} TotalSizeWithout<T>(entries: seq<Entry<T>>, i: nat)
    requires i < |entries|
    ensures TotalSize(Without(entries, i)) == TotalSize(entries) - entries[i].size
  {
    var last := |entries| - 1;
    if i == last {
      assert Without(entries, i) == entries[..last];
    } else {
      TotalSizeWithout(entries[..last], i);
      var less := Without(entries, i);
      assert less[..|less| - 1] == Without(entries[..last], i) && less[|less| - 1] == entries[last];
    }
  }

  lemma {:induction false} TotalSizeUpdate<T>(entries: seq<Entry<T>>, i: nat, e: Entry<T>)
    requires i < |entries|
    ensures TotalSize(entries[i := e]) == TotalSize(entries) - entries[i].size + e.size
  {
    var last := |entries| - 1;
    if i == last {
      assert entries[i := e][..last] == entries[..last];
    } else {
      TotalSizeUpdate(entries[..last], i, e);
      assert entries[i := e][..last] == entries[..last][i := e];
    }
  }

  lemma DroppedKeepsConsistent<T>(s: Store<T>, i: nat)
    requires Consistent(s) && i < |s.entries|
    ensures Consistent(Dropped(s, i))
  {
    TotalSizeWithout(s.entries, i);
  }

  lemma GotKeepsConsistent<T>(s: Store<T>, key: string, now: int)
    requires Consistent(s)
    ensures Consistent(Got(s, key, now).0)
  {
    var i := IndexOf(s.entries, key);
    if i.Some? {
      DroppedKeepsConsistent(s, i.value);
      TotalSizeUpdate(s.entries, i.value, Touched(s.entries[i.value], now));
    }
  }

  lemma EvictedKeepsConsistent<T>(config: Config, s: Store<T>)
    requires Consistent(s)
    ensures Consistent(Evicted(config, s))
  {
    if s.entries != [] {
      DroppedKeepsConsistent(s, Victim(s.entries, config.policy));
    }
  }

  lemma PlacedKeepsConsistent<T>(s: Store<T>, e: Entry<T>)
    requires Consistent(s)
    ensures Consistent(Placed(s, e))
  {
    var i := IndexOf(s.entries, e.key);
    if i.Some? {
      TotalSizeUpdate(s.entries, i.value, e);
    } else {
      assert (s.entries + [e])[..|s.entries|] == s.entries;
    }
  }

  lemma PutKeepsConsistent<T>(config: Config, s: Store<T>, key: string, value: T, size: nat,
                              ttlMs: Option<int>, now: int)
    requires Consistent(s)
    ensures Consistent(Put(config, s, key, value, size, ttlMs, now))
  {
    EvictedKeepsConsistent(config, s);
    PlacedKeepsConsistent(if ShouldEvict(config, s) then Evicted(config, s) else s,
                          NewEntry(config, key, value, size, ttlMs, now));
  }

  lemma {:induction false} LiveAreEntries<T>(entries: seq<Entry<T>>, now: int)
    ensures forall h :: 0 <= h < |Live(entries, now)| ==>
              Live(entries, now)[h] in entries && now <= Live(entries, now)[h].expiresAt
  {
    if entries == [] {
    } else {
      LiveAreEntries(entries[..|entries| - 1], now);
    }
  }

  lemma {:induction false} LiveKeysDiffer<T>(entries: seq<Entry<T>>, now: int)
    requires KeysDiffer(entries)
    ensures KeysDiffer(Live(entries, now))
  {
    if entries == [] {
    } else {
      var init, last := entries[..|entries| - 1], entries[|entries| - 1];
      LiveKeysDiffer(init, now);
      LiveAreEntries(init, now);
    }
  }

  lemma LiveStep<T>(entries: seq<Entry<T>>, n: nat, now: int)
    requires n < |entries|
    ensures Live(entries[..n + 1], now)
         == Live(entries[..n], now) + if now > entries[n].expiresAt then [] else [entries[n]]
  {
    assert entries[..n + 1][..n] == entries[..n];
  }

  lemma CleanedKeepsConsistent<T>(s: Store<T>, now: int)
    requires Consistent(s)
    ensures Consistent(Cleaned(s, now))
  {
    LiveKeysDiffer(s.entries, now);
  }

  /** `cleanup` part of the way: the first `n` entries of the map have been looked at. */
  ghost function CleanedUpTo<T>(s: Store<T>, n: nat, now: int): Store<T>
    requires n <= |s.entries|
  {
    var entries := Live(s.entries[..n], now) + s.entries[n..];
    Store(entries, s.stats.(size := TotalSize(entries), entries := |entries|))
  }

  lemma FrontOfRest<T>(live: seq<Entry<T>>, rest: seq<Entry<T>>)
    requires rest != []
    ensures (live + rest)[|live|] == rest[0]
    ensures Without(live + rest, |live|) == live + rest[1..]
    ensures live + rest == live + [rest[0]] + rest[1..]
  {
  }

  lemma CleanedUpToGrows<T>(s: Store<T>, n: nat, now: int)
    requires n < |s.entries| && Consistent(CleanedUpTo(s, n, now))
    ensures var part, i, e := CleanedUpTo(s, n, now), |Live(s.entries[..n], now)|, s.entries[n];
            && i < |part.entries| && part.entries[i] == e
            && CleanedUpTo(s, n + 1, now) == (if now > e.expiresAt then Deleted(part, e.key) else part)
            && |Live(s.entries[..n + 1], now)| == (if now > e.expiresAt then i else i + 1)
            && Consistent(CleanedUpTo(s, n + 1, now))
  {
    var part, live := CleanedUpTo(s, n, now), Live(s.entries[..n], now);
    LiveStep(s.entries, n, now);
    FrontOfRest(live, s.entries[n..]);
    assert s.entries[n..][1..] == s.entries[n + 1..];
    IndexOfEntry(part.entries, |live|);
    TotalSizeWithout(part.entries, |live|);
    DroppedKeepsConsistent(part, |live|);
    if now > s.entries[n].expiresAt {
      var next, dropped := CleanedUpTo(s, n + 1, now), Dropped(part, |live|);
      assert next.entries == live + s.entries[n + 1..] == dropped.entries;
      assert next.stats.size == dropped.stats.size && next.stats.entries == dropped.stats.entries;
      assert next == dropped;
    } else {
      assert CleanedUpTo(s, n + 1, now).entries == part.entries;
    }
  }

  lemma CleanedUpToEnds<T>(s: Store<T>, now: int)
    requires Consistent(s)
    ensures CleanedUpTo(s, 0, now) == s && CleanedUpTo(s, |s.entries|, now) == Cleaned(s, now)
  {
    assert s.entries[..0] == [] && s.entries[0..] == s.entries;
    assert s.entries[..|s.entries|] == s.entries;
    assert Live(s.entries, now) + [] == Live(s.entries, now);
  }

  // ---------------------------------------------------------------- the class

  class Cache<T> {
    const config: Config
    const estimateSize: T -> nat
    var entries: seq<Entry<T>>
    var stats: Stats

    ghost function Now(): Store<T>
      reads this
    {
      Store(entries, stats)
    }

    ghost predicate Valid()
      reads this
    {
      Consistent(Now())
    }

    constructor (config: Config, estimateSize: T -> nat)
      ensures Valid() && Now() == Store([], NO_STATS)
      ensures this.config == config && this.estimateSize == estimateSize
    {
      this.config, this.estimateSize := config, estimateSize;
      entries, stats := [], NO_STATS;
    }

    method Get(key: string, now: int) returns (value: Option<T>)
      requires Valid()
      modifies this
      ensures Valid()
      ensures (Now(), value) == Got(old(Now()), key, now)
    {
      GotKeepsConsistent(Now(), key, now);
      var i := IndexOf(entries, key);
      if i.None? {
        stats := Missed(stats);
        return None;
      }
      var entry := entries[i.value];
      if now > entry.expiresAt {
        var _ := Delete(key);
        stats := Missed(stats);
        return None;
      }
      entries := entries[i.value := Touched(entry, now)];
      stats := stats.(hits := stats.hits + 1);
      stats := stats.(hitRate := HitRate(stats.hits, stats.misses));
      value := Some(entry.value);
    }

    method Set(key: string, value: T, ttlMs: Option<int>, now: int)
      requires Valid()
      modifies this
      ensures Valid()
      ensures Now() == Put(config, old(Now()), key, value, estimateSize(value), ttlMs, now)
    {
      if |entries| >= config.maxEntries || stats.size >= config.maxSize {
        Evict();
      }
      Place(NewEntry(config, key, value, estimateSize(value), ttlMs, now));
    }

    /** The second half of `set`. */
    method Place(entry: Entry<T>)
      requires Valid()
      modifies this
      ensures Valid()
      ensures Now() == Placed(old(Now()), entry)
    {
      PlacedKeepsConsistent(Now(), entry);
      var i := IndexOf(entries, entry.key);
      if i.Some? {
        stats := stats.(size := stats.size - entries[i.value].size);
        entries := entries[i.value := entry];
      } else {
        entries := entries + [entry];
      }
      stats := stats.(size := stats.size + entry.size, entries := |entries|);
    }

    method Delete(key: string) returns (found: bool)
      requires Valid()
      modifies this
      ensures Valid()
      ensures Now() == Deleted(old(Now()), key)
      ensures found <==> IndexOf(old(entries), key).Some?
    {
      var i := IndexOf(entries, key);
      found := i.Some?;
      if found {
        DroppedKeepsConsistent(Now(), i.value);
        stats := stats.(size := stats.size - entries[i.value].size);
        entries := Without(entries, i.value);
        stats := stats.(entries := |entries|);
      }
    }

    method Has(key: string, now: int) returns (found: bool)
      requires Valid()
      modifies this
      ensures Valid()
      ensures (Now(), found) == Had(old(Now()), key, now)
    {
      var i := IndexOf(entries, key);
      if i.None? {
        return false;
      }
      if now > entries[i.value].expiresAt {
        var _ := Delete(key);
        return false;
      }
      found := true;
    }

    method Clear()
      requires Valid()
      modifies this
      ensures Valid()
      ensures Now() == Store([], old(stats).(size := 0, entries := 0))
    {
      entries := [];
      stats := stats.(size := 0, entries := 0);
    }

    /** The loops of `findLRU`, `findLFU` and `findFIFO`, which differ in what they compare. */
    method FindVictim() returns (key: Option<string>)
      ensures key.None? <==> entries == []
      ensures key.Some? ==> key.value == entries[Victim(entries, config.policy)].key
    {
      var best: Option<nat> := None;
      for i := 0 to |entries|
        invariant best.None? <==> i == 0
        invariant best.Some? ==> best.value < i && best.value == Victim(entries[..i], config.policy)
      {
        assert entries[..i + 1][..i] == entries[..i];
        if best.None? || Rank(entries[i], config.policy) < Rank(entries[best.value], config.policy) {
          best := Some(i);
        }
      }
      assert entries[..|entries|] == entries;
      key := if best.Some? then Some(entries[best.value].key) else None;
    }

    method Evict()
      requires Valid()
      modifies this
      ensures Valid()
      ensures Now() == Evicted(config, old(Now()))
    {
      if |entries| == 0 {
        return;
      }
      var keyToEvict := FindVictim();
      IndexOfEntry(entries, Victim(entries, config.policy));
      if keyToEvict.Some? && keyToEvict.value != "" {
        var _ := Delete(keyToEvict.value);
        stats := stats.(evictions := stats.evictions + 1);
      }
    }

    /** Iterates over the map while deleting from it. */
    method Cleanup(now: int) returns (cleaned: nat)
      requires Valid()
      modifies this
      ensures Valid()
      ensures Now() == Cleaned(old(Now()), now)
      ensures cleaned == |old(entries)| - |entries|
    {
      cleaned := 0;
      var i := 0;
      ghost var all, seen := Now(), 0;
      CleanedUpToEnds(all, now);
      while i < |entries|
        invariant 0 <= seen <= |all.entries| && i == |Live(all.entries[..seen], now)|
        invariant |entries| - i == |all.entries| - seen
        invariant Valid() && Now() == CleanedUpTo(all, seen, now)
        invariant cleaned == |all.entries| - |entries|
        decreases |all.entries| - seen
      {
        var removed := VisitEntry(i, now, all, seen);
        if removed {
          cleaned := cleaned + 1;
        } else {
          i := i + 1;
        }
        seen := seen + 1;
      }
      assert seen == |all.entries|;
    }

    /** One turn of the loop of `cleanup`. */
    method VisitEntry(i: nat, now: int, ghost all: Store<T>, ghost seen: nat) returns (removed: bool)
      requires Valid() && seen < |all.entries| && i == |Live(all.entries[..seen], now)|
      requires Now() == CleanedUpTo(all, seen, now)
      modifies this
      ensures Valid() && Now() == CleanedUpTo(all, seen + 1, now)
      ensures |entries| == |old(entries)| - if removed then 1 else 0
      ensures |Live(all.entries[..seen + 1], now)| == if removed then i else i + 1
    {
      CleanedUpToGrows(all, seen, now);
      removed := now > entries[i].expiresAt;
      if removed {
        IndexOfEntry(entries, i);
        var _ := Delete(entries[i].key);
      }
    }
  }
}
