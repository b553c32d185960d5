/** Real-time safety of token renewal: under which timing the token on disk is valid at
    every instant of every run; the conditions are exact. */
module TokenSafety {
  import opened Basics
  import opened TokenRenewal

  /** The greatest distance between two checks, the longest a renewal takes, and how many
      checks in a row may fail. */
  datatype Timing = Timing(interval: int, mintTime: int, failures: nat)

  /** A world, when its last check began, and how many checks have failed since one
      last succeeded or found nothing to do. */
  datatype Watch = Watch(world: World, lastCheck: int, failed: nat)

  /** What the environment promises: ticks come in time and not while a renewal may still
      be under way, renewals settle in time, and not too many fail in a row. */
  ghost predicate Promised(timing: Timing, s: Watch, e: Event) {
    CanHappen(s.world, e) &&
    match e
    case Wait(ms) =>
      && s.world.now + ms <= s.lastCheck + timing.interval
      && (s.world.renewalInFlight.Some? ==> s.world.now + ms <= s.lastCheck + timing.mintTime)
    case Tick(_) => s.lastCheck + timing.mintTime < s.world.now
    case Failed(_) => s.failed < timing.failures
    case Validated(_) => true
    case Renamed(_) => true
    case Finished(_) => true
    case _ => false
  }

  ghost function Observe(config: Config, s: Watch, e: Event): Watch
    requires CanHappen(s.world, e)
  {
    var world := Step(config, s.world, e);
    match e
    case Tick(_) => Watch(world, s.world.now, if world.renewalInFlight.Some? then s.failed else 0)
    case Finished(_) => Watch(world, s.lastCheck, 0)
    case Failed(_) => Watch(world, s.lastCheck, s.failed + 1)
    case _ => Watch(world, s.lastCheck, s.failed)
  }

  ghost predicate Run(config: Config, timing: Timing, s: Watch, events: seq<Event>)
    decreases |events|
  {
    events == [] || (Promised(timing, s, events[0]) && Run(config, timing, Observe(config, s, events[0]), events[1..]))
  }

  ghost function End(config: Config, timing: Timing, s: Watch, events: seq<Event>): Watch
    requires Run(config, timing, s, events)
    decreases |events|
  {
    if events == [] then s else End(config, timing, Observe(config, s, events[0]), events[1..])
  }

  ghost predicate Unexpired(s: Watch) {
    s.world.OnDisk().Some? && s.world.now < s.world.OnDisk().value.expiresAt
  }

  /** The token on disk is unexpired at the end of every run, hence at every instant. */
  ghost predicate AlwaysUnexpired(config: Config, timing: Timing, s: Watch) {
    forall events :: Run(config, timing, s, events) ==> Unexpired(End(config, timing, s, events))
  }

  // ---------------------------------------------------------------- the conditions

  /** What a token must still have left when a check begins, after `failed` failures. */
  ghost function Needed(timing: Timing, failed: nat): int {
    (timing.failures - failed) * timing.interval + timing.mintTime
  }

  lemma NeededStep(timing: Timing, failed: nat)
    ensures Needed(timing, failed) == Needed(timing, failed + 1) + timing.interval
  {
  }

  lemma NeededPositive(timing: Timing, failed: nat)
    requires failed <= timing.failures && 0 <= timing.mintTime < timing.interval
    ensures timing.mintTime <= Needed(timing, failed) <= Needed(timing, 0)
  {
  }

  function MintedLifetime(config: Config): int {
    config.tokenExpiryMs / 1000 * 1000
  }

  /** A token that is not due yet will still have enough left at the next check. */
  ghost predicate EarlyEnough(config: Config, timing: Timing, lifetime: int) {
    lifetime as real * config.fraction >= (Needed(timing, 0) + timing.interval) as real
  }

  /** What the token has left when it falls due. */
  ghost function Threshold(config: Config, r: Record): real {
    Lifetime(r) as real * config.fraction
  }

  /** How few checks, if spaced as widely as promised, bring a token that has `left` now to
      where one more check would come too late for it. */
  ghost function FewestChecks(timing: Timing, left: int): nat
    requires timing.interval > 0
    decreases if left > Needed(timing, 0) + timing.interval then left - Needed(timing, 0) - timing.interval else 0
  {
    if left <= Needed(timing, 0) + timing.interval then 0 else 1 + FewestChecks(timing, left - timing.interval)
  }

  /** Checks that find the token not due yet cannot bring it there: either it falls due
      early enough, or so many checks, spaced as closely as promised, find it due. */
  ghost predicate FallsDueInTime(config: Config, timing: Timing, r: Record, at: int)
    requires 0 <= timing.mintTime < timing.interval
  {
    || EarlyEnough(config, timing, Lifetime(r))
    || (Remaining(r, at) - FewestChecks(timing, Remaining(r, at)) * (timing.mintTime + 1)) as real
       <= Threshold(config, r)
  }

  /** A new token lasts over the next check and its failures, and checks cannot miss the time
      when it falls due, in whichever millisecond of a second it was minted: `iat` and `exp`
      are cut to whole seconds. */
  ghost predicate Tolerant(config: Config, timing: Timing) {
    && 0 <= timing.mintTime < timing.interval
    && MintedLifetime(config) >= Needed(timing, 0) + timing.interval + 1000
    && forall at :: 0 <= at < 1000 ==> FallsDueInTime(config, timing, Mint(config, at, ""), at)
  }

  lemma MintedExpiry(config: Config, now: int, token: string)
    ensures var r := Mint(config, now, token);
            && r.token == token && Lifetime(r) == MintedLifetime(config)
            && r.expiresAt == now - now % 1000 + MintedLifetime(config)
  {
  }

  lemma MintedFallsDueInTime(config: Config, timing: Timing, now: int, token: string)
    requires Tolerant(config, timing)
    ensures FallsDueInTime(config, timing, Mint(config, now, token), now)
  {
    MintedExpiry(config, now, token);
    MintedExpiry(config, now % 1000, "");
    assert FallsDueInTime(config, timing, Mint(config, now % 1000, ""), now % 1000);
    assert Remaining(Mint(config, now, token), now) == Remaining(Mint(config, now % 1000, ""), now % 1000);
  }

  // ---------------------------------------------------------------- the invariant

  ghost predicate Lasts(timing: Timing, s: Watch, r: Record, from: int) {
    r.expiresAt - from > Needed(timing, s.failed)
  }

  ghost predicate Ready(config: Config, timing: Timing, s: Watch)
    requires 0 <= timing.mintTime < timing.interval
  {
    && Inv(s.world) && s.world.enabled && s.world.renewalTimer
    && s.world.currentRecord.Some? && s.world.OnDisk().Some?
    && s.lastCheck <= s.world.now && s.failed <= timing.failures
    && FallsDueInTime(config, timing, s.world.currentRecord.value, s.lastCheck)
  }

  ghost predicate BetweenChecks(config: Config, timing: Timing, s: Watch)
    requires 0 <= timing.mintTime < timing.interval && Ready(config, timing, s)
  {
    var current, disk := s.world.currentRecord.value, s.world.OnDisk().value;
    && s.world.renewalInFlight.None?
    && s.world.now <= s.lastCheck + timing.interval
    && Lasts(timing, s, current, s.lastCheck + timing.interval)
    && Lasts(timing, s, disk, s.lastCheck + timing.interval)
    && (disk != current ==> Due(config, current, s.lastCheck))
  }

  ghost predicate DuringRenewal(config: Config, timing: Timing, s: Watch)
    requires 0 <= timing.mintTime < timing.interval && Ready(config, timing, s)
  {
    var current, disk := s.world.currentRecord.value, s.world.OnDisk().value;
    && s.world.renewalInFlight.Some?
    && s.world.now <= s.lastCheck + timing.mintTime
    && Lasts(timing, s, current, s.lastCheck)
    && Lasts(timing, s, disk, s.lastCheck)
    && Due(config, current, s.lastCheck)
    && var stage := s.world.running[s.world.renewalInFlight.value];
    && stage.record == Mint(config, s.lastCheck, stage.record.token)
    && (stage.Landed? ==> disk == stage.record)
  }

  ghost predicate TimedInv(config: Config, timing: Timing, s: Watch)
    requires 0 <= timing.mintTime < timing.interval
  {
    Ready(config, timing, s) && (BetweenChecks(config, timing, s) || DuringRenewal(config, timing, s))
  }

  lemma InvMeansUnexpired(config: Config, timing: Timing, s: Watch)
    requires Tolerant(config, timing) && TimedInv(config, timing, s)
    ensures Unexpired(s)
  {
    NeededPositive(timing, s.failed);
  }

  /** While a token is not due it has more left than the next check and its failures need. */
  lemma NotDueLeavesRoom(config: Config, timing: Timing, r: Record, at: int)
    requires 0 <= timing.mintTime < timing.interval && FallsDueInTime(config, timing, r, at) && !Due(config, r, at)
    ensures Remaining(r, at) > Needed(timing, 0) + timing.interval
  {
  }

  lemma {:induction false} FewerChecksForLess(timing: Timing, less: int, more: int)
    requires timing.interval > 0 && less <= more
    ensures FewestChecks(timing, less) <= FewestChecks(timing, more)
    decreases if less > Needed(timing, 0) + timing.interval then less - Needed(timing, 0) - timing.interval else 0
  {
    if less <= Needed(timing, 0) + timing.interval {
    } else {
      FewerChecksForLess(timing, less - timing.interval, more - timing.interval);
    }
  }

  /** A check no earlier than promised: at most one fewer is needed after it. */
  lemma OneCheckLess(timing: Timing, left: int, gap: int)
    requires 0 <= timing.mintTime < gap <= timing.interval
    ensures var few, after := FewestChecks(timing, left), FewestChecks(timing, left - gap);
            if few == 0 then after == 0 else after * (timing.mintTime + 1) + gap >= few * (timing.mintTime + 1)
  {
    var few, after := FewestChecks(timing, left), FewestChecks(timing, left - gap);
    if few > 0 {
      FewerChecksForLess(timing, left - timing.interval, left - gap);
      Multiples(few - 1, after, timing.mintTime + 1);
    }
  }

  lemma Multiples(a: nat, b: nat, unit: nat)
    requires a <= b
    ensures 0 <= a * unit <= b * unit && (a + 1) * unit == a * unit + unit
  {
  }

  lemma StillFallsDueInTime(config: Config, timing: Timing, r: Record, at: int, gap: int)
    requires 0 <= timing.mintTime < gap <= timing.interval && FallsDueInTime(config, timing, r, at)
    ensures FallsDueInTime(config, timing, r, at + gap)
  {
    OneCheckLess(timing, Remaining(r, at), gap);
  }

  lemma CheckKeepsInv(config: Config, timing: Timing, s: Watch, token: string)
    requires Tolerant(config, timing) && TimedInv(config, timing, s) && Promised(timing, s, Tick(token))
    ensures TimedInv(config, timing, Observe(config, s, Tick(token)))
  {
    var after := Observe(config, s, Tick(token));
    var current := s.world.currentRecord.value;
    StepKeepsInv(config, s.world, Tick(token));
    MintedExpiry(config, s.world.now, token);
    StillFallsDueInTime(config, timing, current, s.lastCheck, s.world.now - s.lastCheck);
    if !Due(config, current, s.world.now) {
      NotDueLeavesRoom(config, timing, current, s.world.now);
      assert BetweenChecks(config, timing, after);
    } else {
      assert DuringRenewal(config, timing, after);
    }
  }

  lemma OutcomeKeepsInv(config: Config, timing: Timing, s: Watch, e: Event)
    requires Tolerant(config, timing) && TimedInv(config, timing, s) && Promised(timing, s, e)
    requires e.Finished? || e.Failed?
    ensures TimedInv(config, timing, Observe(config, s, e))
  {
    var after := Observe(config, s, e);
    StepKeepsInv(config, s.world, e);
    NeededStep(timing, s.failed);
    NeededPositive(timing, 0);
    assert DuringRenewal(config, timing, s);
    MintedExpiry(config, s.lastCheck, s.world.running[e.id].record.token);
    MintedFallsDueInTime(config, timing, s.lastCheck, s.world.running[e.id].record.token);
    assert BetweenChecks(config, timing, after);
  }

  lemma ProgressKeepsInv(config: Config, timing: Timing, s: Watch, e: Event)
    requires Tolerant(config, timing) && TimedInv(config, timing, s) && Promised(timing, s, e)
    requires e.Wait? || e.Validated? || e.Renamed?
    ensures TimedInv(config, timing, Observe(config, s, e))
  {
    StepKeepsInv(config, s.world, e);
    NeededPositive(timing, 0);
    NeededPositive(timing, s.failed);
    NeededStep(timing, 0);
    if !e.Wait? {
      assert DuringRenewal(config, timing, s);
      MintedExpiry(config, s.lastCheck, s.world.running[e.id].record.token);
      assert DuringRenewal(config, timing, Observe(config, s, e));
    }
  }

  lemma {:induction false} RunsStayUnexpired(config: Config, timing: Timing, s: Watch, events: seq<Event>)
    requires Tolerant(config, timing) && TimedInv(config, timing, s) && Run(config, timing, s, events)
    ensures Unexpired(End(config, timing, s, events))
    decreases |events|
  {
    if events == [] {
      InvMeansUnexpired(config, timing, s);
    } else {
      var e := events[0];
      if e.Tick? {
        CheckKeepsInv(config, timing, s, e.token);
      } else if e.Finished? || e.Failed? {
        OutcomeKeepsInv(config, timing, s, e);
      } else {
        ProgressKeepsInv(config, timing, s, e);
      }
      RunsStayUnexpired(config, timing, Observe(config, s, e), events[1..]);
    }
  }

  // ---------------------------------------------------------------- starting

  /** `startAutoRenew` has just run. */
  ghost function Begin(config: Config, w: World, token: string): Watch
    requires CanBegin(w)
  {
    Watch(Step(config, w, Start(token)), w.now, 0)
  }

  lemma BeginEstablishesInv(config: Config, timing: Timing, w: World, token: string)
    requires Tolerant(config, timing) && CanBegin(w)
    requires Remaining(w.currentRecord.value, w.now) > Needed(timing, 0)
    requires FallsDueInTime(config, timing, w.currentRecord.value, w.now)
    ensures TimedInv(config, timing, Begin(config, w, token))
  {
  }

  // ---------------------------------------------------------------- the conditions are needed

  /** Some run ends with the token on disk expired. */
  ghost predicate Doomed(config: Config, timing: Timing, s: Watch) {
    exists events :: Run(config, timing, s, events) && !Unexpired(End(config, timing, s, events))
  }

  lemma DoomedLater(config: Config, timing: Timing, s: Watch, e: Event)
    requires Promised(timing, s, e) && Doomed(config, timing, Observe(config, s, e))
    ensures Doomed(config, timing, s)
  {
    var next := Observe(config, s, e);
    var events :| Run(config, timing, next, events) && !Unexpired(End(config, timing, next, events));
    var longer := [e] + events;
    assert longer[0] == e && longer[1..] == events;
    assert Run(config, timing, s, longer);
    assert End(config, timing, s, longer) == End(config, timing, next, events);
  }

  lemma DoomedNow(config: Config, timing: Timing, s: Watch)
    requires !Unexpired(s)
    ensures Doomed(config, timing, s)
  {
    assert Run(config, timing, s, []);
    assert End(config, timing, s, []) == s;
  }

  /** Running, with the same token in memory and on disk. */
  ghost predicate Settled(timing: Timing, s: Watch) {
    && 0 <= timing.mintTime < timing.interval
    && Inv(s.world) && s.world.enabled && s.world.renewalTimer
    && s.world.currentRecord.Some? && s.world.OnDisk() == s.world.currentRecord
    && s.lastCheck <= s.world.now && s.failed <= timing.failures
  }

  ghost function Left(s: Watch): nat
    requires s.world.currentRecord.Some?
  {
    var expiry := s.world.currentRecord.value.expiresAt;
    if expiry > s.lastCheck then expiry - s.lastCheck else 0
  }

  /** A renewal that began with too little left can fail, or take until after expiry. */
  lemma {:induction false} LateRenewalDooms(config: Config, timing: Timing, s: Watch)
    requires Settled(timing, s) && s.world.renewalInFlight.Some? && s.world.now == s.lastCheck
    requires s.world.currentRecord.value.expiresAt - s.lastCheck <= Needed(timing, s.failed)
    ensures Doomed(config, timing, s)
    decreases Left(s), 1
  {
    if s.failed < timing.failures {
      var e := Failed(s.world.renewalInFlight.value);
      StepKeepsInv(config, s.world, e);
      NeededStep(timing, s.failed);
      LateCheckDooms(config, timing, Observe(config, s, e));
      DoomedLater(config, timing, s, e);
    } else {
      var e := Wait(timing.mintTime);
      assert Needed(timing, s.failed) == timing.mintTime;
      DoomedNow(config, timing, Observe(config, s, e));
      DoomedLater(config, timing, s, e);
    }
  }

  /** So can every renewal from now on, if too little will be left at the next check. */
  lemma {:induction false} LateCheckDooms(config: Config, timing: Timing, s: Watch)
    requires Settled(timing, s) && s.world.renewalInFlight.None?
    requires s.world.now <= s.lastCheck + timing.interval
    requires s.world.currentRecord.value.expiresAt - s.lastCheck - timing.interval <= Needed(timing, s.failed)
    ensures Doomed(config, timing, s)
    decreases Left(s), 0
  {
    if !Unexpired(s) {
      DoomedNow(config, timing, s);
      return;
    }
    var wait := Wait(s.lastCheck + timing.interval - s.world.now);
    var atTick := Observe(config, s, wait);
    StepKeepsInv(config, s.world, wait);
    var tick := Tick("");
    var checked := Observe(config, atTick, tick);
    StepKeepsInv(config, atTick.world, tick);
    assert Left(checked) < Left(s);
    if checked.world.renewalInFlight.Some? {
      LateRenewalDooms(config, timing, checked);
    } else {
      NeededPositive(timing, s.failed);
      LateCheckDooms(config, timing, checked);
    }
    DoomedLater(config, timing, atTick, tick);
    DoomedLater(config, timing, s, wait);
  }

  /** So many checks can find the token not due yet until one more would come too late. */
  ghost predicate CanMiss(config: Config, timing: Timing, r: Record, at: int, checks: nat) {
    && Remaining(r, at) - checks * timing.interval <= Needed(timing, 0) + timing.interval
    && (Remaining(r, at) - checks * (timing.mintTime + 1)) as real > Threshold(config, r)
  }

  lemma {:induction false} LateDueDooms(config: Config, timing: Timing, s: Watch, checks: nat)
    requires Settled(timing, s) && s.world.renewalInFlight.None? && s.failed == 0 && s.world.now == s.lastCheck
    requires !EarlyEnough(config, timing, Lifetime(s.world.currentRecord.value))
    requires CanMiss(config, timing, s.world.currentRecord.value, s.lastCheck, checks)
    ensures Doomed(config, timing, s)
    decreases checks
  {
    if checks == 0 {
      LateCheckDooms(config, timing, s);
    } else {
      var gap := NextMiss(config, timing, s.world.currentRecord.value, s.lastCheck, checks);
      var next := FindNotDue(config, timing, s, gap);
      LateDueDooms(config, timing, next, checks - 1);
    }
  }

  lemma NextMiss(config: Config, timing: Timing, r: Record, at: int, checks: nat) returns (gap: nat)
    requires 0 <= timing.mintTime < timing.interval && !EarlyEnough(config, timing, Lifetime(r))
    requires 0 < checks && CanMiss(config, timing, r, at, checks)
    ensures timing.mintTime < gap <= timing.interval
    ensures CanMiss(config, timing, r, at + gap, checks - 1) && !Due(config, r, at + gap)
  {
    var target, least := Needed(timing, 0) + timing.interval, timing.mintTime + 1;
    gap := NextCheck(Remaining(r, at), target, timing.interval, least, checks);
    Multiples(0, checks - 1, least);
    var others := (checks - 1) * least;
    var atLast := Remaining(r, at + gap) - others;
    assert target as real > Threshold(config, r);
    assert atLast as real > Threshold(config, r);
    assert Remaining(r, at + gap) >= atLast;
  }

  /** The world after a check `gap` later, which finds the token not due yet. */
  lemma FindNotDue(config: Config, timing: Timing, s: Watch, gap: nat) returns (next: Watch)
    requires Settled(timing, s) && s.world.renewalInFlight.None? && s.failed == 0 && s.world.now == s.lastCheck
    requires timing.mintTime < gap <= timing.interval
    requires !Due(config, s.world.currentRecord.value, s.lastCheck + gap)
    ensures Settled(timing, next) && next.world.renewalInFlight.None? && next.failed == 0
    ensures next.world.now == next.lastCheck == s.lastCheck + gap
    ensures next.world.currentRecord == s.world.currentRecord
    ensures Doomed(config, timing, next) ==> Doomed(config, timing, s)
  {
    var wait, tick := Wait(gap), Tick("");
    var atTick := Observe(config, s, wait);
    StepKeepsInv(config, s.world, wait);
    StepKeepsInv(config, atTick.world, tick);
    next := Observe(config, atTick, tick);
    if Doomed(config, timing, next) {
      DoomedLater(config, timing, atTick, tick);
      DoomedLater(config, timing, s, wait);
    }
  }

  /** When to place the next of some checks that can bring `left` down to `target`. */
  lemma NextCheck(left: int, target: int, interval: nat, least: nat, checks: nat) returns (gap: nat)
    requires 0 < checks && 0 < least <= interval && left - checks * interval <= target
    ensures least <= gap <= interval && left - gap - (checks - 1) * interval <= target
    ensures left - gap - (checks - 1) * least >= left - checks * least
         || left - gap - (checks - 1) * least >= target
  {
    var others := checks - 1;
    Multiples(others, others, interval);
    Multiples(others, others, least);
    assert others * least <= others * interval;
    var latest := left - others * interval - target;
    gap := if latest > least then latest else least;
  }

  lemma {:induction false} FewestChecksSuffice(timing: Timing, left: int)
    requires 0 <= timing.mintTime < timing.interval
    ensures left - FewestChecks(timing, left) * timing.interval <= Needed(timing, 0) + timing.interval
    decreases if left > Needed(timing, 0) + timing.interval then left - Needed(timing, 0) - timing.interval else 0
  {
    if left <= Needed(timing, 0) + timing.interval {
    } else {
      FewestChecksSuffice(timing, left - timing.interval);
      var others := FewestChecks(timing, left - timing.interval);
      Multiples(others, others, timing.interval);
    }
  }

  /** A start is safe in every run exactly when the token it finds has more left than a
      renewal and its failures need, and checks cannot miss the time when it falls due; for
      every tolerant configuration and timing, and whatever lifetime that token was given. */
  lemma StartIsSafeExactlyWhen(config: Config, timing: Timing, w: World, token: string)
    requires Tolerant(config, timing) && CanBegin(w)
    ensures var r := w.currentRecord.value;
            AlwaysUnexpired(config, timing, Begin(config, w, token))
            <==> Remaining(r, w.now) > Needed(timing, 0) && FallsDueInTime(config, timing, r, w.now)
  {
    var s, r := Begin(config, w, token), w.currentRecord.value;
    StepKeepsInv(config, w, Start(token));
    if Remaining(r, w.now) <= Needed(timing, 0) {
      if Due(config, r, w.now) {
        LateRenewalDooms(config, timing, s);
      } else {
        LateCheckDooms(config, timing, s);
      }
    } else if FallsDueInTime(config, timing, r, w.now) {
      BeginEstablishesInv(config, timing, w, token);
      forall events | Run(config, timing, s, events)
        ensures Unexpired(End(config, timing, s, events))
      {
        RunsStayUnexpired(config, timing, s, events);
      }
    } else {
      FewestChecksSuffice(timing, Remaining(r, w.now));
      NotDueUnlessInTime(config, timing, r, w.now);
      LateDueDooms(config, timing, s, FewestChecks(timing, Remaining(r, w.now)));
    }
  }

  lemma NotDueUnlessInTime(config: Config, timing: Timing, r: Record, at: int)
    requires 0 <= timing.mintTime < timing.interval
    ensures Due(config, r, at) ==> FallsDueInTime(config, timing, r, at)
  {
    var few := FewestChecks(timing, Remaining(r, at));
    assert few * (timing.mintTime + 1) >= 0;
  }

  /** For a token that is already due, or falls due early enough, what it has left decides. */
  lemma DueStartIsSafeExactlyWhen(config: Config, timing: Timing, w: World, token: string)
    requires Tolerant(config, timing) && CanBegin(w)
    requires var r := w.currentRecord.value; Due(config, r, w.now) || EarlyEnough(config, timing, Lifetime(r))
    ensures AlwaysUnexpired(config, timing, Begin(config, w, token))
            <==> Remaining(w.currentRecord.value, w.now) > Needed(timing, 0)
  {
    StartIsSafeExactlyWhen(config, timing, w, token);
    NotDueUnlessInTime(config, timing, w.currentRecord.value, w.now);
  }

  /** A stopped manager that mints its first token and is started at once. */
  ghost function FirstStart(config: Config, w: World, minted: string, token: string): Watch
    requires Inv(w) && w.enabled && !w.renewalTimer && w.renewalInFlight.None?
  {
    EnsuredCanBegin(config, w, None, minted, true);
    Begin(config, Ensured(config, w, None, minted, true), token)
  }

  /** In a tolerant configuration it keeps a valid token on disk in every run. */
  lemma FirstTokenIsSafe(config: Config, timing: Timing, w: World, minted: string, token: string)
    requires Tolerant(config, timing) && Inv(w) && w.enabled && !w.renewalTimer && w.renewalInFlight.None?
    ensures AlwaysUnexpired(config, timing, FirstStart(config, w, minted, token))
  {
    EnsuredCanBegin(config, w, None, minted, true);
    MintedExpiry(config, w.now, minted);
    MintedFallsDueInTime(config, timing, w.now, minted);
    StartIsSafeExactlyWhen(config, timing, Ensured(config, w, None, minted, true), token);
  }

  /** Once a renewal has succeeded in no time, too short a lifetime dooms its token. */
  lemma ShortLifetimeDooms(config: Config, timing: Timing, s: Watch)
    requires Settled(timing, s) && s.world.renewalInFlight.Some? && s.world.now == s.lastCheck
    requires var id := s.world.renewalInFlight.value;
             s.world.running[id] == Validating(Mint(config, s.lastCheck, s.world.running[id].record.token))
    requires MintedLifetime(config) - s.lastCheck % 1000 <= Needed(timing, 0) + timing.interval
    ensures Doomed(config, timing, s)
  {
    var id := s.world.renewalInFlight.value;
    MintedExpiry(config, s.lastCheck, s.world.running[id].record.token);
    var s1 := Observe(config, s, Validated(id));
    var s2 := Observe(config, s1, Renamed(id));
    var s3 := Observe(config, s2, Finished(id));
    StepKeepsInv(config, s.world, Validated(id));
    StepKeepsInv(config, s1.world, Renamed(id));
    StepKeepsInv(config, s2.world, Finished(id));
    LateCheckDooms(config, timing, s3);
    DoomedLater(config, timing, s2, Finished(id));
    DoomedLater(config, timing, s1, Renamed(id));
    DoomedLater(config, timing, s, Validated(id));
  }

  /** A manager with nothing on disk yet. */
  function Blank(now: int): World {
    World(now, true, None, false, None, map[], 0, [])
  }

  /** In a configuration that is not tolerant some first token is not safe. */
  lemma IntolerantDooms(config: Config, timing: Timing, at: int)
    requires 0 <= timing.mintTime < timing.interval && 0 <= at < 1000
    requires || MintedLifetime(config) - at <= Needed(timing, 0) + timing.interval
             || !FallsDueInTime(config, timing, Mint(config, at, ""), at)
    ensures !AlwaysUnexpired(config, timing, FirstStart(config, Blank(at), "", ""))
  {
    var w := Ensured(config, Blank(at), None, "", true);
    var r, s := w.currentRecord.value, FirstStart(config, Blank(at), "", "");
    EnsuredCanBegin(config, Blank(at), None, "", true);
    MintedExpiry(config, at, "");
    StepKeepsInv(config, w, Start(""));
    if Due(config, r, at) {
      NotDueUnlessInTime(config, timing, r, at);
      ShortLifetimeDooms(config, timing, s);
    } else if Remaining(r, at) <= Needed(timing, 0) + timing.interval {
      LateCheckDooms(config, timing, s);
    } else {
      FewestChecksSuffice(timing, Remaining(r, at));
      LateDueDooms(config, timing, s, FewestChecks(timing, Remaining(r, at)));
    }
  }

  /** Tolerance is exact: every first token is safe from every start time exactly in the
      tolerant configurations. */
  lemma TolerantExactlyWhen(config: Config, timing: Timing)
    requires 0 <= timing.mintTime < timing.interval
    ensures Tolerant(config, timing)
            <==> forall w, minted, token ::
                   Inv(w) && w.enabled && !w.renewalTimer && w.renewalInFlight.None?
                   ==> AlwaysUnexpired(config, timing, FirstStart(config, w, minted, token))
  {
    if Tolerant(config, timing) {
      forall w, minted, token | Inv(w) && w.enabled && !w.renewalTimer && w.renewalInFlight.None?
        ensures AlwaysUnexpired(config, timing, FirstStart(config, w, minted, token))
      {
        FirstTokenIsSafe(config, timing, w, minted, token);
      }
    } else {
      var at := if MintedLifetime(config) < Needed(timing, 0) + timing.interval + 1000 then 999
                else Untimely(config, timing);
      IntolerantDooms(config, timing, at);
      assert Inv(Blank(at));
    }
  }

  ghost function Untimely(config: Config, timing: Timing): (at: int)
    requires 0 <= timing.mintTime < timing.interval
    requires exists at :: 0 <= at < 1000 && !FallsDueInTime(config, timing, Mint(config, at, ""), at)
    ensures 0 <= at < 1000 && !FallsDueInTime(config, timing, Mint(config, at, ""), at)
  {
    var at :| 0 <= at < 1000 && !FallsDueInTime(config, timing, Mint(config, at, ""), at);
    at
  }

  /** The threshold has to leave room for the next check and the failures after it: a
      token that is not due yet, but would be needed sooner than that, is lost in some run. */
  lemma LateThresholdDooms(config: Config, timing: Timing, w: World, token: string)
    requires 0 <= timing.mintTime < timing.interval && CanBegin(w)
    requires !Due(config, w.currentRecord.value, w.now)
    requires Remaining(w.currentRecord.value, w.now) <= Needed(timing, 0) + timing.interval
    ensures !AlwaysUnexpired(config, timing, Begin(config, w, token))
  {
    StepKeepsInv(config, w, Start(token));
    LateCheckDooms(config, timing, Begin(config, w, token));
  }

  /** The last second counts: with a lifetime short of it, a renewal that begins in the
      last millisecond of a second is followed by a run in which the new token is lost,
      however long the old one was still valid. */
  lemma TruncationDooms(config: Config, timing: Timing, w: World, token: string)
    requires 0 <= timing.mintTime < timing.interval && CanBegin(w)
    requires MintedLifetime(config) < Needed(timing, 0) + timing.interval + 1000
    requires w.now % 1000 == 999 && Due(config, w.currentRecord.value, w.now)
    ensures !AlwaysUnexpired(config, timing, Begin(config, w, token))
  {
    StepKeepsInv(config, w, Start(token));
    ShortLifetimeDooms(config, timing, Begin(config, w, token));
  }

  lemma {:induction false} FewestIsLeast(timing: Timing, left: int, checks: nat)
    requires 0 <= timing.mintTime < timing.interval
    requires left - checks * timing.interval <= Needed(timing, 0) + timing.interval
    ensures FewestChecks(timing, left) <= checks
    decreases checks
  {
    if left <= Needed(timing, 0) + timing.interval {
    } else {
      assert checks > 0;
      Multiples(checks - 1, checks - 1, timing.interval);
      FewestIsLeast(timing, left - timing.interval, checks - 1);
    }
  }

  lemma MissMeansUntimely(config: Config, timing: Timing, r: Record, at: int, checks: nat)
    requires 0 <= timing.mintTime < timing.interval && !EarlyEnough(config, timing, Lifetime(r))
    requires CanMiss(config, timing, r, at, checks)
    ensures !FallsDueInTime(config, timing, r, at)
  {
    FewestIsLeast(timing, Remaining(r, at), checks);
    Multiples(FewestChecks(timing, Remaining(r, at)), checks, timing.mintTime + 1);
  }

  /** The shipped settings, a year's lifetime renewed in its last fifth and checked every
      six hours, survive exactly 290 failed checks in a row when a renewal takes time. */
  lemma DefaultsTolerate(mintTime: int, failures: nat)
    requires 0 < mintTime < 21_600_000
    ensures Tolerant(Config(0.2, 31_536_000_000), Timing(21_600_000, mintTime, failures)) <==> failures <= 290
  {
    var config, timing := Config(0.2, 31_536_000_000), Timing(21_600_000, mintTime, failures);
    assert Needed(timing, 0) + timing.interval == (failures + 1) * 21_600_000 + mintTime;
    assert MintedLifetime(config) == 31_536_000_000;
    if failures <= 290 {
      forall at | 0 <= at < 1000
        ensures FallsDueInTime(config, timing, Mint(config, at, ""), at)
      {
        MintedExpiry(config, at, "");
      }
    } else {
      var early := mintTime + 1 < timing.interval;
      var at, checks := if early then 0 else 1, if early then 1168 else 1167;
      MintedExpiry(config, at, "");
      MissMeansUntimely(config, timing, Mint(config, at, ""), at, checks);
    }
  }
}
