/** Automatic renewal of the bootstrap-admin token (apps/server/src/bootstrap-admin.ts):
    the manager, and the runs it takes part in. Times are milliseconds since the epoch. */
module TokenRenewal {
  import opened Basics

  datatype Record = Record(token: string, createdAt: int, expiresAt: int)

  /** `renewalThresholdFraction` and `tokenExpiryMs`. */
  datatype Config = Config(fraction: real, tokenExpiryMs: nat)

  /** The record of a token minted at `now`. Both claims are whole seconds: `iat` and
      `exp` of sections 4.1.6 and 4.1.4 of RFC 7519. */
  function Mint(config: Config, now: int, token: string): Record {
    var iat := now / 1000;
    Record(token, iat * 1000, (iat + config.tokenExpiryMs / 1000) * 1000)
  }

  /** How far an asynchronous renewal has come: the token is minted and being validated,
      the record is being written to a temporary file, or it has been renamed into place. */
  datatype Stage = Validating(record: Record) | Writing(record: Record) | Landed(record: Record)

  /** The manager's three fields, and what it acts on: the clock, the renewals under way
      (each the promise of one call), and the records renamed into place so far. */
  datatype World = World(
    now: int,
    enabled: bool,
    currentRecord: Option<Record>,
    renewalTimer: bool,
    renewalInFlight: Option<nat>,
    running: map<nat, Stage>,
    started: nat,
    persisted: seq<Record>)
  {
    /** What the token file holds. */
    function OnDisk(): Option<Record> {
      if persisted == [] then None else Some(persisted[|persisted| - 1])
    }
  }

  // ---------------------------------------------------------------- the turns of the event loop

  function Remaining(r: Record, now: int): int {
    r.expiresAt - now
  }

  function Lifetime(r: Record): int {
    r.expiresAt - r.createdAt
  }

  /** The test of `maybeRenewToken`. */
  predicate Due(config: Config, r: Record, now: int) {
    !(Remaining(r, now) as real > Lifetime(r) as real * config.fraction)
  }

  function Triggered(config: Config, w: World, token: string): World {
    if w.renewalInFlight.Some? || !w.enabled || w.currentRecord.None?
       || !Due(config, w.currentRecord.value, w.now) then w
    else
      w.(running := w.running[w.started := Validating(Mint(config, w.now, token))],
         renewalInFlight := Some(w.started),
         started := w.started + 1)
  }

  /** The promise of a renewal settles, either way. */
  function Settle(w: World, id: nat): World {
    w.(running := w.running - {id},
       renewalInFlight := if w.renewalInFlight == Some(id) then None else w.renewalInFlight)
  }

  /** `ensureToken`: the record on disk if it is valid, otherwise a new one, if it can be
      written. */
  function Ensured(config: Config, w: World, loaded: Option<Record>, token: string, persists: bool): World {
    if !w.enabled then w.(currentRecord := None)
    else if loaded.Some? then w.(currentRecord := loaded)
    else if !persists then w
    else
      var record := Mint(config, w.now, token);
      w.(currentRecord := Some(record), persisted := w.persisted + [record])
  }

  datatype Event =
    | Wait(ms: nat)
    | Start(token: string)
    | Tick(token: string)
    | Validated(id: nat)
    | Renamed(id: nat)
    | Finished(id: nat)
    | Failed(id: nat)
    | StopCalled
    | StopReturned

  /** When the runtime can deliver an event. */
  predicate CanHappen(w: World, e: Event) {
    match e
    case Wait(_) => true
    case Start(_) => true
    case Tick(_) => w.renewalTimer
    case Validated(id) => id in w.running && w.running[id].Validating?
    case Renamed(id) => id in w.running && w.running[id].Writing?
    case Finished(id) => id in w.running && w.running[id].Landed?
    case Failed(id) => id in w.running
    case StopCalled => true
    case StopReturned => w.renewalInFlight.None?
  }

  function Step(config: Config, w: World, e: Event): World
    requires CanHappen(w, e)
  {
    match e
    case Wait(ms) => w.(now := w.now + ms)
    case Start(token) =>
      if !w.enabled || w.renewalTimer then w
      else Triggered(config, w, token).(renewalTimer := true)
    case Tick(token) => Triggered(config, w, token)
    case Validated(id) => w.(running := w.running[id := Writing(w.running[id].record)])
    case Renamed(id) =>
      w.(running := w.running[id := Landed(w.running[id].record)],
         persisted := w.persisted + [w.running[id].record])
    case Finished(id) => Settle(w.(currentRecord := Some(w.running[id].record)), id)
    case Failed(id) => Settle(w, id)
    case StopCalled => w.(renewalTimer := false)
    case StopReturned => w
  }

  // ---------------------------------------------------------------- the manager

  class BootstrapAdminManager {
    const config: Config
    const enabled: bool
    var currentRecord: Option<Record>
    var renewalTimer: bool
    var renewalInFlight: Option<nat>
    ghost var running: map<nat, Stage>
    ghost var persisted: seq<Record>
    var started: nat

    ghost function At(now: int): World
      reads this
    {
      World(now, enabled, currentRecord, renewalTimer, renewalInFlight, running, started, persisted)
    }

    /** A new manager; an earlier one may have left records on disk. */
    constructor (config: Config, enabled: bool, ghost onDisk: seq<Record>)
      ensures forall now :: At(now) == World(now, enabled, None, false, None, map[], 0, onDisk)
      ensures forall now :: Inv(At(now))
      ensures this.config == config
    {
      this.config, this.enabled := config, enabled;
      currentRecord, renewalTimer, renewalInFlight := None, false, None;
      running, persisted, started := map[], onDisk, 0;
    }

    /** `loaded` is what validating the token file gave. Before the timer is started nothing
        else is under way. */
    method EnsureToken(now: int, loaded: Option<Record>, token: string, persists: bool) returns (ok: bool)
      requires loaded.Some? ==> At(now).OnDisk() == loaded
      modifies this
      ensures ok <==> !enabled || loaded.Some? || persists
      ensures At(now) == Ensured(config, old(At(now)), loaded, token, persists)
    {
      if !enabled {
        currentRecord := None;
        return true;
      }
      if loaded.Some? {
        currentRecord := loaded;
        return true;
      }
      if !persists {
        return false;
      }
      var record := Mint(config, now, token);
      persisted := persisted + [record];
      currentRecord := Some(record);
      ok := true;
    }

    method StartAutoRenew(now: int, token: string)
      modifies this
      ensures At(now) == Step(config, old(At(now)), Start(token))
    {
      if !enabled || renewalTimer {
        return;
      }
      TriggerRenewalCheck(now, token);
      renewalTimer := true;
    }

    method TriggerRenewalCheck(now: int, token: string)
      modifies this
      ensures At(now) == Triggered(config, old(At(now)), token)
    {
      if renewalInFlight.Some? {
        return;
      }
      var record := MaybeRenewToken(now, token);
      if record.Some? {
        running := running[started := Validating(record.value)];
        renewalInFlight, started := Some(started), started + 1;
      }
    }

    /** Up to its first `await`: the record being minted, if renewal is due. */
    method MaybeRenewToken(now: int, token: string) returns (record: Option<Record>)
      ensures record.Some? <==> enabled && currentRecord.Some? && Due(config, currentRecord.value, now)
      ensures record.Some? ==> record.value == Mint(config, now, token)
    {
      if !enabled || currentRecord.None? {
        return None;
      }
      var issuedLifetimeMs := currentRecord.value.expiresAt - currentRecord.value.createdAt;
      var thresholdMs := issuedLifetimeMs as real * config.fraction;
      var remainingMs := currentRecord.value.expiresAt - now;
      if remainingMs as real > thresholdMs {
        return None;
      }
      record := Some(Mint(config, now, token));
    }

    /** The rest of `mintAndPersist` once the record is on disk, and the `finally` after it. */
    method OnPersisted(now: int, id: nat, record: Record)
      requires CanHappen(At(now), Finished(id)) && record == running[id].record
      modifies this
      ensures At(now) == Step(config, old(At(now)), Finished(id))
    {
      currentRecord := Some(record);
      OnSettled(now, id);
    }

    method OnSettled(now: int, id: nat)
      modifies this
      ensures At(now) == Settle(old(At(now)), id)
    {
      running := running - {id};
      if renewalInFlight == Some(id) {
        renewalInFlight := None;
      }
    }

    /** Up to the `await`: whether there is a renewal to wait for, and which. */
    method StopAutoRenew(now: int) returns (awaited: Option<nat>)
      modifies this
      ensures At(now) == Step(config, old(At(now)), StopCalled)
      ensures awaited.None? <==> CanHappen(At(now), StopReturned)
    {
      if renewalTimer {
        renewalTimer := false;
      }
      awaited := renewalInFlight;
    }
  }

  // ---------------------------------------------------------------- whole runs

  ghost predicate Plays(config: Config, w: World, events: seq<Event>)
    decreases |events|
  {
    events == [] || (CanHappen(w, events[0]) && Plays(config, Step(config, w, events[0]), events[1..]))
  }

  ghost function After(config: Config, w: World, events: seq<Event>): World
    requires Plays(config, w, events)
    decreases |events|
  {
    if events == [] then w else After(config, Step(config, w, events[0]), events[1..])
  }

  /** The renewal the manager remembers is the only one under way, and the record in
      memory, like every record renamed into place, has been on disk. */
  ghost predicate Inv(w: World) {
    && w.running.Keys == (if w.renewalInFlight.Some? then {w.renewalInFlight.value} else {})
    && (forall id :: id in w.running ==> id < w.started)
    && (w.currentRecord.Some? ==> w.currentRecord.value in w.persisted)
    && (forall id :: id in w.running && w.running[id].Landed? ==> w.running[id].record in w.persisted)
  }

  lemma StepKeepsInv(config: Config, w: World, e: Event)
    requires Inv(w) && CanHappen(w, e)
    ensures Inv(Step(config, w, e))
  {
  }

  /** `startAutoRenew` may be called on a stopped manager whose token is the one on disk. */
  ghost predicate CanBegin(w: World) {
    && Inv(w) && w.enabled && !w.renewalTimer && w.renewalInFlight.None?
    && w.currentRecord.Some? && w.OnDisk() == w.currentRecord
  }

  /** A valid record on disk is kept, and nothing is written; without one, one new record is
      written, with the token just minted, and is in memory only if that succeeds; a disabled
      manager ends up without a record and writes nothing. */
  lemma EnsuredExactly(config: Config, w: World, loaded: Option<Record>, token: string, persists: bool)
    ensures var after := Ensured(config, w, loaded, token, persists);
            var writes := w.enabled && loaded.None? && persists;
            && |after.persisted| == |w.persisted| + (if writes then 1 else 0)
            && w.persisted <= after.persisted
            && (!w.enabled ==> after.currentRecord.None?)
            && (w.enabled && loaded.Some? ==> after.currentRecord == loaded)
            && (w.enabled && loaded.None? && !persists ==> after.currentRecord == w.currentRecord)
            && (writes ==> after.currentRecord.Some? && after.currentRecord == after.OnDisk()
                           && after.currentRecord.value.token == token)
  {
  }

  /** An enabled manager that is not running can be started once `ensureToken` has
      succeeded; one that was just made is such a manager. */
  lemma EnsuredCanBegin(config: Config, w: World, loaded: Option<Record>, token: string, persists: bool)
    requires Inv(w) && w.enabled && !w.renewalTimer && w.renewalInFlight.None?
    requires (loaded.Some? ==> w.OnDisk() == loaded) && (loaded.Some? || persists)
    ensures CanBegin(Ensured(config, w, loaded, token, persists))
  {
    var after := Ensured(config, w, loaded, token, persists);
    assert after.currentRecord.value == after.persisted[|after.persisted| - 1];
  }

  /** A token that is due stays due until a renewal has finished, so that every check of a
      run until then leaves a renewal under way. */
  lemma {:induction false} DueUntilRenewed(config: Config, w: World, events: seq<Event>, token: string)
    requires w.enabled && w.currentRecord.Some? && Due(config, w.currentRecord.value, w.now)
    requires Plays(config, w, events) && forall i :: 0 <= i < |events| ==> !events[i].Finished?
    ensures var end := After(config, w, events);
            && end.currentRecord == w.currentRecord
            && Due(config, end.currentRecord.value, end.now)
            && Triggered(config, end, token).renewalInFlight.Some?
    decreases |events|
  {
    if events == [] {
    } else {
      assert !events[0].Finished?;
      DueUntilRenewed(config, Step(config, w, events[0]), events[1..], token);
    }
  }

  /** In every interleaving: at most one renewal is under way, and the record in memory
      was on disk before it got there. */
  lemma {:induction false} OneRenewalAtATime(config: Config, w: World, events: seq<Event>)
    requires Inv(w) && Plays(config, w, events)
    ensures var end := After(config, w, events);
            && Inv(end)
            && |end.running| <= 1
            && (end.currentRecord.Some? ==> end.currentRecord.value in end.persisted)
    decreases |events|
  {
    if events == [] {
      assert |w.running.Keys| <= 1;
    } else {
      StepKeepsInv(config, w, events[0]);
      OneRenewalAtATime(config, Step(config, w, events[0]), events[1..]);
    }
  }

  ghost predicate NoStart(events: seq<Event>) {
    forall i :: 0 <= i < |events| ==> !events[i].Start?
  }

  lemma {:induction false} TimerStaysOff(config: Config, w: World, events: seq<Event>)
    requires !w.renewalTimer && NoStart(events) && Plays(config, w, events)
    ensures !After(config, w, events).renewalTimer
    decreases |events|
  {
    if events == [] {
    } else {
      assert !events[0].Start?;
      TimerStaysOff(config, Step(config, w, events[0]), events[1..]);
    }
  }

  lemma {:induction false} NothingLands(config: Config, w: World, events: seq<Event>)
    requires Inv(w) && !w.renewalTimer && w.renewalInFlight.None?
    requires NoStart(events) && Plays(config, w, events)
    ensures After(config, w, events).persisted == w.persisted
    decreases |events|
  {
    if events == [] {
    } else {
      assert !events[0].Start?;
      NothingLands(config, Step(config, w, events[0]), events[1..]);
    }
  }

  /** Once a stop has returned, and until the next start, no write can land. */
  lemma StopIsFinal(config: Config, w: World, before: seq<Event>, waiting: seq<Event>, later: seq<Event>)
    requires Inv(w) && Plays(config, w, before)
    requires NoStart(waiting) && NoStart(later)
    requires var called := Step(config, After(config, w, before), StopCalled);
             Plays(config, called, waiting) && CanHappen(After(config, called, waiting), StopReturned)
    requires var returned := After(config, Step(config, After(config, w, before), StopCalled), waiting);
             Plays(config, returned, later)
    ensures var returned := After(config, Step(config, After(config, w, before), StopCalled), waiting);
            After(config, returned, later).persisted == returned.persisted
  {
    OneRenewalAtATime(config, w, before);
    var called := Step(config, After(config, w, before), StopCalled);
    StepKeepsInv(config, After(config, w, before), StopCalled);
    OneRenewalAtATime(config, called, waiting);
    TimerStaysOff(config, called, waiting);
    NothingLands(config, After(config, called, waiting), later);
  }
}
