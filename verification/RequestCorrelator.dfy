/** Request correlation in the WebSocket client (packages/sdk/src/websocket-client.ts):
    promises, the timers that reject them, and the table of pending requests. */
module RequestCorrelator {
  datatype Status = Unsettled | Resolved | Rejected

  /** A promise handed out, with the number of times `resolve` or `reject` was called on
      it; only the first call has an effect. */
  datatype Promise = Promise(requestId: string, status: Status, settles: nat)

  /** An entry of the `pending` map: the promise it settles and when it was made. Each
      promise has one timer, which shares its number. */
  datatype Pending = Pending(promise: nat, createdAt: int)

  datatype Timer = Timer(requestId: string, deadline: int)

  datatype Desk = Desk(pending: map<string, Pending>, timers: map<nat, Timer>, promises: seq<Promise>)

  const NEW_DESK := Desk(map[], map[], [])

  function Settle(p: Promise, outcome: Status): Promise {
    Promise(p.requestId, if p.status == Unsettled then outcome else p.status, p.settles + 1)
  }

  function SettleEach(promises: seq<Promise>, which: set<nat>, outcome: Status): (r: seq<Promise>)
    ensures |r| == |promises|
  {
    seq(|promises|, i requires 0 <= i < |promises| => if i in which then Settle(promises[i], outcome) else promises[i])
  }

  // ---------------------------------------------------------------- what each operation does

  function Created(d: Desk, id: string, now: int, timeout: int): Desk {
    var p := |d.promises|;
    Desk(d.pending[id := Pending(p, now)],
         d.timers[p := Timer(id, now + timeout)],
         d.promises + [Promise(id, Unsettled, 0)])
  }

  /** Settles the promises of some pending ids, disarms their timers, forgets the ids. */
  function Released(d: Desk, ids: set<string>, outcome: Status): Desk
    requires ids <= d.pending.Keys
  {
    var which := PromisesOf(d.pending, ids);
    Desk(d.pending - ids, d.timers - which, SettleEach(d.promises, which, outcome))
  }

  function PromisesOf(pending: map<string, Pending>, ids: set<string>): set<nat>
    requires ids <= pending.Keys
  {
    set id | id in ids :: pending[id].promise
  }

  function ReleasedOne(d: Desk, id: string, outcome: Status): Desk {
    if id in d.pending then Released(d, {id}, outcome) else d
  }

  /** The callback of an armed timer. */
  function Fired(d: Desk, t: nat): Desk
    requires t in d.timers
  {
    Desk(d.pending - {d.timers[t].requestId}, d.timers - {t}, SettleEach(d.promises, {t}, Rejected))
  }

  function Expired(d: Desk, now: int, timeout: int): set<string> {
    set id | id in d.pending && now - d.pending[id].createdAt > timeout
  }

  // ---------------------------------------------------------------- invariants

  /** Holds after any operations whatsoever. */
  ghost predicate Sound(d: Desk) {
    && (forall t: nat :: t in d.timers <==> t < |d.promises| && d.promises[t].status == Unsettled)
    && (forall t :: 0 <= t < |d.promises| ==>
          d.promises[t].settles == if d.promises[t].status == Unsettled then 0 else 1)
    && (forall id :: id in d.pending ==>
          d.pending[id].promise in d.timers && d.timers[d.pending[id].promise].requestId == id)
  }

  /** In addition, no armed timer has lost its pending entry. */
  ghost predicate Coincide(d: Desk) {
    && Sound(d)
    && forall t :: t in d.timers ==> d.timers[t].requestId in d.pending && d.pending[d.timers[t].requestId].promise == t
  }

  // ---------------------------------------------------------------- the class

  class Correlator {
    const timeout: int
    var pending: map<string, Pending>
    ghost var timers: map<nat, Timer>
    ghost var promises: seq<Promise>
    var created: nat

    ghost function Now(): Desk
      reads this
    {
      Desk(pending, timers, promises)
    }

    ghost predicate Valid()
      reads this
    {
      Sound(Now()) && created == |promises|
    }

    constructor (timeout: int)
      ensures Valid() && Now() == NEW_DESK && this.timeout == timeout
    {
      this.timeout, created := timeout, 0;
      pending, timers, promises := map[], map[], [];
    }

    method Create(requestId: string, now: int) returns (promise: nat)
      requires Valid()
      modifies this
      ensures Valid() && promise == |old(promises)|
      ensures Now() == Created(old(Now()), requestId, now, timeout)
    {
      promise := created;
      timers := timers[promise := Timer(requestId, now + timeout)];
      promises := promises + [Promise(requestId, Unsettled, 0)];
      created := created + 1;
      pending := pending[requestId := Pending(promise, now)];
    }

    method Resolve(requestId: string) returns (found: bool)
      requires Valid()
      modifies this
      ensures Valid() && found == (requestId in old(pending))
      ensures Now() == ReleasedOne(old(Now()), requestId, Resolved)
    {
      found := SettleOne(requestId, Resolved);
    }

    method Reject(requestId: string) returns (found: bool)
      requires Valid()
      modifies this
      ensures Valid() && found == (requestId in old(pending))
      ensures Now() == ReleasedOne(old(Now()), requestId, Rejected)
    {
      found := SettleOne(requestId, Rejected);
    }

    method SettleOne(requestId: string, outcome: Status) returns (found: bool)
      requires Valid() && outcome != Unsettled
      modifies this
      ensures Valid() && found == (requestId in old(pending))
      ensures Now() == ReleasedOne(old(Now()), requestId, outcome)
    {
      found := requestId in pending;
      if found {
        ReleasedKeepsSound(Now(), {requestId}, outcome);
        var p := pending[requestId].promise;
        assert PromisesOf(pending, {requestId}) == {p};
        timers := timers - {p};
        promises := SettleEach(promises, {p}, outcome);
        pending := pending - {requestId};
      }
    }

    /** The loop over the map and the `clear` after it. */
    method RejectAll() returns (count: nat)
      requires Valid()
      modifies this
      ensures Valid() && count == |old(pending)|
      ensures Now() == Released(old(Now()), old(pending).Keys, Rejected)
    {
      count := |pending|;
      EverythingReleased(Now());
      RejectEntries();
      pending := map[];
    }

    /** The loop of `rejectAll`. */
    method RejectEntries()
      requires Valid()
      modifies `timers, `promises
      ensures timers == ReleasedBut(old(Now()), {}).timers && promises == ReleasedBut(old(Now()), {}).promises
    {
      ghost var whole := Now();
      var entries := pending;
      var todo := entries.Keys;
      NothingReleased(whole);
      while todo != {}
        invariant todo <= entries.Keys
        invariant timers == ReleasedBut(whole, todo).timers && promises == ReleasedBut(whole, todo).promises
        decreases todo
      {
        var id :| id in todo;
        ReleaseNext(whole, todo, id);
        timers := timers - {entries[id].promise};
        promises := SettleEach(promises, {entries[id].promise}, Rejected);
        todo := todo - {id};
      }
    }

    method Cleanup(now: int)
      requires Valid()
      modifies this
      ensures Valid()
      ensures Now() == Released(old(Now()), Expired(old(Now()), now, timeout), Rejected)
    {
      ghost var expired := Expired(Now(), now, timeout);
      ReleasedKeepsSound(Now(), expired, Rejected);
      var todo := pending.Keys;
      ghost var done: set<string> := {};
      assert Released(Now(), done, Rejected) == Now();
      while todo != {}
        invariant todo <= pending.Keys && created == old(created)
        invariant done == expired - todo
        invariant Now() == Released(old(Now()), done, Rejected)
        decreases todo
      {
        var id :| id in todo;
        if now - pending[id].createdAt > timeout {
          Release(id, old(Now()), done);
          done := done + {id};
        }
        todo := todo - {id};
      }
      assert done == expired;
    }

    /** What the loop of `cleanup` does to one expired request. */
    method Release(id: string, ghost whole: Desk, ghost done: set<string>)
      requires Sound(whole) && done <= whole.pending.Keys && id in whole.pending && id !in done
      requires Now() == Released(whole, done, Rejected)
      modifies `pending, `timers, `promises
      ensures Now() == Released(whole, done + {id}, Rejected)
      ensures pending == old(pending) - {id}
    {
      ReleaseOneMore(whole, done, id, Rejected);
      var p := pending[id].promise;
      timers := timers - {p};
      promises := SettleEach(promises, {p}, Rejected);
      pending := pending - {id};
    }

    /** The callback of timer `t`, armed when `requestId` was created. */
    method OnTimeout(t: nat, requestId: string)
      requires Valid() && t in timers && timers[t].requestId == requestId
      modifies this
      ensures Valid() && Now() == Fired(old(Now()), t)
    {
      pending := pending - {requestId};
      promises := SettleEach(promises, {t}, Rejected);
      timers := timers - {t};
    }
  }

  lemma ReleasedKeepsSound(d: Desk, ids: set<string>, outcome: Status)
    requires Sound(d) && ids <= d.pending.Keys && outcome != Unsettled
    ensures Sound(Released(d, ids, outcome))
  {
  }

  lemma ReleaseOneMore(d: Desk, done: set<string>, id: string, outcome: Status)
    requires Sound(d) && done <= d.pending.Keys && id in d.pending && id !in done
    ensures var part, p := Released(d, done, outcome), d.pending[id].promise;
            Released(d, done + {id}, outcome)
            == Desk(part.pending - {id}, part.timers - {p}, SettleEach(part.promises, {p}, outcome))
  {
    var p, before, after := d.pending[id].promise, PromisesOf(d.pending, done), PromisesOf(d.pending, done + {id});
    assert p !in before;
    assert after == before + {p};
    assert SettleEach(SettleEach(d.promises, before, outcome), {p}, outcome) == SettleEach(d.promises, after, outcome);
    assert d.timers - after == d.timers - before - {p};
    assert d.pending - (done + {id}) == d.pending - done - {id};
  }

  /** `rejectAll` part of the way: only the entries `todo` are still to be rejected. */
  ghost function ReleasedBut(d: Desk, todo: set<string>): Desk {
    Released(d, d.pending.Keys - todo, Rejected)
  }

  lemma NothingReleased(d: Desk)
    ensures ReleasedBut(d, d.pending.Keys) == d
  {
  }

  lemma ReleaseNext(d: Desk, todo: set<string>, id: string)
    requires Sound(d) && todo <= d.pending.Keys && id in todo
    ensures var part, p := ReleasedBut(d, todo), d.pending[id].promise;
            ReleasedBut(d, todo - {id})
            == Desk(part.pending - {id}, part.timers - {p}, SettleEach(part.promises, {p}, Rejected))
  {
    ReleaseOneMore(d, d.pending.Keys - todo, id, Rejected);
    assert d.pending.Keys - (todo - {id}) == (d.pending.Keys - todo) + {id};
  }

  lemma EverythingReleased(d: Desk)
    requires Sound(d)
    ensures var after := ReleasedBut(d, {});
            && after == Released(d, d.pending.Keys, Rejected) == Desk(map[], after.timers, after.promises)
            && Sound(after) && |after.promises| == |d.promises|
  {
    assert d.pending.Keys - {} == d.pending.Keys;
    ReleasedKeepsSound(d, d.pending.Keys, Rejected);
    assert ReleasedBut(d, {}).pending.Keys == {};
  }

  // ---------------------------------------------------------------- runs

  datatype Event =
    | Create(id: string)
    | Resolve(id: string)
    | Reject(id: string)
    | RejectAll
    | Cleanup
    | Timeout(timer: nat)
    | Wait(ms: nat)

  datatype World = World(now: int, desk: Desk)

  /** A timer fires once its deadline has passed. */
  predicate CanHappen(w: World, e: Event) {
    e.Timeout? ==> e.timer in w.desk.timers && w.desk.timers[e.timer].deadline <= w.now
  }

  function Step(w: World, timeout: int, e: Event): World
    requires CanHappen(w, e)
  {
    match e
    case Create(id) => w.(desk := Created(w.desk, id, w.now, timeout))
    case Resolve(id) => w.(desk := ReleasedOne(w.desk, id, Resolved))
    case Reject(id) => w.(desk := ReleasedOne(w.desk, id, Rejected))
    case RejectAll => w.(desk := Released(w.desk, w.desk.pending.Keys, Rejected))
    case Cleanup => w.(desk := Released(w.desk, Expired(w.desk, w.now, timeout), Rejected))
    case Timeout(t) => w.(desk := Fired(w.desk, t))
    case Wait(ms) => w.(now := w.now + ms)
  }

  ghost predicate Run(w: World, timeout: int, events: seq<Event>)
    decreases |events|
  {
    events == [] || (CanHappen(w, events[0]) && Run(Step(w, timeout, events[0]), timeout, events[1..]))
  }

  ghost function End(w: World, timeout: int, events: seq<Event>): World
    requires Run(w, timeout, events)
    decreases |events|
  {
    if events == [] then w else End(Step(w, timeout, events[0]), timeout, events[1..])
  }

  /** No request is created under an id that is still pending. */
  ghost predicate FreshIds(w: World, timeout: int, events: seq<Event>)
    requires Run(w, timeout, events)
    decreases |events|
  {
    events != [] ==>
      && (events[0].Create? ==> events[0].id !in w.desk.pending)
      && FreshIds(Step(w, timeout, events[0]), timeout, events[1..])
  }

  lemma StepKeepsSound(w: World, timeout: int, e: Event)
    requires Sound(w.desk) && CanHappen(w, e)
    ensures Sound(Step(w, timeout, e).desk)
  {
    match e
    case Resolve(id) => if id in w.desk.pending { ReleasedKeepsSound(w.desk, {id}, Resolved); }
    case Reject(id) => if id in w.desk.pending { ReleasedKeepsSound(w.desk, {id}, Rejected); }
    case RejectAll => ReleasedKeepsSound(w.desk, w.desk.pending.Keys, Rejected);
    case Cleanup => ReleasedKeepsSound(w.desk, Expired(w.desk, w.now, timeout), Rejected);
    case _ =>
  }

  /** In every run, even one that reuses ids, no promise is settled twice, and a promise
      is unsettled exactly as long as its timer is armed. */
  lemma {:induction false} SettledAtMostOnce(w: World, timeout: int, events: seq<Event>)
    requires Sound(w.desk) && Run(w, timeout, events)
    ensures var d := End(w, timeout, events).desk;
            && Sound(d)
            && forall t :: 0 <= t < |d.promises| ==>
                 d.promises[t].settles <= 1 && (d.promises[t].status == Unsettled <==> t in d.timers)
    decreases |events|
  {
    if events == [] {
    } else {
      StepKeepsSound(w, timeout, events[0]);
      SettledAtMostOnce(Step(w, timeout, events[0]), timeout, events[1..]);
    }
  }

  // ---------------------------------------------------------------- what becomes of a promise

  /** Its own entry is the pending one of that id. */
  ghost predicate IsPending(d: Desk, id: string, t: nat) {
    id in d.pending && d.pending[id].promise == t
  }

  ghost predicate ResolvedBy(w: World, e: Event, t: nat) {
    e.Resolve? && IsPending(w.desk, e.id, t)
  }

  ghost predicate RejectedBy(w: World, timeout: int, e: Event, t: nat) {
    match e
    case Reject(id) => IsPending(w.desk, id, t)
    case RejectAll => exists id :: IsPending(w.desk, id, t)
    case Cleanup => exists id :: IsPending(w.desk, id, t) && w.now - w.desk.pending[id].createdAt > timeout
    case Timeout(own) => own == t
    case _ => false
  }

  lemma ReleasedStatus(d: Desk, ids: set<string>, outcome: Status, t: nat)
    requires Sound(d) && ids <= d.pending.Keys && t < |d.promises|
    ensures (exists id :: id in ids && IsPending(d, id, t)) ==> Released(d, ids, outcome).promises[t].status == outcome
    ensures !(exists id :: id in ids && IsPending(d, id, t))
            ==> Released(d, ids, outcome).promises[t].status == d.promises[t].status
  {
    assert t in PromisesOf(d.pending, ids) <==> exists id :: id in ids && IsPending(d, id, t);
  }

  /** One event: a promise that is settled stays as it is, and one that is not is resolved or
      rejected exactly by the events that do that, or else stays unsettled. */
  lemma StatusAfter(w: World, timeout: int, e: Event, t: nat)
    requires Sound(w.desk) && CanHappen(w, e) && t < |w.desk.promises|
    ensures var before, after := w.desk.promises[t].status, Step(w, timeout, e).desk.promises;
            && t < |after|
            && after[t].status == if before != Unsettled then before
                                  else if ResolvedBy(w, e, t) then Resolved
                                  else if RejectedBy(w, timeout, e, t) then Rejected
                                  else Unsettled
  {
    var d := w.desk;
    match e
    case Resolve(id) => if id in d.pending { ReleasedStatus(d, {id}, Resolved, t); }
    case Reject(id) => if id in d.pending { ReleasedStatus(d, {id}, Rejected, t); }
    case RejectAll => ReleasedStatus(d, d.pending.Keys, Rejected, t);
    case Cleanup => ReleasedStatus(d, Expired(d, w.now, timeout), Rejected, t);
    case Create(id) =>
    case Timeout(own) =>
    case Wait(_) =>
  }

  lemma OnlyUnsettledAreSettled(w: World, timeout: int, e: Event, t: nat)
    requires Sound(w.desk) && CanHappen(w, e)
    ensures ResolvedBy(w, e, t) || RejectedBy(w, timeout, e, t)
            ==> t < |w.desk.promises| && w.desk.promises[t].status == Unsettled
  {
  }

  ghost predicate EverResolved(w: World, timeout: int, events: seq<Event>, t: nat)
    requires Run(w, timeout, events)
    decreases |events|
  {
    events != []
    && (ResolvedBy(w, events[0], t) || EverResolved(Step(w, timeout, events[0]), timeout, events[1..], t))
  }

  ghost predicate EverRejected(w: World, timeout: int, events: seq<Event>, t: nat)
    requires Run(w, timeout, events)
    decreases |events|
  {
    events != []
    && (RejectedBy(w, timeout, events[0], t) || EverRejected(Step(w, timeout, events[0]), timeout, events[1..], t))
  }

  ghost function StatusOf(d: Desk, t: nat): Status {
    if t < |d.promises| then d.promises[t].status else Unsettled
  }

  lemma StepStatus(w: World, timeout: int, e: Event, t: nat)
    requires Sound(w.desk) && CanHappen(w, e)
    ensures var after := StatusOf(Step(w, timeout, e).desk, t);
            && (after == Resolved <==> StatusOf(w.desk, t) == Resolved || ResolvedBy(w, e, t))
            && (after == Rejected <==> StatusOf(w.desk, t) == Rejected || RejectedBy(w, timeout, e, t))
  {
    OnlyUnsettledAreSettled(w, timeout, e, t);
    if t < |w.desk.promises| {
      StatusAfter(w, timeout, e, t);
    }
  }

  /** Over every run: a promise ends resolved exactly when it was before, or a response of its
      id came while its own entry was pending; rejected exactly when it was before, or a
      rejection, `rejectAll`, a clean-up or its own timer came first. Every other one is
      unsettled. */
  lemma {:induction false} StatusExactly(w: World, timeout: int, events: seq<Event>, t: nat)
    requires Sound(w.desk) && Run(w, timeout, events)
    ensures var end := StatusOf(End(w, timeout, events).desk, t);
            && (end == Resolved <==> StatusOf(w.desk, t) == Resolved || EverResolved(w, timeout, events, t))
            && (end == Rejected <==> StatusOf(w.desk, t) == Rejected || EverRejected(w, timeout, events, t))
    decreases |events|
  {
    if events == [] {
    } else {
      StepKeepsSound(w, timeout, events[0]);
      StepStatus(w, timeout, events[0], t);
      StatusExactly(Step(w, timeout, events[0]), timeout, events[1..], t);
    }
  }

  // ---------------------------------------------------------------- deadlines

  ghost predicate DeadlineIs(d: Desk, t: nat, deadline: int) {
    t in d.timers ==> d.timers[t].deadline == deadline
  }

  lemma {:induction false} DeadlineStays(w: World, timeout: int, events: seq<Event>, t: nat, deadline: int)
    requires Sound(w.desk) && Run(w, timeout, events) && t < |w.desk.promises| && DeadlineIs(w.desk, t, deadline)
    requires End(w, timeout, events).now < deadline
    ensures Timeout(t) !in events && w.now <= End(w, timeout, events).now
    decreases |events|
  {
    if events == [] {
    } else {
      var next := Step(w, timeout, events[0]);
      StepKeepsSound(w, timeout, events[0]);
      assert t < |next.desk.promises| && DeadlineIs(next.desk, t, deadline);
      DeadlineStays(next, timeout, events[1..], t, deadline);
      assert events == [events[0]] + events[1..];
    }
  }

  /** A request's timer does not fire before the timeout has passed since it was created. */
  lemma NoEarlyTimeout(w: World, timeout: int, id: string, events: seq<Event>)
    requires Sound(w.desk) && Run(Step(w, timeout, Create(id)), timeout, events)
    requires End(Step(w, timeout, Create(id)), timeout, events).now < w.now + timeout
    ensures Timeout(|w.desk.promises|) !in events
  {
    StepKeepsSound(w, timeout, Create(id));
    DeadlineStays(Step(w, timeout, Create(id)), timeout, events, |w.desk.promises|, w.now + timeout);
  }

  /** And once it has, the timer can fire if the promise is still unsettled. */
  lemma {:induction false} TimerCanFire(w: World, timeout: int, events: seq<Event>, t: nat, deadline: int)
    requires Sound(w.desk) && Run(w, timeout, events) && t < |w.desk.promises| && DeadlineIs(w.desk, t, deadline)
    requires End(w, timeout, events).now >= deadline && StatusOf(End(w, timeout, events).desk, t) == Unsettled
    ensures CanHappen(End(w, timeout, events), Timeout(t))
    decreases |events|
  {
    if events == [] {
    } else {
      var next := Step(w, timeout, events[0]);
      StepKeepsSound(w, timeout, events[0]);
      TimerCanFire(next, timeout, events[1..], t, deadline);
    }
  }

  lemma TimerFiresAfterTimeout(w: World, timeout: int, id: string, events: seq<Event>)
    requires Sound(w.desk) && Run(Step(w, timeout, Create(id)), timeout, events)
    requires var end := End(Step(w, timeout, Create(id)), timeout, events);
             end.now >= w.now + timeout && StatusOf(end.desk, |w.desk.promises|) == Unsettled
    ensures CanHappen(End(Step(w, timeout, Create(id)), timeout, events), Timeout(|w.desk.promises|))
  {
    StepKeepsSound(w, timeout, Create(id));
    TimerCanFire(Step(w, timeout, Create(id)), timeout, events, |w.desk.promises|, w.now + timeout);
  }

  /** An entry and its timer were made at the same time. */
  ghost predicate Timely(d: Desk, timeout: int) {
    forall id :: id in d.pending && d.pending[id].promise in d.timers
      ==> d.timers[d.pending[id].promise].deadline == d.pending[id].createdAt + timeout
  }

  /** So in every run a clean-up rejects exactly the pending requests whose deadline has passed. */
  lemma {:induction false} CleanupIsDue(w: World, timeout: int, events: seq<Event>, t: nat)
    requires Sound(w.desk) && Timely(w.desk, timeout) && Run(w, timeout, events)
    ensures var end := End(w, timeout, events);
            && Timely(end.desk, timeout)
            && (RejectedBy(end, timeout, Cleanup, t)
                <==> && (exists id :: IsPending(end.desk, id, t))
                     && t in end.desk.timers && end.now > end.desk.timers[t].deadline)
    decreases |events|
  {
    if events == [] {
      assert forall id :: IsPending(w.desk, id, t) ==> w.desk.pending[id].promise in w.desk.timers;
    } else {
      StepKeepsSound(w, timeout, events[0]);
      CleanupIsDue(Step(w, timeout, events[0]), timeout, events[1..], t);
    }
  }

  lemma ReleasedKeepsCoincide(d: Desk, ids: set<string>, outcome: Status)
    requires Coincide(d) && ids <= d.pending.Keys && outcome != Unsettled
    ensures Coincide(Released(d, ids, outcome))
  {
  }

  /** Creating keeps ids, timers and promises in step exactly when the id is fresh. */
  lemma FreshnessIsExact(d: Desk, id: string, now: int, timeout: int)
    requires Coincide(d)
    ensures Coincide(Created(d, id, now, timeout)) <==> id !in d.pending
  {
    var after := Created(d, id, now, timeout);
    if id in d.pending {
      var lost := d.pending[id].promise;
      assert lost in after.timers && after.timers[lost].requestId == id && after.pending[id].promise != lost;
    }
  }

  lemma StepKeepsCoincide(w: World, timeout: int, e: Event)
    requires Coincide(w.desk) && CanHappen(w, e)
    requires e.Create? ==> e.id !in w.desk.pending
    ensures Coincide(Step(w, timeout, e).desk)
  {
    StepKeepsSound(w, timeout, e);
    match e
    case Create(id) => FreshnessIsExact(w.desk, id, w.now, timeout);
    case Resolve(id) => if id in w.desk.pending { ReleasedKeepsCoincide(w.desk, {id}, Resolved); }
    case Reject(id) => if id in w.desk.pending { ReleasedKeepsCoincide(w.desk, {id}, Rejected); }
    case RejectAll => ReleasedKeepsCoincide(w.desk, w.desk.pending.Keys, Rejected);
    case Cleanup => ReleasedKeepsCoincide(w.desk, Expired(w.desk, w.now, timeout), Rejected);
    case Timeout(t) =>
    case Wait(_) =>
  }

  lemma {:induction false} RunsKeepCoincide(w: World, timeout: int, events: seq<Event>)
    requires Coincide(w.desk) && Run(w, timeout, events) && FreshIds(w, timeout, events)
    ensures Coincide(End(w, timeout, events).desk)
    decreases |events|
  {
    if events == [] {
    } else {
      StepKeepsCoincide(w, timeout, events[0]);
      RunsKeepCoincide(Step(w, timeout, events[0]), timeout, events[1..]);
    }
  }

  // ---------------------------------------------------------------- conservation

  ghost function Count(promises: seq<Promise>, status: Status): nat {
    if promises == [] then 0
    else Count(promises[..|promises| - 1], status) + if promises[|promises| - 1].status == status then 1 else 0
  }

  lemma {:induction false} CountsAddUp(promises: seq<Promise>)
    ensures |promises| == Count(promises, Unsettled) + Count(promises, Resolved) + Count(promises, Rejected)
  {
    if promises == [] {
    } else {
      CountsAddUp(promises[..|promises| - 1]);
    }
  }

  lemma {:induction false} UnsettledCount(promises: seq<Promise>, unsettled: set<nat>)
    requires forall t: nat :: t in unsettled <==> t < |promises| && promises[t].status == Unsettled
    ensures |unsettled| == Count(promises, Unsettled)
  {
    if promises == [] {
      assert unsettled == {};
    } else {
      var last := |promises| - 1;
      UnsettledCount(promises[..last], unsettled - {last});
      if last in unsettled {
        assert |unsettled| == |unsettled - {last}| + 1;
      } else {
        assert unsettled - {last} == unsettled;
      }
    }
  }

  lemma {:induction false} SameSize(pending: map<string, Pending>, timers: map<nat, Timer>)
    requires forall id :: id in pending ==> pending[id].promise in timers && timers[pending[id].promise].requestId == id
    requires forall t :: t in timers ==> timers[t].requestId in pending && pending[timers[t].requestId].promise == t
    ensures |pending| == |timers|
    decreases |pending|
  {
    if pending.Keys == {} {
      assert timers.Keys == {};
      assert |pending| == |pending.Keys| && |timers| == |timers.Keys|;
    } else {
      var id :| id in pending.Keys;
      var p := pending[id].promise;
      var pending', timers' := pending - {id}, timers - {p};
      assert pending.Keys == pending'.Keys + {id} && timers.Keys == timers'.Keys + {p};
      assert |pending| == |pending.Keys| && |timers| == |timers.Keys|;
      assert |pending'| == |pending'.Keys| && |timers'| == |timers'.Keys|;
      SameSize(pending', timers');
    }
  }

  /** Every promise ever created is pending, resolved or rejected, and no more than one of these. */
  lemma Conservation(w: World, timeout: int, events: seq<Event>)
    requires Coincide(w.desk) && Run(w, timeout, events) && FreshIds(w, timeout, events)
    ensures var d := End(w, timeout, events).desk;
            && |d.promises| == |d.pending| + Count(d.promises, Resolved) + Count(d.promises, Rejected)
            && |d.pending| == |d.timers| == Count(d.promises, Unsettled)
  {
    RunsKeepCoincide(w, timeout, events);
    var d := End(w, timeout, events).desk;
    CountsAddUp(d.promises);
    UnsettledCount(d.promises, d.timers.Keys);
    SameSize(d.pending, d.timers);
    assert |d.timers| == |d.timers.Keys|;
  }

  ghost predicate AllSettled(d: Desk) {
    d.pending == map[] && forall t :: 0 <= t < |d.promises| ==> d.promises[t].status != Unsettled
  }

  /** After `rejectAll`, as on disconnect, final close and destroy, no promise is left hanging. */
  lemma RejectAllSettlesEverything(d: Desk)
    requires Coincide(d)
    ensures AllSettled(Released(d, d.pending.Keys, Rejected))
  {
  }

  // ---------------------------------------------------------------- reused ids

  /** Promises whose entry was taken over or removed by another request of the same id. */
  ghost function Orphans(d: Desk): set<nat> {
    set t | t in d.timers
            && !(d.timers[t].requestId in d.pending && d.pending[d.timers[t].requestId].promise == t)
  }

  lemma CoincideMeansNoOrphans(d: Desk)
    requires Sound(d)
    ensures Coincide(d) <==> Orphans(d) == {}
  {
    if Orphans(d) == {} {
      forall t | t in d.timers
        ensures d.timers[t].requestId in d.pending && d.pending[d.timers[t].requestId].promise == t
      {
        assert t !in Orphans(d);
      }
    }
  }

  /** Creating under a pending id loses the promise it overtakes; a timer that fires loses
      the promise whose entry it removes, if that is not its own, and settles its own. */
  ghost function LostStep(w: World, e: Event, lost: set<nat>): set<nat>
    requires CanHappen(w, e)
  {
    match e
    case Create(id) => if id in w.desk.pending then lost + {w.desk.pending[id].promise} else lost
    case Timeout(t) =>
      var id := w.desk.timers[t].requestId;
      (if id in w.desk.pending then lost + {w.desk.pending[id].promise} else lost) - {t}
    case _ => lost
  }

  ghost function Lost(w: World, timeout: int, events: seq<Event>, lost: set<nat>): set<nat>
    requires Run(w, timeout, events)
    decreases |events|
  {
    if events == [] then lost
    else Lost(Step(w, timeout, events[0]), timeout, events[1..], LostStep(w, events[0], lost))
  }

  lemma ReleasedKeepsOrphans(d: Desk, ids: set<string>, outcome: Status)
    requires Sound(d) && ids <= d.pending.Keys
    ensures Orphans(Released(d, ids, outcome)) == Orphans(d)
  {
  }

  lemma StepKeepsLost(w: World, timeout: int, e: Event)
    requires Sound(w.desk) && CanHappen(w, e)
    ensures Orphans(Step(w, timeout, e).desk) == LostStep(w, e, Orphans(w.desk))
  {
    match e
    case Resolve(id) => if id in w.desk.pending { ReleasedKeepsOrphans(w.desk, {id}, Resolved); }
    case Reject(id) => if id in w.desk.pending { ReleasedKeepsOrphans(w.desk, {id}, Rejected); }
    case RejectAll => ReleasedKeepsOrphans(w.desk, w.desk.pending.Keys, Rejected);
    case Cleanup => ReleasedKeepsOrphans(w.desk, Expired(w.desk, w.now, timeout), Rejected);
    case Create(id) =>
    case Timeout(t) =>
    case Wait(_) =>
  }

  lemma {:induction false} LostAreOrphans(w: World, timeout: int, events: seq<Event>)
    requires Sound(w.desk) && Run(w, timeout, events)
    ensures Sound(End(w, timeout, events).desk)
    ensures Lost(w, timeout, events, Orphans(w.desk)) == Orphans(End(w, timeout, events).desk)
    decreases |events|
  {
    if events == [] {
    } else {
      StepKeepsSound(w, timeout, events[0]);
      StepKeepsLost(w, timeout, events[0]);
      LostAreOrphans(Step(w, timeout, events[0]), timeout, events[1..]);
    }
  }

  /** In every run, ids, timers and promises are in step exactly when no promise is lost. */
  lemma CoincideExactlyWhen(w: World, timeout: int, events: seq<Event>)
    requires Sound(w.desk) && Run(w, timeout, events)
    ensures Coincide(End(w, timeout, events).desk) <==> Lost(w, timeout, events, Orphans(w.desk)) == {}
  {
    LostAreOrphans(w, timeout, events);
    CoincideMeansNoOrphans(End(w, timeout, events).desk);
  }

  lemma OrphanSurvives(d: Desk, t: nat)
    requires Sound(d) && t in Orphans(d)
    ensures Released(d, d.pending.Keys, Rejected).promises[t].status == Unsettled
  {
    assert t !in PromisesOf(d.pending, d.pending.Keys);
  }

  /** In every run, `rejectAll` leaves nothing hanging exactly when no promise is lost. */
  lemma RejectAllSettlesExactlyWhen(w: World, timeout: int, events: seq<Event>)
    requires Sound(w.desk) && Run(w, timeout, events)
    ensures var d := End(w, timeout, events).desk;
            AllSettled(Released(d, d.pending.Keys, Rejected)) <==> Lost(w, timeout, events, Orphans(w.desk)) == {}
  {
    var d := End(w, timeout, events).desk;
    LostAreOrphans(w, timeout, events);
    CoincideMeansNoOrphans(d);
    if Coincide(d) {
      RejectAllSettlesEverything(d);
    } else {
      var t :| t in Orphans(d);
      OrphanSurvives(d, t);
    }
  }

  /** In every run, the lost promises are those that no response and no rejection settles,
      but only their own timer. */
  lemma LostExactly(w: World, timeout: int, events: seq<Event>, t: nat)
    requires Sound(w.desk) && Run(w, timeout, events)
    ensures var d := End(w, timeout, events).desk;
            t in Lost(w, timeout, events, Orphans(w.desk))
            <==> t < |d.promises| && d.promises[t].status == Unsettled
                 && forall id :: ReleasedOne(d, id, Resolved).promises[t].status == Unsettled
  {
    var d := End(w, timeout, events).desk;
    LostAreOrphans(w, timeout, events);
    if t in d.timers {
      var id := d.timers[t].requestId;
      if t !in Orphans(d) {
        assert t in PromisesOf(d.pending, {id});
        assert ReleasedOne(d, id, Resolved).promises[t].status != Unsettled;
      }
    }
  }

  lemma OneStep(w: World, timeout: int, e: Event, rest: seq<Event>)
    requires CanHappen(w, e) && Run(Step(w, timeout, e), timeout, rest)
    ensures Run(w, timeout, [e] + rest)
    ensures End(w, timeout, [e] + rest) == End(Step(w, timeout, e), timeout, rest)
  {
    assert ([e] + rest)[1..] == rest;
  }

  lemma ThreeSteps(w: World, timeout: int, a: Event, b: Event, c: Event)
    requires CanHappen(w, a) && CanHappen(Step(w, timeout, a), b)
    requires CanHappen(Step(Step(w, timeout, a), timeout, b), c)
    ensures Run(w, timeout, [a, b, c])
    ensures End(w, timeout, [a, b, c]) == Step(Step(Step(w, timeout, a), timeout, b), timeout, c)
  {
    var once := Step(w, timeout, a);
    var twice := Step(once, timeout, b);
    OneStep(twice, timeout, c, []);
    OneStep(once, timeout, b, [c] + []);
    OneStep(w, timeout, a, [b] + ([c] + []));
    assert [a, b, c] == [a] + ([b] + ([c] + []));
  }

  /** Two requests of one id, then `rejectAll`: the first promise is left hanging. */
  lemma ReusedIdLeftHanging(now: int, timeout: int, id: string)
    ensures var w, events := World(now, NEW_DESK), [Create(id), Create(id), RejectAll];
            && Run(w, timeout, events)
            && End(w, timeout, events).desk.promises == [Promise(id, Unsettled, 0), Promise(id, Rejected, 1)]
  {
    var w := World(now, NEW_DESK);
    var twice := Step(Step(w, timeout, Create(id)), timeout, Create(id));
    ThreeSteps(w, timeout, Create(id), Create(id), RejectAll);
    assert twice.desk.pending.Keys == {id} && twice.desk.pending[id].promise == 1;
    assert PromisesOf(twice.desk.pending, twice.desk.pending.Keys) == {1};
  }

  /** Once every armed timer has fired, nothing is pending and every promise is settled,
      whatever ids were used. */
  lemma AllDeadlinesFired(w: World, timeout: int, events: seq<Event>)
    requires Sound(w.desk) && Run(w, timeout, events)
    requires End(w, timeout, events).desk.timers == map[]
    ensures AllSettled(End(w, timeout, events).desk)
  {
    SettledAtMostOnce(w, timeout, events);
    assert End(w, timeout, events).desk.pending.Keys == {};
  }

  /** A reused id costs the second request its answer: when the first one's timer fires it
      removes the second one's entry, and a response then finds nothing. */
  lemma ReusedIdLosesAnswer(d: Desk, id: string, now: int, timeout: int)
    requires Coincide(d) && id in d.pending
    ensures var first, second := d.pending[id].promise, |d.promises|;
            var after := Fired(Created(d, id, now, timeout), first);
            && id !in after.pending
            && after.promises[second].status == Unsettled
            && ReleasedOne(after, id, Resolved) == after
  {
  }
}
