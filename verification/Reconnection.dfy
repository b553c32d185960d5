/** Reconnection backoff in the WebSocket client (packages/sdk/src/websocket-client.ts). */
module Reconnection {
  import opened Basics

  function Pow2(n: nat): nat {
    if n == 0 then 1 else 2 * Pow2(n - 1)
  }

  function Min(a: int, b: int): int {
    if a <= b then a else b
  }

  /** The delay after `attempts` attempts: doubling, capped at ten times the interval. */
  function BackoffDelay(interval: int, attempts: nat): int {
    Min(interval * Pow2(attempts), interval * 10)
  }

  /** The manager's fields; the timers of the runtime that are still armed; and the delay
      of every timer ever set, in order, a timer being numbered by its place there. The
      field `timer` names only the one set last. */
  datatype State = State(attempts: nat, timer: Option<nat>, armed: set<nat>, delays: seq<int>)

  const FRESH := State(0, None, {}, [])

  function Scheduled(s: State, interval: int): State {
    var t := |s.delays|;
    State(s.attempts + 1, Some(t), s.armed + {t}, s.delays + [BackoffDelay(interval, s.attempts + 1)])
  }

  function Cancelled(s: State): State {
    if s.timer.None? then s else s.(timer := None, armed := s.armed - {s.timer.value})
  }

  class ReconnectionManager {
    const maxAttempts: int
    const interval: int
    var attempts: nat
    var timer: Option<nat>
    ghost var armed: set<nat>
    ghost var delays: seq<int>
    var made: nat

    ghost function Now(): State
      reads this
    {
      State(attempts, timer, armed, delays)
    }

    ghost predicate Valid()
      reads this
    {
      made == |delays|
    }

    constructor (maxAttempts: int, interval: int)
      ensures this.maxAttempts == maxAttempts && this.interval == interval && Valid() && Now() == FRESH
    {
      this.maxAttempts, this.interval := maxAttempts, interval;
      attempts, timer, armed, delays, made := 0, None, {}, [], 0;
    }

    function CanReconnect(): bool
      reads this
    {
      attempts < maxAttempts
    }

    method Schedule() returns (scheduled: bool)
      requires Valid()
      modifies this
      ensures Valid()
      ensures scheduled == old(CanReconnect())
      ensures Now() == if scheduled then Scheduled(old(Now()), interval) else old(Now())
    {
      if attempts >= maxAttempts {
        return false;
      }
      attempts := attempts + 1;
      var delay := BackoffDelay(interval, attempts);
      timer, armed, delays, made := Some(made), armed + {made}, delays + [delay], made + 1;
      scheduled := true;
    }

    method Cancel()
      requires Valid()
      modifies this
      ensures Valid()
      ensures Now() == Cancelled(old(Now()))
    {
      if timer.Some? {
        armed := armed - {timer.value};
        timer := None;
      }
    }

    method Reset()
      requires Valid()
      modifies this
      ensures Valid()
      ensures Now() == Cancelled(old(Now())).(attempts := 0)
    {
      Cancel();
      attempts := 0;
    }
  }

  // ---------------------------------------------------------------- delays

  /** What `n` schedules in a row, the first after a reset, wait in total. */
  function Waited(interval: int, n: nat): int {
    if n == 0 then 0 else Waited(interval, n - 1) + BackoffDelay(interval, n)
  }

  lemma {:induction false} Pow2Grows(n: nat)
    requires n >= 4
    ensures Pow2(n) >= 16
  {
    if n > 4 {
      Pow2Grows(n - 1);
    } else {
      assert Pow2(4) == 2 * Pow2(3) == 4 * Pow2(2) == 8 * Pow2(1) == 16;
    }
  }

  /** The doubling is felt three times only; every later delay is the cap. */
  lemma DelayExactly(interval: int, n: nat)
    requires interval >= 0 && n >= 1
    ensures BackoffDelay(interval, n) == interval * if n == 1 then 2 else if n == 2 then 4 else if n == 3 then 8 else 10
  {
    assert Pow2(3) == 2 * Pow2(2) == 4 * Pow2(1) == 8;
    if n >= 4 {
      Pow2Grows(n);
      assert interval * Pow2(n) >= interval * 16;
    }
  }

  lemma DelaysGrowToTheCap(interval: int, n: nat)
    requires interval >= 0 && n >= 1
    ensures 2 * interval <= BackoffDelay(interval, n) <= BackoffDelay(interval, n + 1) <= 10 * interval
  {
    DelayExactly(interval, n);
    DelayExactly(interval, n + 1);
  }

  lemma {:induction false} TotalWait(interval: int, n: nat)
    requires interval >= 0 && n >= 3
    ensures Waited(interval, n) == interval * (10 * n - 16)
  {
    DelayExactly(interval, n);
    if n == 3 {
      DelayExactly(interval, 1);
      DelayExactly(interval, 2);
      assert Waited(interval, 3) == Waited(interval, 2) + 8 * interval;
      assert Waited(interval, 2) == Waited(interval, 1) + 4 * interval;
    } else {
      TotalWait(interval, n - 1);
      assert interval * (10 * n - 16) == interval * (10 * (n - 1) - 16) + interval * 10;
    }
  }

  // ---------------------------------------------------------------- runs

  datatype Event = Schedule | Cancel | Reset | Fire(timer: nat)

  function Step(s: State, maxAttempts: int, interval: int, e: Event): State {
    match e
    case Schedule => if s.attempts >= maxAttempts then s else Scheduled(s, interval)
    case Cancel => Cancelled(s)
    case Reset => Cancelled(s).(attempts := 0)
    case Fire(t) => s.(armed := s.armed - {t})
  }

  function After(s: State, maxAttempts: int, interval: int, events: seq<Event>): State {
    if events == [] then s
    else Step(After(s, maxAttempts, interval, events[..|events| - 1]), maxAttempts, interval, events[|events| - 1])
  }

  function Total(delays: seq<int>): int {
    if delays == [] then 0 else Total(delays[..|delays| - 1]) + delays[|delays| - 1]
  }

  /** Every run without a reset, however schedules, cancels and firings are mixed, sets
      one timer per attempt, never more than `maxAttempts`, and waits what that many
      schedules in a row wait. */
  lemma {:induction false} AttemptsAreBounded(maxAttempts: int, interval: int, events: seq<Event>)
    requires maxAttempts >= 0 && Reset !in events
    ensures var end := After(FRESH, maxAttempts, interval, events);
            && |end.delays| == end.attempts <= maxAttempts
            && Total(end.delays) == Waited(interval, end.attempts)
    decreases |events|
  {
    if events == [] {
    } else {
      var e := events[|events| - 1];
      assert e in events;
      AttemptsAreBounded(maxAttempts, interval, events[..|events| - 1]);
      var before := After(FRESH, maxAttempts, interval, events[..|events| - 1]);
      if e == Schedule && before.attempts < maxAttempts {
        var delay := BackoffDelay(interval, before.attempts + 1);
        assert (before.delays + [delay])[..|before.delays|] == before.delays;
      }
    }
  }

  /** How often a reconnection was asked for since the last reset. */
  function Asked(events: seq<Event>): nat {
    if events == [] then 0
    else
      match events[|events| - 1]
      case Schedule => Asked(events[..|events| - 1]) + 1
      case Reset => 0
      case _ => Asked(events[..|events| - 1])
  }

  /** In every run an attempt is made each time, until there have been `maxAttempts` since the
      last reset. */
  lemma {:induction false} AttemptsExactly(maxAttempts: int, interval: int, events: seq<Event>)
    requires maxAttempts >= 0
    ensures After(FRESH, maxAttempts, interval, events).attempts == Min(Asked(events), maxAttempts)
    decreases |events|
  {
    if events == [] {
    } else {
      AttemptsExactly(maxAttempts, interval, events[..|events| - 1]);
    }
  }

  /** Three or more attempts wait `interval * (10n - 16)` in total. */
  lemma TotalWaitOfRun(maxAttempts: int, interval: int, events: seq<Event>)
    requires maxAttempts >= 0 && interval >= 0 && Reset !in events
    requires |After(FRESH, maxAttempts, interval, events).delays| >= 3
    ensures var delays := After(FRESH, maxAttempts, interval, events).delays;
            Total(delays) == interval * (10 * |delays| - 16)
  {
    AttemptsAreBounded(maxAttempts, interval, events);
    TotalWait(interval, |After(FRESH, maxAttempts, interval, events).delays|);
  }

  /** With `made` timers set so far, an event that ends timer `t`: it fires, or it is the
      one set last and is cancelled. */
  predicate Ends(e: Event, made: nat, t: nat) {
    t < made && (e == Fire(t) || ((e.Cancel? || e.Reset?) && t + 1 == made))
  }

  /** Timer `t` was set in the run, and then fired or was cancelled while it was the last. */
  ghost predicate Ended(maxAttempts: int, interval: int, events: seq<Event>, t: nat)
    decreases |events|
  {
    events != [] &&
    var before := events[..|events| - 1];
    || Ended(maxAttempts, interval, before, t)
    || Ends(events[|events| - 1], |After(FRESH, maxAttempts, interval, before).delays|, t)
  }

  lemma {:induction false} EndedWereSet(maxAttempts: int, interval: int, events: seq<Event>, t: nat)
    requires Ended(maxAttempts, interval, events, t)
    ensures t < |After(FRESH, maxAttempts, interval, events).delays|
    decreases |events|
  {
    var before := events[..|events| - 1];
    if Ended(maxAttempts, interval, before, t) {
      EndedWereSet(maxAttempts, interval, before, t);
    }
  }

  /** In every run the armed timers are those that were set and have not ended. */
  lemma {:induction false} ArmedExactly(maxAttempts: int, interval: int, events: seq<Event>, t: nat)
    ensures var s := After(FRESH, maxAttempts, interval, events);
            t in s.armed <==> t < |s.delays| && !Ended(maxAttempts, interval, events, t)
    decreases |events|
  {
    if events == [] {
    } else {
      var before := events[..|events| - 1];
      ArmedExactly(maxAttempts, interval, before, t);
      TimerIsLast(maxAttempts, interval, before);
      if Ended(maxAttempts, interval, before, t) {
        EndedWereSet(maxAttempts, interval, before, t);
      }
    }
  }

  /** The field `timer` names the timer set last, or nothing, and then that one has ended. */
  lemma {:induction false} TimerIsLast(maxAttempts: int, interval: int, events: seq<Event>)
    ensures var s := After(FRESH, maxAttempts, interval, events);
            && (s.timer.Some? ==> s.timer.value + 1 == |s.delays|)
            && (s.timer.None? ==> |s.delays| - 1 !in s.armed)
    decreases |events|
  {
    if events == [] {
    } else {
      TimerIsLast(maxAttempts, interval, events[..|events| - 1]);
    }
  }

  lemma AfterOneMore(maxAttempts: int, interval: int, events: seq<Event>, e: Event)
    ensures After(FRESH, maxAttempts, interval, events + [e])
         == Step(After(FRESH, maxAttempts, interval, events), maxAttempts, interval, e)
  {
    assert (events + [e])[..|events|] == events;
  }

  lemma ArmedAfterCancel(maxAttempts: int, interval: int, events: seq<Event>, t: nat)
    ensures t in After(FRESH, maxAttempts, interval, events + [Cancel]).armed
            <==> t + 1 < |After(FRESH, maxAttempts, interval, events).delays|
                 && !Ended(maxAttempts, interval, events, t)
  {
    AfterOneMore(maxAttempts, interval, events, Cancel);
    TimerIsLast(maxAttempts, interval, events);
    ArmedExactly(maxAttempts, interval, events, t);
  }

  /** After any run, a cancel leaves no timer armed exactly when every timer set before the
      last one has fired or was cancelled: scheduling again forgets a timer, it does not
      clear it. */
  lemma CancelStopsAllExactlyWhen(maxAttempts: int, interval: int, events: seq<Event>)
    ensures After(FRESH, maxAttempts, interval, events + [Cancel]).armed == {}
            <==> forall t: nat :: t + 1 < |After(FRESH, maxAttempts, interval, events).delays|
                                  ==> Ended(maxAttempts, interval, events, t)
  {
    var armed := After(FRESH, maxAttempts, interval, events + [Cancel]).armed;
    if armed == {} {
      forall t: nat | t + 1 < |After(FRESH, maxAttempts, interval, events).delays|
        ensures Ended(maxAttempts, interval, events, t)
      {
        ArmedAfterCancel(maxAttempts, interval, events, t);
      }
    } else {
      var t :| t in armed;
      ArmedAfterCancel(maxAttempts, interval, events, t);
    }
  }

  ghost predicate OneTimerAtATime(maxAttempts: int, interval: int, events: seq<Event>)
    decreases |events|
  {
    events != [] ==>
      var before := events[..|events| - 1];
      && OneTimerAtATime(maxAttempts, interval, before)
      && (events[|events| - 1] == Schedule ==> After(FRESH, maxAttempts, interval, before).armed == {})
  }

  /** Who never schedules while a timer is armed can rely on `cancel`. */
  lemma {:induction false} CancelStopsAllOneAtATime(maxAttempts: int, interval: int, events: seq<Event>)
    requires OneTimerAtATime(maxAttempts, interval, events)
    ensures After(FRESH, maxAttempts, interval, events + [Cancel]).armed == {}
    decreases |events|
  {
    AfterOneMore(maxAttempts, interval, events, Cancel);
    if events == [] {
    } else {
      var before := events[..|events| - 1];
      CancelStopsAllOneAtATime(maxAttempts, interval, before);
      AfterOneMore(maxAttempts, interval, before, Cancel);
      TimerIsLast(maxAttempts, interval, events);
    }
  }

  /** Two schedules in a row, then a cancel: the first timer is still armed. */
  lemma SecondScheduleOutlivesCancel(maxAttempts: int, interval: int)
    requires maxAttempts >= 2
    ensures After(FRESH, maxAttempts, interval, [Schedule, Schedule, Cancel]).armed == {0}
  {
    var run := [Schedule, Schedule, Cancel];
    var once, twice := [Schedule], [Schedule, Schedule];
    assert once[..0] == [] && twice[..1] == once && run[..2] == twice;
    assert After(FRESH, maxAttempts, interval, []) == FRESH;
    assert After(FRESH, maxAttempts, interval, once) == Step(FRESH, maxAttempts, interval, once[0]);
    var one := Scheduled(FRESH, interval);
    assert After(FRESH, maxAttempts, interval, twice) == Step(one, maxAttempts, interval, twice[1]);
    var two := Scheduled(one, interval);
    assert After(FRESH, maxAttempts, interval, run) == Cancelled(two);
    assert two.armed == {0, 1};
  }
}
