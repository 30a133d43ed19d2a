/** The runtime calls of a manager, and with them the agreement with the store, read off the schedule
    alone: the requests, the passing of time and the turns at events, without any state. */
module ManagerSchedule {
  import opened Wrappers
  import opened KeyStore
  import opened RuntimeModel
  import opened ManagerSpec
  import opened ManagerReads
  import opened ManagerProtocol
  import opened ManagerDelivery
  import opened ManagerConvergence

  function Clock(steps: seq<Step>): int {
    if steps == [] then 0
    else
      var last := steps[|steps| - 1];
      Clock(steps[..|steps| - 1]) + if last.Tick? then last.duration else 0
  }

  datatype Posted = Posted(event: Event, time: int)

  /** The last request that published an event under this key. */
  function LastPosted(steps: seq<Step>, key: string): Option<Posted> {
    if steps == [] then None
    else
      var front, event := steps[..|steps| - 1], PublishedBy(steps[|steps| - 1]);
      if event.Some? && EventKey(event.value.id) == key then Some(Posted(event.value, Clock(front)))
      else LastPosted(front, key)
  }

  /** The event that a turn at `key` would find: published less than the lifetime of an event ago. */
  function Waiting(steps: seq<Step>, key: string): Option<Event> {
    var posted := LastPosted(steps, key);
    if posted.Some? && Clock(steps) < posted.value.time + EVENT_TTL then Some(posted.value.event) else None
  }

  /** The first turn of manager `m` at each event that is waiting then, with the runtime's answer. */
  function FirstTurns(steps: seq<Step>, m: nat): seq<Call> {
    if steps == [] then []
    else
      var front, last := steps[..|steps| - 1], steps[|steps| - 1];
      var before := FirstTurns(front, m);
      var timely := last.Process? && last.m == m && last.storeUp && Waiting(front, last.key).Some?;
      if timely && Count(before, last.key) == 0 then
        before + [CallFor(last.key, Waiting(front, last.key).value, last.failure)]
      else before
  }

  lemma {:induction false} ClockIsNow(steps: seq<Step>)
    requires ValidRun(steps)
    ensures Run(steps).now == Clock(steps)
  {
    if steps == [] {
    } else {
      ClockIsNow(steps[..|steps| - 1]);
    }
  }

  /** The record under an event key is that of the event posted there. */
  ghost predicate PostedRecord(s: System, key: string, posted: Option<Posted>) {
    if posted.None? then key !in s.table
    else
      && key == EventKey(posted.value.event.id)
      && posted.value.event in s.published
      && RecordKept(s, posted.value.event, posted.value.time)
  }

  lemma NoNewRecord(s: System, step: Step, key: string)
    requires Enabled(s, step) && EVENT_PREFIX <= key && key !in s.table
    requires PublishedBy(step).Some? ==> EventKey(PublishedBy(step).value.id) != key
    ensures key !in Next(s, step).table
  {
    RequestsHaveRequestEffect(s, step);
  }

  lemma NewRecord(s: System, step: Step)
    requires Enabled(s, step) && PublishedBy(step).Some?
    ensures RecordKept(Next(s, step), PublishedBy(step).value, s.now)
    ensures PublishedBy(step).value in Next(s, step).published
  {
    StepPublishes(s, step);
    StepKeepsRecord(s, step, PublishedBy(step).value, 0);
  }

  lemma {:induction false} RecordFollows(steps: seq<Step>, key: string)
    requires ValidRun(steps) && EVENT_PREFIX <= key
    ensures PostedRecord(Run(steps), key, LastPosted(steps, key))
  {
    if steps == [] {
    } else {
      var front, last := steps[..|steps| - 1], steps[|steps| - 1];
      RecordFollows(front, key);
      StepPublishes(Run(front), last);
      if PublishedBy(last).Some? && EventKey(PublishedBy(last).value.id) == key {
        ClockIsNow(front);
        NewRecord(Run(front), last);
      } else if LastPosted(front, key).Some? {
        var posted := LastPosted(front, key).value;
        StepKeepsRecord(Run(front), last, posted.event, posted.time);
      } else {
        NoNewRecord(Run(front), last, key);
      }
    }
  }

  /** Whether an event can be read at some point of a run shows in the schedule. */
  lemma WaitingIsLive(steps: seq<Step>, key: string)
    requires ValidRun(steps) && EVENT_PREFIX <= key
    ensures Live(Run(steps).table, key, Run(steps).now) <==> Waiting(steps, key).Some?
    ensures Waiting(steps, key).Some? ==> Run(steps).table[key].value == EventRecord(Waiting(steps, key).value)
  {
    ClockIsNow(steps);
    RecordFollows(steps, key);
  }

  /** A turn leads to a runtime call exactly at an event that can be read and was not handed over. */
  lemma TurnAttempts(s: System, m: ManagerState, key: string, storeUp: bool)
    requires PublishedInv(s) && ManagerInv(s, m) && EVENT_PREFIX <= key
    ensures Attempts(m, s.table, key, s.now, storeUp)
            <==> storeUp && Live(s.table, key, s.now) && Count(m.calls, key) == 0
  {
    if !Live(m.cache, key, s.now) && Live(s.table, key, s.now) {
      NotHandedOver(s, m, key);
    }
  }

  /** In every run the runtime calls of a manager are its first timely turns, in order. */
  lemma {:induction false} CallsFollowSchedule(steps: seq<Step>, m: nat)
    requires ValidRun(steps)
    ensures FirstTurns(steps, m) == if m < |Run(steps).managers| then Run(steps).managers[m].calls else []
  {
    if steps == [] {
    } else {
      var front, last := steps[..|steps| - 1], steps[|steps| - 1];
      CallsFollowSchedule(front, m);
      if last.Process? && last.m == m {
        RunKeepsInv(front);
        WaitingIsLive(front, last.key);
        TurnAttempts(Run(front), Run(front).managers[m], last.key, last.storeUp);
      }
    }
  }

  /** Exactly when the managed runtime agrees with the store, in terms of the schedule alone: for each
      service, the last create or delete accepted at the manager's first timely turns at the events
      is a create if and only if the last successful write to the store is. */
  lemma RuntimeAgreesBySchedule(steps: seq<Step>, m: nat)
    requires ValidRun(steps) && ColonFreeWrites(steps) && m < |Run(steps).managers|
    ensures RuntimeServices(Run(steps).managers[m].calls) == StoredIds(Run(steps).table)
            <==> SameEnds(FirstTurns(steps, m), StoreOps(steps))
  {
    CallsFollowSchedule(steps, m);
    RuntimeAgreesExactly(steps, m);
  }
}
