/** When a published event is handed over: its record can be read until its deadline, in every run,
    and a manager hands it over exactly if it has a turn at it before then. */
module ManagerDelivery {
  import opened Wrappers
  import opened KeyStore
  import opened RuntimeModel
  import opened ManagerSpec
  import opened ManagerProtocol

  /** The event becomes visible at step `n`. */
  ghost predicate PublishedAt(steps: seq<Step>, n: nat, e: Event)
    requires ValidRun(steps)
  {
    && n < |steps| && ValidRun(steps[..n]) && ValidRun(steps[..n + 1])
    && e !in Run(steps[..n]).published && e in Run(steps[..n + 1]).published
  }

  /** The record of an event published at `time`: there until its deadline, and no other. */
  ghost predicate RecordKept(s: System, e: Event, time: int) {
    var key := EventKey(e.id);
    && (key in s.table ==> s.table[key] == Entry(EventRecord(e), Some(time + EVENT_TTL)))
    && (s.now < time + EVENT_TTL ==> key in s.table)
  }

  lemma RequestKeepsRecord(s: System, effect: Effect, id: string, e: Event, time: int)
    requires !Used(s.published, id) && RequestEffect(s, effect, id)
    ensures e in s.published && RecordKept(s, e, time) ==> RecordKept(Apply(s, effect), e, time)
    ensures e !in s.published && e in Apply(s, effect).published ==> RecordKept(Apply(s, effect), e, s.now)
  {
    EventKeyInjective(e.id, id);
  }

  /** Only time removes the record of an event. */
  lemma StepKeepsRecord(s: System, step: Step, e: Event, time: int)
    requires Enabled(s, step)
    ensures e in s.published && RecordKept(s, e, time) ==> RecordKept(Next(s, step), e, time)
    ensures e !in s.published && e in Next(s, step).published ==> RecordKept(Next(s, step), e, s.now)
  {
    RequestsHaveRequestEffect(s, step);
    match step {
      case RequestCreate(service, options, id, serviceWrite, eventWrite) =>
        var effect := CreateService(s.table, service, options, id, s.now, serviceWrite, eventWrite);
        RequestKeepsRecord(s, effect, id, e, time);
      case RequestUpdate(service, namespace, id, eventWrite) =>
        RequestKeepsRecord(s, UpdateService(s.table, service, namespace, id, s.now, eventWrite), id, e, time);
      case RequestDelete(service, namespace, id, serviceDelete, eventWrite) =>
        var effect := DeleteService(s.table, service, namespace, id, s.now, serviceDelete, eventWrite);
        RequestKeepsRecord(s, effect, id, e, time);
      case _ =>
    }
  }

  lemma {:induction false} PublishedGrows(steps: seq<Step>, n: nat, e: Event)
    requires ValidRun(steps) && n <= |steps| && ValidRun(steps[..n]) && e in Run(steps[..n]).published
    ensures e in Run(steps).published
    decreases |steps|
  {
    if n == |steps| {
      assert steps[..n] == steps;
    } else {
      var front := steps[..|steps| - 1];
      assert front[..n] == steps[..n];
      PublishedGrows(front, n, e);
    }
  }

  lemma {:induction false} RecordStays(steps: seq<Step>, n: nat, e: Event)
    requires ValidRun(steps) && PublishedAt(steps, n, e)
    ensures RecordKept(Run(steps), e, Run(steps[..n]).now)
    decreases |steps|
  {
    var front := steps[..|steps| - 1];
    if n == |front| {
      assert steps[..n + 1] == steps;
      StepKeepsRecord(Run(front), steps[n], e, 0);
    } else {
      assert front[..n] == steps[..n] && front[..n + 1] == steps[..n + 1];
      RecordStays(front, n, e);
      PublishedGrows(front, n + 1, e);
      StepKeepsRecord(Run(front), steps[|front|], e, Run(steps[..n]).now);
    }
  }

  ghost predicate ReadableBefore(s: System, e: Event, deadline: int) {
    var key := EventKey(e.id);
    && (Live(s.table, key, s.now) <==> s.now < deadline)
    && (Live(s.table, key, s.now) ==> s.table[key].value == EventRecord(e))
  }

  /** In every run, whatever happens in between: from the step that publishes an event on its record
      can be read exactly for the lifetime of an event. */
  lemma ReadableUntilDeadline(steps: seq<Step>, n: nat, e: Event, i: nat)
    requires ValidRun(steps) && PublishedAt(steps, n, e) && n < i <= |steps| && ValidRun(steps[..i])
    ensures ReadableBefore(Run(steps[..i]), e, Run(steps[..n]).now + EVENT_TTL)
  {
    assert steps[..i][..n] == steps[..n] && steps[..i][..n + 1] == steps[..n + 1];
    RecordStays(steps[..i], n, e);
  }

  /** Step `i` is the manager's turn at an event published at step `n`, less than the lifetime of an
      event later, with a store that can be read. */
  ghost predicate TimelyTurn(steps: seq<Step>, n: nat, e: Event, i: nat, m: nat)
    requires ValidRun(steps) && PublishedAt(steps, n, e)
  {
    && n < i < |steps|
    && steps[i].Process? && steps[i].m == m && steps[i].key == EventKey(e.id) && steps[i].storeUp
    && ValidRun(steps[..i])
    && Run(steps[..i]).now < Run(steps[..n]).now + EVENT_TTL
  }

  /** A hand-over happens only at a turn at which the event's record can be read. */
  lemma {:induction false} HandedOverAtTurn(steps: seq<Step>, m: nat, key: string) returns (i: nat)
    requires ValidRun(steps) && m < |Run(steps).managers| && Count(Run(steps).managers[m].calls, key) > 0
    ensures TurnAt(steps, i, m, key)
  {
    var front, last := steps[..|steps| - 1], steps[|steps| - 1];
    var before := Run(front);
    if m < |before.managers| && Count(before.managers[m].calls, key) > 0 {
      i := HandedOverAtTurn(front, m, key);
      assert front[..i] == steps[..i];
    } else {
      i := |front|;
      CallAtTurn(before, last, m, key);
    }
  }

  lemma CallAtTurn(s: System, step: Step, m: nat, key: string)
    requires Enabled(s, step) && m < |Next(s, step).managers|
    requires Count(Next(s, step).managers[m].calls, key) > 0
    requires m < |s.managers| ==> Count(s.managers[m].calls, key) == 0
    ensures step.Process? && step.m == m && step.key == key && step.storeUp && Live(s.table, key, s.now)
  {
    if step.Process? && step.m == m && Attempts(s.managers[m], s.table, step.key, s.now, step.storeUp) {
      CountOneMore(s.managers[m].calls, CallFor(step.key, s.table[step.key].value.event, step.failure), key);
    }
  }

  /** An event that is published at step `n` cannot be read before. */
  lemma NotReadableBefore(steps: seq<Step>, n: nat, e: Event, i: nat)
    requires ValidRun(steps) && PublishedAt(steps, n, e) && i <= n && ValidRun(steps[..i])
    ensures !Live(Run(steps[..i]).table, EventKey(e.id), Run(steps[..i]).now)
  {
    var s := Run(steps[..i]);
    if EventKey(e.id) in s.table {
      RunKeepsInv(steps[..i]);
      EventKeyInjective(e.id, e.id);
      var other := s.table[EventKey(e.id)].value.event;
      EventKeyInjective(e.id, other.id);
      assert steps[..n][..i] == steps[..i] && steps[..n + 1][..n] == steps[..n];
      PublishedGrows(steps[..n], i, other);
      PublishedGrows(steps[..n + 1], n, other);
      RunKeepsInv(steps[..n + 1]);
      SameIdSameEvent(Run(steps[..n + 1]), e, other);
    }
  }

  lemma SameIdSameEvent(s: System, a: Event, b: Event)
    requires PublishedInv(s) && a in s.published && b in s.published && a.id == b.id
    ensures a == b
  {
    var i :| 0 <= i < |s.published| && s.published[i] == a;
    var j :| 0 <= j < |s.published| && s.published[j] == b;
  }

  /** Exactly when a manager hands over an event, and then exactly once: it has a turn at the event
      after the publication, less than the lifetime of an event later, while it can read the store. */
  lemma HandedOverIffTurn(steps: seq<Step>, n: nat, e: Event, m: nat)
    requires ValidRun(steps) && PublishedAt(steps, n, e) && m < |Run(steps).managers|
    ensures Count(Run(steps).managers[m].calls, EventKey(e.id)) <= 1
    ensures Count(Run(steps).managers[m].calls, EventKey(e.id)) == 1
            <==> exists i :: TimelyTurn(steps, n, e, i, m)
  {
    var key := EventKey(e.id);
    AtMostOnce(steps, m, key);
    if Count(Run(steps).managers[m].calls, key) == 1 {
      var i := HandedOverAtTurn(steps, m, key);
      if i <= n {
        NotReadableBefore(steps, n, e, i);
      } else {
        ReadableUntilDeadline(steps, n, e, i);
        assert TimelyTurn(steps, n, e, i, m);
      }
    }
    if i :| TimelyTurn(steps, n, e, i, m) {
      ReadableUntilDeadline(steps, n, e, i);
      ExactlyOnceAfterTurn(steps, i, m, key);
    }
  }
}
