/** Calls of `processEvent` that interleave. Here a call is four steps, with any steps of other calls
    and other parties in between: it checks for the marker, reads the event, hands it to the
    runtime, and writes the status and the marker. */
module ManagerInterleaving {
  import opened Wrappers
  import opened KeyStore
  import opened RuntimeModel
  import opened ManagerSpec
  import opened ManagerReads
  import opened ManagerProtocol

  /** How far a call has come. A call that finds a marker ends at once and leaves no trace. */
  datatype Phase =
    | Checked
    | Found(event: Event)
    | Gone
    | HandedOver(event: Event, failure: Option<string>)
    | Done(event: Event, failure: Option<string>, end: nat)

  /** A call of manager `m` for the event under `key` that found no marker at time `start`. Starts and
      ends are numbers of steps. */
  datatype Activity = Activity(m: nat, key: string, start: nat, phase: Phase)

  datatype FineSystem = FineSystem(base: System, activities: seq<Activity>, clock: nat)

  datatype FineStep =
    | Other(step: Step)
    | Check(m: nat, key: string)
    | Look(i: nat, storeUp: bool)
    | HandOver(i: nat, failure: Option<string>)
    | Finish(i: nat)

  const FINE_INITIAL: FineSystem := FineSystem(INITIAL, [], 0)

  ghost predicate FineEnabled(s: FineSystem, step: FineStep) {
    match step
    case Other(other) => !other.Process? && Enabled(s.base, other)
    case Check(m, key) => m < |s.base.managers| && EVENT_PREFIX <= key
    case Look(i, _) => i < |s.activities| && s.activities[i].phase.Checked?
    case HandOver(i, _) => i < |s.activities| && s.activities[i].phase.Found? && s.activities[i].m < |s.base.managers|
    case Finish(i) => i < |s.activities| && s.activities[i].phase.HandedOver? && s.activities[i].m < |s.base.managers|
  }

  function WithManager(s: System, m: nat, state: ManagerState): System
    requires m < |s.managers|
  {
    s.(managers := s.managers[m := state])
  }

  function WithPhase(activities: seq<Activity>, i: nat, phase: Phase): seq<Activity>
    requires i < |activities|
  {
    activities[i := activities[i].(phase := phase)]
  }

  ghost function FineNext(s: FineSystem, step: FineStep): FineSystem
    requires FineEnabled(s, step)
  {
    match step
    case Other(other) => FineSystem(Next(s.base, other), s.activities, s.clock + 1)
    case Check(m, key) =>
      if Live(s.base.managers[m].cache, key, s.base.now) then s.(clock := s.clock + 1)
      else FineSystem(s.base, s.activities + [Activity(m, key, s.clock, Checked)], s.clock + 1)
    case Look(i, storeUp) =>
      var a := s.activities[i];
      var found := storeUp && Live(s.base.table, a.key, s.base.now) && s.base.table[a.key].value.EventRecord?;
      var phase := if found then Found(s.base.table[a.key].value.event) else Gone;
      FineSystem(s.base, WithPhase(s.activities, i, phase), s.clock + 1)
    case HandOver(i, failure) =>
      var a := s.activities[i];
      var m := s.base.managers[a.m];
      FineSystem(WithManager(s.base, a.m, m.(calls := m.calls + [CallFor(a.key, a.phase.event, failure)])),
                 WithPhase(s.activities, i, HandedOver(a.phase.event, failure)), s.clock + 1)
    case Finish(i) =>
      var a := s.activities[i];
      var m := s.base.managers[a.m];
      var cache := Consume(m.cache, a.key, a.phase.event, s.base.now, a.phase.failure);
      FineSystem(WithManager(s.base, a.m, m.(cache := cache)),
                 WithPhase(s.activities, i, Done(a.phase.event, a.phase.failure, s.clock)), s.clock + 1)
  }

  ghost predicate ValidFineRun(steps: seq<FineStep>)
    decreases |steps|, 0
  {
    steps != [] ==>
      ValidFineRun(steps[..|steps| - 1]) && FineEnabled(FineRun(steps[..|steps| - 1]), steps[|steps| - 1])
  }

  ghost function FineRun(steps: seq<FineStep>): FineSystem
    requires ValidFineRun(steps)
    decreases |steps|, 1
  {
    if steps == [] then FINE_INITIAL else FineNext(FineRun(steps[..|steps| - 1]), steps[|steps| - 1])
  }

  /** The call has handed its event to the runtime. */
  predicate ReachedRuntime(a: Activity, m: nat, key: string) {
    a.m == m && a.key == key && (a.phase.HandedOver? || a.phase.Done?)
  }

  /** Each of the two calls checked for the marker before the other one had written it. */
  predicate Overlap(a: Activity, b: Activity) {
    && (a.phase.Done? ==> b.start < a.phase.end)
    && (b.phase.Done? ==> a.start < b.phase.end)
  }

  ghost predicate ActivityInv(s: FineSystem, a: Activity) {
    && a.start < s.clock && a.m < |s.base.managers| && EVENT_PREFIX <= a.key
    && (!a.phase.Checked? && !a.phase.Gone? ==>
          a.phase.event in s.base.published && a.key == EventKey(a.phase.event.id))
    && (a.phase.Done? ==> a.phase.end < s.clock && Marked(s.base, s.base.managers[a.m].cache, a.key))
  }

  /** A call that began after a finished one for the same event gets nowhere: the event has expired. */
  ghost predicate NothingAfter(s: System, done: Activity, a: Activity) {
    done.phase.Done? && a.m == done.m && a.key == done.key && done.phase.end <= a.start ==>
      !Live(s.table, a.key, s.now) && (a.phase.Checked? || a.phase.Gone?)
  }

  ghost predicate FineInv(s: FineSystem) {
    && PublishedInv(s.base)
    && (forall i :: 0 <= i < |s.activities| ==> ActivityInv(s, s.activities[i]))
    && (forall i, j :: 0 <= i < |s.activities| && 0 <= j < |s.activities| ==>
          NothingAfter(s.base, s.activities[i], s.activities[j]))
  }

  /** What a step of another party may do: new event records lie under new keys, time goes on, and
      of a manager's markers only expired ones disappear. */
  ghost predicate QuietStep(s: System, s': System) {
    && s.now <= s'.now
    && |s.managers| <= |s'.managers|
    && (forall e :: e in s.published ==>
          && e in s'.published
          && (EventKey(e.id) in s'.table ==>
                EventKey(e.id) in s.table && s'.table[EventKey(e.id)] == s.table[EventKey(e.id)]))
    && (forall m :: 0 <= m < |s.managers| ==> MarkersKept(s.managers[m].cache, s'.managers[m].cache, s.now))
  }

  ghost predicate MarkersKept(cache: Table<CacheValue>, cache': Table<CacheValue>, now: int) {
    forall k :: k in cache && EVENT_PREFIX <= k && Live(cache, k, now) ==> k in cache' && cache'[k] == cache[k]
  }

  lemma RequestIsQuiet(s: System, effect: Effect, id: string)
    requires PublishedInv(s) && !Used(s.published, id) && RequestEffect(s, effect, id)
    ensures QuietStep(s, Apply(s, effect))
  {
    forall e | e in s.published
      ensures EVENT_PREFIX <= EventKey(e.id) && EventKey(e.id) != EventKey(id)
    {
      EventKeyInjective(e.id, id);
    }
  }

  lemma OtherIsQuiet(s: System, step: Step)
    requires PublishedInv(s) && Enabled(s, step) && !step.Process?
    ensures QuietStep(s, Next(s, step))
    ensures |Next(s, step).managers| >= |s.managers|
    ensures forall m :: 0 <= m < |s.managers| ==> Next(s, step).managers[m].calls == s.managers[m].calls
    ensures forall m :: |s.managers| <= m < |Next(s, step).managers| ==> Next(s, step).managers[m].calls == []
  {
    RequestsHaveRequestEffect(s, step);
    match step {
      case RequestCreate(service, options, id, serviceWrite, eventWrite) =>
        RequestIsQuiet(s, CreateService(s.table, service, options, id, s.now, serviceWrite, eventWrite), id);
      case RequestUpdate(service, namespace, id, eventWrite) =>
        RequestIsQuiet(s, UpdateService(s.table, service, namespace, id, s.now, eventWrite), id);
      case RequestDelete(service, namespace, id, serviceDelete, eventWrite) =>
        RequestIsQuiet(s, DeleteService(s.table, service, namespace, id, s.now, serviceDelete, eventWrite), id);
      case Sync(m, namespaces, reports) =>
        forall k | EVENT_PREFIX <= k
          ensures var cache := SyncAll(s.managers[m].cache, namespaces, reports, s.now).0;
                  (k in cache <==> k in s.managers[m].cache) && (k in cache ==> cache[k] == s.managers[m].cache[k])
        {
          SyncKeepsMarkers(s.managers[m].cache, namespaces, reports, s.now, k);
        }
      case _ =>
    }
  }

  /** A finished call's marker stays good through the steps of others. */
  lemma QuietKeepsActivity(s: FineSystem, base: System, a: Activity)
    requires PublishedInv(s.base) && ActivityInv(s, a) && QuietStep(s.base, base)
    ensures ActivityInv(FineSystem(base, s.activities, s.clock + 1), a)
  {
    if a.phase.Done? {
      assert MarkersKept(s.base.managers[a.m].cache, base.managers[a.m].cache, s.base.now);
      assert Marked(s.base, s.base.managers[a.m].cache, a.key);
    }
  }

  lemma QuietKeepsNothingAfter(s: FineSystem, base: System, done: Activity, a: Activity)
    requires ActivityInv(s, done) && QuietStep(s.base, base) && NothingAfter(s.base, done, a)
    ensures NothingAfter(base, done, a)
  {
  }

  lemma QuietKeepsInv(s: FineSystem, base: System)
    requires FineInv(s) && PublishedInv(base) && QuietStep(s.base, base)
    ensures FineInv(FineSystem(base, s.activities, s.clock + 1))
  {
    var s' := FineSystem(base, s.activities, s.clock + 1);
    forall i | 0 <= i < |s.activities|
      ensures ActivityInv(s', s'.activities[i])
    {
      QuietKeepsActivity(s, base, s.activities[i]);
    }
    forall i, j | 0 <= i < |s.activities| && 0 <= j < |s.activities|
      ensures NothingAfter(base, s'.activities[i], s'.activities[j])
    {
      QuietKeepsNothingAfter(s, base, s.activities[i], s.activities[j]);
    }
  }

  /** No marker: whoever has finished with the event before, its record can no longer be read. */
  lemma NoMarkerMeansExpired(s: FineSystem, done: Activity)
    requires PublishedInv(s.base) && ActivityInv(s, done) && done.phase.Done?
    requires !Live(s.base.managers[done.m].cache, done.key, s.base.now)
    ensures !Live(s.base.table, done.key, s.base.now)
  {
    assert Marked(s.base, s.base.managers[done.m].cache, done.key);
  }

  lemma CheckKeepsInv(s: FineSystem, m: nat, key: string)
    requires FineInv(s) && FineEnabled(s, Check(m, key))
    ensures FineInv(FineNext(s, Check(m, key)))
  {
    var s' := FineNext(s, Check(m, key));
    if !Live(s.base.managers[m].cache, key, s.base.now) {
      var begun := s'.activities[|s.activities|];
      forall i | 0 <= i < |s.activities|
        ensures NothingAfter(s.base, s.activities[i], begun)
      {
        if s.activities[i].phase.Done? && s.activities[i].m == m && s.activities[i].key == key {
          NoMarkerMeansExpired(s, s.activities[i]);
        }
      }
    }
  }

  lemma LookKeepsInv(s: FineSystem, i: nat, storeUp: bool)
    requires FineInv(s) && FineEnabled(s, Look(i, storeUp))
    ensures FineInv(FineNext(s, Look(i, storeUp)))
  {
    var s' := FineNext(s, Look(i, storeUp));
    var a := s.activities[i];
    if s'.activities[i].phase.Found? {
      EventKeyInjective(s.base.table[a.key].value.event.id, "");
    }
    forall j, k | 0 <= j < |s'.activities| && 0 <= k < |s'.activities|
      ensures NothingAfter(s'.base, s'.activities[j], s'.activities[k])
    {
      assert NothingAfter(s.base, s.activities[j], s.activities[k]);
    }
  }

  lemma HandOverKeepsInv(s: FineSystem, i: nat, failure: Option<string>)
    requires FineInv(s) && FineEnabled(s, HandOver(i, failure))
    ensures FineInv(FineNext(s, HandOver(i, failure)))
  {
    var s' := FineNext(s, HandOver(i, failure));
    forall j | 0 <= j < |s'.activities|
      ensures ActivityInv(s', s'.activities[j])
    {
      assert ActivityInv(s, s.activities[j]);
    }
    forall j, k | 0 <= j < |s'.activities| && 0 <= k < |s'.activities|
      ensures NothingAfter(s'.base, s'.activities[j], s'.activities[k])
    {
      assert NothingAfter(s.base, s.activities[j], s.activities[k]);
    }
  }

  /** Writing one marker keeps the markers of all finished calls good. */
  lemma FinishKeepsMarked(s: FineSystem, i: nat, j: nat)
    requires FineInv(s) && FineEnabled(s, Finish(i)) && j < |s.activities|
    ensures ActivityInv(FineNext(s, Finish(i)), FineNext(s, Finish(i)).activities[j])
  {
    var a, b := s.activities[i], s.activities[j];
    assert ActivityInv(s, a) && ActivityInv(s, b);
    ConsumeSetsMarker(s.base.managers[a.m].cache, a.key, a.phase.event, s.base.now, a.phase.failure, b.key);
  }

  lemma FinishKeepsInv(s: FineSystem, i: nat)
    requires FineInv(s) && FineEnabled(s, Finish(i))
    ensures FineInv(FineNext(s, Finish(i)))
  {
    var s' := FineNext(s, Finish(i));
    forall j | 0 <= j < |s'.activities|
      ensures ActivityInv(s', s'.activities[j])
    {
      FinishKeepsMarked(s, i, j);
    }
    forall j, k | 0 <= j < |s'.activities| && 0 <= k < |s'.activities|
      ensures NothingAfter(s'.base, s'.activities[j], s'.activities[k])
    {
      assert NothingAfter(s.base, s.activities[j], s.activities[k]);
      assert ActivityInv(s, s.activities[k]);
    }
  }

  lemma FineStepKeepsInv(s: FineSystem, step: FineStep)
    requires FineInv(s) && FineEnabled(s, step)
    ensures FineInv(FineNext(s, step))
  {
    match step {
      case Other(other) =>
        StepKeepsPublished(s.base, other);
        OtherIsQuiet(s.base, other);
        QuietKeepsInv(s, Next(s.base, other));
      case Check(m, key) => CheckKeepsInv(s, m, key);
      case Look(i, storeUp) => LookKeepsInv(s, i, storeUp);
      case HandOver(i, failure) => HandOverKeepsInv(s, i, failure);
      case Finish(i) => FinishKeepsInv(s, i);
    }
  }

  lemma {:induction false} FineRunKeepsInv(steps: seq<FineStep>)
    requires ValidFineRun(steps)
    ensures FineInv(FineRun(steps))
  {
    if steps == [] {
    } else {
      FineRunKeepsInv(steps[..|steps| - 1]);
      FineStepKeepsInv(FineRun(steps[..|steps| - 1]), steps[|steps| - 1]);
    }
  }

  /** In every run, however calls interleave: two calls of one manager that both hand over the same
      event have overlapped. */
  lemma RepeatsOverlap(steps: seq<FineStep>, i: nat, j: nat, m: nat, key: string)
    requires ValidFineRun(steps) && i < |FineRun(steps).activities| && j < |FineRun(steps).activities|
    requires ReachedRuntime(FineRun(steps).activities[i], m, key)
             && ReachedRuntime(FineRun(steps).activities[j], m, key)
    ensures i != j ==> Overlap(FineRun(steps).activities[i], FineRun(steps).activities[j])
  {
    FineRunKeepsInv(steps);
    var s := FineRun(steps);
    assert NothingAfter(s.base, s.activities[i], s.activities[j]);
    assert NothingAfter(s.base, s.activities[j], s.activities[i]);
  }

  /** How many calls of the manager have handed over the event. */
  function Reached(activities: seq<Activity>, m: nat, key: string): nat {
    if activities == [] then 0
    else
      Reached(activities[..|activities| - 1], m, key)
      + if ReachedRuntime(activities[|activities| - 1], m, key) then 1 else 0
  }

  lemma {:induction false} ReachedUpdate(activities: seq<Activity>, i: nat, a: Activity, m: nat, key: string)
    requires i < |activities|
    ensures Reached(activities[i := a], m, key)
            == Reached(activities, m, key)
               - (if ReachedRuntime(activities[i], m, key) then 1 else 0)
               + (if ReachedRuntime(a, m, key) then 1 else 0)
  {
    var n := |activities| - 1;
    if i == n {
      assert activities[i := a][..n] == activities[..n];
    } else {
      assert activities[i := a][..n] == activities[..n][i := a];
      ReachedUpdate(activities[..n], i, a, m, key);
    }
  }

  lemma StepKeepsReached(s: FineSystem, step: FineStep, m: nat, key: string)
    requires FineInv(s) && FineEnabled(s, step) && m < |FineNext(s, step).base.managers|
    requires m < |s.base.managers| ==> Count(s.base.managers[m].calls, key) == Reached(s.activities, m, key)
    requires m >= |s.base.managers| ==> Reached(s.activities, m, key) == 0
    ensures Count(FineNext(s, step).base.managers[m].calls, key) == Reached(FineNext(s, step).activities, m, key)
  {
    match step {
      case Other(other) => OtherIsQuiet(s.base, other);
      case Check(c, k) =>
        var begun := Activity(c, k, s.clock, Checked);
        assert (s.activities + [begun])[..|s.activities|] == s.activities;
      case Look(i, storeUp) => ReachedUpdate(s.activities, i, FineNext(s, step).activities[i], m, key);
      case HandOver(i, failure) =>
        var a := s.activities[i];
        ReachedUpdate(s.activities, i, FineNext(s, step).activities[i], m, key);
        CountOneMore(s.base.managers[a.m].calls, CallFor(a.key, a.phase.event, failure), key);
      case Finish(i) => ReachedUpdate(s.activities, i, FineNext(s, step).activities[i], m, key);
    }
  }

  lemma {:induction false} NoneReached(s: FineSystem, activities: seq<Activity>, m: nat, key: string)
    requires forall a :: a in activities ==> a.m < |s.base.managers|
    ensures m >= |s.base.managers| ==> Reached(activities, m, key) == 0
  {
    if activities == [] {
    } else {
      NoneReached(s, activities[..|activities| - 1], m, key);
    }
  }

  lemma {:induction false} CallsAreReached(steps: seq<FineStep>, m: nat, key: string)
    requires ValidFineRun(steps) && m < |FineRun(steps).base.managers|
    ensures Count(FineRun(steps).base.managers[m].calls, key) == Reached(FineRun(steps).activities, m, key)
  {
    if steps == [] {
    } else {
      var front := steps[..|steps| - 1];
      FineRunKeepsInv(front);
      var s := FineRun(front);
      forall a | a in s.activities
        ensures a.m < |s.base.managers|
      {
        var i :| 0 <= i < |s.activities| && s.activities[i] == a;
        assert ActivityInv(s, s.activities[i]);
      }
      NoneReached(s, s.activities, m, key);
      if m < |s.base.managers| {
        CallsAreReached(front, m, key);
      }
      StepKeepsReached(s, steps[|steps| - 1], m, key);
    }
  }

  ghost predicate TwoReached(activities: seq<Activity>, m: nat, key: string) {
    exists i, j :: 0 <= i < j < |activities|
      && ReachedRuntime(activities[i], m, key) && ReachedRuntime(activities[j], m, key)
  }

  lemma {:induction false} ReachedTwice(activities: seq<Activity>, m: nat, key: string)
    ensures Reached(activities, m, key) == 0
            <==> forall i :: 0 <= i < |activities| ==> !ReachedRuntime(activities[i], m, key)
    ensures Reached(activities, m, key) >= 2 <==> TwoReached(activities, m, key)
  {
    if activities == [] {
    } else {
      var n := |activities| - 1;
      var front := activities[..n];
      ReachedTwice(front, m, key);
      assert forall i :: 0 <= i < n ==> front[i] == activities[i];
    }
  }

  /** Two overlapping calls of the manager have both handed over the event. */
  ghost predicate OverlappingCalls(activities: seq<Activity>, m: nat, key: string) {
    exists i, j :: 0 <= i < j < |activities|
      && ReachedRuntime(activities[i], m, key) && ReachedRuntime(activities[j], m, key)
      && Overlap(activities[i], activities[j])
  }

  /** Exactly when a manager hands over an event at most once, in every run of interleaved calls: no
      two of its calls for that event that reach the runtime overlap. */
  lemma AtMostOnceIffNoOverlap(steps: seq<FineStep>, m: nat, key: string)
    requires ValidFineRun(steps) && m < |FineRun(steps).base.managers|
    ensures Count(FineRun(steps).base.managers[m].calls, key) <= 1
            <==> !OverlappingCalls(FineRun(steps).activities, m, key)
  {
    var s := FineRun(steps);
    CallsAreReached(steps, m, key);
    ReachedTwice(s.activities, m, key);
    if TwoReached(s.activities, m, key) {
      var i, j :| 0 <= i < j < |s.activities| &&
        ReachedRuntime(s.activities[i], m, key) && ReachedRuntime(s.activities[j], m, key);
      RepeatsOverlap(steps, i, j, m, key);
    }
  }

  /** A call that is not interrupted: its steps up to its end. */
  ghost function Uninterrupted(s: FineSystem, m: nat, key: string, storeUp: bool, failure: Option<string>): FineSystem
    requires FineEnabled(s, Check(m, key))
  {
    var i := |s.activities|;
    var checked := FineNext(s, Check(m, key));
    if |checked.activities| == i then checked
    else
      var looked := FineNext(checked, Look(i, storeUp));
      if looked.activities[i].phase.Gone? then looked
      else FineNext(FineNext(looked, HandOver(i, failure)), Finish(i))
  }

  /** Without interruption a call is the atomic step `Process`. */
  lemma UninterruptedIsAtomic(s: FineSystem, m: nat, key: string, storeUp: bool, failure: Option<string>)
    requires FineEnabled(s, Check(m, key))
    ensures Uninterrupted(s, m, key, storeUp, failure).base == Next(s.base, Process(m, key, storeUp, failure))
  {
    var managers, before := s.base.managers, s.base.managers[m];
    assert managers[m := before] == managers;
    if Attempts(before, s.base.table, key, s.base.now, storeUp) {
      var e := s.base.table[key].value.event;
      var called := before.(calls := before.calls + [CallFor(key, e, failure)]);
      var consumed := called.(cache := Consume(before.cache, key, e, s.base.now, failure));
      assert managers[m := called][m := consumed] == managers[m := consumed];
      assert consumed == ProcessEvent(before, s.base.table, key, s.base.now, storeUp, failure);
    }
  }

  /** A run of one step more. */
  lemma FineExtend(steps: seq<FineStep>, step: FineStep) returns (longer: seq<FineStep>)
    requires ValidFineRun(steps) && FineEnabled(FineRun(steps), step)
    ensures longer == steps + [step] && ValidFineRun(longer) && FineRun(longer) == FineNext(FineRun(steps), step)
  {
    longer := steps + [step];
    assert longer[..|steps|] == steps;
  }

  lemma CallRun(steps: seq<FineStep>, m: nat, key: string, storeUp: bool, failure: Option<string>)
    returns (longer: seq<FineStep>)
    requires ValidFineRun(steps) && FineEnabled(FineRun(steps), Check(m, key))
    ensures ValidFineRun(longer) && FineRun(longer) == Uninterrupted(FineRun(steps), m, key, storeUp, failure)
  {
    var i := |FineRun(steps).activities|;
    longer := FineExtend(steps, Check(m, key));
    if |FineRun(longer).activities| > i {
      longer := FineExtend(longer, Look(i, storeUp));
      if !FineRun(longer).activities[i].phase.Gone? {
        longer := FineExtend(longer, HandOver(i, failure));
        longer := FineExtend(longer, Finish(i));
      }
    }
  }

  /** Every run of atomic calls is a run of interleaved calls, with the same managers and the same
      store at its end. */
  lemma {:induction false} AtomicRunsInterleave(steps: seq<Step>) returns (fine: seq<FineStep>)
    requires ValidRun(steps)
    ensures ValidFineRun(fine) && FineRun(fine).base == Run(steps)
  {
    if steps == [] {
      fine := [];
    } else {
      fine := AtomicRunsInterleave(steps[..|steps| - 1]);
      match steps[|steps| - 1] {
        case Process(m, key, storeUp, failure) =>
          UninterruptedIsAtomic(FineRun(fine), m, key, storeUp, failure);
          fine := CallRun(fine, m, key, storeUp, failure);
        case other =>
          fine := FineExtend(fine, Other(other));
      }
    }
  }

  /** Two calls that both check for the marker before either hands the event over: from every state
      of every run in which the event can be read and has no marker, both hand it over. */
  lemma OverlapRepeats(steps: seq<FineStep>, m: nat, key: string) returns (longer: seq<FineStep>)
    requires ValidFineRun(steps) && FineEnabled(FineRun(steps), Check(m, key))
    requires var s := FineRun(steps).base;
             !Live(s.managers[m].cache, key, s.now) && Live(s.table, key, s.now)
    ensures ValidFineRun(longer) && |FineRun(longer).base.managers| == |FineRun(steps).base.managers|
    ensures Count(FineRun(longer).base.managers[m].calls, key) == Count(FineRun(steps).base.managers[m].calls, key) + 2
  {
    FineRunKeepsInv(steps);
    var s, i := FineRun(steps), |FineRun(steps).activities|;
    EventKeyInjective(s.base.table[key].value.event.id, "");
    var call := CallFor(key, s.base.table[key].value.event, None);
    longer := FineExtend(steps, Check(m, key));
    longer := FineExtend(longer, Check(m, key));
    longer := FineExtend(longer, Look(i, true));
    longer := FineExtend(longer, Look(i + 1, true));
    longer := FineExtend(longer, HandOver(i, None));
    CountOneMore(s.base.managers[m].calls, call, key);
    longer := FineExtend(longer, HandOver(i + 1, None));
    CountOneMore(s.base.managers[m].calls + [call], call, key);
  }

  /** A run in which a manager hands one event over twice. */
  lemma HandedOverTwice() returns (steps: seq<FineStep>)
    ensures ValidFineRun(steps) && |FineRun(steps).base.managers| == 1
    ensures Count(FineRun(steps).base.managers[0].calls, EventKey("x")) == 2
  {
    EventKeyInjective("x", "");
    assert ValidFineRun([]) && FineRun([]) == FINE_INITIAL;
    steps := FineExtend([], Other(Spawn));
    steps := FineExtend(steps, Other(RequestUpdate(Service("a", "1", None), "n", "x", true)));
    steps := OverlapRepeats(steps, 0, EventKey("x"));
  }
}
