/** Many manager processes over one shared store. A run is a list of atomic steps in any order:
    time passes, managers start, requests write and publish, any manager processes any event key
    at any time (right after publication, late, or while polling), statuses are synced, and
    expired records are dropped from the store or from a cache. */
module ManagerProtocol {
  import opened Wrappers
  import opened KeyStore
  import opened RuntimeModel
  import opened ManagerSpec
  import opened ManagerReads

  /** `published` lists the events in the order in which they became visible. */
  datatype System = System(now: int, table: Table<Value>, managers: seq<ManagerState>, published: seq<Event>)

  datatype Step =
    | Tick(duration: nat)
    | Spawn
    | RequestCreate(service: Service, options: CreateOptions, id: string, serviceWrite: bool, eventWrite: bool)
    | RequestUpdate(service: Service, namespace: string, id: string, eventWrite: bool)
    | RequestDelete(service: Service, namespace: string, id: string, serviceDelete: bool, eventWrite: bool)
    | Process(m: nat, key: string, storeUp: bool, failure: Option<string>)
    | Sync(m: nat, namespaces: seq<string>, reports: map<string, seq<Service>>)
    | DropStored(key: string)
    | DropCached(m: nat, key: string)

  const INITIAL: System := System(0, map[], [], [])

  predicate Used(published: seq<Event>, id: string) {
    exists e :: e in published && e.id == id
  }

  /** Event ids are fresh, and only expired records are dropped. */
  ghost predicate Enabled(s: System, step: Step) {
    match step
    case RequestCreate(_, _, id, _, _) => !Used(s.published, id)
    case RequestUpdate(_, _, id, _) => !Used(s.published, id)
    case RequestDelete(_, _, id, _, _) => !Used(s.published, id)
    case Process(m, key, _, _) => m < |s.managers| && EVENT_PREFIX <= key
    case Sync(m, _, _) => m < |s.managers|
    case DropStored(key) => key in s.table && !Live(s.table, key, s.now)
    case DropCached(m, key) => m < |s.managers| && key in s.managers[m].cache && !Live(s.managers[m].cache, key, s.now)
    case _ => true
  }

  function Apply(s: System, effect: Effect): System {
    s.(table := effect.table,
       published := if effect.published.Some? then s.published + [effect.published.value] else s.published)
  }

  ghost function Next(s: System, step: Step): System
    requires Enabled(s, step)
  {
    match step
    case Tick(duration) => s.(now := s.now + duration)
    case Spawn => s.(managers := s.managers + [ManagerState(map[], [])])
    case RequestCreate(service, options, id, serviceWrite, eventWrite) =>
      Apply(s, CreateService(s.table, service, options, id, s.now, serviceWrite, eventWrite))
    case RequestUpdate(service, namespace, id, eventWrite) =>
      Apply(s, UpdateService(s.table, service, namespace, id, s.now, eventWrite))
    case RequestDelete(service, namespace, id, serviceDelete, eventWrite) =>
      Apply(s, DeleteService(s.table, service, namespace, id, s.now, serviceDelete, eventWrite))
    case Process(m, key, storeUp, failure) =>
      s.(managers := s.managers[m := ProcessEvent(s.managers[m], s.table, key, s.now, storeUp, failure)])
    case Sync(m, namespaces, reports) =>
      var cache := SyncAll(s.managers[m].cache, namespaces, reports, s.now).0;
      s.(managers := s.managers[m := s.managers[m].(cache := cache)])
    case DropStored(key) => s.(table := s.table - {key})
    case DropCached(m, key) =>
      s.(managers := s.managers[m := s.managers[m].(cache := s.managers[m].cache - {key})])
  }

  ghost predicate ValidRun(steps: seq<Step>)
    decreases |steps|, 0
  {
    steps != [] ==>
      ValidRun(steps[..|steps| - 1]) && Enabled(Run(steps[..|steps| - 1]), steps[|steps| - 1])
  }

  ghost function Run(steps: seq<Step>): System
    requires ValidRun(steps)
    decreases |steps|, 1
  {
    if steps == [] then INITIAL else Next(Run(steps[..|steps| - 1]), steps[|steps| - 1])
  }

  /** How often a list of runtime calls hands over the event under `key`. */
  function Count(calls: seq<Call>, key: string): nat {
    if calls == [] then 0
    else Count(calls[..|calls| - 1], key) + if calls[|calls| - 1].key == key then 1 else 0
  }

  lemma {:induction false} CountPositive(calls: seq<Call>, key: string)
    ensures Count(calls, key) > 0 <==> exists c :: c in calls && c.key == key
  {
    if calls == [] {
    } else {
      var last := calls[|calls| - 1];
      assert calls == calls[..|calls| - 1] + [last];
      CountPositive(calls[..|calls| - 1], key);
    }
  }

  lemma CountOneMore(calls: seq<Call>, call: Call, key: string)
    ensures Count(calls + [call], key) == Count(calls, key) + if call.key == key then 1 else 0
  {
    assert (calls + [call])[..|calls|] == calls;
  }

  /** Every event record is of a published event and expires; a record still stored does not
      outlive the time at which it can be handed over again. */
  ghost predicate EventsInv(s: System) {
    forall k :: k in s.table && EVENT_PREFIX <= k ==>
      && s.table[k].value.EventRecord?
      && s.table[k].value.event in s.published
      && k == EventKey(s.table[k].value.event.id)
      && s.table[k].deadline.Some?
      && s.table[k].deadline.value <= s.now + EVENT_TTL
      && (s.table[k].value.event.kind == Create ==> s.table[k].value.event.options.Some?)
  }

  /** The marker that stops a second hand-over: while the event record can still be read, the
      marker is there and outlives it by at least the lifetime of an event. */
  ghost predicate Marked(s: System, cache: Table<CacheValue>, key: string) {
    key in s.table && s.table[key].deadline.Some? ==>
      || s.table[key].deadline.value <= s.now
      || (key in cache && cache[key].deadline.Some?
          && s.table[key].deadline.value + EVENT_TTL <= cache[key].deadline.value)
  }

  ghost predicate CallOf(published: seq<Event>, c: Call) {
    exists e :: e in published && c == CallFor(EventKey(e.id), e, c.failure)
  }

  ghost predicate ManagerInv(s: System, m: ManagerState) {
    && (forall c :: c in m.calls ==> CallOf(s.published, c) && Marked(s, m.cache, c.key))
    && (forall k :: Count(m.calls, k) <= 1)
    && (forall k :: k in m.cache && EVENT_PREFIX <= k ==> Count(m.calls, k) == 1)
  }

  /** Event records are of published events, and published events have different ids. */
  ghost predicate PublishedInv(s: System) {
    && EventsInv(s)
    && (forall i, j :: 0 <= i < j < |s.published| ==> s.published[i].id != s.published[j].id)
  }

  ghost predicate Inv(s: System) {
    && PublishedInv(s)
    && (forall i :: 0 <= i < |s.managers| ==> ManagerInv(s, s.managers[i]))
  }

  /** Publishing keeps the invariant of every manager, because the event's key is new. */
  lemma PublishKeepsManager(s: System, s': System, m: ManagerState, e: Event)
    requires EventsInv(s) && ManagerInv(s, m)
    requires !Used(s.published, e.id) && s'.published == s.published + [e] && s'.now == s.now
    requires forall k :: k in s'.table && EVENT_PREFIX <= k && k != EventKey(e.id) ==>
               k in s.table && s'.table[k] == s.table[k]
    ensures ManagerInv(s', m)
  {
    forall c | c in m.calls
      ensures CallOf(s'.published, c) && Marked(s', m.cache, c.key)
    {
      var e0 :| e0 in s.published && c == CallFor(EventKey(e0.id), e0, c.failure);
      assert e0 in s'.published;
      EventKeyInjective(e0.id, e.id);
    }
  }

  lemma QuietKeepsManager(s: System, s': System, m: ManagerState)
    requires ManagerInv(s, m) && s'.published == s.published && s.now <= s'.now
    requires forall k :: k in s'.table && EVENT_PREFIX <= k ==> k in s.table && s'.table[k] == s.table[k]
    ensures ManagerInv(s', m)
  {
    forall c | c in m.calls
      ensures CallOf(s'.published, c) && Marked(s', m.cache, c.key)
    {
      var e0 :| e0 in s.published && c == CallFor(EventKey(e0.id), e0, c.failure);
      EventKeyInjective(e0.id, e0.id);
    }
  }

  /** The effect of a request on the event records: at most one new one, under its own key. */
  ghost predicate RequestEffect(s: System, effect: Effect, id: string) {
    && (forall k :: EVENT_PREFIX <= k && k != EventKey(id) ==>
          (k in effect.table <==> k in s.table) && (k in s.table ==> effect.table[k] == s.table[k]))
    && (effect.published.None? ==> forall k :: EVENT_PREFIX <= k ==>
          (k in effect.table <==> k in s.table) && (k in s.table ==> effect.table[k] == s.table[k]))
    && (effect.published.Some? ==>
          && effect.published.value.id == id
          && effect.published.value.options.Some?
          && EventKey(id) in effect.table
          && effect.table[EventKey(id)] == Entry(EventRecord(effect.published.value), Some(s.now + EVENT_TTL)))
  }

  lemma RequestKeepsPublished(s: System, effect: Effect, id: string)
    requires PublishedInv(s) && !Used(s.published, id) && RequestEffect(s, effect, id)
    ensures PublishedInv(Apply(s, effect))
  {
  }

  /** What the store and the published events keep does not depend on the managers. */
  lemma StepKeepsPublished(s: System, step: Step)
    requires PublishedInv(s) && Enabled(s, step)
    ensures PublishedInv(Next(s, step))
  {
    match step {
      case RequestCreate(service, options, id, serviceWrite, eventWrite) =>
        RequestsHaveRequestEffect(s, step);
        RequestKeepsPublished(s, CreateService(s.table, service, options, id, s.now, serviceWrite, eventWrite), id);
      case RequestUpdate(service, namespace, id, eventWrite) =>
        RequestsHaveRequestEffect(s, step);
        RequestKeepsPublished(s, UpdateService(s.table, service, namespace, id, s.now, eventWrite), id);
      case RequestDelete(service, namespace, id, serviceDelete, eventWrite) =>
        RequestsHaveRequestEffect(s, step);
        RequestKeepsPublished(s, DeleteService(s.table, service, namespace, id, s.now, serviceDelete, eventWrite), id);
      case _ =>
    }
  }

  lemma RequestKeepsInv(s: System, effect: Effect, id: string)
    requires Inv(s) && !Used(s.published, id) && RequestEffect(s, effect, id)
    ensures Inv(Apply(s, effect))
  {
    var s' := Apply(s, effect);
    RequestKeepsPublished(s, effect, id);
    forall i | 0 <= i < |s'.managers|
      ensures ManagerInv(s', s'.managers[i])
    {
      if effect.published.Some? {
        PublishKeepsManager(s, s', s.managers[i], effect.published.value);
      } else {
        QuietKeepsManager(s, s', s.managers[i]);
      }
    }
  }

  lemma ServiceKeyIsNoEvent(id: ServiceId)
    ensures !(EVENT_PREFIX <= ServiceKey(id))
  {
    PrefixesDisjoint(ServiceKey(id));
    assert SERVICE_PREFIX <= ServiceKey(id);
  }

  lemma RequestsHaveRequestEffect(s: System, step: Step)
    requires Enabled(s, step)
    ensures match step
            case RequestCreate(service, options, id, serviceWrite, eventWrite) =>
              RequestEffect(s, CreateService(s.table, service, options, id, s.now, serviceWrite, eventWrite), id)
            case RequestUpdate(service, namespace, id, eventWrite) =>
              RequestEffect(s, UpdateService(s.table, service, namespace, id, s.now, eventWrite), id)
            case RequestDelete(service, namespace, id, serviceDelete, eventWrite) =>
              RequestEffect(s, DeleteService(s.table, service, namespace, id, s.now, serviceDelete, eventWrite), id)
            case _ => true
  {
    match step {
      case RequestCreate(service, options, _, _, _) =>
        ServiceKeyIsNoEvent(IdOf(OrDefault(options.namespace), WithDefaults(service)));
      case RequestDelete(service, namespace, _, _, _) =>
        ServiceKeyIsNoEvent(IdOf(OrDefault(namespace), WithVersion(service)));
      case _ =>
    }
  }

  /** Consuming an event sets its marker and leaves the markers of all other events alone. */
  lemma ConsumeSetsMarker(cache: Table<CacheValue>, key: string, e: Event, now: int, failure: Option<string>, k: string)
    requires EVENT_PREFIX <= k
    ensures var after := Consume(cache, key, e, now, failure);
            && (k == key ==> k in after && after[k] == Entry(Consumed, Some(now + EVENT_TTL * 2)))
            && (k != key ==> (k in after <==> k in cache) && (k in cache ==> after[k] == cache[k]))
  {
    StatusWriteKeeps(cache, NamespaceOf(e.options), e.service, now, k);
    var message := if failure.Some? then failure.value else "";
    StatusWriteKeeps(cache, NamespaceOf(e.options), Failed(e.service, message), now, k);
  }

  lemma NotHandedOver(s: System, m: ManagerState, key: string)
    requires ManagerInv(s, m) && !Live(m.cache, key, s.now) && Live(s.table, key, s.now)
    requires EventsInv(s) && EVENT_PREFIX <= key
    ensures Count(m.calls, key) == 0
  {
    CountPositive(m.calls, key);
    assert forall c :: c in m.calls ==> Marked(s, m.cache, c.key);
  }

  /** The step that matters: processing an event, whatever the runtime answers. */
  lemma ProcessKeepsManager(s: System, m: ManagerState, key: string, storeUp: bool, failure: Option<string>)
    requires EventsInv(s) && ManagerInv(s, m) && EVENT_PREFIX <= key
    ensures ManagerInv(s, ProcessEvent(m, s.table, key, s.now, storeUp, failure))
    ensures storeUp && Live(s.table, key, s.now) ==>
              Count(ProcessEvent(m, s.table, key, s.now, storeUp, failure).calls, key) == 1
  {
    if Attempts(m, s.table, key, s.now, storeUp) {
      var m' := ProcessEvent(m, s.table, key, s.now, storeUp, failure);
      var e := s.table[key].value.event;
      var call := CallFor(key, e, failure);
      assert m'.calls == m.calls + [call];
      NotHandedOver(s, m, key);
      forall k
        ensures Count(m'.calls, k) == Count(m.calls, k) + if key == k then 1 else 0
      {
        CountOneMore(m.calls, call, k);
      }
      assert CallOf(s.published, call);
      forall k | EVENT_PREFIX <= k && k in m'.cache
        ensures Count(m'.calls, k) == 1
      {
        ConsumeSetsMarker(m.cache, key, e, s.now, failure, k);
      }
      forall c | c in m'.calls
        ensures CallOf(s.published, c) && Marked(s, m'.cache, c.key)
      {
        ConsumeSetsMarker(m.cache, key, e, s.now, failure, key);
        if c.key != key {
          OldCallStaysMarked(s, m, key, failure, c);
        }
      }
    }
  }

  lemma OldCallStaysMarked(s: System, m: ManagerState, key: string, failure: Option<string>, c: Call)
    requires ManagerInv(s, m) && Attempts(m, s.table, key, s.now, true) && c in m.calls && c.key != key
    ensures CallOf(s.published, c) && Marked(s, ProcessEvent(m, s.table, key, s.now, true, failure).cache, c.key)
  {
    var e0 :| e0 in s.published && c == CallFor(EventKey(e0.id), e0, c.failure);
    EventKeyInjective(e0.id, e0.id);
    ConsumeSetsMarker(m.cache, key, s.table[key].value.event, s.now, failure, c.key);
  }

  lemma StatusWriteKeeps(cache: Table<CacheValue>, namespace: string, service: Service, now: int, key: string)
    requires EVENT_PREFIX <= key
    ensures var after := CacheStatus(cache, namespace, service, now);
            (key in after <==> key in cache) && (key in cache ==> after[key] == cache[key])
  {
    PrefixesDisjoint(key);
    assert STATUS_PREFIX <= StatusKey(IdOf(namespace, service));
  }

  /** Changing only statuses, or dropping only expired markers, keeps a manager's invariant. */
  lemma CacheChangeKeepsManager(s: System, m: ManagerState, cache: Table<CacheValue>)
    requires EventsInv(s) && ManagerInv(s, m)
    requires forall k :: k in cache && EVENT_PREFIX <= k ==> k in m.cache && cache[k] == m.cache[k]
    requires forall k :: k in m.cache && EVENT_PREFIX <= k && k !in cache ==> !Live(m.cache, k, s.now)
    ensures ManagerInv(s, m.(cache := cache))
  {
    forall c | c in m.calls
      ensures Marked(s, cache, c.key)
    {
      assert CallOf(s.published, c);
      var e0 :| e0 in s.published && c == CallFor(EventKey(e0.id), e0, c.failure);
      EventKeyInjective(e0.id, e0.id);
    }
  }

  lemma StepKeepsInv(s: System, step: Step)
    requires Inv(s) && Enabled(s, step)
    ensures Inv(Next(s, step))
  {
    var s' := Next(s, step);
    StepKeepsPublished(s, step);
    match step {
      case Tick(duration) =>
        forall i | 0 <= i < |s.managers| ensures ManagerInv(s', s'.managers[i]) {
          QuietKeepsManager(s, s', s.managers[i]);
        }
      case Spawn =>
        forall i | 0 <= i < |s'.managers| ensures ManagerInv(s', s'.managers[i]) {
          if i < |s.managers| { QuietKeepsManager(s, s', s.managers[i]); }
        }
      case RequestCreate(service, options, id, serviceWrite, eventWrite) =>
        RequestsHaveRequestEffect(s, step);
        RequestKeepsInv(s, CreateService(s.table, service, options, id, s.now, serviceWrite, eventWrite), id);
      case RequestUpdate(service, namespace, id, eventWrite) =>
        RequestsHaveRequestEffect(s, step);
        RequestKeepsInv(s, UpdateService(s.table, service, namespace, id, s.now, eventWrite), id);
      case RequestDelete(service, namespace, id, serviceDelete, eventWrite) =>
        RequestsHaveRequestEffect(s, step);
        RequestKeepsInv(s, DeleteService(s.table, service, namespace, id, s.now, serviceDelete, eventWrite), id);
      case Process(m, key, storeUp, failure) =>
        ProcessKeepsManager(s, s.managers[m], key, storeUp, failure);
        forall i | 0 <= i < |s'.managers| ensures ManagerInv(s', s'.managers[i]) {
          QuietKeepsManager(s, s', s'.managers[i]);
        }
      case Sync(m, namespaces, reports) =>
        var cache := SyncAll(s.managers[m].cache, namespaces, reports, s.now).0;
        forall k | EVENT_PREFIX <= k
          ensures (k in cache <==> k in s.managers[m].cache) && (k in cache ==> cache[k] == s.managers[m].cache[k])
        {
          SyncKeepsMarkers(s.managers[m].cache, namespaces, reports, s.now, k);
        }
        CacheChangeKeepsManager(s, s.managers[m], cache);
        forall i | 0 <= i < |s'.managers| ensures ManagerInv(s', s'.managers[i]) {
          QuietKeepsManager(s, s', s'.managers[i]);
        }
      case DropStored(key) =>
        forall i | 0 <= i < |s.managers| ensures ManagerInv(s', s'.managers[i]) {
          QuietKeepsManager(s, s', s.managers[i]);
        }
      case DropCached(m, key) =>
        CacheChangeKeepsManager(s, s.managers[m], s.managers[m].cache - {key});
        forall i | 0 <= i < |s'.managers| ensures ManagerInv(s', s'.managers[i]) {
          QuietKeepsManager(s, s', s'.managers[i]);
        }
    }
  }

  lemma {:induction false} RunKeepsInv(steps: seq<Step>)
    requires ValidRun(steps)
    ensures Inv(Run(steps))
  {
    if steps == [] {
    } else {
      RunKeepsInv(steps[..|steps| - 1]);
      StepKeepsInv(Run(steps[..|steps| - 1]), steps[|steps| - 1]);
    }
  }

  /** In every run each manager hands each event to its runtime at most once, also after records
      and markers have expired and been dropped, and whether or not the runtime call failed. */
  lemma AtMostOnce(steps: seq<Step>, m: nat, key: string)
    requires ValidRun(steps) && m < |Run(steps).managers|
    ensures Count(Run(steps).managers[m].calls, key) <= 1
  {
    RunKeepsInv(steps);
  }

  /** What `ProcessEvent` and `PollEvents` rely on holds in every run. */
  lemma StoreIsTyped(steps: seq<Step>)
    requires ValidRun(steps)
    ensures Typed(Run(steps).table)
  {
    RunKeepsInv(steps);
  }

  /** The consumed marker always outlives the event, by at least ten minutes: in every run, an
      event that a manager has handed over is expired, or its marker expires that much later. */
  lemma MarkerOutlivesEvent(steps: seq<Step>, m: nat, key: string)
    requires ValidRun(steps) && m < |Run(steps).managers|
    requires Count(Run(steps).managers[m].calls, key) > 0 && Live(Run(steps).table, key, Run(steps).now)
    ensures var s := Run(steps);
            var cache := s.managers[m].cache;
            && key in cache && cache[key].deadline.Some? && s.table[key].deadline.Some?
            && s.table[key].deadline.value + EVENT_TTL <= cache[key].deadline.value
  {
    RunKeepsInv(steps);
    CountPositive(Run(steps).managers[m].calls, key);
    var c :| c in Run(steps).managers[m].calls && c.key == key;
    var e :| e in Run(steps).published && c == CallFor(EventKey(e.id), e, c.failure);
    EventKeyInjective(e.id, e.id);
  }

  lemma {:induction false} PrefixIsRun(steps: seq<Step>, n: nat)
    requires ValidRun(steps) && n <= |steps|
    ensures ValidRun(steps[..n])
    decreases |steps|
  {
    if n == |steps| {
      assert steps[..n] == steps;
    } else {
      PrefixIsRun(steps[..|steps| - 1], n);
      assert steps[..|steps| - 1][..n] == steps[..n];
    }
  }

  lemma CallsOnlyGrow(s: System, step: Step, m: nat, key: string)
    requires Enabled(s, step) && m < |s.managers|
    ensures m < |Next(s, step).managers|
    ensures Count(s.managers[m].calls, key) <= Count(Next(s, step).managers[m].calls, key)
  {
    if step.Process? && step.m == m {
      var calls := Next(s, step).managers[m].calls;
      if calls != s.managers[m].calls {
        assert calls[..|calls| - 1] == s.managers[m].calls;
      }
    }
  }

  lemma {:induction false} RunCallsOnlyGrow(steps: seq<Step>, n: nat, m: nat, key: string)
    requires ValidRun(steps) && n <= |steps| && ValidRun(steps[..n]) && m < |Run(steps[..n]).managers|
    ensures m < |Run(steps).managers|
    ensures Count(Run(steps[..n]).managers[m].calls, key) <= Count(Run(steps).managers[m].calls, key)
    decreases |steps|
  {
    if n == |steps| {
      assert steps[..n] == steps;
    } else {
      var front := steps[..|steps| - 1];
      assert front[..n] == steps[..n];
      RunCallsOnlyGrow(front, n, m, key);
      CallsOnlyGrow(Run(front), steps[|steps| - 1], m, key);
    }
  }

  /** Step `i` of the run is manager `m`'s turn at `key`, with a store that can be read. */
  ghost predicate TurnAt(steps: seq<Step>, i: nat, m: nat, key: string)
    requires ValidRun(steps)
  {
    && i < |steps| && steps[i].Process? && steps[i].m == m && steps[i].key == key && steps[i].storeUp
    && ValidRun(steps[..i])
    && Live(Run(steps[..i]).table, key, Run(steps[..i]).now)
  }

  /** If an event's record can still be read when a manager takes its turn at it, then from then
      on the manager has handed over that event exactly once. */
  lemma ExactlyOnceAfterTurn(steps: seq<Step>, i: nat, m: nat, key: string)
    requires ValidRun(steps) && TurnAt(steps, i, m, key)
    ensures m < |Run(steps).managers| && Count(Run(steps).managers[m].calls, key) == 1
  {
    RunKeepsInv(steps[..i]);
    PrefixIsRun(steps, i + 1);
    assert steps[..i + 1][..i] == steps[..i];
    var before := Run(steps[..i]);
    ProcessKeepsManager(before, before.managers[m], key, true, steps[i].failure);
    RunCallsOnlyGrow(steps, i + 1, m, key);
    AtMostOnce(steps, m, key);
  }

  /** One polling pass, with any steps of other parties in between: the events are listed at
      `listedAt`, and the listed keys are processed in their order at the steps `turns`. Every
      event that could be read at the listing has its turn, and if its record still exists then,
      it has been handed over exactly once, whether or not the runtime accepted it. */
  lemma PollingPass(steps: seq<Step>, listedAt: nat, m: nat, keys: seq<string>, turns: seq<nat>)
    requires ValidRun(steps) && listedAt <= |steps| && ValidRun(steps[..listedAt])
    requires Lists(Run(steps[..listedAt]).table, EVENT_PREFIX, Run(steps[..listedAt]).now, keys)
    requires |turns| == |keys|
    requires forall i :: 0 <= i < |turns| ==>
               && listedAt <= turns[i] < |steps|
               && steps[turns[i]].Process? && steps[turns[i]].m == m && steps[turns[i]].key == keys[i]
    ensures forall key :: Live(Run(steps[..listedAt]).table, key, Run(steps[..listedAt]).now) && EVENT_PREFIX <= key ==>
              key in keys
    ensures forall i :: 0 <= i < |keys| && TurnAt(steps, turns[i], m, keys[i]) ==>
              m < |Run(steps).managers| && Count(Run(steps).managers[m].calls, keys[i]) == 1
  {
    forall i | 0 <= i < |keys| && TurnAt(steps, turns[i], m, keys[i])
      ensures m < |Run(steps).managers| && Count(Run(steps).managers[m].calls, keys[i]) == 1
    {
      ExactlyOnceAfterTurn(steps, turns[i], m, keys[i]);
    }
  }
}
