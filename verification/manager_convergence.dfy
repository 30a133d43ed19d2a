/** When the managed runtime of a manager agrees with the stored services. */
module ManagerConvergence {
  import opened Wrappers
  import opened KeyStore
  import opened RuntimeModel
  import opened ManagerSpec
  import opened ManagerReads
  import opened ManagerProtocol
  import Text

  /** What an event does to a set of services. */
  datatype Op = Op(key: string, kind: EventType, id: ServiceId)

  function EventOp(e: Event): Op {
    Op(EventKey(e.id), e.kind, IdOf(NamespaceOf(e.options), e.service))
  }

  function CallOp(c: Call): Op {
    Op(c.key, c.kind, IdOf(c.namespace, c.service))
  }

  function EventOps(events: seq<Event>): seq<Op> {
    seq(|events|, i requires 0 <= i < |events| => EventOp(events[i]))
  }

  function CallOps(calls: seq<Call>): seq<Op> {
    seq(|calls|, i requires 0 <= i < |calls| => CallOp(calls[i]))
  }

  /** The services that exist after the operations, starting from none. */
  function Applied(ops: seq<Op>): set<ServiceId> {
    if ops == [] then {}
    else
      var before, last := Applied(ops[..|ops| - 1]), ops[|ops| - 1];
      match last.kind
      case Create => before + {last.id}
      case Delete => before - {last.id}
      case Update => before
  }

  /** The operations on one service, in order. */
  function Select(ops: seq<Op>, id: ServiceId): seq<Op> {
    if ops == [] then []
    else
      var before, last := Select(ops[..|ops| - 1], id), ops[|ops| - 1];
      if last.id == id then before + [last] else before
  }

  function Keys(ops: seq<Op>): seq<string> {
    seq(|ops|, i requires 0 <= i < |ops| => ops[i].key)
  }

  /** The calls that the runtime accepted, in order. */
  function Accepted(calls: seq<Call>): seq<Call> {
    if calls == [] then []
    else
      var before, last := Accepted(calls[..|calls| - 1]), calls[|calls| - 1];
      if last.failure.None? then before + [last] else before
  }

  /** The set of services that the runtime runs after its calls: a refused call changes nothing. */
  function RuntimeServices(calls: seq<Call>): set<ServiceId> {
    Applied(CallOps(Accepted(calls)))
  }

  /** The last create or delete of a service; updates do not matter. */
  function Latest(ops: seq<Op>, id: ServiceId): Option<Op> {
    if ops == [] then None
    else
      var last := ops[|ops| - 1];
      if last.id == id && !last.kind.Update? then Some(last) else Latest(ops[..|ops| - 1], id)
  }

  predicate EndsInCreate(ops: seq<Op>, id: ServiceId) {
    Latest(ops, id).Some? && Latest(ops, id).value.kind.Create?
  }

  /** What a request does to the stored services: creates and deletes write, unless the write fails,
      and updates do not. Whether the event is published makes no difference. */
  function StoreOp(step: Step): Option<Op> {
    match step
    case RequestCreate(service, options, id, serviceWrite, _) =>
      if serviceWrite then Some(Op(EventKey(id), Create, IdOf(OrDefault(options.namespace), WithDefaults(service))))
      else None
    case RequestDelete(service, namespace, id, serviceDelete, _) =>
      if serviceDelete then Some(Op(EventKey(id), Delete, IdOf(OrDefault(namespace), WithVersion(service))))
      else None
    case _ => None
  }

  /** The successful writes to the stored services, in order. */
  function StoreOps(steps: seq<Step>): seq<Op> {
    if steps == [] then []
    else
      var before, last := StoreOps(steps[..|steps| - 1]), StoreOp(steps[|steps| - 1]);
      if last.Some? then before + [last.value] else before
  }

  predicate ColonFreeWrites(steps: seq<Step>) {
    forall step :: step in steps && StoreOp(step).Some? ==> ColonFree(StoreOp(step).value.id)
  }

  /** Requests with colon-free parts, and colon-free runtime answers. */
  ghost predicate ColonFreeStep(step: Step) {
    match step
    case RequestCreate(service, options, _, _, _) =>
      ColonFree(IdOf(OrDefault(options.namespace), WithDefaults(service)))
    case RequestUpdate(service, namespace, _, _) => ColonFree(IdOf(OrDefault(namespace), WithVersion(service)))
    case RequestDelete(service, namespace, _, _, _) => ColonFree(IdOf(OrDefault(namespace), WithVersion(service)))
    case Sync(_, namespaces, reports) => ColonFreeReports(reports)
    case _ => true
  }

  ghost predicate ColonFreeRun(steps: seq<Step>) {
    forall step :: step in steps ==> ColonFreeStep(step)
  }

  predicate WritesSucceed(step: Step) {
    match step
    case RequestCreate(_, _, _, serviceWrite, eventWrite) => serviceWrite && eventWrite
    case RequestUpdate(_, _, _, eventWrite) => eventWrite
    case RequestDelete(_, _, _, serviceDelete, eventWrite) => serviceDelete && eventWrite
    case _ => true
  }

  predicate AllWritesSucceed(steps: seq<Step>) {
    forall step :: step in steps ==> WritesSucceed(step)
  }

  ghost predicate StatusesKeyed(cache: Table<CacheValue>) {
    forall k :: k in cache && STATUS_PREFIX <= k ==> |Text.Split(k, ':')| == 4
  }

  ghost predicate ServicesInv(table: Table<Value>, ops: seq<Op>) {
    WellKeyed(table) && StoredIds(table) == Applied(ops)
  }

  ghost predicate StatusInv(s: System) {
    && (forall e :: e in s.published ==> ColonFree(EventOp(e).id))
    && (forall i :: 0 <= i < |s.managers| ==> StatusesKeyed(s.managers[i].cache))
  }

  /** Writes under event keys, and drops of expired records, leave the stored services alone. */
  lemma SameServices(table: Table<Value>, table': Table<Value>)
    requires WellKeyed(table)
    requires forall k :: SERVICE_PREFIX <= k ==> (k in table <==> k in table') && (k in table ==> table'[k] == table[k])
    ensures WellKeyed(table') && StoredIds(table') == StoredIds(table)
  {
    forall id
      ensures id in StoredIds(table) <==> id in StoredIds(table')
    {
      if id in StoredIds(table) {
        var k :| k in table && SERVICE_PREFIX <= k && table[k].value.ServiceRecord? && RecordId(table[k].value) == id;
        assert k in table';
      }
      if id in StoredIds(table') {
        var k :| k in table' && SERVICE_PREFIX <= k && table'[k].value.ServiceRecord? &&
          RecordId(table'[k].value) == id;
        assert k in table;
      }
    }
  }

  lemma StoreService(table: Table<Value>, service: Service, options: CreateOptions, now: int)
    requires WellKeyed(table) && service.metadata.Some? && ColonFree(IdOf(options.namespace, service))
    ensures var id := IdOf(options.namespace, service);
            var after := Put(table, ServiceKey(id), ServiceRecord(service, options), 0, now);
            WellKeyed(after) && StoredIds(after) == StoredIds(table) + {id}
  {
    var id := IdOf(options.namespace, service);
    var after := Put(table, ServiceKey(id), ServiceRecord(service, options), 0, now);
    assert SERVICE_PREFIX <= ServiceKey(id);
    StoredMembers(table);
    StoredMembers(after);
    forall other | ColonFree(other)
      ensures other in StoredIds(after) <==> other in StoredIds(table) + {id}
    {
      StoredUnderKey(table, other);
      StoredUnderKey(after, other);
      KeysInjective(id, other);
    }
  }

  lemma RemoveService(table: Table<Value>, id: ServiceId)
    requires WellKeyed(table) && ColonFree(id)
    ensures var after := table - {ServiceKey(id)};
            WellKeyed(after) && StoredIds(after) == StoredIds(table) - {id}
  {
    var after := table - {ServiceKey(id)};
    StoredMembers(table);
    StoredMembers(after);
    forall other | ColonFree(other)
      ensures other in StoredIds(after) <==> other in StoredIds(table) - {id}
    {
      StoredUnderKey(table, other);
      StoredUnderKey(after, other);
      KeysInjective(id, other);
    }
  }

  lemma StoredMembers(table: Table<Value>)
    requires WellKeyed(table)
    ensures forall id :: id in StoredIds(table) ==> ColonFree(id)
  {
  }

  lemma PublishKeepsServices(table: Table<Value>, event: Event, now: int)
    requires WellKeyed(table)
    ensures var after := Publish(table, event, now, true).table;
            WellKeyed(after) && StoredIds(after) == StoredIds(table)
  {
    PrefixesDisjoint(EventKey(event.id));
    EventKeyInjective(event.id, event.id);
    SameServices(table, Publish(table, event, now, true).table);
  }

  lemma AppendOp(published: seq<Event>, e: Event)
    ensures EventOps(published + [e]) == EventOps(published) + [EventOp(e)]
    ensures (EventOps(published) + [EventOp(e)])[..|published|] == EventOps(published)
  {
  }

  lemma StatusWriteKeyed(cache: Table<CacheValue>, namespace: string, service: Service, now: int)
    requires StatusesKeyed(cache) && ColonFree(IdOf(namespace, service))
    ensures StatusesKeyed(CacheStatus(cache, namespace, service, now))
  {
    StatusKeySplits(IdOf(namespace, service));
  }

  lemma {:induction false} CacheAllKeyed(cache: Table<CacheValue>, namespace: string, services: seq<Service>, now: int)
    requires StatusesKeyed(cache) && forall i :: 0 <= i < |services| ==> ColonFree(IdOf(namespace, services[i]))
    ensures StatusesKeyed(CacheAll(cache, namespace, services, now).0)
    decreases |services|
  {
    if services == [] || services[0].metadata.None? {
    } else {
      StatusWriteKeyed(cache, namespace, services[0], now);
      CacheAllKeyed(CacheStatus(cache, namespace, services[0], now), namespace, services[1..], now);
    }
  }

  lemma {:induction false} SyncAllKeyed(cache: Table<CacheValue>, namespaces: seq<string>,
                                        reports: map<string, seq<Service>>, now: int)
    requires StatusesKeyed(cache) && ColonFreeReports(reports)
    ensures StatusesKeyed(SyncAll(cache, namespaces, reports, now).0)
    decreases |namespaces|
  {
    if namespaces == [] || namespaces[0] !in reports {
    } else {
      CacheAllKeyed(cache, namespaces[0], reports[namespaces[0]], now);
      SyncAllKeyed(CacheAll(cache, namespaces[0], reports[namespaces[0]], now).0, namespaces[1..], reports, now);
    }
  }

  lemma ProcessKeyed(s: System, m: ManagerState, key: string, storeUp: bool, failure: Option<string>)
    requires EventsInv(s) && StatusInv(s) && StatusesKeyed(m.cache) && EVENT_PREFIX <= key
    ensures StatusesKeyed(ProcessEvent(m, s.table, key, s.now, storeUp, failure).cache)
  {
    PrefixesDisjoint(key);
    if Attempts(m, s.table, key, s.now, storeUp) {
      var e := s.table[key].value.event;
      assert ColonFree(EventOp(e).id);
      StatusWriteKeyed(m.cache, NamespaceOf(e.options), e.service, s.now);
      var message := if failure.Some? then failure.value else "";
      StatusWriteKeyed(m.cache, NamespaceOf(e.options), Failed(e.service, message), s.now);
    }
  }

  lemma PublishKeepsServicesInv(table: Table<Value>, ops: seq<Op>, event: Event, now: int, eventWrite: bool)
    requires ServicesInv(table, ops)
    ensures ServicesInv(Publish(table, event, now, eventWrite).table, ops)
  {
    PublishKeepsServices(table, event, now);
  }

  lemma CreateKeepsServices(s: System, ops: seq<Op>, step: Step)
    requires ServicesInv(s.table, ops) && step.RequestCreate?
    requires StoreOp(step).Some? ==> ColonFree(StoreOp(step).value.id)
    ensures var after := CreateService(s.table, step.service, step.options, step.id, s.now, step.serviceWrite,
                                       step.eventWrite);
            ServicesInv(after.table, WithOp(ops, StoreOp(step)))
  {
    if step.serviceWrite {
      var o, srv := step.options.(namespace := OrDefault(step.options.namespace)), WithDefaults(step.service);
      StoreService(s.table, srv, o, s.now);
      AppliedMore(ops, StoreOp(step).value);
      PublishKeepsServicesInv(Put(s.table, ServiceKey(IdOf(o.namespace, srv)), ServiceRecord(srv, o), 0, s.now),
                              WithOp(ops, StoreOp(step)), Event(step.id, Create, srv, Some(o)), s.now, step.eventWrite);
    }
  }

  lemma DeleteKeepsServices(s: System, ops: seq<Op>, step: Step)
    requires ServicesInv(s.table, ops) && step.RequestDelete?
    requires StoreOp(step).Some? ==> ColonFree(StoreOp(step).value.id)
    ensures var after := DeleteService(s.table, step.service, step.namespace, step.id, s.now, step.serviceDelete,
                                       step.eventWrite);
            ServicesInv(after.table, WithOp(ops, StoreOp(step)))
  {
    if step.serviceDelete {
      var ns, srv := OrDefault(step.namespace), WithVersion(step.service);
      RemoveService(s.table, IdOf(ns, srv));
      AppliedMore(ops, StoreOp(step).value);
      PublishKeepsServicesInv(s.table - {ServiceKey(IdOf(ns, srv))}, WithOp(ops, StoreOp(step)),
                              Event(step.id, Delete, srv, Some(OnlyNamespace(ns))), s.now, step.eventWrite);
    }
  }

  function WithOp(ops: seq<Op>, op: Option<Op>): seq<Op> {
    if op.Some? then ops + [op.value] else ops
  }

  lemma AppliedMore(ops: seq<Op>, op: Op)
    ensures Applied(ops + [op]) == if op.kind.Create? then Applied(ops) + {op.id}
                                   else if op.kind.Delete? then Applied(ops) - {op.id}
                                   else Applied(ops)
  {
    assert (ops + [op])[..|ops|] == ops;
  }

  lemma StepKeepsServices(s: System, ops: seq<Op>, step: Step)
    requires EventsInv(s) && ServicesInv(s.table, ops) && Enabled(s, step)
    requires StoreOp(step).Some? ==> ColonFree(StoreOp(step).value.id)
    ensures ServicesInv(Next(s, step).table, WithOp(ops, StoreOp(step)))
  {
    match step {
      case RequestCreate(_, _, _, _, _) => CreateKeepsServices(s, ops, step);
      case RequestUpdate(service, namespace, id, eventWrite) =>
        var e := Event(id, Update, WithVersion(service), Some(OnlyNamespace(OrDefault(namespace))));
        PublishKeepsServicesInv(s.table, ops, e, s.now, eventWrite);
      case RequestDelete(_, _, _, _, _) => DeleteKeepsServices(s, ops, step);
      case DropStored(key) => SameServices(s.table, s.table - {key});
      case _ =>
    }
  }

  /** The stored services are what the successful writes leave, whether or not their events were
      published: in every run whose writes have colon-free parts. */
  lemma {:induction false} StoredByWrites(steps: seq<Step>)
    requires ValidRun(steps) && ColonFreeWrites(steps)
    ensures ServicesInv(Run(steps).table, StoreOps(steps))
  {
    if steps == [] {
    } else {
      var front, last := steps[..|steps| - 1], steps[|steps| - 1];
      assert last in steps && forall step :: step in front ==> step in steps;
      StoredByWrites(front);
      RunKeepsInv(front);
      StepKeepsServices(Run(front), StoreOps(front), last);
    }
  }

  lemma StepKeepsStatusInv(s: System, step: Step)
    requires Inv(s) && StatusInv(s) && Enabled(s, step) && ColonFreeStep(step)
    ensures StatusInv(Next(s, step))
  {
    match step {
      case Process(m, key, storeUp, failure) => ProcessKeyed(s, s.managers[m], key, storeUp, failure);
      case Sync(m, namespaces, reports) => SyncAllKeyed(s.managers[m].cache, namespaces, reports, s.now);
      case _ =>
    }
  }

  lemma {:induction false} RunKeepsStatusInv(steps: seq<Step>)
    requires ValidRun(steps) && ColonFreeRun(steps)
    ensures StatusInv(Run(steps))
  {
    if steps == [] {
    } else {
      var front := steps[..|steps| - 1];
      assert forall step :: step in front ==> step in steps;
      RunKeepsStatusInv(front);
      RunKeepsInv(front);
      StepKeepsStatusInv(Run(front), steps[|steps| - 1]);
    }
  }

  /** The event that a request publishes, if its writes succeed. */
  function PublishedBy(step: Step): Option<Event> {
    match step
    case RequestCreate(service, options, id, serviceWrite, eventWrite) =>
      var o := options.(namespace := OrDefault(options.namespace));
      if serviceWrite && eventWrite then Some(Event(id, Create, WithDefaults(service), Some(o))) else None
    case RequestUpdate(service, namespace, id, eventWrite) =>
      var o := OnlyNamespace(OrDefault(namespace));
      if eventWrite then Some(Event(id, Update, WithVersion(service), Some(o))) else None
    case RequestDelete(service, namespace, id, serviceDelete, eventWrite) =>
      var o := OnlyNamespace(OrDefault(namespace));
      if serviceDelete && eventWrite then Some(Event(id, Delete, WithVersion(service), Some(o))) else None
    case _ => None
  }

  lemma StepPublishes(s: System, step: Step)
    requires Enabled(s, step)
    ensures Next(s, step).published
            == if PublishedBy(step).Some? then s.published + [PublishedBy(step).value] else s.published
  {
  }

  /** An event does to the services what the write behind it does. */
  lemma EventLikeWrite(step: Step, ops: seq<Op>)
    requires WritesSucceed(step)
    ensures PublishedBy(step).Some? ==>
              Applied(ops + [EventOp(PublishedBy(step).value)]) == Applied(WithOp(ops, StoreOp(step)))
    ensures PublishedBy(step).None? ==> StoreOp(step).None?
  {
    if PublishedBy(step).Some? {
      AppliedMore(ops, EventOp(PublishedBy(step).value));
    }
  }

  lemma SameSetMore(a: seq<Op>, b: seq<Op>, op: Op)
    requires Applied(a) == Applied(b)
    ensures Applied(a + [op]) == Applied(b + [op])
  {
    AppliedMore(a, op);
    AppliedMore(b, op);
  }

  /** If every write succeeds, the published events do to the stored services what the writes did. */
  lemma {:induction false} PublishedLikeWritten(steps: seq<Step>)
    requires ValidRun(steps) && AllWritesSucceed(steps)
    ensures Applied(EventOps(Run(steps).published)) == Applied(StoreOps(steps))
  {
    if steps == [] {
    } else {
      var front, last := steps[..|steps| - 1], steps[|steps| - 1];
      assert last in steps && forall step :: step in front ==> step in steps;
      PublishedLikeWritten(front);
      StepPublishes(Run(front), last);
      EventLikeWrite(last, StoreOps(front));
      if PublishedBy(last).Some? {
        AppendOp(Run(front).published, PublishedBy(last).value);
        SameSetMore(EventOps(Run(front).published), StoreOps(front), EventOp(PublishedBy(last).value));
      }
    }
  }

  /** Whether a service exists depends only on the operations on that service. */
  lemma {:induction false} AppliedBySelection(ops: seq<Op>, id: ServiceId)
    ensures id in Applied(ops) <==> id in Applied(Select(ops, id))
  {
    if ops == [] {
    } else {
      var before, last := ops[..|ops| - 1], ops[|ops| - 1];
      AppliedBySelection(before, id);
      if last.id == id {
        assert (Select(before, id) + [last])[..|Select(before, id)|] == Select(before, id);
      }
    }
  }

  lemma {:induction false} SelectedAreOps(ops: seq<Op>, id: ServiceId)
    ensures forall op :: op in Select(ops, id) ==> op in ops
  {
    if ops == [] {
    } else {
      SelectedAreOps(ops[..|ops| - 1], id);
    }
  }

  lemma CallOpOf(c: Call, e: Event)
    requires c == CallFor(EventKey(e.id), e, c.failure)
    ensures CallOp(c) == EventOp(e)
  {
  }

  /** Published events have different keys. */
  lemma SameKeySameEvent(s: System, a: Event, b: Event)
    requires Inv(s) && a in s.published && b in s.published && EventKey(a.id) == EventKey(b.id)
    ensures a == b
  {
    EventKeyInjective(a.id, b.id);
    var i :| 0 <= i < |s.published| && s.published[i] == a;
    var j :| 0 <= j < |s.published| && s.published[j] == b;
  }

  lemma OpInCalls(calls: seq<Call>, op: Op) returns (c: Call)
    requires op in CallOps(calls)
    ensures c in calls && CallOp(c) == op
  {
    var i :| 0 <= i < |calls| && CallOps(calls)[i] == op;
    c := calls[i];
  }

  lemma OpInEvents(events: seq<Event>, op: Op) returns (e: Event)
    requires op in EventOps(events)
    ensures e in events && EventOp(e) == op
  {
    var i :| 0 <= i < |events| && EventOps(events)[i] == op;
    e := events[i];
  }

  /** A call that hands over an event has that event's operation. */
  lemma CallMatchesEvent(s: System, m: ManagerState, callOp: Op, eventOp: Op)
    requires Inv(s) && ManagerInv(s, m)
    requires callOp in CallOps(m.calls) && eventOp in EventOps(s.published) && callOp.key == eventOp.key
    ensures callOp == eventOp
  {
    var c := OpInCalls(m.calls, callOp);
    var e' := OpInEvents(s.published, eventOp);
    assert CallOf(s.published, c);
    var e :| e in s.published && c == CallFor(EventKey(e.id), e, c.failure);
    CallOpOf(c, e);
    SameKeySameEvent(s, e, e');
  }

  /** The manager has handed over exactly the published events of the service, in the order in
      which they were published. Events of different services may be interleaved in any way. */
  ghost predicate ProcessedInOrder(s: System, m: ManagerState, id: ServiceId) {
    Keys(Select(CallOps(m.calls), id)) == Keys(Select(EventOps(s.published), id))
  }

  lemma InOrderMeansSameOps(s: System, m: ManagerState, id: ServiceId)
    requires Inv(s) && ManagerInv(s, m) && ProcessedInOrder(s, m, id)
    ensures Select(CallOps(m.calls), id) == Select(EventOps(s.published), id)
  {
    var a, b := Select(CallOps(m.calls), id), Select(EventOps(s.published), id);
    assert |a| == |Keys(a)| == |Keys(b)| == |b|;
    SelectedAreOps(CallOps(m.calls), id);
    SelectedAreOps(EventOps(s.published), id);
    forall i | 0 <= i < |a|
      ensures a[i] == b[i]
    {
      assert a[i].key == Keys(a)[i] == Keys(b)[i] == b[i].key;
      CallMatchesEvent(s, m, a[i], b[i]);
    }
  }

  /** A service exists after the operations exactly when the last create or delete of it was a
      create. */
  lemma {:induction false} AppliedByLatest(ops: seq<Op>, id: ServiceId)
    ensures id in Applied(ops) <==> EndsInCreate(ops, id)
  {
    if ops == [] {
    } else {
      AppliedByLatest(ops[..|ops| - 1], id);
    }
  }

  /** For each service, the last create or delete that the runtime accepted is a create if and only
      if the last one of `ops` is. */
  ghost predicate SameEnds(calls: seq<Call>, ops: seq<Op>) {
    forall id :: EndsInCreate(CallOps(Accepted(calls)), id) <==> EndsInCreate(ops, id)
  }

  lemma SameServicesExactly(calls: seq<Call>, ops: seq<Op>)
    ensures RuntimeServices(calls) == Applied(ops) <==> SameEnds(calls, ops)
  {
    var accepted := CallOps(Accepted(calls));
    forall id
      ensures id in Applied(accepted) <==> EndsInCreate(accepted, id)
      ensures id in Applied(ops) <==> EndsInCreate(ops, id)
    {
      AppliedByLatest(accepted, id);
      AppliedByLatest(ops, id);
    }
  }

  /** Exactly when the managed runtime agrees with the store, whichever writes failed and however the
      events were interleaved, missed or refused: for each service, the last create or delete that
      the runtime accepted is a create if and only if the last one written to the store is. */
  lemma RuntimeAgreesExactly(steps: seq<Step>, m: nat)
    requires ValidRun(steps) && ColonFreeWrites(steps) && m < |Run(steps).managers|
    ensures RuntimeServices(Run(steps).managers[m].calls) == StoredIds(Run(steps).table)
            <==> SameEnds(Run(steps).managers[m].calls, StoreOps(steps))
  {
    StoredByWrites(steps);
    SameServicesExactly(Run(steps).managers[m].calls, StoreOps(steps));
  }

  /** If every write succeeds the published events take the place of the writes. */
  lemma RuntimeAgreesWithEvents(steps: seq<Step>, m: nat)
    requires ValidRun(steps) && ColonFreeWrites(steps) && AllWritesSucceed(steps) && m < |Run(steps).managers|
    ensures RuntimeServices(Run(steps).managers[m].calls) == StoredIds(Run(steps).table)
            <==> SameEnds(Run(steps).managers[m].calls, EventOps(Run(steps).published))
  {
    StoredIsApplied(steps);
    SameServicesExactly(Run(steps).managers[m].calls, EventOps(Run(steps).published));
  }

  lemma {:induction false} LatestBySelection(ops: seq<Op>, id: ServiceId)
    ensures Latest(Select(ops, id), id) == Latest(ops, id)
  {
    if ops == [] {
    } else {
      var before, last := ops[..|ops| - 1], ops[|ops| - 1];
      LatestBySelection(before, id);
      if last.id == id {
        assert (Select(before, id) + [last])[..|Select(before, id)|] == Select(before, id);
      }
    }
  }

  lemma {:induction false} AllAccepted(calls: seq<Call>)
    requires forall c :: c in calls ==> c.failure.None?
    ensures Accepted(calls) == calls
  {
    if calls == [] {
    } else {
      AllAccepted(calls[..|calls| - 1]);
      assert calls == calls[..|calls| - 1] + [calls[|calls| - 1]];
    }
  }

  /** Publication order within each service suffices: once a manager has handed over every
      published event, each service's events in order, and the runtime has accepted them all, the
      runtime runs exactly the stored services. */
  lemma RuntimeMatchesStore(steps: seq<Step>, m: nat)
    requires ValidRun(steps) && ColonFreeWrites(steps) && AllWritesSucceed(steps) && m < |Run(steps).managers|
    requires forall c :: c in Run(steps).managers[m].calls ==> c.failure.None?
    requires forall id :: ProcessedInOrder(Run(steps), Run(steps).managers[m], id)
    ensures RuntimeServices(Run(steps).managers[m].calls) == StoredIds(Run(steps).table)
  {
    RunKeepsInv(steps);
    var s := Run(steps);
    var calls := s.managers[m].calls;
    AllAccepted(calls);
    forall id
      ensures EndsInCreate(CallOps(calls), id) <==> EndsInCreate(EventOps(s.published), id)
    {
      InOrderMeansSameOps(s, s.managers[m], id);
      LatestBySelection(CallOps(calls), id);
      LatestBySelection(EventOps(s.published), id);
    }
    RuntimeAgreesWithEvents(steps, m);
  }

  /** In a run of colon-free requests a read by any manager succeeds whenever the store does: every cached status
      key has four parts, and every stored service has the metadata that the status goes into. */
  lemma ReadSucceeds(steps: seq<Step>, m: nat, namespace: string)
    requires ValidRun(steps) && ColonFreeRun(steps) && m < |Run(steps).managers|
    ensures WellKeyed(Run(steps).table)
    ensures FourParts(LiveKeys(Run(steps).managers[m].cache, STATUS_PREFIX + namespace + ":", Run(steps).now))
    ensures FourParts(LiveKeys(Run(steps).table, SERVICE_PREFIX, Run(steps).now))
  {
    StoredByWrites(steps);
    RunKeepsStatusInv(steps);
    NamespacesOfStored(Run(steps).table, Run(steps).now, namespace);
    assert STATUS_PREFIX <= STATUS_PREFIX + namespace + ":";
    forall k | k in LiveKeys(Run(steps).managers[m].cache, STATUS_PREFIX + namespace + ":", Run(steps).now)
      ensures STATUS_PREFIX <= k
    {
      assert k[..|STATUS_PREFIX|] == (STATUS_PREFIX + namespace + ":")[..|STATUS_PREFIX|];
    }
  }

  /** The writes to this one service, in order, leave it in existence. */
  predicate LeftByRequests(steps: seq<Step>, id: ServiceId) {
    id in Applied(Select(StoreOps(steps), id))
  }

  /** What a query asks for: the version is matched as a prefix, and only if a name is given. */
  predicate Matches(id: ServiceId, namespace: string, name: string, version: string) {
    id.namespace == namespace && (|name| > 0 ==> id.name == name && version <= id.version)
  }

  /** From requests to reads: `readServices` lists exactly the services whose successful creates and
      deletes, taken in order, leave them in existence, among those that match the query. */
  lemma ReadsWhatWasRequested(steps: seq<Step>, namespace: string, name: string, version: string, keys: seq<string>,
                              id: ServiceId)
    requires ValidRun(steps) && ColonFreeWrites(steps) && ColonFree(id)
    requires ':' !in namespace && ':' !in name && ':' !in version
    requires Lists(Run(steps).table, ServicesPrefix(namespace, name, version), Run(steps).now, keys)
    ensures ServiceKey(id) in keys <==> LeftByRequests(steps, id) && Matches(id, namespace, name, version)
  {
    StoredByWrites(steps);
    ReadServicesExact(Run(steps).table, namespace, name, version, Run(steps).now, keys, id);
    AppliedBySelection(StoreOps(steps), id);
  }

  /** If every write succeeds the stored services are what the published events leave, in order. */
  lemma StoredIsApplied(steps: seq<Step>)
    requires ValidRun(steps) && ColonFreeWrites(steps) && AllWritesSucceed(steps)
    ensures StoredIds(Run(steps).table) == Applied(EventOps(Run(steps).published))
  {
    StoredByWrites(steps);
    PublishedLikeWritten(steps);
  }

  const SERVICE: Service := Service("a", "1", Some(map[]))
  const SERVICE_ID: ServiceId := ServiceId("n", "a", "1")
  const CREATED: Event := Event("x", Create, SERVICE, Some(CreateOptions("n", "", "", [], [], [])))
  const DELETED: Event := Event("y", Delete, SERVICE, Some(OnlyNamespace("n")))

  /** A service is created and deleted again before the manager has processed anything. */
  const REQUESTS: seq<Step> :=
    [Spawn, RequestCreate(SERVICE, CREATED.options.value, "x", true, true),
     RequestDelete(SERVICE, "n", "y", true, true)]

  /** The manager takes up the delete before the create. */
  const TURNS: seq<Step> := [Process(0, EventKey("y"), true, None), Process(0, EventKey("x"), true, None)]

  lemma RequestsPublished()
    ensures ValidRun(REQUESTS)
    ensures var s := Run(REQUESTS);
            && s.published == [CREATED, DELETED] && s.managers == [ManagerState(map[], [])]
            && Live(s.table, EventKey("x"), s.now) && s.table[EventKey("x")].value == EventRecord(CREATED)
            && Live(s.table, EventKey("y"), s.now) && s.table[EventKey("y")].value == EventRecord(DELETED)
  {
    EventKeyInjective("x", "y");
    ServiceKeyIsNoEvent(SERVICE_ID);
    assert [] + [REQUESTS[0]] == [REQUESTS[0]] && [REQUESTS[0]] + [REQUESTS[1]] == REQUESTS[..2];
    assert REQUESTS[..2] + [REQUESTS[2]] == REQUESTS;
    var s1 := Extend([], REQUESTS[0]);
    var s2 := Extend([REQUESTS[0]], REQUESTS[1]);
    var s3 := Extend(REQUESTS[..2], REQUESTS[2]);
  }

  lemma ProcessAccepted(s: System, m: ManagerState, key: string, e: Event)
    requires EVENT_PREFIX <= key && Live(s.table, key, s.now) && s.table[key].value == EventRecord(e) && key !in m.cache
    ensures var after := ProcessEvent(m, s.table, key, s.now, true, None);
            && after.calls == m.calls + [CallFor(key, e, None)]
            && forall k :: EVENT_PREFIX <= k && k != key && k !in m.cache ==> k !in after.cache
  {
    forall k | EVENT_PREFIX <= k && k != key && k !in m.cache
      ensures k !in ProcessEvent(m, s.table, key, s.now, true, None).cache
    {
      StatusWriteKeeps(m.cache, NamespaceOf(e.options), e.service, s.now, k);
    }
  }

  lemma TurnsTaken()
    ensures ValidRun(REQUESTS + TURNS) && |Run(REQUESTS + TURNS).managers| == 1
    ensures Run(REQUESTS + TURNS).published == [CREATED, DELETED]
    ensures Run(REQUESTS + TURNS).managers[0].calls
            == [CallFor(EventKey("y"), DELETED, None), CallFor(EventKey("x"), CREATED, None)]
  {
    RequestsPublished();
    EventKeyInjective("x", "y");
    var s := Run(REQUESTS);
    var s1 := Extend(REQUESTS, TURNS[0]);
    ProcessAccepted(s, s.managers[0], EventKey("y"), DELETED);
    var s2 := Extend(REQUESTS + [TURNS[0]], TURNS[1]);
    ProcessAccepted(s1, s1.managers[0], EventKey("x"), CREATED);
    assert REQUESTS + TURNS == REQUESTS + [TURNS[0]] + [TURNS[1]];
  }

  lemma SetsDiffer(calls: seq<Call>)
    requires calls == [CallFor(EventKey("y"), DELETED, None), CallFor(EventKey("x"), CREATED, None)]
    ensures RuntimeServices(calls) == {SERVICE_ID} && Applied(EventOps([CREATED, DELETED])) == {}
  {
    var create, delete := Op(EventKey("x"), Create, SERVICE_ID), Op(EventKey("y"), Delete, SERVICE_ID);
    AllAccepted(calls);
    assert EventOps([CREATED, DELETED]) == [create, delete] && CallOps(calls) == [delete, create];
    AppliedPair(create, delete);
    AppliedPair(delete, create);
  }

  lemma CountPair(a: Call, b: Call)
    requires a.key != b.key
    ensures Count([a, b], a.key) == 1 && Count([a, b], b.key) == 1
  {
    assert [a, b][..1] == [a] && [a][..0] == [];
    assert Count([a][..0], a.key) == 0;
    assert Count([a], a.key) == 1 && Count([a], b.key) == 0;
  }

  /** The order within one service matters, and polling does not promise it: a manager that has
      handed over both events of a service, the delete before the create, and both successfully,
      runs a service that is not stored. */
  lemma OrderMatters()
    ensures ValidRun(REQUESTS + TURNS) && |Run(REQUESTS + TURNS).managers| == 1
    ensures ColonFreeWrites(REQUESTS + TURNS) && AllWritesSucceed(REQUESTS + TURNS)
    ensures var s := Run(REQUESTS + TURNS);
            var m := s.managers[0];
            && (forall e :: e in s.published ==> Count(m.calls, EventKey(e.id)) == 1)
            && (forall c :: c in m.calls ==> c.failure.None?)
            && RuntimeServices(m.calls) == {SERVICE_ID} && StoredIds(s.table) == {}
  {
    TurnsTaken();
    RunIsClean();
    StoredIsApplied(REQUESTS + TURNS);
    EventKeyInjective("x", "y");
    var delete, create := CallFor(EventKey("y"), DELETED, None), CallFor(EventKey("x"), CREATED, None);
    SetsDiffer([delete, create]);
    CountPair(delete, create);
  }

  lemma RunIsClean()
    ensures ColonFreeWrites(REQUESTS + TURNS) && AllWritesSucceed(REQUESTS + TURNS)
  {
    forall step | step in REQUESTS + TURNS
      ensures WritesSucceed(step) && (StoreOp(step).Some? ==> ColonFree(StoreOp(step).value.id))
    {
      assert step in REQUESTS || step in TURNS;
    }
  }

  /** A service is created, and its event cannot be published. */
  const UNPUBLISHED: seq<Step> := [Spawn, RequestCreate(SERVICE, CREATED.options.value, "x", true, false)]

  /** A failed publication matters: the call fails, the record stays, and nothing ever tells the
      runtime, although it has handled every published event. */
  lemma UnpublishedIsMissed()
    ensures ValidRun(UNPUBLISHED) && ColonFreeWrites(UNPUBLISHED) && |Run(UNPUBLISHED).managers| == 1
    ensures var s := Run(UNPUBLISHED);
            && SameEnds(s.managers[0].calls, EventOps(s.published))
            && RuntimeServices(s.managers[0].calls) == {} && StoredIds(s.table) == {SERVICE_ID}
  {
    assert [] + [UNPUBLISHED[0]] == [UNPUBLISHED[0]] && [UNPUBLISHED[0]] + [UNPUBLISHED[1]] == UNPUBLISHED;
    var s1 := Extend([], UNPUBLISHED[0]);
    var s2 := Extend([UNPUBLISHED[0]], UNPUBLISHED[1]);
    StoredByWrites(UNPUBLISHED);
    assert UNPUBLISHED[..1] == [UNPUBLISHED[0]] && [UNPUBLISHED[0]][..0] == [];
    AppliedMore([], Op(EventKey("x"), Create, SERVICE_ID));
  }

  /** A run of one step more. */
  lemma Extend(steps: seq<Step>, step: Step) returns (s: System)
    requires ValidRun(steps) && Enabled(Run(steps), step)
    ensures ValidRun(steps + [step]) && s == Run(steps + [step]) == Next(Run(steps), step)
  {
    assert (steps + [step])[..|steps|] == steps;
    s := Next(Run(steps), step);
  }

  lemma AppliedPair(a: Op, b: Op)
    requires a.id == b.id
    ensures a.kind == Create && b.kind == Delete ==> Applied([a, b]) == {}
    ensures a.kind == Delete && b.kind == Create ==> Applied([a, b]) == {a.id}
  {
    assert [a, b][..1] == [a] && [a][..0] == [];
    assert Applied([a][..0]) == {};
  }
}
