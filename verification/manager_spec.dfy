/** The runtime manager's operations as functions of its state: what each handler call and each
    processed event does to the shared store, the manager's cache and the managed runtime. */
module ManagerSpec {
  import opened Wrappers
  import opened KeyStore
  import opened RuntimeModel
  import Text

  /** One call made to the managed runtime while processing the event under `key`. A create call
      also passes image, type, command and arguments on, which are taken from `launch`. */
  datatype Call = Call(key: string, kind: EventType, namespace: string, service: Service,
                       launch: Option<CreateOptions>, failure: Option<string>)

  /** One manager process: its memory cache and the calls it has made to its runtime. */
  datatype ManagerState = ManagerState(cache: Table<CacheValue>, calls: seq<Call>)

  /** Only event records lie under the event prefix, and a create event carries its options. */
  ghost predicate Typed(table: Table<Value>) {
    forall k :: k in table && EVENT_PREFIX <= k ==>
      && table[k].value.EventRecord?
      && (table[k].value.event.kind == Create ==> table[k].value.event.options.Some?)
  }

  function IdOf(namespace: string, service: Service): ServiceId {
    ServiceId(namespace, service.name, service.version)
  }

  /** `cacheStatus`: a service without metadata is refused, any other overwrites its status. */
  function CacheStatus(cache: Table<CacheValue>, namespace: string, service: Service, now: int): Table<CacheValue> {
    if service.metadata.None? then cache
    else
      var md := service.metadata.value;
      Put(cache, StatusKey(IdOf(namespace, service)), Status(Lookup(md, "status"), Lookup(md, "error")), 0, now)
  }

  /** The service handed to `cacheStatus` when the runtime refuses an event. */
  function Failed(service: Service, failure: string): Service {
    service.(metadata := Some(map["status" := "error", "error" := failure]))
  }

  /** Whether `processEvent` gets as far as calling the runtime. */
  predicate Attempts(m: ManagerState, table: Table<Value>, key: string, now: int, storeUp: bool) {
    !Live(m.cache, key, now) && storeUp && Live(table, key, now) && table[key].value.EventRecord?
  }

  function CallFor(key: string, event: Event, failure: Option<string>): Call {
    Call(key, event.kind, NamespaceOf(event.options), event.service,
         if event.kind.Create? then event.options else None, failure)
  }

  /** The cache after the runtime has answered: the status it leads to, and then the marker. */
  function Consume(cache: Table<CacheValue>, key: string, event: Event, now: int,
                   failure: Option<string>): Table<CacheValue>
  {
    var namespace := NamespaceOf(event.options);
    var shown :=
      if failure.Some? then CacheStatus(cache, namespace, Failed(event.service, failure.value), now)
      else if event.kind != Delete then CacheStatus(cache, namespace, event.service, now)
      else cache;
    Put(shown, key, Consumed, EVENT_TTL * 2, now)
  }

  /** `processEvent` as one atomic step. `storeUp` is false when the shared store cannot be read;
      `failure` is the runtime's error, if it returns one. */
  function ProcessEvent(m: ManagerState, table: Table<Value>, key: string, now: int,
                        storeUp: bool, failure: Option<string>): ManagerState
  {
    if !Attempts(m, table, key, now, storeUp) then m
    else
      var event := table[key].value.event;
      ManagerState(Consume(m.cache, key, event, now, failure), m.calls + [CallFor(key, event, failure)])
  }

  /** What happens at one turn of a polling pass. */
  datatype Turn = Turn(now: int, storeUp: bool, failure: Option<string>)

  /** The loop of `watchEvents` over the listed keys, while the shared store does not change. */
  function ProcessAll(m: ManagerState, table: Table<Value>, keys: seq<string>, turn: nat -> Turn): ManagerState {
    if keys == [] then m
    else
      var last := |keys| - 1;
      var t := turn(last);
      ProcessEvent(ProcessAll(m, table, keys[..last], turn), table, keys[last], t.now, t.storeUp, t.failure)
  }

  /** A write to the shared store: the new contents, and the event that became visible, if any.
      A call succeeds exactly when it has published its event. */
  datatype Effect = Effect(table: Table<Value>, published: Option<Event>)

  function Publish(table: Table<Value>, event: Event, now: int, eventWrite: bool): Effect {
    if eventWrite then Effect(Put(table, EventKey(event.id), EventRecord(event), EVENT_TTL, now), Some(event))
    else Effect(table, None)
  }

  function WithDefaults(service: Service): Service {
    service.(metadata := if service.metadata.None? then Some(map[]) else service.metadata,
             version := if |service.version| == 0 then "latest" else service.version)
  }

  function WithVersion(service: Service): Service {
    service.(version := if |service.version| == 0 then "latest" else service.version)
  }

  function OnlyNamespace(namespace: string): CreateOptions {
    CreateOptions(namespace, "", "", [], [], [])
  }

  /** `Create`: the service record is written first, and only then the event. */
  function CreateService(table: Table<Value>, service: Service, options: CreateOptions, id: string, now: int,
                         serviceWrite: bool, eventWrite: bool): Effect
  {
    var o := options.(namespace := OrDefault(options.namespace));
    var srv := WithDefaults(service);
    if !serviceWrite then Effect(table, None)
    else
      Publish(Put(table, ServiceKey(IdOf(o.namespace, srv)), ServiceRecord(srv, o), 0, now),
              Event(id, Create, srv, Some(o)), now, eventWrite)
  }

  /** `Update` publishes an event and leaves the service record alone. */
  function UpdateService(table: Table<Value>, service: Service, namespace: string, id: string, now: int,
                         eventWrite: bool): Effect
  {
    Publish(table, Event(id, Update, WithVersion(service), Some(OnlyNamespace(OrDefault(namespace)))), now, eventWrite)
  }

  /** `Delete`: the service record is removed first, and only then the event is published. */
  function DeleteService(table: Table<Value>, service: Service, namespace: string, id: string, now: int,
                         serviceDelete: bool, eventWrite: bool): Effect
  {
    var ns := OrDefault(namespace);
    var srv := WithVersion(service);
    if !serviceDelete then Effect(table, None)
    else
      Publish(table - {ServiceKey(IdOf(ns, srv))}, Event(id, Delete, srv, Some(OnlyNamespace(ns))), now, eventWrite)
  }

  /** The status that a manager has cached for a service. */
  function CachedStatus(cache: Table<CacheValue>, id: ServiceId, now: int): Option<CacheValue> {
    if Live(cache, StatusKey(id), now) then Some(cache[StatusKey(id)].value) else None
  }

  /** A stored service as `Read` returns it: with the cached status, if there is one. */
  function Merged(service: Service, status: Option<CacheValue>): Service {
    if status.Some? && status.value.Status? && service.metadata.Some? then
      service.(metadata := Some(service.metadata.value["status" := status.value.status]["error" := status.value.error]))
    else service
  }

  /** The loop of `syncStatus` over the services of one namespace; false when it stopped early. */
  function CacheAll(cache: Table<CacheValue>, namespace: string, services: seq<Service>, now: int)
    : (Table<CacheValue>, bool)
    decreases |services|
  {
    if services == [] then (cache, true)
    else if services[0].metadata.None? then (cache, false)
    else CacheAll(CacheStatus(cache, namespace, services[0], now), namespace, services[1..], now)
  }

  /** The loop of `syncStatus` over the namespaces. `reports` is what the runtime answers for a
      namespace; a missing answer is an error. Any error ends the whole sync. */
  function SyncAll(cache: Table<CacheValue>, namespaces: seq<string>, reports: map<string, seq<Service>>, now: int)
    : (Table<CacheValue>, bool)
    decreases |namespaces|
  {
    if namespaces == [] then (cache, true)
    else if namespaces[0] !in reports then (cache, false)
    else
      var r := CacheAll(cache, namespaces[0], reports[namespaces[0]], now);
      if !r.1 then r else SyncAll(r.0, namespaces[1..], reports, now)
  }

  /** The last service of that name and version in a runtime's answer. */
  function LastReport(services: seq<Service>, name: string, version: string): Option<Service> {
    if services == [] then None
    else
      var last := services[|services| - 1];
      if last.name == name && last.version == version then Some(last)
      else LastReport(services[..|services| - 1], name, version)
  }

  function RecordId(value: Value): ServiceId
    requires value.ServiceRecord?
  {
    IdOf(value.options.namespace, value.service)
  }

  /** Every service record lies under its own key with colon-free parts, never expires, and has
      metadata: what `Create` writes for colon-free requests. */
  ghost predicate WellKeyed(table: Table<Value>) {
    forall k :: k in table && SERVICE_PREFIX <= k ==>
      && table[k].value.ServiceRecord?
      && ColonFree(RecordId(table[k].value))
      && k == ServiceKey(RecordId(table[k].value))
      && table[k].deadline.None?
      && table[k].value.service.metadata.Some?
  }

  ghost predicate FourParts(keys: set<string>) {
    forall k :: k in keys ==> |Text.Split(k, ':')| == 4
  }

  /** The keys under a prefix that a read at `now` can see. */
  ghost function LiveKeys<V>(table: Table<V>, prefix: string, now: int): set<string> {
    set k | k in table && Live(table, k, now) && prefix <= k
  }

  /** What `listNamespaces` returns when it does not fail: the default namespace if no service is
      stored, and otherwise the second part of each stored key, once. */
  ghost predicate NamespaceList(table: Table<Value>, now: int, list: seq<string>) {
    var stored := LiveKeys(table, SERVICE_PREFIX, now);
    if stored == {} then list == [DEFAULT_NAMESPACE]
    else
      && Text.Distinct(list)
      && (forall n :: n in list <==> exists k :: k in stored && InNamespace(k, n))
  }

  predicate InNamespace(key: string, namespace: string) {
    var comps := Text.Split(key, ':');
    |comps| == 4 && comps[1] == namespace
  }
}
