/** The runtime manager itself: an object with a memory cache over a shared store and a managed
    runtime. Every method is proved against `ManagerSpec`. The shared store is assumed not to
    change during a call; `ManagerProtocol` interleaves the calls of many managers. */
module RuntimeManager {
  import opened Wrappers
  import opened KeyStore
  import opened RuntimeModel
  import opened Spec = ManagerSpec
  import Environment
  import Text

  /** The managed runtime: its code is elsewhere, so it only records how it was called. */
  class Runtime {
    var running: bool
    var calls: seq<Call>
    /** The environment passed with the create call for an event. */
    var environments: map<string, seq<string>>

    constructor ()
      ensures calls == [] && environments == map[] && !running
    {
      running, calls, environments := false, [], map[];
    }
  }

  class Manager {
    const store: Store<Value>
    const cache: Store<CacheValue>
    const runtime: Runtime
    const profile: seq<string>
    var running: bool
    /** How many loops of `watchEvents` and of `watchStatus` have been launched. They never end. */
    var eventLoops: nat
    var statusLoops: nat

    constructor (store: Store<Value>, runtime: Runtime, profile: seq<string>)
      ensures this.store == store && this.runtime == runtime && this.profile == profile && !running
      ensures eventLoops == 0 && statusLoops == 0
      ensures fresh(cache) && cache.table == map[]
    {
      this.store, this.runtime, this.profile, this.running := store, runtime, profile, false;
      eventLoops, statusLoops := 0, 0;
      cache := new Store<CacheValue>();
    }

    ghost predicate Apart()
      reads this
    {
      store as object != cache as object
    }

    ghost function State(): ManagerState
      reads this, cache, runtime
    {
      ManagerState(cache.table, runtime.calls)
    }

    /** `Start`: the managed runtime is started only once; its error is passed on, but the
        manager stays marked as running. Only a runtime that has started gets the two loops, and
        a start after a stop launches them again beside those that still run. */
    method Start(runtimeStarts: bool) returns (ok: bool)
      modifies this`running, this`eventLoops, this`statusLoops, runtime`running
      ensures running
      ensures ok <==> old(running) || runtimeStarts
      ensures runtime.running == if !old(running) && runtimeStarts then true else old(runtime.running)
      ensures eventLoops == old(eventLoops) + if !old(running) && runtimeStarts then 1 else 0
      ensures statusLoops == old(statusLoops) + if !old(running) && runtimeStarts then 1 else 0
    {
      if running {
        return true;
      }
      running := true;
      if !runtimeStarts {
        return false;
      }
      runtime.running := true;
      eventLoops := eventLoops + 1;
      statusLoops := statusLoops + 1;
      return true;
    }

    /** `Stop`: a manager that is not running does not stop the runtime again. */
    method Stop(runtimeStops: bool) returns (ok: bool)
      modifies this`running, runtime`running
      ensures !running
      ensures ok <==> !old(running) || runtimeStops
      ensures runtime.running == if old(running) && runtimeStops then false else old(runtime.running)
    {
      if !running {
        return true;
      }
      running := false;
      if runtimeStops {
        runtime.running := false;
      }
      return runtimeStops;
    }

    method CacheStatus(namespace: string, service: Service, now: int) returns (ok: bool)
      modifies cache
      ensures ok <==> service.metadata.Some?
      ensures cache.table == Spec.CacheStatus(old(cache.table), namespace, service, now)
    {
      if service.metadata.None? {
        return false;
      }
      var key := STATUS_PREFIX + namespace + ":" + service.name + ":" + service.version;
      var md := service.metadata.value;
      cache.Write(key, Status(Lookup(md, "status"), Lookup(md, "error")), 0, now);
      return true;
    }

    method ProcessEvent(key: string, now: int, storeUp: bool, failure: Option<string>)
      requires Apart() && Typed(store.table) && EVENT_PREFIX <= key
      modifies cache, runtime`calls, runtime`environments
      ensures State() == Spec.ProcessEvent(old(State()), store.table, key, now, storeUp, failure)
      ensures Attempts(old(State()), store.table, key, now, storeUp) && store.table[key].value.event.kind.Create? ==>
                && key in runtime.environments
                && runtime.environments == old(runtime.environments)[key := runtime.environments[key]]
                && Environment.Denotes(runtime.environments[key], store.table[key].value.event.options.value, profile)
      ensures !(Attempts(old(State()), store.table, key, now, storeUp) && store.table[key].value.event.kind.Create?) ==>
                runtime.environments == old(runtime.environments)
    {
      // check whether the event has been consumed before
      var seen := cache.Read(key, now);
      if seen.Some? {
        return;
      }
      // look up the event
      if !storeUp {
        return;
      }
      var rec := store.Read(key, now);
      if rec.None? {
        return;
      }
      var ev := rec.value.event;
      var namespace := DEFAULT_NAMESPACE;
      if ev.options.Some? && |ev.options.value.namespace| > 0 {
        namespace := ev.options.value.namespace;
      }
      // apply the event to the managed runtime
      if ev.kind.Create? {
        var env := Environment.RuntimeEnv(ev.options.value, profile);
        runtime.environments := runtime.environments[key := env];
        runtime.calls := runtime.calls + [Call(key, ev.kind, namespace, ev.service, ev.options, failure)];
      } else {
        runtime.calls := runtime.calls + [Call(key, ev.kind, namespace, ev.service, None, failure)];
      }
      if failure.Some? {
        var service := ev.service.(metadata := Some(map["status" := "error", "error" := failure.value]));
        var _ := CacheStatus(namespace, service, now);
      } else if !ev.kind.Delete? {
        var _ := CacheStatus(namespace, ev.service, now);
      }
      // the marker lives twice as long as the event
      cache.Write(key, Consumed, EVENT_TTL * 2, now);
    }

    /** One pass of `watchEvents`: the events are listed at `now`, the i-th one is processed at
        `turn(i)`. It returns the listed keys. */
    method PollEvents(now: int, listed: bool, turn: nat -> Turn) returns (keys: seq<string>)
      requires Apart() && Typed(store.table)
      modifies cache, runtime`calls, runtime`environments
      ensures if listed then Lists(store.table, EVENT_PREFIX, now, keys) else keys == []
      ensures State() == ProcessAll(old(State()), store.table, keys, turn)
    {
      if !listed {
        return [];
      }
      keys := store.ReadPrefix(EVENT_PREFIX, now);
      for i := 0 to |keys|
        invariant State() == ProcessAll(old(State()), store.table, keys[..i], turn)
      {
        assert keys[i] in keys;
        var t := turn(i);
        ProcessEvent(keys[i], t.now, t.storeUp, t.failure);
        assert keys[..i + 1][..i] == keys[..i] && keys[..i + 1][i] == keys[i];
      }
      assert keys[..|keys|] == keys;
    }

    /** `publishEvent`: the write to the shared store. The processing that it starts in the
        background is a later `ProcessEvent`. */
    method PublishEvent(kind: EventType, service: Service, options: CreateOptions, id: string, now: int,
                        eventWrite: bool)
      returns (ok: bool)
      modifies store
      ensures var effect := Publish(old(store.table), Event(id, kind, service, Some(options)), now, eventWrite);
              store.table == effect.table && (ok <==> effect.published.Some?)
      // the key and the ten minutes, in nanoseconds
      ensures ok ==>
                && ("event/" + id) in store.table
                && store.table["event/" + id]
                   == Entry(EventRecord(Event(id, kind, service, Some(options))), Some(now + 600_000_000_000))
    {
      var e := Event(id, kind, service, Some(options));
      if !eventWrite {
        return false;
      }
      store.Write(EVENT_PREFIX + e.id, EventRecord(e), EVENT_TTL, now);
      return true;
    }

    method Create(service: Service, options: CreateOptions, id: string, now: int, serviceWrite: bool, eventWrite: bool)
      returns (ok: bool)
      modifies store
      ensures var effect := CreateService(old(store.table), service, options, id, now, serviceWrite, eventWrite);
              store.table == effect.table && (ok <==> effect.published.Some?)
    {
      var o := options;
      if |o.namespace| == 0 {
        o := o.(namespace := DEFAULT_NAMESPACE);
      }
      var srv := service;
      if srv.metadata.None? {
        srv := srv.(metadata := Some(map[]));
      }
      if |srv.version| == 0 {
        srv := srv.(version := "latest");
      }
      if !serviceWrite {
        return false;
      }
      store.Write(SERVICE_PREFIX + o.namespace + ":" + srv.name + ":" + srv.version, ServiceRecord(srv, o), 0, now);
      ok := PublishEvent(EventType.Create, srv, o, id, now, eventWrite);
    }

    method Update(service: Service, namespace: string, id: string, now: int, eventWrite: bool) returns (ok: bool)
      modifies store
      ensures var effect := UpdateService(old(store.table), service, namespace, id, now, eventWrite);
              store.table == effect.table && (ok <==> effect.published.Some?)
    {
      var ns := if |namespace| == 0 then DEFAULT_NAMESPACE else namespace;
      var srv := service;
      if |srv.version| == 0 {
        srv := srv.(version := "latest");
      }
      ok := PublishEvent(EventType.Update, srv, OnlyNamespace(ns), id, now, eventWrite);
    }

    method Delete(service: Service, namespace: string, id: string, now: int, serviceDelete: bool, eventWrite: bool)
      returns (ok: bool)
      modifies store
      ensures var effect := DeleteService(old(store.table), service, namespace, id, now, serviceDelete, eventWrite);
              store.table == effect.table && (ok <==> effect.published.Some?)
    {
      var ns := if |namespace| == 0 then DEFAULT_NAMESPACE else namespace;
      var srv := service;
      if |srv.version| == 0 {
        srv := srv.(version := "latest");
      }
      if !serviceDelete {
        return false;
      }
      store.Delete(SERVICE_PREFIX + ns + ":" + srv.name + ":" + srv.version);
      ok := PublishEvent(EventType.Delete, srv, OnlyNamespace(ns), id, now, eventWrite);
    }

    /** `readServices`. The ghost result names the keys the records were read from. */
    method ReadServices(namespace: string, name: string, version: string, now: int, storeUp: bool)
      returns (r: Result<seq<Service>>, ghost keys: seq<string>)
      requires forall k :: k in store.table && SERVICE_PREFIX <= k ==> store.table[k].value.ServiceRecord?
      ensures r.Success? <==> storeUp
      ensures storeUp ==>
                && Lists(store.table, ServicesPrefix(namespace, name, version), now, keys)
                && StoredUnder(store.table, keys, r.value)
    {
      var prefix := SERVICE_PREFIX + namespace + ":";
      if |name| > 0 {
        prefix := prefix + (name + ":");
      }
      if |name| > 0 && |version| > 0 {
        prefix := prefix + version;
      }
      keys := [];
      if !storeUp {
        return Failure("store"), keys;
      }
      assert prefix == ServicesPrefix(namespace, name, version);
      var recs := store.ReadPrefix(prefix, now);
      keys := recs;
      var srvs := [];
      for i := 0 to |recs|
        invariant |srvs| == i
        invariant forall j :: 0 <= j < i ==>
                    && recs[j] in store.table && store.table[recs[j]].value.ServiceRecord?
                    && srvs[j] == store.table[recs[j]].value.service
      {
        assert recs[i] in recs;
        assert SERVICE_PREFIX <= recs[i];
        srvs := srvs + [store.table[recs[i]].value.service];
      }
      return Success(srvs), keys;
    }

    /** `unique`: the first occurrence of each entry, in the order of the entries. */
    static method Unique(entries: seq<string>) returns (list: seq<string>)
      ensures list == FirstOccurrences(entries)
      ensures Text.Distinct(list)
      ensures forall e :: e in list <==> e in entries
    {
      var seen: map<string, bool> := map[];
      list := [];
      for i := 0 to |entries|
        invariant list == FirstOccurrences(entries[..i])
        invariant Text.Distinct(list)
        invariant forall e :: e in list <==> e in entries[..i]
        invariant forall e :: e in seen <==> e in list
      {
        assert entries[..i + 1][..i] == entries[..i];
        if entries[i] !in seen {
          seen := seen[entries[i] := true];
          list := list + [entries[i]];
        }
      }
      assert entries[..|entries|] == entries;
    }

    /** `listNamespaces`: it fails when a stored key does not have four parts. */
    method ListNamespaces(now: int, storeUp: bool) returns (r: Result<seq<string>>)
      ensures r.Success? <==> storeUp && FourParts(LiveKeys(store.table, SERVICE_PREFIX, now))
      ensures r.Success? ==> NamespaceList(store.table, now, r.value)
    {
      if !storeUp {
        return Failure("store");
      }
      var recs := store.ReadPrefix(SERVICE_PREFIX, now);
      ghost var stored := LiveKeys(store.table, SERVICE_PREFIX, now);
      assert forall k :: k in stored <==> k in recs;
      if |recs| == 0 {
        return Success([DEFAULT_NAMESPACE]);
      }
      assert recs[0] in stored;
      var namespaces: seq<string> := [];
      for i := 0 to |recs|
        invariant |namespaces| == i
        invariant forall j :: 0 <= j < i ==>
                    |Text.Split(recs[j], ':')| == 4 && namespaces[j] == Text.Split(recs[j], ':')[1]
      {
        var comps := Text.Split(recs[i], ':');
        if |comps| != 4 {
          assert recs[i] in stored;
          return Failure("invalid key");
        }
        namespaces := namespaces + [comps[1]];
      }
      var list := Unique(namespaces);
      forall n ensures n in list <==> exists k :: k in stored && InNamespace(k, n) {
        if n in list {
          var j :| 0 <= j < |namespaces| && namespaces[j] == n;
          assert recs[j] in stored && InNamespace(recs[j], n);
        }
        if k :| k in stored && InNamespace(k, n) {
          var j :| 0 <= j < |recs| && recs[j] == k;
          assert namespaces[j] == n;
        }
      }
      return Success(list);
    }

    /** `listStatuses`: the cached statuses of one namespace by `name:version`. */
    method ListStatuses(namespace: string, now: int) returns (r: Result<map<string, CacheValue>>)
      ensures r.Success? <==> FourParts(LiveKeys(cache.table, STATUS_PREFIX + namespace + ":", now))
      ensures r.Success? ==> Filed(r.value, cache.table, LiveKeys(cache.table, STATUS_PREFIX + namespace + ":", now))
      ensures r.Success? && ':' !in namespace ==>
                forall id :: ColonFree(id) && id.namespace == namespace ==>
                  StatusIn(r.value, id) == CachedStatus(cache.table, id, now)
    {
      var prefix := STATUS_PREFIX + namespace + ":";
      var recs := cache.ReadPrefix(prefix, now);
      ghost var live := LiveKeys(cache.table, prefix, now);
      assert forall k :: k in live <==> k in recs;
      var statuses: map<string, CacheValue> := map[];
      for i := 0 to |recs|
        invariant forall k :: k in recs[..i] ==> k in recs && k in cache.table
        invariant forall k :: k in recs[..i] ==> |Text.Split(k, ':')| == 4
        invariant statuses == FileAll(cache.table, recs[..i])
      {
        assert recs[i] in live;
        assert recs[..i + 1] == recs[..i] + [recs[i]];
        var comps := Text.Split(recs[i], ':');
        if |comps| != 4 {
          return Failure("invalid key");
        }
        statuses := statuses[comps[2] + ":" + comps[3] := cache.table[recs[i]].value];
      }
      assert recs[..|recs|] == recs;
      forall id | ':' !in namespace && ColonFree(id) && id.namespace == namespace
        ensures StatusIn(statuses, id) == CachedStatus(cache.table, id, now)
      {
        ListedStatus(cache.table, recs, id, now);
      }
      FileAllFiled(cache.table, recs);
      return Success(statuses);
    }

    /** The loop of `Read`. A service without metadata that has a status would make the original
        panic; that is the failure "nil map". */
    static method MergeStatuses(srvs: seq<Service>, statuses: map<string, CacheValue>) returns (r: Result<seq<Service>>)
      ensures r.Success? <==> forall i :: 0 <= i < |srvs| ==> TakesStatus(srvs[i], statuses)
      ensures r.Success? ==>
                && |r.value| == |srvs|
                && forall i :: 0 <= i < |srvs| ==> r.value[i] == Merged(srvs[i], FiledStatus(statuses, srvs[i]))
    {
      var out: seq<Service> := [];
      for i := 0 to |srvs|
        invariant |out| == i
        invariant forall j :: 0 <= j < i ==>
                    TakesStatus(srvs[j], statuses) && out[j] == Merged(srvs[j], FiledStatus(statuses, srvs[j]))
      {
        var srv := srvs[i];
        var key := srv.name + ":" + srv.version;
        if key in statuses && statuses[key].Status? {
          var status := statuses[key];
          if srv.metadata.None? {
            return Failure("nil map");
          }
          srv := srv.(metadata := Some(srv.metadata.value["status" := status.status]["error" := status.error]));
        }
        out := out + [srv];
      }
      return Success(out);
    }

    /** `Read`: each stored service with the status filed under its name and version, or a failure
        exactly if the store is down, a status key has not four parts, or a service that has a
        status has no metadata. The ghost results are the stored services and the keys that they
        were read from, and the statuses listed. */
    method Read(namespace: string, name: string, version: string, now: int, storeUp: bool)
      returns (r: Result<seq<Service>>, ghost keys: seq<string>, ghost stored: seq<Service>,
               ghost statuses: map<string, CacheValue>)
      requires forall k :: k in store.table && SERVICE_PREFIX <= k ==> store.table[k].value.ServiceRecord?
      ensures var shown := LiveKeys(cache.table, STATUS_PREFIX + OrDefault(namespace) + ":", now);
              if !storeUp || !FourParts(shown) then r.Failure?
              else
                && Lists(store.table, ServicesPrefix(OrDefault(namespace), name, version), now, keys)
                && StoredUnder(store.table, keys, stored)
                && Filed(statuses, cache.table, shown)
                && (r.Success? <==> forall i :: 0 <= i < |stored| ==> TakesStatus(stored[i], statuses))
      ensures storeUp && WellKeyed(store.table)
              && FourParts(LiveKeys(cache.table, STATUS_PREFIX + OrDefault(namespace) + ":", now)) ==>
                r.Success?
      ensures r.Success? ==>
                && |r.value| == |stored|
                && forall i :: 0 <= i < |stored| ==> r.value[i] == Merged(stored[i], FiledStatus(statuses, stored[i]))
      ensures r.Success? && WellKeyed(store.table) && ':' !in namespace && ':' !in name && ':' !in version ==>
                forall i :: 0 <= i < |stored| ==>
                  FiledStatus(statuses, stored[i])
                  == CachedStatus(cache.table, IdOf(OrDefault(namespace), stored[i]), now)
    {
      stored, statuses := [], map[];
      var ns := if |namespace| == 0 then DEFAULT_NAMESPACE else namespace;
      var srvs;
      srvs, keys := ReadServices(ns, name, version, now, storeUp);
      if srvs.Failure? {
        return srvs, keys, stored, statuses;
      }
      stored := srvs.value;
      var listed := ListStatuses(ns, now);
      if listed.Failure? {
        return Failure(listed.error), keys, stored, statuses;
      }
      statuses := listed.value;
      assert ':' !in DEFAULT_NAMESPACE;
      if WellKeyed(store.table) {
        StoredHaveMetadata(store.table, ServicesPrefix(ns, name, version), now, keys, stored);
      }
      if WellKeyed(store.table) && ':' !in namespace && ':' !in name && ':' !in version {
        OwnStatusFiled(store.table, cache.table, ns, name, version, now, keys, stored, statuses);
      }
      r := MergeStatuses(srvs.value, listed.value);
    }

    /** `syncStatus`. The ghost result is the order in which the namespaces were visited. */
    method SyncStatus(now: int, storeUp: bool, reports: map<string, seq<Service>>)
      returns (ghost namespaces: seq<string>, ghost complete: bool)
      requires Apart()
      modifies cache
      ensures complete ==> storeUp && FourParts(LiveKeys(store.table, SERVICE_PREFIX, now))
      ensures storeUp && FourParts(LiveKeys(store.table, SERVICE_PREFIX, now)) ==>
                && NamespaceList(store.table, now, namespaces)
                && (cache.table, complete) == SyncAll(old(cache.table), namespaces, reports, now)
      ensures !(storeUp && FourParts(LiveKeys(store.table, SERVICE_PREFIX, now))) ==> cache.table == old(cache.table)
    {
      complete := false;
      namespaces := [];
      var listed := ListNamespaces(now, storeUp);
      if listed.Failure? {
        return;
      }
      namespaces := listed.value;
      for i := 0 to |listed.value|
        invariant SyncAll(old(cache.table), listed.value, reports, now)
                  == SyncAll(cache.table, listed.value[i..], reports, now)
      {
        var ns := listed.value[i];
        assert listed.value[i..][0] == ns && listed.value[i..][1..] == listed.value[i + 1..];
        if ns !in reports {
          return;
        }
        var srvs := reports[ns];
        ghost var before := cache.table;
        for j := 0 to |srvs|
          invariant CacheAll(before, ns, srvs, now) == CacheAll(cache.table, ns, srvs[j..], now)
        {
          assert srvs[j..][0] == srvs[j] && srvs[j..][1..] == srvs[j + 1..];
          var ok := CacheStatus(ns, srvs[j], now);
          if !ok {
            return;
          }
        }
      }
      complete := true;
    }
  }

  /** The `name:version` under which `listStatuses` files a key of four parts. */
  function NameAndVersion(key: string): string {
    var comps := Text.Split(key, ':');
    if |comps| == 4 then comps[2] + ":" + comps[3] else ""
  }

  function StatusIn(statuses: map<string, CacheValue>, id: ServiceId): Option<CacheValue> {
    var key := id.name + ":" + id.version;
    if key in statuses then Some(statuses[key]) else None
  }

  /** The services stored under these keys. */
  ghost predicate StoredUnder(table: Table<Value>, keys: seq<string>, services: seq<Service>) {
    && |services| == |keys|
    && forall i :: 0 <= i < |keys| ==>
         && keys[i] in table && table[keys[i]].value.ServiceRecord?
         && services[i] == table[keys[i]].value.service
  }

  lemma StoredHaveMetadata(table: Table<Value>, prefix: string, now: int, keys: seq<string>, stored: seq<Service>)
    requires WellKeyed(table) && SERVICE_PREFIX <= prefix
    requires Lists(table, prefix, now, keys) && StoredUnder(table, keys, stored)
    ensures forall i :: 0 <= i < |stored| ==> stored[i].metadata.Some?
  {
    forall i | 0 <= i < |stored|
      ensures stored[i].metadata.Some?
    {
      assert keys[i] in keys && prefix <= keys[i];
    }
  }

  /** On a store that `Create` has filled, the status filed for a listed service is its own. */
  lemma OwnStatusFiled(table: Table<Value>, cache: Table<CacheValue>, namespace: string, name: string, version: string,
                       now: int, keys: seq<string>, stored: seq<Service>, statuses: map<string, CacheValue>)
    requires WellKeyed(table) && ':' !in namespace && ':' !in name && ':' !in version
    requires Lists(table, ServicesPrefix(namespace, name, version), now, keys) && StoredUnder(table, keys, stored)
    requires forall id :: ColonFree(id) && id.namespace == namespace ==>
               StatusIn(statuses, id) == CachedStatus(cache, id, now)
    ensures forall i :: 0 <= i < |stored| ==>
              FiledStatus(statuses, stored[i]) == CachedStatus(cache, IdOf(namespace, stored[i]), now)
  {
    forall i | 0 <= i < |stored|
      ensures FiledStatus(statuses, stored[i]) == CachedStatus(cache, IdOf(namespace, stored[i]), now)
    {
      assert keys[i] in keys && SERVICE_PREFIX <= ServicesPrefix(namespace, name, version) <= keys[i];
      var id := RecordId(table[keys[i]].value);
      ServicesPrefixMeaning(namespace, name, version, id);
      assert StatusIn(statuses, id) == CachedStatus(cache, id, now);
    }
  }

  function FiledStatus(statuses: map<string, CacheValue>, service: Service): Option<CacheValue> {
    var key := service.name + ":" + service.version;
    if key in statuses then Some(statuses[key]) else None
  }

  /** A status can be put into the service: it has metadata, or there is no status for it. */
  predicate TakesStatus(service: Service, statuses: map<string, CacheValue>) {
    var status := FiledStatus(statuses, service);
    status.Some? && status.value.Status? ==> service.metadata.Some?
  }

  predicate FiledUnder(key: string, name: string) {
    NameAndVersion(key) == name
  }

  /** What `listStatuses` answers for these keys: each name and version, with one of its values. */
  ghost predicate Filed(statuses: map<string, CacheValue>, table: Table<CacheValue>, keys: set<string>) {
    && (forall k :: k in keys ==> NameAndVersion(k) in statuses)
    && (forall n :: n in statuses ==>
          exists k :: k in keys && k in table && FiledUnder(k, n) && statuses[n] == table[k].value)
  }

  lemma {:induction false} FileAllFiled(table: Table<CacheValue>, keys: seq<string>)
    requires forall k :: k in keys ==> k in table
    ensures Filed(FileAll(table, keys), table, set k | k in keys)
  {
    if keys == [] {
    } else {
      var front, last := keys[..|keys| - 1], keys[|keys| - 1];
      assert keys == front + [last];
      FileAllFiled(table, front);
      var statuses := FileAll(table, keys);
      forall n | n in statuses
        ensures exists k :: k in keys && k in table && FiledUnder(k, n) && statuses[n] == table[k].value
      {
        if FiledUnder(last, n) {
          assert last in keys;
        } else {
          var k :| k in front && k in table && FiledUnder(k, n) && FileAll(table, front)[n] == table[k].value;
          assert k in keys;
        }
      }
    }
  }

  /** The first occurrence of each element, in order. */
  function FirstOccurrences(s: seq<string>): seq<string> {
    if s == [] then []
    else
      var front, last := FirstOccurrences(s[..|s| - 1]), s[|s| - 1];
      if last in front then front else front + [last]
  }

  /** More entries only add to the end: what has occurred first stays in front. */
  lemma {:induction false} FirstsStayInFront(a: seq<string>, b: seq<string>)
    ensures FirstOccurrences(a) <= FirstOccurrences(a + b)
  {
    if b == [] {
      assert a + b == a;
    } else {
      assert (a + b)[..|a + b| - 1] == a + b[..|b| - 1];
      FirstsStayInFront(a, b[..|b| - 1]);
    }
  }

  /** The map that the loop of `listStatuses` builds: a later key overwrites an earlier one. */
  function FileAll(table: Table<CacheValue>, keys: seq<string>): map<string, CacheValue>
    requires forall k :: k in keys ==> k in table
  {
    if keys == [] then map[]
    else
      var last := keys[|keys| - 1];
      FileAll(table, keys[..|keys| - 1])[NameAndVersion(last) := table[last].value]
  }

  lemma {:induction false} FileAllFinds(table: Table<CacheValue>, keys: seq<string>, id: ServiceId)
    requires ColonFree(id)
    requires forall k :: k in keys ==>
               k in table && STATUS_PREFIX + id.namespace + ":" <= k && |Text.Split(k, ':')| == 4
    ensures StatusIn(FileAll(table, keys), id)
            == if StatusKey(id) in keys then Some(table[StatusKey(id)].value) else None
  {
    if keys == [] {
    } else {
      var front, last := keys[..|keys| - 1], keys[|keys| - 1];
      assert keys == front + [last];
      assert forall k :: k in front ==> k in keys;
      FileAllFinds(table, front, id);
      StatusKeySplits(id);
      if NameAndVersion(last) == id.name + ":" + id.version {
        NameAndVersionIdentifies(id.namespace, last, id);
      }
    }
  }

  lemma ListedStatus(table: Table<CacheValue>, keys: seq<string>, id: ServiceId, now: int)
    requires ColonFree(id)
    requires Lists(table, STATUS_PREFIX + id.namespace + ":", now, keys)
    requires forall k :: k in keys ==> |Text.Split(k, ':')| == 4
    ensures StatusIn(FileAll(table, keys), id) == CachedStatus(table, id, now)
  {
    FileAllFinds(table, keys, id);
    StatusPrefixMeaning(id.namespace, id);
  }

  /** Within one namespace, `name:version` tells the status keys apart. */
  lemma NameAndVersionIdentifies(namespace: string, key: string, id: ServiceId)
    requires ':' !in namespace && ColonFree(id) && id.namespace == namespace
    requires STATUS_PREFIX + namespace + ":" <= key && |Text.Split(key, ':')| == 4
    requires NameAndVersion(key) == id.name + ":" + id.version
    ensures key == StatusKey(id)
  {
    var rest := key[|STATUS_PREFIX + namespace + ":"|..];
    assert key == "status" + [':'] + namespace + [':'] + rest;
    NameAndVersionIsTail(namespace, rest);
    assert StatusKey(id) == "status" + [':'] + namespace + [':'] + (id.name + ":" + id.version);
  }

  /** For a key of four parts, the `name:version` is all that follows the namespace. */
  lemma NameAndVersionIsTail(namespace: string, rest: string)
    requires ':' !in namespace
    requires |Text.Split("status" + [':'] + namespace + [':'] + rest, ':')| == 4
    ensures NameAndVersion("status" + [':'] + namespace + [':'] + rest) == rest
  {
    var parts := Text.Split(rest, ':');
    StatusKeyTail(namespace, rest);
    assert (["status", namespace] + parts)[2] == parts[0] && (["status", namespace] + parts)[3] == parts[1];
    TwoParts(rest);
  }

  lemma StatusKeyTail(namespace: string, rest: string)
    requires ':' !in namespace
    ensures Text.Split("status" + [':'] + namespace + [':'] + rest, ':')
            == ["status", namespace] + Text.Split(rest, ':')
  {
    assert "status" + [':'] + namespace + [':'] + rest == "status" + [':'] + (namespace + [':'] + rest);
    Text.SplitCons("status", namespace + [':'] + rest, ':');
    Text.SplitCons(namespace, rest, ':');
  }

  lemma TwoParts(s: string)
    ensures |Text.Split(s, ':')| == 2 ==> s == Text.Split(s, ':')[0] + ":" + Text.Split(s, ':')[1]
  {
    var parts := Text.Split(s, ':');
    Text.JoinSplit(s, ':');
    if |parts| == 2 {
      assert parts[1..] == [parts[1]];
    }
  }
}
