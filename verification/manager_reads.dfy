/** What the reading side of the manager returns: the stored services, their namespaces, and the
    statuses that the last sync took over from the runtime. */
module ManagerReads {
  import opened Wrappers
  import opened KeyStore
  import opened RuntimeModel
  import opened ManagerSpec
  import Text

  /** The services that have a record in the store. */
  ghost function StoredIds(table: Table<Value>): set<ServiceId> {
    set k | k in table && SERVICE_PREFIX <= k && table[k].value.ServiceRecord? :: RecordId(table[k].value)
  }

  /** A service is stored exactly when there is a record under its key. */
  lemma StoredUnderKey(table: Table<Value>, id: ServiceId)
    requires WellKeyed(table) && ColonFree(id)
    ensures id in StoredIds(table) <==> ServiceKey(id) in table
    ensures ServiceKey(id) in table ==>
              table[ServiceKey(id)].value.ServiceRecord? && RecordId(table[ServiceKey(id)].value) == id
  {
    assert SERVICE_PREFIX <= ServiceKey(id);
    if ServiceKey(id) in table {
      KeysInjective(id, RecordId(table[ServiceKey(id)].value));
    }
  }

  /** `readServices` finds exactly the services of the namespace, of the given name if there is
      one, whose version starts with the given version; each of them once. */
  lemma ReadServicesExact(table: Table<Value>, namespace: string, name: string, version: string, now: int,
                          keys: seq<string>, id: ServiceId)
    requires WellKeyed(table)
    requires ':' !in namespace && ':' !in name && ':' !in version
    requires Lists(table, ServicesPrefix(namespace, name, version), now, keys)
    requires ColonFree(id)
    ensures ServiceKey(id) in keys
            <==> id in StoredIds(table) && id.namespace == namespace
                 && (|name| > 0 ==> id.name == name && version <= id.version)
    ensures forall i, j :: 0 <= i < j < |keys| ==>
              && keys[i] in table && keys[j] in table
              && table[keys[i]].value.ServiceRecord? && table[keys[j]].value.ServiceRecord?
              && RecordId(table[keys[i]].value) != RecordId(table[keys[j]].value)
  {
    StoredUnderKey(table, id);
    ServicesPrefixMeaning(namespace, name, version, id);
    forall i | 0 <= i < |keys|
      ensures keys[i] in table && SERVICE_PREFIX <= keys[i]
    {
      assert keys[i] in keys;
      assert SERVICE_PREFIX <= ServicesPrefix(namespace, name, version);
    }
  }

  /** `listNamespaces` never fails on a store that `Create` has filled, and names the namespaces
      of the stored services. */
  lemma NamespacesOfStored(table: Table<Value>, now: int, namespace: string)
    requires WellKeyed(table)
    ensures FourParts(LiveKeys(table, SERVICE_PREFIX, now))
    ensures LiveKeys(table, SERVICE_PREFIX, now) == {} <==> StoredIds(table) == {}
    ensures (exists k :: k in LiveKeys(table, SERVICE_PREFIX, now) && InNamespace(k, namespace))
            <==> (exists id :: id in StoredIds(table) && id.namespace == namespace)
  {
    var live := LiveKeys(table, SERVICE_PREFIX, now);
    forall k | k in live
      ensures |Text.Split(k, ':')| == 4 && RecordId(table[k].value) in StoredIds(table)
      ensures InNamespace(k, RecordId(table[k].value).namespace)
    {
      ServiceKeySplits(RecordId(table[k].value));
    }
    forall id | id in StoredIds(table)
      ensures ServiceKey(id) in live && InNamespace(ServiceKey(id), id.namespace)
    {
      var k :| k in table && SERVICE_PREFIX <= k && table[k].value.ServiceRecord? && RecordId(table[k].value) == id;
      ServiceKeySplits(id);
    }
    if StoredIds(table) != {} {
      var id :| id in StoredIds(table);
      assert ServiceKey(id) in live;
    }
    if id :| id in StoredIds(table) && id.namespace == namespace {
      assert ServiceKey(id) in live && InNamespace(ServiceKey(id), namespace);
    }
    if k :| k in live && InNamespace(k, namespace) {
      assert RecordId(table[k].value) in StoredIds(table) && RecordId(table[k].value).namespace == namespace;
    }
  }

  function ReportedStatus(service: Service): CacheValue {
    var md := if service.metadata.Some? then service.metadata.value else map[];
    Status(Lookup(md, "status"), Lookup(md, "error"))
  }

  ghost predicate ColonFreeReports(reports: map<string, seq<Service>>) {
    forall n, i :: n in reports && 0 <= i < |reports[n]| ==> ColonFree(IdOf(n, reports[n][i]))
  }

  lemma {:induction false} CacheAllWrites(cache: Table<CacheValue>, namespace: string, services: seq<Service>,
                                          now: int, id: ServiceId)
    requires ColonFree(id)
    requires forall i :: 0 <= i < |services| ==> ColonFree(IdOf(namespace, services[i]))
    requires CacheAll(cache, namespace, services, now).1
    ensures var after := CacheAll(cache, namespace, services, now).0;
            var last := LastReport(services, id.name, id.version);
            CachedStatus(after, id, now) ==
            if id.namespace == namespace && last.Some? then Some(ReportedStatus(last.value))
            else CachedStatus(cache, id, now)
    decreases |services|
  {
    if services == [] {
    } else {
      var first, rest := services[0], services[1..];
      var next := CacheStatus(cache, namespace, first, now);
      CacheAllWrites(next, namespace, rest, now, id);
      LastReportCons(services, id.name, id.version);
      KeysInjective(id, IdOf(namespace, first));
    }
  }

  lemma {:induction false} LastReportCons(services: seq<Service>, name: string, version: string)
    requires services != []
    ensures LastReport(services, name, version) ==
            var later := LastReport(services[1..], name, version);
            if later.Some? then later
            else if services[0].name == name && services[0].version == version then Some(services[0])
            else None
  {
    var n := |services| - 1;
    if n > 0 {
      LastReportCons(services[..n], name, version);
      assert services[..n][1..] == services[1..][..n - 1];
      assert services[1..][n - 1] == services[n];
    } else {
      assert services[1..] == [];
    }
  }

  /** After a sync without errors the status of every service that the runtime reported is the
      last report for it in its own namespace; every other status is what it was. */
  lemma {:induction false} SyncTakesLastReports(cache: Table<CacheValue>, namespaces: seq<string>,
                                                reports: map<string, seq<Service>>, now: int, id: ServiceId)
    requires ColonFree(id) && ColonFreeReports(reports)
    requires Text.Distinct(namespaces)
    requires SyncAll(cache, namespaces, reports, now).1
    ensures id.namespace in namespaces ==> id.namespace in reports
    ensures var after := SyncAll(cache, namespaces, reports, now).0;
            CachedStatus(after, id, now) ==
            if id.namespace in namespaces && LastReport(reports[id.namespace], id.name, id.version).Some?
            then Some(ReportedStatus(LastReport(reports[id.namespace], id.name, id.version).value))
            else CachedStatus(cache, id, now)
    decreases |namespaces|
  {
    if namespaces == [] {
    } else {
      var first, rest := namespaces[0], namespaces[1..];
      assert namespaces == [first] + rest;
      var next := CacheAll(cache, first, reports[first], now);
      CacheAllWrites(cache, first, reports[first], now, id);
      SyncTakesLastReports(next.0, rest, reports, now, id);
      assert first !in rest;
    }
  }

  lemma {:induction false} CacheAllKeepsMarkers(cache: Table<CacheValue>, namespace: string, services: seq<Service>,
                                                now: int, key: string)
    requires EVENT_PREFIX <= key
    ensures var after := CacheAll(cache, namespace, services, now).0;
            (key in after <==> key in cache) && (key in cache ==> after[key] == cache[key])
    decreases |services|
  {
    if services == [] || services[0].metadata.None? {
    } else {
      PrefixesDisjoint(key);
      assert STATUS_PREFIX <= StatusKey(IdOf(namespace, services[0]));
      CacheAllKeepsMarkers(CacheStatus(cache, namespace, services[0], now), namespace, services[1..], now, key);
    }
  }

  /** Syncing statuses, completely or not, never touches the markers of consumed events. */
  lemma {:induction false} SyncKeepsMarkers(cache: Table<CacheValue>, namespaces: seq<string>,
                                            reports: map<string, seq<Service>>, now: int, key: string)
    requires EVENT_PREFIX <= key
    ensures var after := SyncAll(cache, namespaces, reports, now).0;
            (key in after <==> key in cache) && (key in cache ==> after[key] == cache[key])
    decreases |namespaces|
  {
    if namespaces == [] || namespaces[0] !in reports {
    } else {
      CacheAllKeepsMarkers(cache, namespaces[0], reports[namespaces[0]], now, key);
      var next := CacheAll(cache, namespaces[0], reports[namespaces[0]], now).0;
      SyncKeepsMarkers(next, namespaces[1..], reports, now, key);
    }
  }

  /** Sync, then read: each stored service comes back with the status and error that the runtime
      last reported for it in that namespace, and with the previous ones if it reported none. */
  lemma ReadAfterSync(table: Table<Value>, cache: Table<CacheValue>, namespaces: seq<string>,
                      reports: map<string, seq<Service>>, now: int, key: string)
    requires WellKeyed(table) && key in table && SERVICE_PREFIX <= key
    requires ColonFreeReports(reports) && NamespaceList(table, now, namespaces)
    requires SyncAll(cache, namespaces, reports, now).1
    ensures var id := RecordId(table[key].value);
            var stored := table[key].value.service;
            var after := SyncAll(cache, namespaces, reports, now).0;
            && id.namespace in reports
            && var last := LastReport(reports[id.namespace], id.name, id.version);
            var shown := Merged(stored, CachedStatus(after, id, now));
            && (last.Some? ==>
                  && last.value.metadata.Some? && shown.metadata.Some?
                  && Lookup(shown.metadata.value, "status") == Lookup(last.value.metadata.value, "status")
                  && Lookup(shown.metadata.value, "error") == Lookup(last.value.metadata.value, "error")
                  && (forall k :: k != "status" && k != "error" ==>
                        Lookup(shown.metadata.value, k) == Lookup(stored.metadata.value, k)))
            && (last.None? ==> shown == Merged(stored, CachedStatus(cache, id, now)))
  {
    var id := RecordId(table[key].value);
    NamespacesOfStored(table, now, id.namespace);
    assert id in StoredIds(table);
    assert key in LiveKeys(table, SERVICE_PREFIX, now);
    SyncTakesLastReports(cache, namespaces, reports, now, id);
    ReportsHaveMetadata(cache, namespaces, reports, now, id);
  }

  lemma {:induction false} AllHaveMetadata(cache: Table<CacheValue>, namespace: string, services: seq<Service>,
                                           now: int, id: ServiceId)
    requires CacheAll(cache, namespace, services, now).1 && LastReport(services, id.name, id.version).Some?
    ensures LastReport(services, id.name, id.version).value.metadata.Some?
    decreases |services|
  {
    if LastReport(services[1..], id.name, id.version).Some? {
      AllHaveMetadata(CacheStatus(cache, namespace, services[0], now), namespace, services[1..], now, id);
    }
    LastReportCons(services, id.name, id.version);
  }

  /** A sync without errors has met no service without metadata. */
  lemma {:induction false} ReportsHaveMetadata(cache: Table<CacheValue>, namespaces: seq<string>,
                                               reports: map<string, seq<Service>>, now: int, id: ServiceId)
    requires SyncAll(cache, namespaces, reports, now).1 && id.namespace in namespaces
    ensures id.namespace in reports
    ensures var last := LastReport(reports[id.namespace], id.name, id.version);
            last.Some? ==> last.value.metadata.Some?
    decreases |namespaces|
  {
    if namespaces[0] == id.namespace {
      if LastReport(reports[id.namespace], id.name, id.version).Some? {
        AllHaveMetadata(cache, namespaces[0], reports[namespaces[0]], now, id);
      }
    } else {
      var next := CacheAll(cache, namespaces[0], reports[namespaces[0]], now).0;
      ReportsHaveMetadata(next, namespaces[1..], reports, now, id);
    }
  }

  /** What processing an event does to the statuses: an accepted create or update shows what the
      event's own metadata says, an accepted delete keeps the last status, a refused event of any
      kind shows the error and the runtime's message to the next read, and the status of no other
      service changes, provided that the two have colon-free parts. */
  lemma StatusAfterProcessing(m: ManagerState, table: Table<Value>, key: string, now: int, failure: Option<string>,
                              id: ServiceId, stored: Service)
    requires EVENT_PREFIX <= key && Attempts(m, table, key, now, true)
    ensures var event := table[key].value.event;
            var own := IdOf(NamespaceOf(event.options), event.service);
            var before := CachedStatus(m.cache, id, now);
            var after := CachedStatus(ProcessEvent(m, table, key, now, true, failure).cache, id, now);
            if id != own then ColonFree(id) && ColonFree(own) ==> after == before
            else if failure.Some? then
              && after == Some(Status("error", failure.value))
              && (stored.metadata.Some? ==>
                    var shown := Merged(stored, after);
                    && Lookup(shown.metadata.value, "status") == "error"
                    && Lookup(shown.metadata.value, "error") == failure.value)
            else if event.kind.Delete? || event.service.metadata.None? then after == before
            else after == Some(ReportedStatus(event.service))
  {
    PrefixesDisjoint(key);
    assert STATUS_PREFIX <= StatusKey(id);
    var own := IdOf(NamespaceOf(table[key].value.event.options), table[key].value.event.service);
    assert STATUS_PREFIX <= StatusKey(own);
    if ColonFree(id) && ColonFree(own) {
      KeysInjective(id, own);
    }
  }

  /** The store is written before an event is published: a published create means that the service
      record is there as the event describes it, a published delete that it is gone, and a call
      that fails has published nothing. */
  lemma StoredBeforePublished(table: Table<Value>, service: Service, options: CreateOptions, id: string, now: int,
                            storeWrite: bool, eventWrite: bool)
    ensures var created := CreateService(table, service, options, id, now, storeWrite, eventWrite);
            && (created.published.Some? <==> storeWrite && eventWrite)
            && (created.published.Some? ==>
                  var e := created.published.value;
                  var key := ServiceKey(IdOf(NamespaceOf(e.options), e.service));
                  && e.kind.Create? && e.options.Some? && e.service.metadata.Some?
                  && key in created.table
                  && created.table[key] == Entry(ServiceRecord(e.service, e.options.value), None)
                  && created.table[EventKey(id)] == Entry(EventRecord(e), Some(now + EVENT_TTL)))
    ensures var deleted := DeleteService(table, service, options.namespace, id, now, storeWrite, eventWrite);
            && (deleted.published.Some? <==> storeWrite && eventWrite)
            && (deleted.published.Some? ==>
                  var e := deleted.published.value;
                  && e.kind.Delete?
                  && ServiceKey(IdOf(NamespaceOf(e.options), e.service)) !in deleted.table
                  && deleted.table[EventKey(id)] == Entry(EventRecord(e), Some(now + EVENT_TTL)))
  {
    PrefixesDisjoint(EventKey(id));
    EventKeyInjective(id, id);
    assert SERVICE_PREFIX <= ServiceKey(IdOf(OrDefault(options.namespace), WithDefaults(service)));
    assert SERVICE_PREFIX <= ServiceKey(IdOf(OrDefault(options.namespace), WithVersion(service)));
  }

  /** Deleting a service with the same arguments undoes its creation: apart from event records the
      store is as before, without the service. Both calls fill in the same namespace and version. */
  lemma DeleteUndoesCreate(table: Table<Value>, service: Service, options: CreateOptions, ids: (string, string),
                           times: (int, int), key: string)
    requires !(EVENT_PREFIX <= key)
    ensures var created := CreateService(table, service, options, ids.0, times.0, true, true).table;
            var deleted := DeleteService(created, service, options.namespace, ids.1, times.1, true, true).table;
            var id := ServiceId(if options.namespace == "" then "go.micro" else options.namespace, service.name,
                                if service.version == "" then "latest" else service.version);
            && ServiceKey(id) in created && created[ServiceKey(id)].deadline.None?
            && (key in deleted <==> key in table && key != ServiceKey(id))
            && (key in deleted ==> deleted[key] == table[key])
  {
    EventKeyInjective(ids.0, ids.1);
    var id := IdOf(OrDefault(options.namespace), WithDefaults(service));
    PrefixesDisjoint(ServiceKey(id));
    assert SERVICE_PREFIX <= ServiceKey(id);
  }
}
