/** From a request to what the runtime is handed, what is stored and what is read back, in the words of
    the request: every field of a request arrives in its own place, and the defaults are filled in. */
module ManagerRequests {
  import opened Wrappers
  import opened KeyStore
  import opened RuntimeModel
  import opened ManagerSpec
  import opened ManagerReads
  import opened ManagerProtocol
  import opened ManagerDelivery
  import opened ManagerConvergence
  import RuntimeManager

  function Given(value: string, default: string): string {
    if value == "" then default else value
  }

  function GivenMap(metadata: Option<map<string, string>>): map<string, string> {
    match metadata
    case None => map[]
    case Some(m) => m
  }

  lemma PublishedStays(steps: seq<Step>, n: nat)
    requires ValidRun(steps) && n < |steps| && PublishedBy(steps[n]).Some?
    ensures PublishedBy(steps[n]).value in Run(steps).published
  {
    PrefixIsRun(steps, n + 1);
    var early := steps[..n + 1];
    assert early[n] == steps[n];
    PublishedLast(early, PublishedBy(steps[n]).value);
    PublishedGrows(steps, n + 1, PublishedBy(steps[n]).value);
  }

  lemma PublishedLast(steps: seq<Step>, e: Event)
    requires ValidRun(steps) && steps != [] && PublishedBy(steps[|steps| - 1]) == Some(e)
    ensures e in Run(steps).published
  {
    StepPublishes(Run(steps[..|steps| - 1]), steps[|steps| - 1]);
  }

  /** A call under the key of a published event hands over that event. */
  lemma CallIsOfEvent(steps: seq<Step>, n: nat, m: nat, c: Call)
    requires ValidRun(steps) && n < |steps| && PublishedBy(steps[n]).Some?
    requires m < |Run(steps).managers| && c in Run(steps).managers[m].calls
    requires c.key == EventKey(PublishedBy(steps[n]).value.id)
    ensures c == CallFor(c.key, PublishedBy(steps[n]).value, c.failure)
  {
    RunKeepsInv(steps);
    PublishedStays(steps, n);
    var s, e := Run(steps), PublishedBy(steps[n]).value;
    assert CallOf(s.published, c);
    var e' :| e' in s.published && c == CallFor(EventKey(e'.id), e', c.failure);
    SameKeySameEvent(s, e, e');
  }

  /** What the runtime is asked to create, in every run: the call that a manager makes for a published
      create request has the request's service and options, each in its own place. */
  lemma CreateIsHandedOver(steps: seq<Step>, n: nat, m: nat, c: Call)
    requires ValidRun(steps) && n < |steps| && steps[n].RequestCreate? && steps[n].serviceWrite && steps[n].eventWrite
    requires m < |Run(steps).managers| && c in Run(steps).managers[m].calls && c.key == "event/" + steps[n].id
    ensures var service, options := steps[n].service, steps[n].options;
            && c.kind == EventType.Create
            && c.namespace == Given(options.namespace, "go.micro")
            && c.service.name == service.name
            && c.service.version == Given(service.version, "latest")
            && c.service.metadata == Some(GivenMap(service.metadata))
            && c.launch.Some?
            && c.launch.value.image == options.image
            && c.launch.value.kind == options.kind
            && c.launch.value.command == options.command
            && c.launch.value.args == options.args
            && c.launch.value.env == options.env
            && c.launch.value.namespace == c.namespace
  {
    CallIsOfEvent(steps, n, m, c);
  }

  /** Updates pass on the service and its namespace, and nothing to launch. */
  lemma UpdateIsHandedOver(steps: seq<Step>, n: nat, m: nat, c: Call)
    requires ValidRun(steps) && n < |steps| && steps[n].RequestUpdate? && steps[n].eventWrite
    requires m < |Run(steps).managers| && c in Run(steps).managers[m].calls && c.key == "event/" + steps[n].id
    ensures c.kind == EventType.Update && c.launch == None
    ensures c.namespace == Given(steps[n].namespace, "go.micro")
    ensures c.service
            == Service(steps[n].service.name, Given(steps[n].service.version, "latest"), steps[n].service.metadata)
  {
    CallIsOfEvent(steps, n, m, c);
  }

  lemma DeleteIsHandedOver(steps: seq<Step>, n: nat, m: nat, c: Call)
    requires ValidRun(steps) && n < |steps| && steps[n].RequestDelete? && steps[n].serviceDelete && steps[n].eventWrite
    requires m < |Run(steps).managers| && c in Run(steps).managers[m].calls && c.key == "event/" + steps[n].id
    ensures c.kind == EventType.Delete && c.launch == None
    ensures c.namespace == Given(steps[n].namespace, "go.micro")
    ensures c.service
            == Service(steps[n].service.name, Given(steps[n].service.version, "latest"), steps[n].service.metadata)
  {
    CallIsOfEvent(steps, n, m, c);
  }

  /** The answer noted with a call is the runtime's answer at the turn that made it. */
  lemma {:induction false} AnswerOfTurn(steps: seq<Step>, m: nat, c: Call) returns (i: nat)
    requires ValidRun(steps) && m < |Run(steps).managers| && c in Run(steps).managers[m].calls
    ensures TurnAt(steps, i, m, c.key) && steps[i].failure == c.failure
  {
    var front, last := steps[..|steps| - 1], steps[|steps| - 1];
    var before := Run(front);
    if m < |before.managers| && c in before.managers[m].calls {
      i := AnswerOfTurn(front, m, c);
      assert front[..i] == steps[..i];
    } else {
      i := |front|;
      NewCall(before, last, m, c);
    }
  }

  lemma NewCall(s: System, step: Step, m: nat, c: Call)
    requires Enabled(s, step) && m < |Next(s, step).managers| && c in Next(s, step).managers[m].calls
    requires m < |s.managers| ==> c !in s.managers[m].calls
    ensures step.Process? && step.m == m && step.key == c.key && step.failure == c.failure
    ensures step.storeUp && Live(s.table, c.key, s.now)
  {
  }

  function RequestedKey(service: Service, options: CreateOptions): string {
    "service:" + Given(options.namespace, "go.micro") + ":" + service.name + ":" + Given(service.version, "latest")
  }

  /** What is stored for a create request, in the words of the request, whether or not its event is
      published afterwards. */
  ghost predicate StoredAsRequested(table: Table<Value>, service: Service, options: CreateOptions) {
    var namespace, version := Given(options.namespace, "go.micro"), Given(service.version, "latest");
    var key := RequestedKey(service, options);
    && key in table && table[key].deadline.None?
    && table[key].value.ServiceRecord?
    && table[key].value.service == Service(service.name, version, Some(GivenMap(service.metadata)))
    && var o := table[key].value.options;
    && o.namespace == namespace && o.image == options.image && o.kind == options.kind
    && o.command == options.command && o.args == options.args && o.env == options.env
  }

  lemma CreateStores(table: Table<Value>, service: Service, options: CreateOptions, id: string, now: int,
                     eventWrite: bool)
    ensures StoredAsRequested(CreateService(table, service, options, id, now, true, eventWrite).table, service, options)
  {
    var sid := IdOf(OrDefault(options.namespace), WithDefaults(service));
    ServiceKeyIsNoEvent(sid);
    EventKeyInjective(id, id);
    assert ServiceKey(sid) == RequestedKey(service, options);
  }

  /** A step that does not write a service's record leaves it as it is. */
  lemma StepKeepsService(s: System, step: Step, id: ServiceId)
    requires Enabled(s, step) && ServiceKey(id) in s.table && s.table[ServiceKey(id)].deadline.None?
    requires StoreOp(step).Some? ==> ServiceKey(StoreOp(step).value.id) != ServiceKey(id)
    ensures ServiceKey(id) in Next(s, step).table && Next(s, step).table[ServiceKey(id)] == s.table[ServiceKey(id)]
  {
    ServiceKeyIsNoEvent(id);
    match step {
      case RequestCreate(_, _, event, _, _) => EventKeyInjective(event, event);
      case RequestUpdate(_, _, event, _) => EventKeyInjective(event, event);
      case RequestDelete(_, _, event, _, _) => EventKeyInjective(event, event);
      case _ =>
    }
  }

  /** No successful create or delete after step `n` has written the same key. */
  predicate LastWrite(steps: seq<Step>, n: nat)
    requires n < |steps| && steps[n].RequestCreate?
  {
    forall i :: n < i < |steps| && StoreOp(steps[i]).Some? ==>
      ServiceKey(StoreOp(steps[i]).value.id) != RequestedKey(steps[n].service, steps[n].options)
  }

  lemma {:induction false} StaysAsRequested(steps: seq<Step>, n: nat)
    requires ValidRun(steps) && n < |steps| && steps[n].RequestCreate? && steps[n].serviceWrite && LastWrite(steps, n)
    ensures StoredAsRequested(Run(steps).table, steps[n].service, steps[n].options)
    decreases |steps|
  {
    var front, last := steps[..|steps| - 1], steps[|steps| - 1];
    if n == |front| {
      CreateStores(Run(front).table, last.service, last.options, last.id, Run(front).now, last.eventWrite);
    } else {
      assert front[n] == steps[n] && forall i :: 0 <= i < |front| ==> front[i] == steps[i];
      StaysAsRequested(front, n);
      StepKeepsService(Run(front), last, StoreOp(steps[n]).value.id);
    }
  }

  /** From a create request to a read, in every run: as long as no later create or delete has written
      the same key, every listing that covers it returns the service with the requested name, version
      and metadata. A cached status adds its two entries and changes no other. */
  lemma CreatedIsRead(steps: seq<Step>, n: nat, prefix: string, keys: seq<string>, stored: seq<Service>)
    requires ValidRun(steps) && n < |steps| && steps[n].RequestCreate? && steps[n].serviceWrite && LastWrite(steps, n)
    requires prefix <= RequestedKey(steps[n].service, steps[n].options)
    requires Lists(Run(steps).table, prefix, Run(steps).now, keys)
    requires RuntimeManager.StoredUnder(Run(steps).table, keys, stored)
    ensures exists i :: 0 <= i < |stored| && ReadsAs(stored[i], steps[n].service)
  {
    StaysAsRequested(steps, n);
    var key := RequestedKey(steps[n].service, steps[n].options);
    assert key in keys;
    var i :| 0 <= i < |keys| && keys[i] == key;
    assert ReadsAs(stored[i], steps[n].service);
  }

  /** How a stored service is shown: as requested, with the status that is cached for it, if any. */
  ghost predicate ReadsAs(stored: Service, requested: Service) {
    var version, metadata := Given(requested.version, "latest"), GivenMap(requested.metadata);
    && Merged(stored, None) == Service(requested.name, version, Some(metadata))
    && forall status, error ::
         Merged(stored, Some(Status(status, error)))
         == Service(requested.name, version, Some(metadata["status" := status]["error" := error]))
  }

  /** What is listed as namespaces on a store that `Create` has filled: those of the stored services,
      each once, and the default one if nothing is stored. */
  lemma ListedNamespaces(table: Table<Value>, now: int, list: seq<string>, namespace: string)
    requires WellKeyed(table) && NamespaceList(table, now, list)
    ensures StoredIds(table) == {} ==> list == ["go.micro"]
    ensures StoredIds(table) != {} ==>
              && (namespace in list <==> exists id :: id in StoredIds(table) && id.namespace == namespace)
              && forall i, j :: 0 <= i < j < |list| ==> list[i] != list[j]
  {
    NamespacesOfStored(table, now, namespace);
  }

  /** A sync that fails keeps what it has written, and goes no further: at a namespace for which the
      runtime gives no answer. */
  lemma {:induction false} SyncStopsAtNamespace(cache: Table<CacheValue>, before: seq<string>, failing: string,
                                                rest: seq<string>, reports: map<string, seq<Service>>, now: int)
    requires SyncAll(cache, before, reports, now).1 && failing !in reports
    ensures SyncAll(cache, before + [failing] + rest, reports, now) == (SyncAll(cache, before, reports, now).0, false)
    decreases |before|
  {
    if before == [] {
      assert (before + [failing] + rest)[0] == failing;
    } else {
      var next := CacheAll(cache, before[0], reports[before[0]], now).0;
      assert (before + [failing] + rest)[1..] == before[1..] + [failing] + rest;
      SyncStopsAtNamespace(next, before[1..], failing, rest, reports, now);
    }
  }

  /** And at a service without metadata. */
  lemma {:induction false} SyncStopsAtService(cache: Table<CacheValue>, namespace: string, before: seq<Service>,
                                              failing: Service, rest: seq<Service>, now: int)
    requires CacheAll(cache, namespace, before, now).1 && failing.metadata.None?
    ensures CacheAll(cache, namespace, before + [failing] + rest, now)
            == (CacheAll(cache, namespace, before, now).0, false)
    decreases |before|
  {
    if before == [] {
      assert (before + [failing] + rest)[0] == failing;
    } else {
      assert (before + [failing] + rest)[1..] == before[1..] + [failing] + rest;
      SyncStopsAtService(CacheStatus(cache, namespace, before[0], now), namespace, before[1..], failing, rest, now);
    }
  }

  /** The times of the turns of a polling pass do not go back. */
  predicate TurnsInOrder(now: int, count: nat, turn: nat -> Turn) {
    && (forall i :: 0 <= i < count ==> now <= turn(i).now)
    && (forall i, j :: 0 <= i < j < count ==> turn(i).now <= turn(j).now)
  }

  /** One polling pass of a manager, as a part of a run: it hands over, exactly once, every listed event
      that can still be read at its turn. */
  lemma {:induction false} PollHandsOverAll(steps: seq<Step>, m: nat, keys: seq<string>, turn: nat -> Turn)
    returns (longer: seq<Step>)
    requires ValidRun(steps) && m < |Run(steps).managers|
    requires forall k :: k in keys ==> EVENT_PREFIX <= k
    requires TurnsInOrder(Run(steps).now, |keys|, turn)
    ensures ValidRun(longer) && |Run(longer).managers| == |Run(steps).managers|
    ensures Run(longer).now == if keys == [] then Run(steps).now else turn(|keys| - 1).now
    ensures Run(longer).table == Run(steps).table
    ensures Run(longer).managers[m] == ProcessAll(Run(steps).managers[m], Run(steps).table, keys, turn)
    ensures forall i :: 0 <= i < |keys| && turn(i).storeUp && Live(Run(steps).table, keys[i], turn(i).now) ==>
              Count(Run(longer).managers[m].calls, keys[i]) == 1
  {
    if keys == [] {
      longer := steps;
    } else {
      var front, n := keys[..|keys| - 1], |keys| - 1;
      assert forall k :: k in front ==> k in keys;
      var before := PollHandsOverAll(steps, m, front, turn);
      assert keys[n] in keys;
      longer := TurnOf(before, m, keys[n], turn(n));
      forall i | 0 <= i < n && turn(i).storeUp && Live(Run(steps).table, keys[i], turn(i).now)
        ensures Count(Run(longer).managers[m].calls, keys[i]) == 1
      {
        assert keys[i] == front[i];
        StaysHandedOver(before, longer, m, keys[i]);
      }
    }
  }

  lemma StaysHandedOver(steps: seq<Step>, longer: seq<Step>, m: nat, key: string)
    requires ValidRun(steps) && ValidRun(longer) && steps <= longer
    requires m < |Run(steps).managers| && Count(Run(steps).managers[m].calls, key) == 1
    ensures m < |Run(longer).managers| && Count(Run(longer).managers[m].calls, key) == 1
  {
    assert longer[..|steps|] == steps;
    RunCallsOnlyGrow(longer, |steps|, m, key);
    AtMostOnce(longer, m, key);
  }

  lemma TurnOf(steps: seq<Step>, m: nat, key: string, turn: Turn) returns (longer: seq<Step>)
    requires ValidRun(steps) && m < |Run(steps).managers| && EVENT_PREFIX <= key && Run(steps).now <= turn.now
    ensures steps <= longer && ValidRun(longer)
    ensures var s := Run(steps);
            var after := ProcessEvent(s.managers[m], s.table, key, turn.now, turn.storeUp, turn.failure);
            Run(longer) == s.(now := turn.now, managers := s.managers[m := after])
    ensures turn.storeUp && Live(Run(steps).table, key, turn.now) ==> Count(Run(longer).managers[m].calls, key) == 1
  {
    var ticked := steps + [Tick(turn.now - Run(steps).now)];
    var s := Extend(steps, Tick(turn.now - Run(steps).now));
    var s' := Extend(ticked, Process(m, key, turn.storeUp, turn.failure));
    longer := ticked + [Process(m, key, turn.storeUp, turn.failure)];
    RunKeepsInv(ticked);
    ProcessKeepsManager(s, s.managers[m], key, turn.storeUp, turn.failure);
  }
}
