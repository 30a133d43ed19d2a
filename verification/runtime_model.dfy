/** The records of the runtime manager and the grammar of their keys: `event/<id>`,
    `service:<namespace>:<name>:<version>` and `status:<namespace>:<name>:<version>`. */
module RuntimeModel {
  import opened Wrappers
  import opened KeyStore
  import Text

  const DEFAULT_NAMESPACE: string := "go.micro"
  const EVENT_TTL: nat := 10 * MINUTE
  const EVENT_PREFIX: string := "event/"
  const SERVICE_PREFIX: string := "service:"
  const STATUS_PREFIX: string := "status:"

  /** `metadata` is `None` for Go's nil map. */
  datatype Service = Service(name: string, version: string, metadata: Option<map<string, string>>)

  datatype CreateOptions = CreateOptions(namespace: string, image: string, kind: string,
                                         command: seq<string>, args: seq<string>, env: seq<string>)

  datatype EventType = Create | Update | Delete

  datatype Event = Event(id: string, kind: EventType, service: Service, options: Option<CreateOptions>)

  /** What the shared store holds. JSON is lossless, so values stand for their encodings. */
  datatype Value = ServiceRecord(service: Service, options: CreateOptions) | EventRecord(event: Event)

  /** What a manager's own memory cache holds. */
  datatype CacheValue = Consumed | Status(status: string, error: string)

  datatype ServiceId = ServiceId(namespace: string, name: string, version: string)

  function EventKey(id: string): string {
    EVENT_PREFIX + id
  }

  function ServiceKey(id: ServiceId): string {
    SERVICE_PREFIX + id.namespace + ":" + id.name + ":" + id.version
  }

  function StatusKey(id: ServiceId): string {
    STATUS_PREFIX + id.namespace + ":" + id.name + ":" + id.version
  }

  predicate ColonFree(id: ServiceId) {
    ':' !in id.namespace && ':' !in id.name && ':' !in id.version
  }

  /** Options that name no namespace mean the default one. */
  function OrDefault(namespace: string): string {
    if |namespace| == 0 then DEFAULT_NAMESPACE else namespace
  }

  function NamespaceOf(options: Option<CreateOptions>): string {
    if options.Some? then OrDefault(options.value.namespace) else DEFAULT_NAMESPACE
  }

  /** Reading a Go map: a missing key gives the empty string. */
  function Lookup(metadata: map<string, string>, key: string): string {
    if key in metadata then metadata[key] else ""
  }

  /** The prefix that `readServices` looks under: without a name the version is ignored. */
  function ServicesPrefix(namespace: string, name: string, version: string): string {
    SERVICE_PREFIX + namespace + ":" +
    (if |name| > 0 then name + ":" else "") +
    (if |name| > 0 && |version| > 0 then version else "")
  }

  /** A service key splits back into its four parts. */
  lemma ServiceKeySplits(id: ServiceId)
    requires ColonFree(id)
    ensures Text.Split(ServiceKey(id), ':') == ["service", id.namespace, id.name, id.version]
  {
    assert ServiceKey(id) == "service" + [':'] + id.namespace + [':'] + id.name + [':'] + id.version;
    Text.SplitFour("service", id.namespace, id.name, id.version, ':');
  }

  lemma StatusKeySplits(id: ServiceId)
    requires ColonFree(id)
    ensures Text.Split(StatusKey(id), ':') == ["status", id.namespace, id.name, id.version]
  {
    assert StatusKey(id) == "status" + [':'] + id.namespace + [':'] + id.name + [':'] + id.version;
    Text.SplitFour("status", id.namespace, id.name, id.version, ':');
  }

  /** Different services have different service keys and different status keys. */
  lemma KeysInjective(a: ServiceId, b: ServiceId)
    requires ColonFree(a) && ColonFree(b)
    ensures ServiceKey(a) == ServiceKey(b) <==> a == b
    ensures StatusKey(a) == StatusKey(b) <==> a == b
  {
    ServiceKeySplits(a);
    ServiceKeySplits(b);
    StatusKeySplits(a);
    StatusKeySplits(b);
  }

  /** The three kinds of key never collide, whatever their components are. */
  lemma PrefixesDisjoint(key: string)
    ensures !(EVENT_PREFIX <= key && SERVICE_PREFIX <= key)
    ensures !(EVENT_PREFIX <= key && STATUS_PREFIX <= key)
  {
    if EVENT_PREFIX <= key {
      assert key[0] == EVENT_PREFIX[0] == 'e';
    }
    if SERVICE_PREFIX <= key {
      assert key[0] == SERVICE_PREFIX[0] == 's';
    }
    if STATUS_PREFIX <= key {
      assert key[0] == STATUS_PREFIX[0] == 's';
    }
  }

  lemma EventKeyInjective(a: string, b: string)
    ensures EVENT_PREFIX <= EventKey(a)
    ensures EventKey(a) == EventKey(b) <==> a == b
  {
    assert EventKey(a)[|EVENT_PREFIX|..] == a;
    assert EventKey(b)[|EVENT_PREFIX|..] == b;
  }

  /** Which service keys lie under the prefix that `readServices` builds: the services of that
      namespace, of that name if one is given, and whose version STARTS WITH the given version. */
  lemma ServicesPrefixMeaning(namespace: string, name: string, version: string, id: ServiceId)
    requires ':' !in namespace && ':' !in name && ':' !in version && ColonFree(id)
    ensures ServicesPrefix(namespace, name, version) <= ServiceKey(id)
            <==> id.namespace == namespace && (|name| > 0 ==> id.name == name && version <= id.version)
  {
    var nameTail := id.name + [':'] + id.version;
    var tail := id.namespace + [':'] + nameTail;
    assert ServiceKey(id) == SERVICE_PREFIX + tail;
    if |name| == 0 {
      assert ServicesPrefix(namespace, name, version) == SERVICE_PREFIX + (namespace + [':']);
      Text.SharedFront(SERVICE_PREFIX, namespace + [':'], tail);
      Text.ComponentPrefix(namespace, id.namespace, nameTail, ':');
    } else {
      var front := namespace + [':'];
      var rest := name + [':'] + version;
      assert ServicesPrefix(namespace, name, version) == SERVICE_PREFIX + (front + rest);
      Text.SharedFront(SERVICE_PREFIX, front + rest, tail);
      Text.ComponentPrefix(namespace, id.namespace, nameTail, ':');
      if namespace == id.namespace {
        Text.SharedFront(front, rest, nameTail);
        Text.ComponentPrefix(name, id.name, id.version, ':');
        if name == id.name {
          Text.SharedFront(name + [':'], version, id.version);
        } else {
          assert rest <= nameTail ==> name + [':'] <= nameTail;
        }
      } else {
        assert front + rest <= tail ==> front <= tail;
      }
    }
  }

  /** Which status keys `listStatuses` finds for a namespace. */
  lemma StatusPrefixMeaning(namespace: string, id: ServiceId)
    requires ':' !in namespace && ColonFree(id)
    ensures STATUS_PREFIX + namespace + ":" <= StatusKey(id) <==> id.namespace == namespace
  {
    var rest := id.name + [':'] + id.version;
    assert StatusKey(id) == STATUS_PREFIX + (id.namespace + [':'] + rest);
    assert STATUS_PREFIX + namespace + ":" == STATUS_PREFIX + (namespace + [':']);
    Text.SharedFront(STATUS_PREFIX, namespace + [':'], id.namespace + [':'] + rest);
    Text.ComponentPrefix(namespace, id.namespace, rest, ':');
  }
}
