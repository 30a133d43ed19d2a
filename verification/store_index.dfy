/** The store handler's index of databases and tables: every pair that a request resolves to is
    recorded once in the internal table `micro/internal`, and listed from there. */
module StoreIndex {
  import opened Wrappers
  import Text

  type Pair = (string, string)

  /** What `get` reads from its context: the namespace and the two legacy metadata values. */
  datatype Context = Context(namespace: string, database: string, table: string)

  datatype Options = Options(database: string, table: string)

  function DatabaseKey(p: Pair): string {
    "databases/" + p.0
  }

  function TableKey(p: Pair): string {
    "tables/" + p.0 + "/" + p.1
  }

  function StoresKey(p: Pair): string {
    p.0 + ":" + p.1
  }

  /** The database and table that a request resolves to. */
  function Resolve(ctx: Context, database: string, table: string, defaults: Options): Pair {
    var ns := if ctx.namespace == "go.micro" then "micro" else ctx.namespace;
    var db := if |ns| > 0 then ns else if |ctx.database| > 0 then ctx.database else database;
    var tb := if |ctx.table| > 0 then ctx.table else table;
    (if |db| > 0 then db else defaults.database, if |tb| > 0 then tb else defaults.table)
  }

  /** The early return: neither a database nor a table is known. */
  predicate Unspecified(p: Pair) {
    |p.0| == 0 && |p.1| == 0
  }

  /** The handler's state: the pairs it has seen, the keys in the internal table, and the pairs for
      which `New` has been called, in order. */
  datatype State = State(stores: set<string>, internal: set<string>, created: seq<Pair>)

  /** Which of the two writes of `New` succeed; the second is not tried when the first fails. */
  datatype Writes = Writes(database: bool, table: bool)

  function NewKeys(p: Pair, w: Writes): set<string> {
    (if w.database then {DatabaseKey(p)} else {}) + (if w.database && w.table then {TableKey(p)} else {})
  }

  /** `get` after resolving, and the `New` closure of the store service. A failing `New` is ignored,
      and never tried again for the pair. */
  function Touch(s: State, p: Pair, w: Writes): State {
    if Unspecified(p) then s
    else if StoresKey(p) in s.stores then s
    else State(s.stores + {StoresKey(p)}, s.internal + NewKeys(p, w), s.created + [p])
  }

  /** A request as it resolves, and what happens to the writes if it calls `New`. */
  datatype Request = Request(pair: Pair, writes: Writes)

  /** The state after a sequence of requests, from an empty internal table. */
  function Run(requests: seq<Request>): State {
    if requests == [] then State({}, {}, [])
    else
      var last := requests[|requests| - 1];
      Touch(Run(requests[..|requests| - 1]), last.pair, last.writes)
  }

  class Handler {
    const defaults: Options
    var stores: map<string, bool>
    var internal: set<string>
    ghost var created: seq<Pair>

    constructor (defaults: Options)
      ensures this.defaults == defaults && Abstract() == Run([])
    {
      this.defaults := defaults;
      stores, internal, created := map[], {}, [];
    }

    ghost function Abstract(): State
      reads this
    {
      State(stores.Keys, internal, created)
    }

    /** The `New` closure: two writes to the internal table. */
    method New(database: string, table: string, writes: Writes) returns (ok: bool)
      modifies this`internal, this`created
      ensures internal == old(internal) + NewKeys((database, table), writes)
      ensures created == old(created) + [(database, table)]
      ensures ok <==> writes.database && writes.table
    {
      created := created + [(database, table)];
      if !writes.database {
        return false;
      }
      internal := internal + {"databases/" + database};
      if !writes.table {
        return false;
      }
      internal := internal + {"tables/" + database + "/" + table};
      return true;
    }

    method Get(ctx: Context, database: string, table: string, writes: Writes) returns (r: Pair)
      modifies this
      ensures Abstract() == Touch(old(Abstract()), Resolve(ctx, database, table, defaults), writes)
      ensures r == if Unspecified(Resolve(ctx, database, table, defaults)) then ("micro", "store")
                   else Resolve(ctx, database, table, defaults)
      // a namespace alone decides on the database
      ensures |ctx.namespace| > 0 ==> r.0 == (if ctx.namespace == "go.micro" then "micro" else ctx.namespace)
    {
      var db, tb := database, table;
      var ns := ctx.namespace;
      if ns == "go.micro" {
        ns := "micro";
      }
      if |ctx.database| > 0 {
        db := ctx.database;
      }
      if |ctx.table| > 0 {
        tb := ctx.table;
      }
      if |ns| > 0 {
        db := ns;
      }
      if |db| == 0 {
        db := defaults.database;
      }
      if |tb| == 0 {
        tb := defaults.table;
      }
      if |db| == 0 && |tb| == 0 {
        return ("micro", "store");
      }
      if db + ":" + tb !in stores {
        var _ := New(db, tb, writes);
      }
      stores := stores[db + ":" + tb := true];
      assert stores.Keys == old(stores.Keys) + {StoresKey((db, tb))};
      return (db, tb);
    }

    /** `Databases` and `Tables`: the keys under a prefix, in some order, with the prefix cut off. */
    method ListUnder(prefix: string) returns (names: seq<string>)
      ensures Text.Distinct(names)
      ensures forall n :: n in names <==> prefix + n in internal
    {
      names := [];
      var left := internal;
      while left != {}
        invariant left <= internal
        invariant Text.Distinct(names)
        invariant forall n :: n in names <==> prefix + n in internal - left
        decreases left
      {
        var k :| k in left;
        left := left - {k};
        if prefix <= k {
          var name := Text.TrimPrefix(k, prefix);
          assert prefix + name == k;
          Text.DistinctAppend(names, name);
          names := names + [name];
          forall n ensures n in names <==> prefix + n in internal - left {
            assert (prefix + n)[|prefix|..] == n;
          }
        }
      }
    }

    /** `up` is false when the internal table cannot be read. */
    method Databases(up: bool) returns (r: Result<seq<string>>)
      ensures r.Success? <==> up
      ensures up ==> Text.Distinct(r.value) && forall n :: n in r.value <==> "databases/" + n in internal
    {
      if !up {
        return Failure("store");
      }
      var names := ListUnder("databases/");
      return Success(names);
    }

    method Tables(database: string, up: bool) returns (r: Result<seq<string>>)
      ensures r.Success? <==> up
      ensures up ==> Text.Distinct(r.value) && forall n :: n in r.value <==> "tables/" + database + "/" + n in internal
    {
      if !up {
        return Failure("store");
      }
      var names := ListUnder("tables/" + database + "/");
      return Success(names);
    }
  }

  /** Database names without slash and colon, as the two key formats need. */
  predicate Plain(requests: seq<Request>) {
    forall q :: q in requests ==> '/' !in q.pair.0 && ':' !in q.pair.0
  }

  /** Where a value comes from: the first of these that is given. */
  predicate FirstGiven(value: string, choices: seq<string>) {
    if choices == [] then value == ""
    else if choices[0] != "" then value == choices[0]
    else FirstGiven(value, choices[1..])
  }

  /** The namespace decides on the database before the metadata, the metadata before the request, and
      the request before the default; a namespace never decides on the table. */
  lemma ResolvedInOrder(ctx: Context, database: string, table: string, defaults: Options)
    ensures var p := Resolve(ctx, database, table, defaults);
            var namespace := if ctx.namespace == "go.micro" then "micro" else ctx.namespace;
            && FirstGiven(p.0, [namespace, ctx.database, database, defaults.database])
            && FirstGiven(p.1, [ctx.table, table, defaults.table])
            && (Unspecified(p) <==> p == ("", ""))
  {
    var namespace := if ctx.namespace == "go.micro" then "micro" else ctx.namespace;
    FirstOfThree(Resolve(ctx, database, table, defaults).1, ctx.table, table, defaults.table);
    FirstOfThree(Resolve(ctx, database, table, defaults).0, ctx.database, database, defaults.database);
    assert [namespace, ctx.database, database, defaults.database][1..] == [ctx.database, database, defaults.database];
  }

  lemma FirstOfThree(value: string, a: string, b: string, c: string)
    ensures FirstGiven(value, [a, b, c]) <==> value == if a != "" then a else if b != "" then b else c
  {
    assert [a, b, c][1..] == [b, c] && [b, c][1..] == [c] && [c][1..] == [];
    assert FirstGiven(value, []) <==> value == "";
    assert FirstGiven(value, [c]) <==> value == c;
  }

  lemma StoresKeyInjective(p: Pair, q: Pair)
    requires ':' !in p.0 && ':' !in q.0
    ensures StoresKey(p) == StoresKey(q) <==> p == q
  {
    if StoresKey(p) == StoresKey(q) {
      Text.CutAtFirst(p.0, q.0, p.1, q.1, ':');
    }
  }

  lemma IndexKeys(p: Pair, q: Pair)
    requires '/' !in p.0 && '/' !in q.0
    ensures DatabaseKey(p) == DatabaseKey(q) <==> p.0 == q.0
    ensures TableKey(p) == TableKey(q) <==> p == q
    ensures DatabaseKey(p) != TableKey(q)
  {
    assert DatabaseKey(p)[0] == 'd' && TableKey(q)[0] == 't';
    assert DatabaseKey(p)[10..] == p.0 && DatabaseKey(q)[10..] == q.0;
    if TableKey(p) == TableKey(q) {
      assert TableKey(p)[7..] == p.0 + ['/'] + p.1 && TableKey(q)[7..] == q.0 + ['/'] + q.1;
      Text.CutAtFirst(p.0, q.0, p.1, q.1, '/');
    }
  }

  /** What happened to the writes at the FIRST request for a pair. Requests that resolve to nothing
      register nothing. */
  function FirstWrites(requests: seq<Request>, p: Pair): Option<Writes> {
    if requests == [] || Unspecified(p) then None
    else
      var front, last := requests[..|requests| - 1], requests[|requests| - 1];
      if FirstWrites(front, p).Some? then FirstWrites(front, p)
      else if last.pair == p then Some(last.writes)
      else None
  }

  predicate TableRecorded(requests: seq<Request>, p: Pair) {
    var w := FirstWrites(requests, p);
    w.Some? && w.value.database && w.value.table
  }

  ghost predicate DatabaseRecorded(requests: seq<Request>, database: string) {
    exists p :: FirstWrites(requests, p).Some? && FirstWrites(requests, p).value.database && p.0 == database
  }

  /** The index, key by key. */
  lemma {:induction false} IndexAgrees(requests: seq<Request>, p: Pair)
    requires Plain(requests) && '/' !in p.0 && ':' !in p.0
    ensures StoresKey(p) in Run(requests).stores <==> FirstWrites(requests, p).Some?
    ensures TableKey(p) in Run(requests).internal <==> TableRecorded(requests, p)
    ensures p in Run(requests).created <==> FirstWrites(requests, p).Some?
  {
    if requests == [] {
    } else {
      var front, last := requests[..|requests| - 1], requests[|requests| - 1];
      assert last in requests && forall q :: q in front ==> q in requests;
      IndexAgrees(front, p);
      IndexAgrees(front, last.pair);
      StoresKeyInjective(p, last.pair);
      IndexKeys(p, last.pair);
      IndexKeys(last.pair, p);
    }
  }

  lemma {:induction false} DatabaseIndexAgrees(requests: seq<Request>, database: string)
    requires Plain(requests) && '/' !in database && ':' !in database
    ensures "databases/" + database in Run(requests).internal <==> DatabaseRecorded(requests, database)
  {
    if requests == [] {
    } else {
      var front, last := requests[..|requests| - 1], requests[|requests| - 1];
      var p := (database, "");
      assert last in requests && forall q :: q in front ==> q in requests;
      DatabaseIndexAgrees(front, database);
      IndexAgrees(front, last.pair);
      IndexKeys(p, last.pair);
      IndexKeys(last.pair, p);
      assert DatabaseKey(p) == "databases/" + database;
      if DatabaseRecorded(front, database) {
        var q :| FirstWrites(front, q).Some? && FirstWrites(front, q).value.database && q.0 == database;
        assert FirstWrites(requests, q) == FirstWrites(front, q);
      }
      var first := FirstWrites(requests, last.pair);
      if first.Some? && first.value.database && last.pair.0 == database {
        assert DatabaseRecorded(requests, database);
      }
      if DatabaseRecorded(requests, database) {
        var q :| FirstWrites(requests, q).Some? && FirstWrites(requests, q).value.database && q.0 == database;
        if FirstWrites(front, q).Some? {
          assert DatabaseRecorded(front, database);
        }
      }
    }
  }

  /** `Databases` and `Tables` list a database or a table exactly when the writes of `New` succeeded
      at its first request. With writes that always succeed these are exactly the databases and
      tables that some request has resolved to. */
  lemma ListingsAreExact(requests: seq<Request>, databases: seq<string>, tables: seq<string>, database: string,
                         table: string)
    requires Plain(requests) && '/' !in database && ':' !in database
    requires forall n :: n in databases <==> "databases/" + n in Run(requests).internal
    requires forall n :: n in tables <==> "tables/" + database + "/" + n in Run(requests).internal
    ensures database in databases <==> DatabaseRecorded(requests, database)
    ensures table in tables <==> TableRecorded(requests, (database, table))
    ensures (forall q :: q in requests ==> q.writes == Writes(true, true)) ==>
              && (table in tables <==> Requested(requests, (database, table)))
              && (database in databases <==> exists t :: Requested(requests, (database, t)))
  {
    IndexAgrees(requests, (database, table));
    DatabaseIndexAgrees(requests, database);
    assert TableKey((database, table)) == "tables/" + database + "/" + table;
    if forall q :: q in requests ==> q.writes == Writes(true, true) {
      forall t: string
        ensures TableRecorded(requests, (database, t)) <==> Requested(requests, (database, t))
        ensures FirstWrites(requests, (database, t)).Some? ==> FirstWrites(requests, (database, t)).value.database
      {
        AllWritesSucceed(requests, (database, t));
      }
      if DatabaseRecorded(requests, database) {
        var p :| FirstWrites(requests, p).Some? && FirstWrites(requests, p).value.database && p.0 == database;
        AllWritesSucceed(requests, p);
        assert p == (database, p.1);
      }
      if t :| Requested(requests, (database, t)) {
        assert TableRecorded(requests, (database, t));
      }
    }
  }

  /** Some request resolved to the pair, and the pair names something. */
  ghost predicate Requested(requests: seq<Request>, p: Pair) {
    !Unspecified(p) && exists q :: q in requests && q.pair == p
  }

  lemma {:induction false} AllWritesSucceed(requests: seq<Request>, p: Pair)
    requires forall q :: q in requests ==> q.writes == Writes(true, true)
    ensures FirstWrites(requests, p).Some? ==> FirstWrites(requests, p).value == Writes(true, true)
    ensures FirstWrites(requests, p).Some? <==> Requested(requests, p)
  {
    if requests == [] {
    } else {
      var front, last := requests[..|requests| - 1], requests[|requests| - 1];
      assert requests == front + [last];
      assert last in requests;
      AllWritesSucceed(front, p);
    }
  }

  /** `New` runs at most once for each pair, whether or not it succeeds. */
  lemma {:induction false} NewAtMostOnce(requests: seq<Request>)
    requires Plain(requests)
    ensures Text.Distinct(Run(requests).created)
  {
    if requests == [] {
    } else {
      var front, last := requests[..|requests| - 1], requests[|requests| - 1];
      assert last in requests && forall q :: q in front ==> q in requests;
      NewAtMostOnce(front);
      IndexAgrees(front, last.pair);
    }
  }

  const FAILED_FIRST: seq<Request> :=
    [Request(("d", "t"), Writes(false, true)), Request(("d", "t"), Writes(true, true))]

  /** A failed `New` is not made up for: the second request, whose writes would succeed, writes
      nothing, and the pair stays unlisted. */
  lemma FailedNewIsNotRepeated()
    ensures Run(FAILED_FIRST) == State({StoresKey(("d", "t"))}, {}, [("d", "t")])
    ensures Requested(FAILED_FIRST, ("d", "t"))
    ensures !TableRecorded(FAILED_FIRST, ("d", "t")) && !DatabaseRecorded(FAILED_FIRST, "d")
  {
    var first := FAILED_FIRST[..1];
    assert first == [FAILED_FIRST[0]] && first[..0] == [];
    assert Run(first) == State({StoresKey(("d", "t"))}, {}, [("d", "t")]);
    assert FAILED_FIRST[0] in FAILED_FIRST;
    assert Plain(FAILED_FIRST);
    IndexAgrees(FAILED_FIRST, ("d", "t"));
    DatabaseIndexAgrees(FAILED_FIRST, "d");
  }
}
