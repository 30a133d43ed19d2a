/** The registry handler: services of many namespaces in one registry, told apart by a prefix of
    their names. The registry itself is a plain set of names here. */
module Registry {
  import opened Wrappers
  import Text

  const DEFAULT_NAMESPACE: string := "go.micro"

  function WithNamespace(name: string, namespace: string): string {
    if namespace == DEFAULT_NAMESPACE then name else Text.Join([namespace, name], '/')
  }

  function WithoutNamespace(name: string): string {
    var comps := Text.Split(name, '/');
    comps[|comps| - 1]
  }

  predicate CanReadService(namespace: string, name: string) {
    |Text.Split(name, '/')| == 1 || namespace + "/" <= name
  }

  /** What `ListServices` makes of the registry's services, listed in this order. */
  function Listing(names: seq<string>, namespace: string): seq<string> {
    if names == [] then []
    else
      var last := names[|names| - 1];
      Listing(names[..|names| - 1], namespace)
      + if CanReadService(namespace, last) then [WithoutNamespace(last)] else []
  }

  lemma ListingAppend(names: seq<string>, name: string, namespace: string)
    ensures Listing(names + [name], namespace)
            == Listing(names, namespace) + if CanReadService(namespace, name) then [WithoutNamespace(name)] else []
  {
    assert (names + [name])[..|names|] == names;
  }

  /** Services are listed in the registry's order. */
  lemma {:induction false} ListingConcat(a: seq<string>, b: seq<string>, namespace: string)
    ensures Listing(a + b, namespace) == Listing(a, namespace) + Listing(b, namespace)
  {
    if b == [] {
      assert a + b == a;
    } else {
      assert (a + b)[..|a + b| - 1] == a + b[..|b| - 1];
      ListingConcat(a, b[..|b| - 1], namespace);
    }
  }

  class Registry {
    var services: set<string>

    constructor ()
      ensures services == {}
    {
      services := {};
    }

    method Register(namespace: string, name: string, up: bool) returns (ok: bool)
      modifies this
      ensures ok == up
      ensures services == if up then old(services) + {WithNamespace(name, namespace)} else old(services)
    {
      var stored := name;
      if namespace != DEFAULT_NAMESPACE {
        stored := Text.Join([namespace, name], '/');
      }
      if up {
        services := services + {stored};
      }
      return up;
    }

    method Deregister(namespace: string, name: string, up: bool) returns (ok: bool)
      modifies this
      ensures ok == up
      ensures services == if up then old(services) - {WithNamespace(name, namespace)} else old(services)
    {
      var stored := name;
      if namespace != DEFAULT_NAMESPACE {
        stored := Text.Join([namespace, name], '/');
      }
      if up {
        services := services - {stored};
      }
      return up;
    }

    /** `ListServices`. The ghost result is the order in which the registry listed its services. */
    method ListServices(namespace: string, up: bool) returns (r: Result<seq<string>>, ghost names: seq<string>)
      ensures r.Success? <==> up
      ensures up ==>
                && Text.Distinct(names) && (forall n :: n in names <==> n in services)
                && r.value == Listing(names, namespace)
    {
      names := [];
      if !up {
        return Failure("registry"), names;
      }
      var list: seq<string> := [];
      var left := services;
      while left != {}
        invariant left <= services
        invariant Text.Distinct(names)
        invariant forall n :: n in names <==> n in services - left
        invariant list == Listing(names, namespace)
        decreases left
      {
        var srv :| srv in left;
        left := left - {srv};
        Text.DistinctAppend(names, srv);
        ListingAppend(names, srv, namespace);
        names := names + [srv];
        if |Text.Split(srv, '/')| != 1 && !(namespace + "/" <= srv) {
          continue;
        }
        var comps := Text.Split(srv, '/');
        list := list + [comps[|comps| - 1]];
      }
      return Success(list), names;
    }
  }

  datatype Op = Add(namespace: string, name: string) | Remove(namespace: string, name: string)

  /** The contents of the registry after a sequence of successful calls. */
  function Stored(ops: seq<Op>): set<string> {
    if ops == [] then {}
    else
      var before := Stored(ops[..|ops| - 1]);
      match ops[|ops| - 1]
      case Add(namespace, name) => before + {WithNamespace(name, namespace)}
      case Remove(namespace, name) => before - {WithNamespace(name, namespace)}
  }

  /** The services that are registered, by the namespace that registered them and their own name. */
  function Live(ops: seq<Op>): set<(string, string)> {
    if ops == [] then {}
    else
      var before := Live(ops[..|ops| - 1]);
      match ops[|ops| - 1]
      case Add(namespace, name) => before + {(namespace, name)}
      case Remove(namespace, name) => before - {(namespace, name)}
  }

  predicate SlashFree(ops: seq<Op>) {
    forall op :: op in ops ==> '/' !in op.namespace && '/' !in op.name
  }

  /** A stored name: its own name only, or the name behind a namespace other than the default. */
  predicate Proper(stored: string) {
    var comps := Text.Split(stored, '/');
    |comps| == 1 || (|comps| == 2 && comps[0] != DEFAULT_NAMESPACE)
  }

  lemma NameParts(namespace: string, name: string)
    requires '/' !in namespace && '/' !in name
    ensures Text.Split(WithNamespace(name, namespace), '/')
            == if namespace == DEFAULT_NAMESPACE then [name] else [namespace, name]
    ensures Proper(WithNamespace(name, namespace)) && WithoutNamespace(WithNamespace(name, namespace)) == name
  {
    if namespace == DEFAULT_NAMESPACE {
      Text.SplitFree(name, '/');
    } else {
      Text.SplitJoin([namespace, name], '/');
    }
  }

  /** The stored name tells which namespace registered which service. */
  lemma {:induction false} StoredMeansLive(ops: seq<Op>, namespace: string, name: string)
    requires SlashFree(ops) && '/' !in namespace && '/' !in name
    ensures WithNamespace(name, namespace) in Stored(ops) <==> (namespace, name) in Live(ops)
    ensures forall s :: s in Stored(ops) ==> Proper(s)
  {
    if ops == [] {
    } else {
      var front, last := ops[..|ops| - 1], ops[|ops| - 1];
      assert last in ops && forall op :: op in front ==> op in ops;
      StoredMeansLive(front, namespace, name);
      NameParts(namespace, name);
      NameParts(last.namespace, last.name);
    }
  }

  /** Which stored names a namespace sees under the name `name`. */
  lemma SeenAs(stored: string, namespace: string, name: string)
    requires Proper(stored) && '/' !in namespace && '/' !in name
    ensures CanReadService(namespace, stored) && WithoutNamespace(stored) == name
            <==> stored == name || (namespace != DEFAULT_NAMESPACE && stored == WithNamespace(name, namespace))
    ensures name != Text.Join([namespace, name], '/')
  {
    var comps := Text.Split(stored, '/');
    Text.JoinSplit(stored, '/');
    Text.SplitFree(name, '/');
    Text.SplitJoin([namespace, name], '/');
    assert Text.Join([namespace, name], '/') == namespace + ['/'] + name;
    if |comps| == 2 {
      SplitPartsFree(stored);
      assert comps[1..] == [comps[1]];
      assert stored == comps[0] + ['/'] + comps[1];
      Text.ComponentPrefix(namespace, comps[0], comps[1], '/');
    } else {
      assert stored == comps[0];
    }
  }

  lemma {:induction false} SplitPartsFree(s: string)
    ensures forall p :: p in Text.Split(s, '/') ==> '/' !in p
  {
    if s == "" {
    } else {
      SplitPartsFree(s[1..]);
      var rest := Text.Split(s[1..], '/');
      if s[0] != '/' {
        assert rest[0] in rest;
      }
    }
  }

  lemma {:induction false} ListingCount(names: seq<string>, namespace: string, name: string)
    requires Text.Distinct(names) && forall n :: n in names ==> Proper(n)
    requires '/' !in namespace && '/' !in name
    ensures multiset(Listing(names, namespace))[name]
            == (if name in names then 1 else 0)
               + (if namespace != DEFAULT_NAMESPACE && WithNamespace(name, namespace) in names then 1 else 0)
  {
    if names == [] {
    } else {
      var front, last := names[..|names| - 1], names[|names| - 1];
      assert names == front + [last];
      assert last in names;
      ListingCount(front, namespace, name);
      SeenAs(last, namespace, name);
      assert last !in front;
    }
  }

  /** After any calls of Register and Deregister from any namespaces, a namespace lists every live
      service that it or the default namespace has registered, under its original name and once
      for each of the two, and nothing else. */
  lemma ListsOwnAndDefault(ops: seq<Op>, names: seq<string>, namespace: string, name: string)
    requires SlashFree(ops) && '/' !in namespace && '/' !in name
    requires Text.Distinct(names) && forall n :: n in names <==> n in Stored(ops)
    ensures multiset(Listing(names, namespace))[name]
            == (if ("go.micro", name) in Live(ops) then 1 else 0)
               + (if namespace != "go.micro" && (namespace, name) in Live(ops) then 1 else 0)
  {
    assert '/' !in DEFAULT_NAMESPACE;
    StoredMeansLive(ops, DEFAULT_NAMESPACE, name);
    StoredMeansLive(ops, namespace, name);
    ListingCount(names, namespace, name);
  }
}
