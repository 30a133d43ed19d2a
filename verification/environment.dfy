/** The environment that a created service gets: the request's variables, overridden by the
    manager's profile and by the namespace. */
module Environment {
  import opened Wrappers
  import opened RuntimeModel
  import Text

  const NAMESPACE_VARIABLE: string := "MICRO_AUTH_NAMESPACE"

  /** An assignment `key=value` read at its FIRST '='; `None` when there is no '='. */
  function Parse(v: string): (r: Option<(string, string)>)
    ensures r.Some? <==> '=' in v
    ensures r.Some? ==> '=' !in r.value.0 && v == r.value.0 + "=" + r.value.1
  {
    if v == "" then None
    else if v[0] == '=' then Some(("", v[1..]))
    else
      match Parse(v[1..])
      case None => None
      case Some((k, x)) => Some(([v[0]] + k, x))
  }

  /** The value that the last assignment to `key` in the list gives, if there is one. */
  function LastAssignment(vars: seq<string>, key: string): Option<string> {
    if vars == [] then None
    else
      var last := Parse(vars[|vars| - 1]);
      if last.Some? && last.value.0 == key then Some(last.value.1)
      else LastAssignment(vars[..|vars| - 1], key)
  }

  /** What a variable must be: the namespace wins over the profile, the profile over the request. */
  function Expected(options: CreateOptions, profile: seq<string>, key: string): Option<string> {
    if |options.namespace| > 0 && key == NAMESPACE_VARIABLE then Some(options.namespace)
    else if LastAssignment(profile, key).Some? then LastAssignment(profile, key)
    else LastAssignment(options.env, key)
  }

  /** A list of assignments with one assignment to each variable that has an expected value,
      and to no other. */
  ghost predicate Denotes(vars: seq<string>, options: CreateOptions, profile: seq<string>) {
    && (forall i :: 0 <= i < |vars| ==>
          && Parse(vars[i]).Some?
          && Expected(options, profile, Parse(vars[i]).value.0) == Some(Parse(vars[i]).value.1))
    && (forall i, j :: 0 <= i < j < |vars| ==>
          Parse(vars[i]).Some? && Parse(vars[j]).Some? ==> Parse(vars[i]).value.0 != Parse(vars[j]).value.0)
    && (forall k :: Expected(options, profile, k).Some? ==> k + "=" + Expected(options, profile, k).value in vars)
  }

  /** Splitting at every '=' and joining all but the first part again is cutting at the first '='. */
  lemma {:induction false} SplitIsParse(v: string)
    ensures |Text.Split(v, '=')| <= 1 <==> Parse(v).None?
    ensures Parse(v).Some? ==>
              && Text.Split(v, '=')[0] == Parse(v).value.0
              && Text.Join(Text.Split(v, '=')[1..], '=') == Parse(v).value.1
  {
    if Parse(v).None? {
      Text.SplitFree(v, '=');
    } else {
      var (k, x) := Parse(v).value;
      assert v == k + ['='] + x;
      Text.SplitCons(k, x, '=');
      Text.JoinSplit(x, '=');
      assert ([k] + Text.Split(x, '='))[1..] == Text.Split(x, '=');
    }
  }

  /** A variable written as `key=value` is read back, also when the value holds '='. */
  lemma {:induction false} ParseWritten(k: string, x: string)
    requires '=' !in k
    ensures Parse(k + "=" + x) == Some((k, x))
  {
    var v := k + "=" + x;
    assert v[|k|] == '=';
    var (k', x') := Parse(v).value;
    Text.CutAtFirst(k, k', x, x', '=');
  }

  /** The helper `setEnv`: each assignment of the list overwrites the map. */
  method SetEnv(p: seq<string>, env: map<string, string>) returns (r: map<string, string>)
    ensures forall k :: k in r <==> k in env || LastAssignment(p, k).Some?
    ensures forall k :: k in r ==>
              r[k] == if LastAssignment(p, k).Some? then LastAssignment(p, k).value else env[k]
  {
    r := env;
    for i := 0 to |p|
      invariant forall k :: k in r <==> k in env || LastAssignment(p[..i], k).Some?
      invariant forall k :: k in r ==>
                  r[k] == if LastAssignment(p[..i], k).Some? then LastAssignment(p[..i], k).value else env[k]
    {
      assert p[..i + 1][..i] == p[..i] && p[..i + 1][i] == p[i];
      SplitIsParse(p[i]);
      var parts := Text.Split(p[i], '=');
      if |parts| <= 1 {
        continue;
      }
      r := r[parts[0] := Text.Join(parts[1..], '=')];
    }
    assert p[..|p|] == p;
  }

  /** `runtimeEnv`. */
  method RuntimeEnv(options: CreateOptions, profile: seq<string>) returns (vars: seq<string>)
    ensures Denotes(vars, options, profile)
  {
    var env: map<string, string> := map[];
    env := SetEnv(options.env, env);
    env := SetEnv(profile, env);
    if |options.namespace| > 0 {
      env := env[NAMESPACE_VARIABLE := options.namespace];
    }
    forall k
      ensures k in env <==> Expected(options, profile, k).Some?
      ensures k in env ==> Some(env[k]) == Expected(options, profile, k) && '=' !in k
    {
      AssignedKeysAreNames(options.env, k);
      AssignedKeysAreNames(profile, k);
    }
    vars := Flatten(env);
    forall i | 0 <= i < |vars|
      ensures Parse(vars[i]).Some? && Expected(options, profile, Parse(vars[i]).value.0) == Some(Parse(vars[i]).value.1)
    {
      var k := Parse(vars[i]).value.0;
    }
  }

  lemma {:induction false} AssignedKeysAreNames(vars: seq<string>, key: string)
    ensures LastAssignment(vars, key).Some? ==> '=' !in key
  {
    if vars == [] {
    } else {
      AssignedKeysAreNames(vars[..|vars| - 1], key);
    }
  }

  /** The final loop of `runtimeEnv`: one `key=value` for each entry, in the map's arbitrary order. */
  method Flatten(env: map<string, string>) returns (vars: seq<string>)
    requires forall k :: k in env ==> '=' !in k
    ensures forall i :: 0 <= i < |vars| ==>
              && Parse(vars[i]).Some? && Parse(vars[i]).value.0 in env
              && env[Parse(vars[i]).value.0] == Parse(vars[i]).value.1
    ensures forall i, j :: 0 <= i < j < |vars| ==>
              Parse(vars[i]).Some? && Parse(vars[j]).Some? ==> Parse(vars[i]).value.0 != Parse(vars[j]).value.0
    ensures forall k :: k in env ==> k + "=" + env[k] in vars
  {
    vars := [];
    var left := env.Keys;
    while left != {}
      invariant left <= env.Keys
      invariant forall i :: 0 <= i < |vars| ==>
                  && Parse(vars[i]).Some? && Parse(vars[i]).value.0 in env.Keys - left
                  && env[Parse(vars[i]).value.0] == Parse(vars[i]).value.1
      invariant forall i, j :: 0 <= i < j < |vars| ==>
                  Parse(vars[i]).Some? && Parse(vars[j]).Some? ==> Parse(vars[i]).value.0 != Parse(vars[j]).value.0
      invariant forall k :: k in env.Keys - left ==> k + "=" + env[k] in vars
      decreases left
    {
      var k :| k in left;
      ParseWritten(k, env[k]);
      left := left - {k};
      vars := vars + [k + "=" + env[k]];
    }
  }

  /** No entry of the list assigns the variable. */
  predicate Unassigned(vars: seq<string>, key: string) {
    forall v :: v in vars ==> !(key + "=" <= v)
  }

  lemma ParseAssigns(v: string, key: string)
    requires '=' !in key
    ensures Parse(v).Some? && Parse(v).value.0 == key <==> key + "=" <= v
  {
    if key + "=" <= v {
      ParseWritten(key, v[|key| + 1..]);
      assert v == key + "=" + v[|key| + 1..];
    }
  }

  /** The last assignment in a list is the one that no other follows. */
  lemma {:induction false} LastAssigned(front: seq<string>, key: string, x: string, rest: seq<string>)
    requires '=' !in key && Unassigned(rest, key)
    ensures LastAssignment(front + [key + "=" + x] + rest, key) == Some(x)
  {
    var all := front + [key + "=" + x] + rest;
    if rest == [] {
      ParseWritten(key, x);
      assert all[|all| - 1] == key + "=" + x;
    } else {
      var n := |rest| - 1;
      assert all[..|all| - 1] == front + [key + "=" + x] + rest[..n] && all[|all| - 1] == rest[n];
      assert rest[n] in rest && forall r :: r in rest[..n] ==> r in rest;
      ParseAssigns(rest[n], key);
      LastAssigned(front, key, x, rest[..n]);
    }
  }

  lemma {:induction false} NeverAssigned(vars: seq<string>, key: string)
    requires '=' !in key && Unassigned(vars, key)
    ensures LastAssignment(vars, key) == None
  {
    if vars == [] {
    } else {
      var front := vars[..|vars| - 1];
      assert vars[|vars| - 1] in vars && forall v :: v in front ==> v in vars;
      ParseAssigns(vars[|vars| - 1], key);
      NeverAssigned(front, key);
    }
  }

  lemma {:induction false} AssignedSomewhere(vars: seq<string>, key: string)
    requires LastAssignment(vars, key).Some?
    ensures key + "=" + LastAssignment(vars, key).value in vars
  {
    var last := Parse(vars[|vars| - 1]);
    if last.Some? && last.value.0 == key {
      assert vars[|vars| - 1] in vars;
    } else {
      AssignedSomewhere(vars[..|vars| - 1], key);
    }
  }

  /** The environment that a service gets, in the words of its inputs. First, the namespace of the
      request is in MICRO_AUTH_NAMESPACE, whatever else assigns that. */
  lemma NamespaceIsSet(vars: seq<string>, options: CreateOptions, profile: seq<string>)
    requires Denotes(vars, options, profile) && options.namespace != ""
    ensures ("MICRO_AUTH_NAMESPACE=" + options.namespace) in vars
  {
    assert NAMESPACE_VARIABLE + "=" + options.namespace == "MICRO_AUTH_NAMESPACE=" + options.namespace;
    assert Expected(options, profile, NAMESPACE_VARIABLE) == Some(options.namespace);
  }

  /** Then the last assignment of each other variable in the profile, whatever the request assigns. */
  lemma ProfileIsSet(vars: seq<string>, options: CreateOptions, profile: seq<string>,
                     front: seq<string>, key: string, x: string, rest: seq<string>)
    requires Denotes(vars, options, profile) && profile == front + [key + "=" + x] + rest
    requires '=' !in key && Unassigned(rest, key)
    requires options.namespace == "" || key != "MICRO_AUTH_NAMESPACE"
    ensures (key + "=" + x) in vars
  {
    LastAssigned(front, key, x, rest);
    assert Expected(options, profile, key) == Some(x);
  }

  /** And the last one in the request's own list, if the profile does not assign the variable. */
  lemma RequestIsSet(vars: seq<string>, options: CreateOptions, profile: seq<string>,
                     front: seq<string>, key: string, x: string, rest: seq<string>)
    requires Denotes(vars, options, profile) && options.env == front + [key + "=" + x] + rest
    requires '=' !in key && Unassigned(rest, key) && Unassigned(profile, key)
    requires options.namespace == "" || key != "MICRO_AUTH_NAMESPACE"
    ensures (key + "=" + x) in vars
  {
    LastAssigned(front, key, x, rest);
    NeverAssigned(profile, key);
    assert Expected(options, profile, key) == Some(x);
  }

  /** Nothing else: every entry is one of the inputs', and no variable is assigned twice. */
  lemma NothingElseAssigned(vars: seq<string>, options: CreateOptions, profile: seq<string>, i: nat, j: nat,
                            key: string)
    requires Denotes(vars, options, profile) && i < |vars| && j < |vars| && '=' !in key
    ensures vars[i] in options.env || vars[i] in profile || vars[i] == "MICRO_AUTH_NAMESPACE=" + options.namespace
    ensures key + "=" <= vars[i] && key + "=" <= vars[j] ==> i == j
  {
    var k := Parse(vars[i]).value.0;
    assert Expected(options, profile, k).Some?;
    assert NAMESPACE_VARIABLE + "=" == "MICRO_AUTH_NAMESPACE=";
    if LastAssignment(profile, k).Some? {
      AssignedSomewhere(profile, k);
    }
    if LastAssignment(options.env, k).Some? {
      AssignedSomewhere(options.env, k);
    }
    ParseAssigns(vars[i], key);
    ParseAssigns(vars[j], key);
  }
}
