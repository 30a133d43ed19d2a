/** The auth handler: an object over a store, with its cache of namespaces. Its mutex makes each
    use of that cache atomic; a whole call is one step here. */
module AuthHandler {
  import opened Wrappers
  import opened KeyStore
  import opened Spec = AuthSpec
  import Text

  class Auth {
    const store: Store<Value>
    const hasher: Hasher
    var namespaces: map<string, bool>

    constructor (store: Store<Value>, hasher: Hasher)
      ensures this.store == store && this.hasher == hasher && namespaces == map[]
    {
      this.store, this.hasher, this.namespaces := store, hasher, map[];
    }

    ghost function Abstract(): State
      reads this, store
    {
      State(store.table, namespaces.Keys)
    }

    /** Only account records lie under the account prefix. */
    ghost predicate Typed()
      reads store
    {
      forall k :: k in store.table && "account/" <= k ==> store.table[k].value.AccountRecord?
    }

    method SetRefreshToken(namespace: string, id: string, token: string, now: int, up: bool) returns (ok: bool)
      modifies store
      ensures ok == up
      ensures store.table == if up then Put(old(store.table), RefreshKey(namespace, id, token), Empty, 0, now)
              else old(store.table)
    {
      var key := Text.Join(["refresh", namespace, id, token], '/');
      RefreshKeyJoined(namespace, id, token);
      if up {
        store.Write(key, Empty, 0, now);
      }
      return up;
    }

    method Generate(namespace: string, request: Request, random: Random, up: Up, now: int) returns (r: Result<Account>)
      modifies store
      ensures (store.table, r) == Spec.Generate(old(store.table), namespace, request, random, up, hasher, now)
      ensures old(Typed()) ==> Typed()
    {
      var req := request;
      if |req.id| == 0 {
        return Failure(BAD_REQUEST);
      }
      if |req.kind| == 0 {
        req := req.(kind := "user");
      }
      if |req.secret| == 0 {
        req := req.(secret := random.secret);
      }
      var key := Text.Join(["account", namespace, req.id], '/');
      AccountKeyJoined(namespace, req.id);
      if !up.read {
        return Failure(BAD_REQUEST);
      }
      var existing := store.Read(key, now);
      if existing.Some? {
        return Failure(BAD_REQUEST);
      }
      var secret := hasher.hash(req.secret, random.salt);
      if |req.scopes| == 0 {
        req := req.(scopes := ["namespace." + namespace]);
      }
      var acc := Account(req.id, req.kind, req.scopes, req.metadata, namespace, secret);
      if !up.accountWrite {
        return Failure(STORE_ERROR);
      }
      store.Write(key, AccountRecord(acc), 0, now);
      var ok := SetRefreshToken(namespace, acc.id, random.token, now, up.tokenWrite);
      NotAnAccountKey(namespace, acc.id, random.token);
      if !ok {
        return Failure(STORE_ERROR);
      }
      return Success(acc.(secret := req.secret));
    }

    method SetupDefaultAccount(namespace: string, random: Random, up: Up, now: int) returns (ok: bool)
      requires Typed()
      modifies store, this`namespaces
      ensures (Abstract(), ok) == SetupDefault(old(Abstract()), namespace, random, up, hasher, now)
      ensures Typed()
    {
      if namespace in namespaces {
        return true;
      }
      if !up.read {
        return false;
      }
      var prefix := Text.Join(["account", namespace, ""], '/');
      AccountKeyJoined(namespace, "");
      assert prefix == "account/" + namespace + "/";
      var recs := store.ReadPrefix(prefix, now);
      var hasUser := false;
      for i := 0 to |recs|
        invariant !hasUser ==> forall j :: 0 <= j < i ==> recs[j] in store.table && !IsUser(store.table[recs[j]].value)
        invariant hasUser ==> HasUser(store.table, namespace, now)
      {
        assert recs[i] in recs;
        if store.table[recs[i]].value.account.kind == "user" {
          hasUser := true;
          break;
        }
      }
      if !hasUser {
        assert !HasUser(store.table, namespace, now);
        var r := Generate(namespace, DEFAULT_ACCOUNT, random, up, now);
        if r.Failure? {
          return false;
        }
      }
      namespaces := namespaces[namespace := true];
      assert namespaces.Keys == old(namespaces.Keys) + {namespace};
      return true;
    }

    method RefreshTokenForAccount(namespace: string, id: string, now: int, up: bool) returns (r: Result<string>)
      ensures RefreshLookup(store.table, namespace, id, now, up, r)
    {
      var prefix := Text.Join(["refresh", namespace, id, ""], '/');
      RefreshKeyJoined(namespace, id, "");
      assert prefix == "refresh/" + namespace + "/" + id + "/";
      if !up {
        return Failure(STORE_ERROR);
      }
      var recs := store.ReadPrefix(prefix, now);
      if |recs| == 0 {
        return Failure(NOT_FOUND);
      }
      assert recs[0] in recs;
      var comps := Text.Split(recs[0], '/');
      if |comps| != 4 {
        return Failure(NOT_FOUND);
      }
      return Success(comps[3]);
    }

    method AccountIDForRefreshToken(namespace: string, token: string, now: int, up: bool) returns (r: Result<string>)
      ensures IdLookup(store.table, namespace, token, now, up, r)
    {
      var prefix := Text.Join(["refresh", namespace], '/');
      RefreshKeyJoined(namespace, "", "");
      assert prefix == "refresh/" + namespace;
      if !up {
        return Failure(STORE_ERROR);
      }
      var keys := store.ReadPrefix(prefix, now);
      for i := 0 to |keys|
        invariant forall j :: 0 <= j < i ==> !Text.HasSuffix(keys[j], "/" + token)
      {
        if Text.HasSuffix(keys[i], "/" + token) {
          assert keys[i] in keys;
          assert TokenCandidate(store.table, namespace, token, now, keys[i]);
          var comps := Text.Split(keys[i], '/');
          if |comps| != 4 {
            return Failure(NOT_FOUND);
          }
          return Success(comps[2]);
        }
      }
      return Failure(NOT_FOUND);
    }

    /** `Token`. A default account that cannot be set up is logged and otherwise ignored. */
    method Token(namespace: string, request: TokenRequest, random: Random, up: Up, providerUp: bool, now: int)
      returns (r: Result<Grant>)
      requires Typed()
      modifies store, this`namespaces
      ensures Abstract() == SetupDefault(old(Abstract()), namespace, random, up, hasher, now).0
      ensures TokenOutcome(store.table, hasher, namespace, request, now, up.read, providerUp, r)
      ensures Typed()
    {
      var _ := SetupDefaultAccount(namespace, random, up, now);
      if (|request.id| == 0 || |request.secret| == 0) && |request.refreshToken| == 0 {
        return Failure(BAD_REQUEST);
      }
      var accountID := request.id;
      var refreshToken := request.refreshToken;
      if |request.refreshToken| > 0 {
        var accID := AccountIDForRefreshToken(namespace, request.refreshToken, now, up.read);
        if accID.Failure? {
          return Failure(if accID.error == NOT_FOUND then BAD_REQUEST else STORE_ERROR);
        }
        accountID := accID.value;
      }
      var key := Text.Join(["account", namespace, accountID], '/');
      AccountKeyJoined(namespace, accountID);
      if !up.read {
        return Failure(STORE_ERROR);
      }
      var rec := store.Read(key, now);
      if rec.None? {
        return Failure(BAD_REQUEST);
      }
      assert "account/" <= key;
      var acc := rec.value.account;
      if |request.refreshToken| == 0 {
        if !hasher.matches(acc.secret, request.secret) {
          return Failure(BAD_REQUEST);
        }
        var tok := RefreshTokenForAccount(namespace, acc.id, now, up.read);
        if tok.Failure? {
          return Failure(STORE_ERROR);
        }
        refreshToken := tok.value;
      }
      if !providerUp {
        return Failure(STORE_ERROR);
      }
      return Success(Grant(acc, refreshToken));
    }

    /** `List`: the accounts of the namespace, without their secrets. */
    method List(namespace: string, random: Random, up: Up, now: int)
      returns (r: Result<seq<Account>>, ghost keys: seq<string>)
      requires Typed()
      modifies store, this`namespaces
      ensures Abstract() == SetupDefault(old(Abstract()), namespace, random, up, hasher, now).0
      ensures Typed()
      ensures r.Success? <==> up.read
      ensures up.read ==>
                && Lists(store.table, "account/" + namespace + "/", now, keys)
                && |r.value| == |keys|
                && forall i :: 0 <= i < |keys| ==>
                     keys[i] in store.table && store.table[keys[i]].value.AccountRecord?
                     && r.value[i] == store.table[keys[i]].value.account.(secret := "")
    {
      var _ := SetupDefaultAccount(namespace, random, up, now);
      keys := [];
      var prefix := Text.Join(["account", namespace, ""], '/');
      AccountKeyJoined(namespace, "");
      assert prefix == "account/" + namespace + "/";
      if !up.read {
        return Failure(STORE_ERROR), keys;
      }
      var recs := store.ReadPrefix(prefix, now);
      keys := recs;
      var accounts := [];
      for i := 0 to |recs|
        invariant |accounts| == i
        invariant forall j :: 0 <= j < i ==>
                    recs[j] in store.table && store.table[recs[j]].value.AccountRecord?
                    && accounts[j] == store.table[recs[j]].value.account.(secret := "")
      {
        assert recs[i] in recs;
        accounts := accounts + [store.table[recs[i]].value.account.(secret := "")];
      }
      return Success(accounts), keys;
    }
  }

  lemma AccountKeyJoined(namespace: string, id: string)
    ensures Text.Join(["account", namespace, id], '/') == AccountKey(namespace, id)
  {
    assert ["account", namespace, id][1..] == [namespace, id] && [namespace, id][1..] == [id];
    assert Text.Join([namespace, id], '/') == namespace + ['/'] + id;
    assert AccountKey(namespace, id) == "account" + ['/'] + (namespace + ['/'] + id);
  }

  lemma RefreshKeyJoined(namespace: string, id: string, token: string)
    ensures Text.Join(["refresh", namespace, id, token], '/') == RefreshKey(namespace, id, token)
    ensures Text.Join(["refresh", namespace], '/') == "refresh/" + namespace
  {
    assert ["refresh", namespace, id, token][1..] == [namespace, id, token];
    assert [namespace, id, token][1..] == [id, token] && [id, token][1..] == [token];
    assert Text.Join([id, token], '/') == id + ['/'] + token;
    assert Text.Join([namespace, id, token], '/') == namespace + ['/'] + (id + ['/'] + token);
    assert RefreshKey(namespace, id, token) == "refresh" + ['/'] + (namespace + ['/'] + (id + ['/'] + token));
    assert ["refresh", namespace][1..] == [namespace];
    assert "refresh" + ['/'] + namespace == "refresh/" + namespace;
  }

  lemma NotAnAccountKey(namespace: string, id: string, token: string)
    ensures !("account/" <= RefreshKey(namespace, id, token))
  {
    assert RefreshKey(namespace, id, token)[0] == 'r';
  }
}
