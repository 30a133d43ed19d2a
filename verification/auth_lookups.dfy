/** Signing in: the two lookups between accounts and refresh tokens, and when they undo each other. */
module AuthLookups {
  import opened Wrappers
  import opened KeyStore
  import opened AuthSpec
  import opened AuthRuns
  import Text

  /** The key that records this token is the only refresh key under its account's prefix. */
  lemma RefreshKeysOfAccount(table: Table<Value>, accounts: Accounts, p: (string, string), now: int, k: string)
    requires Encodes(table, accounts) && p in accounts && accounts[p].token.Some?
    ensures Live(table, k, now) && "refresh/" + p.0 + "/" + p.1 + "/" <= k
            <==> k == RefreshKey(p.0, p.1, accounts[p].token.value)
  {
    assert HolderStored(table, p, accounts[p]);
    var prefix := "refresh/" + p.0 + "/" + p.1 + "/";
    if Live(table, k, now) && prefix <= k {
      var t := k[|prefix|..];
      assert k == RefreshKey(p.0, p.1, t);
      TokenKeyBelongs(table, accounts, p.0, p.1, t);
    }
    if k == RefreshKey(p.0, p.1, accounts[p].token.value) {
      assert k == prefix + accounts[p].token.value;
    }
  }

  /** `refreshTokenForAccount` finds the account's token, and nothing else. */
  lemma FindsToken(table: Table<Value>, accounts: Accounts, p: (string, string), now: int, r: Result<string>)
    requires Encodes(table, accounts) && p in accounts && accounts[p].token.Some?
    requires RefreshLookup(table, p.0, p.1, now, true, r)
    ensures r == Success(accounts[p].token.value)
  {
    assert HolderStored(table, p, accounts[p]);
    var key := RefreshKey(p.0, p.1, accounts[p].token.value);
    RefreshKeysOfAccount(table, accounts, p, now, key);
    forall k | Live(table, k, now) && "refresh/" + p.0 + "/" + p.1 + "/" <= k
      ensures k == key
    {
      RefreshKeysOfAccount(table, accounts, p, now, k);
    }
    RefreshKeyParts(p.0, p.1, accounts[p].token.value);
  }

  /** Which strings are read as the token of account `p`: the token itself, and the token behind
      the account's id, or behind its namespace and id, because the end of the key is compared. */
  predicate Names(request: string, p: (string, string), token: string) {
    || request == token
    || request == p.1 + "/" + token
    || request == p.0 + "/" + p.1 + "/" + token
  }

  /** Which accounts `accountIDForRefreshToken` finds: those whose token is named and whose
      namespace BEGINS WITH the caller's namespace. */
  predicate Finds(accounts: Accounts, namespace: string, request: string, p: (string, string)) {
    p in accounts && accounts[p].token.Some? && Names(request, p, accounts[p].token.value) && namespace <= p.0
  }

  ghost predicate FindsNone(accounts: Accounts, namespace: string, request: string) {
    forall p :: !Finds(accounts, namespace, request, p)
  }

  /** Which keys `accountIDForRefreshToken` considers: those of the accounts that it finds. */
  lemma Candidate(table: Table<Value>, accounts: Accounts, namespace: string, request: string, now: int,
                  p: (string, string))
    requires Encodes(table, accounts) && p in accounts && accounts[p].token.Some? && SlashFree(namespace)
    ensures TokenCandidate(table, namespace, request, now, RefreshKey(p.0, p.1, accounts[p].token.value))
            <==> Finds(accounts, namespace, request, p)
  {
    assert HolderStored(table, p, accounts[p]);
    PrefixMatch(namespace, p.0, p.1, accounts[p].token.value);
    SuffixMatch(request, p, accounts[p].token.value);
  }

  lemma PrefixMatch(namespace: string, n: string, i: string, t: string)
    requires SlashFree(namespace) && SlashFree(n)
    ensures "refresh/" + namespace <= RefreshKey(n, i, t) <==> namespace <= n
  {
    var rest := i + ['/'] + t;
    assert RefreshKey(n, i, t) == "refresh/" + (n + ['/'] + rest);
    Text.SharedFront("refresh/", namespace, n + ['/'] + rest);
    Text.PrefixInComponent(namespace, n, rest, '/');
  }

  /** For any string at all: what a refresh key ends in. */
  lemma SuffixMatch(request: string, p: (string, string), t: string)
    requires SlashFree(p.0) && SlashFree(p.1) && SlashFree(t)
    ensures Text.HasSuffix(RefreshKey(p.0, p.1, t), "/" + request) <==> Names(request, p, t)
  {
    var key := RefreshKey(p.0, p.1, t);
    assert key == "refresh/" + p.0 + "/" + p.1 + ("/" + t);
    assert key == "refresh/" + p.0 + ("/" + (p.1 + "/" + t));
    assert key == "refresh" + ("/" + (p.0 + "/" + p.1 + "/" + t));
    if Text.HasSuffix(key, "/" + request) {
      SuffixNames(request, p, t);
    }
  }

  lemma SuffixNames(request: string, p: (string, string), t: string)
    requires SlashFree(p.0) && SlashFree(p.1) && SlashFree(t)
    requires Text.HasSuffix(RefreshKey(p.0, p.1, t), "/" + request)
    ensures Names(request, p, t)
  {
    Text.SuffixSteps("refresh/" + p.0 + "/" + p.1, t, request, '/');
    if request != t {
      var idPart := request[..|request| - |t| - 1];
      assert request == idPart + "/" + t;
      Text.SuffixSteps("refresh/" + p.0, p.1, idPart, '/');
      if idPart != p.1 {
        var nsPart := idPart[..|idPart| - |p.1| - 1];
        assert request == nsPart + "/" + p.1 + "/" + t;
        Text.SuffixSteps("refresh", p.0, nsPart, '/');
        NoSlashInFront(nsPart, |nsPart| - |p.0| - 1);
      }
    }
  }

  lemma NoSlashInFront(s: string, n: int)
    ensures 0 <= n <= |s| ==> !Text.HasSuffix("refresh", "/" + s[..n])
  {
    if 0 <= n <= |s| && Text.HasSuffix("refresh", "/" + s[..n]) {
      Text.SeparatorInside("refresh", s[..n], '/');
    }
  }

  /** Different accounts hold different tokens, so a string names the token of one account. */
  lemma NamesOne(table: Table<Value>, accounts: Accounts, request: string, p: (string, string), q: (string, string))
    requires Encodes(table, accounts) && p in accounts && q in accounts
    requires accounts[p].token.Some? && Names(request, p, accounts[p].token.value)
    requires accounts[q].token.Some? && Names(request, q, accounts[q].token.value)
    ensures p == q
  {
    assert HolderStored(table, p, accounts[p]) && HolderStored(table, q, accounts[q]);
    LastPart(request, p, accounts[p].token.value);
    LastPart(request, q, accounts[q].token.value);
  }

  lemma LastPart(request: string, p: (string, string), t: string)
    requires SlashFree(p.0) && SlashFree(p.1) && SlashFree(t) && Names(request, p, t)
    ensures Text.Split(request, '/')[|Text.Split(request, '/')| - 1] == t
  {
    Text.SplitFree(t, '/');
    Text.SplitCons(p.1, t, '/');
    Text.SplitThree(p.0, p.1, t, '/');
  }

  /** `accountIDForRefreshToken` for any string: the id of the account that it finds. It answers
      not found exactly when it finds none. */
  lemma FindsAccount(table: Table<Value>, accounts: Accounts, namespace: string, request: string, now: int,
                     r: Result<string>)
    requires Encodes(table, accounts) && SlashFree(namespace)
    requires IdLookup(table, namespace, request, now, true, r)
    ensures r == Failure(NOT_FOUND) <==> FindsNone(accounts, namespace, request)
    ensures forall p :: Finds(accounts, namespace, request, p) ==> r == Success(p.1)
  {
    forall k | TokenCandidate(table, namespace, request, now, k)
      ensures exists p :: Finds(accounts, namespace, request, p) && TokenKeyOf(p, accounts[p], k)
    {
      assert k[..8] == ("refresh/" + namespace)[..8];
      var q :| q in accounts && TokenKeyOf(q, accounts[q], k);
      Candidate(table, accounts, namespace, request, now, q);
    }
    forall p | Finds(accounts, namespace, request, p)
      ensures r == Success(p.1)
    {
      assert HolderStored(table, p, accounts[p]);
      Candidate(table, accounts, namespace, request, now, p);
      var k :| TokenCandidate(table, namespace, request, now, k) && r == Part(k, 2);
      var q :| Finds(accounts, namespace, request, q) && TokenKeyOf(q, accounts[q], k);
      NamesOne(table, accounts, request, p, q);
      RefreshKeyParts(p.0, p.1, accounts[p].token.value);
    }
  }

  /** The lookup of a token that account `p` holds. */
  lemma FindsHolder(table: Table<Value>, accounts: Accounts, namespace: string, now: int, p: (string, string),
                    r: Result<string>)
    requires Encodes(table, accounts) && p in accounts && accounts[p].token.Some? && SlashFree(namespace)
    requires IdLookup(table, namespace, accounts[p].token.value, now, true, r)
    ensures r == if namespace <= p.0 then Success(p.1) else Failure(NOT_FOUND)
  {
    var token := accounts[p].token.value;
    FindsAccount(table, accounts, namespace, token, now, r);
    if q :| Finds(accounts, namespace, token, q) {
      NamesOne(table, accounts, token, p, q);
    }
  }

  /** In every run, whatever string is sent: it is not found exactly when it is no account's token,
      neither alone nor behind the account's id or behind its namespace and id, of an account
      whose namespace begins with the caller's. */
  lemma UnknownToken(steps: seq<Step>, hasher: Hasher, namespace: string, request: string, readUp: bool,
                     r: Result<string>)
    requires ValidRun(steps, hasher) && SlashFree(namespace)
    requires IdLookup(Run(steps, hasher).state.table, namespace, request, Run(steps, hasher).now, readUp, r)
    ensures r == Failure(NOT_FOUND) <==> readUp && FindsNone(Run(steps, hasher).accounts, namespace, request)
  {
    if readUp {
      RunKeepsInv(steps, hasher);
      var s := Run(steps, hasher);
      FindsAccount(s.state.table, s.accounts, namespace, request, s.now, r);
    }
  }

  /** A token behind its account's id is found although no account holds that string. */
  lemma JoinedTokenIsFound(steps: seq<Step>, hasher: Hasher, p: (string, string), request: string, r: Result<string>)
    requires ValidRun(steps, hasher) && p in Run(steps, hasher).accounts
    requires var token := Run(steps, hasher).accounts[p].token;
             token.Some? && (request == p.1 + "/" + token.value || request == p.0 + "/" + p.1 + "/" + token.value)
    requires IdLookup(Run(steps, hasher).state.table, p.0, request, Run(steps, hasher).now, true, r)
    ensures r == Success(p.1) && !Used(Run(steps, hasher).accounts, request)
  {
    RunKeepsInv(steps, hasher);
    var s := Run(steps, hasher);
    assert HolderStored(s.state.table, p, s.accounts[p]);
    assert Finds(s.accounts, p.0, request, p);
    FindsAccount(s.state.table, s.accounts, p.0, request, s.now, r);
    assert request[|request| - |s.accounts[p].token.value| - 1] == '/';
    if Used(s.accounts, request) {
      HeldTokensAreSlashFree(s.state.table, s.accounts, request);
    }
  }

  lemma HeldTokensAreSlashFree(table: Table<Value>, accounts: Accounts, token: string)
    requires Encodes(table, accounts) && Used(accounts, token)
    ensures SlashFree(token)
  {
    var q :| q in accounts && accounts[q].token == Some(token);
    assert HolderStored(table, q, accounts[q]);
  }

  /** From an account to its token and back always returns to the account. */
  lemma AccountTokenAccount(steps: seq<Step>, hasher: Hasher, p: (string, string), token: Result<string>,
                            id: Result<string>)
    requires ValidRun(steps, hasher)
    requires p in Run(steps, hasher).accounts && Run(steps, hasher).accounts[p].token.Some?
    requires RefreshLookup(Run(steps, hasher).state.table, p.0, p.1, Run(steps, hasher).now, true, token)
    requires token.Success? ==>
               IdLookup(Run(steps, hasher).state.table, p.0, token.value, Run(steps, hasher).now, true, id)
    ensures token == Success(Run(steps, hasher).accounts[p].token.value) && id == Success(p.1)
  {
    RunKeepsInv(steps, hasher);
    var s := Run(steps, hasher);
    assert HolderStored(s.state.table, p, s.accounts[p]);
    FindsToken(s.state.table, s.accounts, p, s.now, token);
    FindsHolder(s.state.table, s.accounts, p.0, s.now, p, id);
  }

  /** The lookup of an id in a namespace where that id does not hold the token. */
  lemma FindsOtherToken(table: Table<Value>, accounts: Accounts, namespace: string, p: (string, string), now: int,
                        back: Result<string>)
    requires Encodes(table, accounts) && p in accounts && accounts[p].token.Some?
    requires SlashFree(namespace) && namespace != p.0
    requires RefreshLookup(table, namespace, p.1, now, true, back)
    ensures back != Success(accounts[p].token.value)
  {
    assert HolderStored(table, p, accounts[p]);
    var prefix := "refresh/" + namespace + "/" + p.1 + "/";
    if back.Success? {
      var k :| Live(table, k, now) && prefix <= k && back == Part(k, 3);
      var t := BelowPrefix(table, accounts, namespace, p.1, k);
    }
  }

  /** A key under the prefix of a namespace and an id records the token that this account holds. */
  lemma BelowPrefix(table: Table<Value>, accounts: Accounts, namespace: string, id: string, k: string)
    returns (t: string)
    requires Encodes(table, accounts) && SlashFree(namespace) && SlashFree(id)
    requires k in table && "refresh/" + namespace + "/" + id + "/" <= k
    ensures (namespace, id) in accounts && accounts[(namespace, id)].token == Some(t)
    ensures Part(k, 3) == Success(t)
  {
    t := k[|"refresh/" + namespace + "/" + id + "/"|..];
    assert k == RefreshKey(namespace, id, t);
    TokenKeyBelongs(table, accounts, namespace, id, t);
    assert HolderStored(table, (namespace, id), accounts[(namespace, id)]);
    RefreshKeyParts(namespace, id, t);
  }

  /** From a token to an account id and back returns to the token exactly when the token was issued
      in the caller's namespace. The listed prefix has no separator behind the namespace, so a token
      is also found from any namespace whose name is a proper prefix of the token's own. */
  lemma TokenAccountToken(steps: seq<Step>, hasher: Hasher, namespace: string, p: (string, string),
                          id: Result<string>, back: Result<string>)
    requires ValidRun(steps, hasher) && SlashFree(namespace)
    requires p in Run(steps, hasher).accounts && Run(steps, hasher).accounts[p].token.Some?
    requires var s := Run(steps, hasher);
             IdLookup(s.state.table, namespace, s.accounts[p].token.value, s.now, true, id)
    requires id.Success? ==>
               RefreshLookup(Run(steps, hasher).state.table, namespace, id.value, Run(steps, hasher).now, true, back)
    ensures id.Success? <==> namespace <= p.0
    ensures id.Success? ==> (back == Success(Run(steps, hasher).accounts[p].token.value) <==> namespace == p.0)
  {
    RunKeepsInv(steps, hasher);
    var s := Run(steps, hasher);
    FindsHolder(s.state.table, s.accounts, namespace, s.now, p, id);
    if id.Success? && namespace == p.0 {
      FindsToken(s.state.table, s.accounts, p, s.now, back);
    } else if id.Success? {
      FindsOtherToken(s.state.table, s.accounts, namespace, p, s.now, back);
    }
  }

  /** Signing in with id and secret, for an account whose secret matches. */
  lemma ById(table: Table<Value>, accounts: Accounts, hasher: Hasher, p: (string, string), secret: string, now: int,
             r: Result<Grant>)
    requires Encodes(table, accounts) && p in accounts && accounts[p].token.Some?
    requires |secret| > 0 && hasher.matches(accounts[p].account.secret, secret)
    requires TokenOutcome(table, hasher, p.0, TokenRequest(p.1, secret, ""), now, true, true, r)
    ensures r == Success(Grant(accounts[p].account, accounts[p].token.value))
  {
    assert HolderStored(table, p, accounts[p]);
    var l :| RefreshLookup(table, p.0, p.1, now, true, l) && AfterRefreshLookup(accounts[p].account, true, l, r);
    FindsToken(table, accounts, p, now, l);
  }

  /** Signing in with a refresh token, in the namespace in which it was issued. */
  lemma ByToken(table: Table<Value>, accounts: Accounts, hasher: Hasher, p: (string, string), id: string,
                secret: string, now: int, r: Result<Grant>)
    requires Encodes(table, accounts) && p in accounts && accounts[p].token.Some?
    requires TokenOutcome(table, hasher, p.0, TokenRequest(id, secret, accounts[p].token.value), now, true, true, r)
    ensures r == Success(Grant(accounts[p].account, accounts[p].token.value))
  {
    assert HolderStored(table, p, accounts[p]);
    var token := accounts[p].token.value;
    var l :| IdLookup(table, p.0, token, now, true, l) && AfterIdLookup(table, p.0, token, now, true, true, l, r);
    FindsHolder(table, accounts, p.0, now, p, l);
    AccountFound(table, accounts, p.0, p.1, now);
  }

  /** Exactly when `Token` grants access for an id and a secret, and for what: store and provider
      work, there is an account with this id in the namespace, the secret matches, and the account
      has a refresh token. */
  lemma GrantBySecret(steps: seq<Step>, hasher: Hasher, namespace: string, id: string, secret: string, readUp: bool,
                      providerUp: bool, r: Result<Grant>)
    requires ValidRun(steps, hasher) && SlashFree(namespace) && |id| > 0 && |secret| > 0
    requires var s, request := Run(steps, hasher), TokenRequest(id, secret, "");
             TokenOutcome(s.state.table, hasher, namespace, request, s.now, readUp, providerUp, r)
    ensures var accounts, p := Run(steps, hasher).accounts, (namespace, id);
            && (r.Success?
                <==> readUp && providerUp && Accepts(accounts, hasher, p, secret) && accounts[p].token.Some?)
            && (r.Success? ==> r.value == Grant(accounts[p].account, accounts[p].token.value))
  {
    RunKeepsInv(steps, hasher);
    var s, p := Run(steps, hasher), (namespace, id);
    if readUp && providerUp {
      GrantIfAccepted(s.state.table, s.accounts, hasher, p, secret, s.now, r);
    }
  }

  predicate Accepts(accounts: Accounts, hasher: Hasher, p: (string, string), secret: string) {
    p in accounts && hasher.matches(accounts[p].account.secret, secret)
  }

  lemma GrantIfAccepted(table: Table<Value>, accounts: Accounts, hasher: Hasher, p: (string, string), secret: string,
                        now: int, r: Result<Grant>)
    requires Encodes(table, accounts) && SlashFree(p.0) && |p.1| > 0 && |secret| > 0
    requires TokenOutcome(table, hasher, p.0, TokenRequest(p.1, secret, ""), now, true, true, r)
    ensures r.Success? <==> Accepts(accounts, hasher, p, secret) && accounts[p].token.Some?
    ensures r.Success? ==> r.value == Grant(accounts[p].account, accounts[p].token.value)
  {
    AccountFound(table, accounts, p.0, p.1, now);
    if Accepts(accounts, hasher, p, secret) {
      if accounts[p].token.Some? {
        ById(table, accounts, hasher, p, secret, now, r);
      } else {
        var l :| RefreshLookup(table, p.0, p.1, now, true, l) && AfterRefreshLookup(accounts[p].account, true, l, r);
        NoTokenFound(table, accounts, p, now, l);
      }
    }
  }

  lemma NoTokenFound(table: Table<Value>, accounts: Accounts, p: (string, string), now: int, l: Result<string>)
    requires Encodes(table, accounts) && p in accounts && accounts[p].token.None?
    requires RefreshLookup(table, p.0, p.1, now, true, l)
    ensures l.Failure?
  {
    assert HolderStored(table, p, accounts[p]);
    if l.Success? {
      var k :| Live(table, k, now) && "refresh/" + p.0 + "/" + p.1 + "/" <= k && l == Part(k, 3);
      var t := BelowPrefix(table, accounts, p.0, p.1, k);
    }
  }

  /** The record under an account key is the account of that namespace and id. */
  lemma AccountFound(table: Table<Value>, accounts: Accounts, namespace: string, id: string, now: int)
    requires Encodes(table, accounts) && SlashFree(namespace)
    ensures AccountAt(table, namespace, id, now)
            == if (namespace, id) in accounts then Some(accounts[(namespace, id)].account) else None
  {
    var key := AccountKey(namespace, id);
    KeyShapes(namespace, id, "");
    if (namespace, id) in accounts {
      assert HolderStored(table, (namespace, id), accounts[(namespace, id)]);
    } else if key in table {
      var p :| p in accounts && AccountKeyOf(p, key);
      assert HolderStored(table, p, accounts[p]);
      AccountKeyInjective(namespace, id, p.0, p.1);
    }
  }

  /** Exactly when `Token` grants access for a refresh token, and for what, whatever string is sent and
      whatever fails: store and provider work, the string names the token of an account whose
      namespace begins with the caller's, and an account with the same id exists in the caller's
      namespace; the grant is for that one. */
  lemma GrantByToken(steps: seq<Step>, hasher: Hasher, namespace: string, request: TokenRequest, readUp: bool,
                     providerUp: bool, r: Result<Grant>)
    requires ValidRun(steps, hasher) && SlashFree(namespace) && |request.refreshToken| > 0
    requires var s := Run(steps, hasher);
             TokenOutcome(s.state.table, hasher, namespace, request, s.now, readUp, providerUp, r)
    ensures var accounts := Run(steps, hasher).accounts;
            && (r.Success?
                <==> readUp && providerUp
                     && exists p :: Finds(accounts, namespace, request.refreshToken, p) && (namespace, p.1) in accounts)
            && (forall p :: Finds(accounts, namespace, request.refreshToken, p) && r.Success? ==>
                  && (namespace, p.1) in accounts
                  && r.value == Grant(accounts[(namespace, p.1)].account, request.refreshToken))
  {
    if readUp && providerUp {
      RunKeepsInv(steps, hasher);
      var s := Run(steps, hasher);
      var token := request.refreshToken;
      var l :| IdLookup(s.state.table, namespace, token, s.now, true, l) &&
        AfterIdLookup(s.state.table, namespace, token, s.now, true, true, l, r);
      GrantAfterLookup(s.state.table, s.accounts, namespace, token, s.now, l, r);
    }
  }

  lemma GrantAfterLookup(table: Table<Value>, accounts: Accounts, namespace: string, token: string, now: int,
                         l: Result<string>, r: Result<Grant>)
    requires Encodes(table, accounts) && SlashFree(namespace)
    requires IdLookup(table, namespace, token, now, true, l)
    requires AfterIdLookup(table, namespace, token, now, true, true, l, r)
    ensures r.Success? <==> exists p :: Finds(accounts, namespace, token, p) && (namespace, p.1) in accounts
    ensures forall p :: Finds(accounts, namespace, token, p) && r.Success? ==>
              && (namespace, p.1) in accounts
              && r.value == Grant(accounts[(namespace, p.1)].account, token)
  {
    FindsAccount(table, accounts, namespace, token, now, l);
    forall p | Finds(accounts, namespace, token, p)
      ensures r.Success? <==> (namespace, p.1) in accounts
      ensures r.Success? ==> r.value == Grant(accounts[(namespace, p.1)].account, token)
    {
      AccountFound(table, accounts, namespace, p.1, now);
    }
  }

  /** What a successful `Generate` at step `n` leaves behind at the end of the run. */
  lemma GeneratedStays(steps: seq<Step>, n: nat, hasher: Hasher)
    requires ValidRun(steps, hasher) && n < |steps| && steps[n].GenerateStep?
    requires var s, g := Run(steps[..n], hasher), steps[n];
             Generate(s.state.table, g.namespace, g.request, g.random, g.up, hasher, s.now).1.Success?
    ensures var g := steps[n];
            && (g.namespace, g.request.id) in Run(steps, hasher).accounts
            && Run(steps, hasher).accounts[(g.namespace, g.request.id)]
               == Holder(NewAccount(g.request, g.namespace, g.random, hasher), Some(g.random.token))
  {
    AccountsStay(steps, n + 1, hasher);
    assert steps[..n + 1][..n] == steps[..n];
  }

  /** Generate, then sign in with the id and the secret in the response, then with the refresh
      token: any time later in any run, both reach the generated account in its namespace. */
  lemma SignIn(steps: seq<Step>, n: nat, hasher: Hasher, id: string, secret: string, byId: Result<Grant>,
               byToken: Result<Grant>)
    requires ValidRun(steps, hasher) && Lawful(hasher) && n < |steps|
    requires steps[n].GenerateStep? && |steps[n].random.secret| > 0
    requires var s, g := Run(steps[..n], hasher), steps[n];
             Generate(s.state.table, g.namespace, g.request, g.random, g.up, hasher, s.now).1.Success?
    requires var s, g := Run(steps[..n], hasher), steps[n];
             var response := Generate(s.state.table, g.namespace, g.request, g.random, g.up, hasher, s.now).1.value;
             var end := Run(steps, hasher);
             && TokenOutcome(end.state.table, hasher, g.namespace, TokenRequest(response.id, response.secret, ""),
                             end.now, true, true, byId)
             && (byId.Success? ==>
                   TokenOutcome(end.state.table, hasher, g.namespace, TokenRequest(id, secret, byId.value.refreshToken),
                                end.now, true, true, byToken))
    ensures var g := steps[n];
            var account := NewAccount(g.request, g.namespace, g.random, hasher);
            && account.issuer == g.namespace && account.id == g.request.id
            && byId == Success(Grant(account, g.random.token))
            && byToken == byId
  {
    var g := steps[n];
    var p := (g.namespace, g.request.id);
    GeneratedStays(steps, n, hasher);
    RunKeepsInv(steps, hasher);
    var s := Run(steps, hasher);
    var plain := Completed(g.request, g.namespace, g.random).secret;
    assert hasher.matches(hasher.hash(plain, g.random.salt), plain);
    ById(s.state.table, s.accounts, hasher, p, plain, s.now, byId);
    ByToken(s.state.table, s.accounts, hasher, p, id, secret, s.now, byToken);
  }

  /** What `List` finds under the prefix of a namespace: the accounts of that namespace. */
  lemma ListsNamespace(steps: seq<Step>, hasher: Hasher, namespace: string, keys: seq<string>, id: string)
    requires ValidRun(steps, hasher) && SlashFree(namespace) && SlashFree(id)
    requires Lists(Run(steps, hasher).state.table, "account/" + namespace + "/", Run(steps, hasher).now, keys)
    ensures AccountKey(namespace, id) in keys <==> (namespace, id) in Run(steps, hasher).accounts
    ensures forall k :: k in keys ==>
              exists p :: p in Run(steps, hasher).accounts && p.0 == namespace && AccountKeyOf(p, k)
  {
    RunKeepsInv(steps, hasher);
    var s := Run(steps, hasher);
    AccountPrefix(namespace, namespace, id);
    AccountStored(s.state.table, s.accounts, namespace, id, s.now);
    forall k | k in keys
      ensures exists p :: p in s.accounts && p.0 == namespace && AccountKeyOf(p, k)
    {
      ListedAccount(s.state.table, s.accounts, namespace, k);
    }
  }

  lemma AccountStored(table: Table<Value>, accounts: Accounts, namespace: string, id: string, now: int)
    requires Encodes(table, accounts) && SlashFree(namespace)
    ensures Live(table, AccountKey(namespace, id), now) <==> (namespace, id) in accounts
  {
    AccountFound(table, accounts, namespace, id, now);
    KeyShapes(namespace, id, "");
    if AccountKey(namespace, id) in table {
      var p :| p in accounts && AccountKeyOf(p, AccountKey(namespace, id));
      assert HolderStored(table, p, accounts[p]);
    }
  }

  /** A key under the prefix of a namespace is that of an account of the namespace. */
  lemma ListedAccount(table: Table<Value>, accounts: Accounts, namespace: string, key: string)
    requires Encodes(table, accounts) && SlashFree(namespace)
    requires key in table && "account/" + namespace + "/" <= key
    ensures exists p :: p in accounts && p.0 == namespace && AccountKeyOf(p, key)
  {
    assert key[..8] == ("account/" + namespace + "/")[..8];
    var p :| p in accounts && AccountKeyOf(p, key);
    assert HolderStored(table, p, accounts[p]);
    AccountPrefix(namespace, p.0, p.1);
  }

  /** Exactly when a visit by `List` or `Token` leaves the namespace in the cache, whichever store
      accesses fail: if it was there, or if its accounts can be read and it has a user, or the id
      "default" is free and both writes for the default account succeed. An account "default" of
      another type blocks the default account, and so the cache. */
  lemma VisitCaches(steps: seq<Step>, hasher: Hasher, namespace: string, random: Random, up: Up)
    requires ValidRun(steps, hasher) && Enabled(Run(steps, hasher), Visit(namespace, random, up))
    ensures var s := Run(steps, hasher);
            namespace in Next(s, Visit(namespace, random, up), hasher).state.namespaces
            <==> || namespace in s.state.namespaces
                 || (up.read && UserIn(s.accounts, namespace))
                 || (up.read && (namespace, "default") !in s.accounts && up.accountWrite && up.tokenWrite)
  {
    RunKeepsInv(steps, hasher);
    var s := Run(steps, hasher);
    UsersFound(s.state.table, s.accounts, namespace, s.now);
    AccountStored(s.state.table, s.accounts, namespace, "default", s.now);
  }

  /** The account is generated at step `n`, by a call or by a visit. */
  ghost predicate CreatedAt(steps: seq<Step>, n: nat, hasher: Hasher, p: (string, string))
    requires ValidRun(steps, hasher)
  {
    && n < |steps|
    && p !in Run(steps[..n], hasher).accounts && p in Run(steps[..n + 1], hasher).accounts
  }

  /** Exactly which accounts ever have a refresh token: those whose token write succeeded when they
      were generated. Nothing makes up for it later. */
  lemma TokenIffWritten(steps: seq<Step>, n: nat, hasher: Hasher, p: (string, string))
    requires ValidRun(steps, hasher) && CreatedAt(steps, n, hasher, p)
    ensures p in Run(steps, hasher).accounts && !steps[n].Tick?
    ensures Run(steps, hasher).accounts[p].token
            == if steps[n].up.tokenWrite then Some(steps[n].random.token) else None
  {
    AccountsStay(steps, n + 1, hasher);
    assert steps[..n + 1][..n] == steps[..n];
  }

  /** An account whose token write failed is locked out at every later point: no secret is accepted
      for it, and its id cannot be generated again. */
  lemma LockedOut(steps: seq<Step>, n: nat, hasher: Hasher, p: (string, string), secret: string, request: Request,
                  random: Random, up: Up, readUp: bool, providerUp: bool, r: Result<Grant>)
    requires ValidRun(steps, hasher) && CreatedAt(steps, n, hasher, p) && !steps[n].Tick? && !steps[n].up.tokenWrite
    requires request.id == p.1
    requires var s := Run(steps, hasher);
             TokenOutcome(s.state.table, hasher, p.0, TokenRequest(p.1, secret, ""), s.now, readUp, providerUp, r)
    ensures r.Failure?
    ensures var s := Run(steps, hasher);
            Generate(s.state.table, p.0, request, random, up, hasher, s.now) == (s.state.table, Failure(BAD_REQUEST))
  {
    TokenIffWritten(steps, n, hasher, p);
    RunKeepsInv(steps, hasher);
    var s := Run(steps, hasher);
    assert HolderStored(s.state.table, p, s.accounts[p]);
    AccountStored(s.state.table, s.accounts, p.0, p.1, s.now);
    if |secret| > 0 {
      GrantBySecret(steps, hasher, p.0, p.1, secret, readUp, providerUp, r);
    }
  }

  const ALL_UP: Up := Up(true, true, true)
  const STRAY: Request := Request("x", "user", "secret", [], map[])
  const BLOCKER: Request := Request("default", "service", "secret", [], map[])

  /** A run of one call of `Generate`. */
  function Once(namespace: string, request: Request): seq<Step> {
    [GenerateStep(namespace, request, Random("", "", "t"), ALL_UP)]
  }

  lemma OnceGenerates(hasher: Hasher, namespace: string, request: Request)
    requires SlashFree(namespace) && SlashFree(request.id) && |request.id| > 0
    ensures ValidRun(Once(namespace, request), hasher)
    ensures Run(Once(namespace, request), hasher).accounts
            == map[(namespace, request.id) :=
                     Holder(NewAccount(request, namespace, Random("", "", "t"), hasher), Some("t"))]
    ensures Run(Once(namespace, request), hasher).state.namespaces == {}
  {
    assert Once(namespace, request)[..0] == [];
    assert ValidRun([], hasher) && Run([], hasher) == INITIAL;
  }

  lemma NoAccountNoToken(table: Table<Value>, accounts: Accounts, namespace: string, id: string, now: int,
                         r: Result<string>)
    requires Encodes(table, accounts) && SlashFree(namespace) && SlashFree(id) && (namespace, id) !in accounts
    requires RefreshLookup(table, namespace, id, now, true, r)
    ensures r == Failure(NOT_FOUND)
  {
    if k :| Live(table, k, now) && "refresh/" + namespace + "/" + id + "/" <= k {
      var t := BelowPrefix(table, accounts, namespace, id, k);
    }
  }

  /** From namespace "a" the token of an account in "ab" is found, and does not lead back. */
  lemma FoundFromShorterNamespace(hasher: Hasher, id: Result<string>, back: Result<string>)
    requires var s := Run(Once("ab", STRAY), hasher);
             IdLookup(s.state.table, "a", "t", s.now, true, id)
             && RefreshLookup(s.state.table, "a", "x", s.now, true, back)
    ensures ValidRun(Once("ab", STRAY), hasher) && id == Success("x") && back == Failure(NOT_FOUND)
  {
    OnceGenerates(hasher, "ab", STRAY);
    RunKeepsInv(Once("ab", STRAY), hasher);
    var s := Run(Once("ab", STRAY), hasher);
    FindsHolder(s.state.table, s.accounts, "a", s.now, ("ab", "x"), id);
    assert "a" <= "ab";
    NoAccountNoToken(s.state.table, s.accounts, "a", "x", s.now, back);
  }

  /** An account "default" of type "service": the visit caches nothing, however often it is made. */
  lemma ServiceBlocksDefault(hasher: Hasher, random: Random)
    requires SlashFree(random.token) && |random.token| > 0 && random.token != "t"
    ensures ValidRun(Once("n", BLOCKER), hasher)
    ensures var s := Run(Once("n", BLOCKER), hasher);
            && Enabled(s, Visit("n", random, ALL_UP))
            && Next(s, Visit("n", random, ALL_UP), hasher) == s && "n" !in s.state.namespaces
  {
    OnceGenerates(hasher, "n", BLOCKER);
    VisitCaches(Once("n", BLOCKER), hasher, "n", random, ALL_UP);
  }

  /** Accounts with the same id in the namespaces "ab" and "a". */
  const TWO: seq<Step> := Once("ab", STRAY) + [GenerateStep("a", STRAY, Random("", "", "u"), ALL_UP)]

  lemma TwoGenerates(hasher: Hasher)
    ensures ValidRun(TWO, hasher)
    ensures Run(TWO, hasher).accounts
            == map[("ab", "x") := Holder(NewAccount(STRAY, "ab", Random("", "", "t"), hasher), Some("t")),
                   ("a", "x") := Holder(NewAccount(STRAY, "a", Random("", "", "u"), hasher), Some("u"))]
  {
    OnceGenerates(hasher, "ab", STRAY);
    assert TWO[..1] == Once("ab", STRAY);
    RunKeepsInv(Once("ab", STRAY), hasher);
    var s := Run(Once("ab", STRAY), hasher);
    AccountStored(s.state.table, s.accounts, "a", "x", s.now);
  }

  /** The token of the account ("ab", "x"), sent from namespace "a", is answered with an access token
      for the account ("a", "x"). */
  lemma GrantsOtherAccount(hasher: Hasher, r: Result<Grant>)
    requires var s := Run(TWO, hasher);
             TokenOutcome(s.state.table, hasher, "a", TokenRequest("", "", "t"), s.now, true, true, r)
    ensures var accounts := Run(TWO, hasher).accounts;
            && ValidRun(TWO, hasher) && ("ab", "x") in accounts && ("a", "x") in accounts
            && accounts[("ab", "x")].token == Some("t")
            && r == Success(Grant(accounts[("a", "x")].account, "t"))
            && accounts[("a", "x")].account != accounts[("ab", "x")].account
  {
    TwoGenerates(hasher);
    assert "a" <= "ab";
    assert Finds(Run(TWO, hasher).accounts, "a", "t", ("ab", "x"));
    GrantByToken(TWO, hasher, "a", TokenRequest("", "", "t"), true, true, r);
  }
}
