/** What an account looks like and what `Token` answers, in the words of the requests. */
module AuthAnswers {
  import opened Wrappers
  import opened KeyStore
  import opened AuthSpec
  import opened AuthRuns
  import opened AuthLookups

  /** The account as requested, with the defaults filled in; its secret is a hash. */
  predicate AsRequested(account: Account, namespace: string, request: Request) {
    && account.id == request.id
    && account.issuer == namespace
    && account.kind == (if request.kind == "" then "user" else request.kind)
    && account.scopes == (if request.scopes == [] then ["namespace." + namespace] else request.scopes)
    && account.metadata == request.metadata
  }

  /** Generate, then sign in: the response and the account that both sign-ins reach at any later point
      are as requested. The response carries the requested secret, or the random one if none was
      requested, in the clear, and the account's secret matches it. */
  lemma SignedInAsRequested(steps: seq<Step>, n: nat, hasher: Hasher, id: string, secret: string, byId: Result<Grant>,
                            byToken: Result<Grant>)
    requires ValidRun(steps, hasher) && Lawful(hasher) && n < |steps|
    requires steps[n].GenerateStep? && |steps[n].random.secret| > 0
    requires var s, g := Run(steps[..n], hasher), steps[n];
             Generate(s.state.table, g.namespace, g.request, g.random, g.up, hasher, s.now).1.Success?
    requires var s, g := Run(steps[..n], hasher), steps[n];
             var response := Generate(s.state.table, g.namespace, g.request, g.random, g.up, hasher, s.now).1.value;
             var end := Run(steps, hasher);
             && TokenOutcome(end.state.table, hasher, g.namespace, TokenRequest(response.id, response.secret, ""),
                             end.now, true, true, byId)
             && (byId.Success? ==>
                   TokenOutcome(end.state.table, hasher, g.namespace, TokenRequest(id, secret, byId.value.refreshToken),
                                end.now, true, true, byToken))
    ensures var s, g := Run(steps[..n], hasher), steps[n];
            var response := Generate(s.state.table, g.namespace, g.request, g.random, g.up, hasher, s.now).1.value;
            && AsRequested(response, g.namespace, g.request)
            && response.secret == (if g.request.secret == "" then g.random.secret else g.request.secret)
            && byId.Success? && byToken == byId
            && AsRequested(byId.value.account, g.namespace, g.request)
            && hasher.matches(byId.value.account.secret, response.secret)
            && byId.value.refreshToken == g.random.token
  {
    SignIn(steps, n, hasher, id, secret, byId, byToken);
  }

  /** A visit that sets up the default account: at any later point "password" signs in to it, a user
      with the scope "admin". */
  lemma DefaultSignsIn(steps: seq<Step>, n: nat, hasher: Hasher, namespace: string, r: Result<Grant>)
    requires ValidRun(steps, hasher) && Lawful(hasher)
    requires CreatedAt(steps, n, hasher, (namespace, "default")) && steps[n].Visit? && steps[n].up.tokenWrite
    requires var s, request := Run(steps, hasher), TokenRequest("default", "password", "");
             TokenOutcome(s.state.table, hasher, namespace, request, s.now, true, true, r)
    ensures r.Success? && r.value.refreshToken == steps[n].random.token
    ensures AsRequested(r.value.account, namespace, Request("default", "user", "password", ["admin"], map[]))
  {
    var p := (namespace, "default");
    AccountsStay(steps, n + 1, hasher);
    assert steps[..n + 1][..n] == steps[..n];
    RunKeepsInv(steps, hasher);
    var s := Run(steps, hasher);
    var salt := steps[n].random.salt;
    assert s.accounts[p].account.secret == hasher.hash("password", salt);
    assert hasher.matches(hasher.hash("password", salt), "password");
    ById(s.state.table, s.accounts, hasher, p, "password", s.now, r);
  }

  /** Only visits to the namespace itself create its default account by themselves. */
  lemma DefaultIsSetUp(steps: seq<Step>, n: nat, hasher: Hasher, p: (string, string))
    requires ValidRun(steps, hasher) && CreatedAt(steps, n, hasher, p) && steps[n].Visit?
    ensures p == (steps[n].namespace, "default") && !UserIn(Run(steps[..n], hasher).accounts, p.0)
  {
    AccountsStay(steps, n + 1, hasher);
    AccountsStay(steps, n, hasher);
    assert steps[..n + 1][..n] == steps[..n];
    RunKeepsInv(steps[..n], hasher);
    UsersFound(Run(steps[..n], hasher).state.table, Run(steps[..n], hasher).accounts, steps[n].namespace,
               Run(steps[..n], hasher).now);
  }

  /** Exactly which calls of `Generate` succeed, and how the others are refused. */
  lemma GenerateAnswers(steps: seq<Step>, hasher: Hasher, namespace: string, request: Request, random: Random, up: Up)
    requires ValidRun(steps, hasher) && SlashFree(namespace)
    ensures var s := Run(steps, hasher);
            var r := Generate(s.state.table, namespace, request, random, up, hasher, s.now).1;
            if request.id == "" || !up.read || (namespace, request.id) in s.accounts then r == Failure("bad request")
            else if !up.accountWrite || !up.tokenWrite then r == Failure("store error")
            else r.Success?
  {
    RunKeepsInv(steps, hasher);
    var s := Run(steps, hasher);
    AccountStored(s.state.table, s.accounts, namespace, request.id, s.now);
  }

  /** Every answer to an id and a secret: wrong credentials are a bad request, whatever else is missing
      is a store error. */
  lemma AnswersToSecret(steps: seq<Step>, hasher: Hasher, namespace: string, id: string, secret: string, readUp: bool,
                        providerUp: bool, r: Result<Grant>)
    requires ValidRun(steps, hasher) && SlashFree(namespace) && |id| > 0 && |secret| > 0
    requires var s, request := Run(steps, hasher), TokenRequest(id, secret, "");
             TokenOutcome(s.state.table, hasher, namespace, request, s.now, readUp, providerUp, r)
    ensures var accounts, p := Run(steps, hasher).accounts, (namespace, id);
            if !readUp then r == Failure("store error")
            else if !Accepts(accounts, hasher, p, secret) then r == Failure("bad request")
            else if accounts[p].token.None? || !providerUp then r == Failure("store error")
            else r == Success(Grant(accounts[p].account, accounts[p].token.value))
  {
    RunKeepsInv(steps, hasher);
    var s := Run(steps, hasher);
    AccountFound(s.state.table, s.accounts, namespace, id, s.now);
    GrantBySecret(steps, hasher, namespace, id, secret, readUp, providerUp, r);
    if readUp && Accepts(s.accounts, hasher, (namespace, id), secret) {
      assert HolderStored(s.state.table, (namespace, id), s.accounts[(namespace, id)]);
    }
  }

  /** An account of the caller's namespace for which the string is a refresh token. */
  predicate Holds(accounts: Accounts, namespace: string, request: string, p: (string, string)) {
    Finds(accounts, namespace, request, p) && (namespace, p.1) in accounts
  }

  /** Every answer to a refresh token: a string that leads to no account of the caller's namespace is
      a bad request, a store or provider that fails is a store error. */
  lemma AnswersToToken(steps: seq<Step>, hasher: Hasher, namespace: string, request: TokenRequest, readUp: bool,
                       providerUp: bool, r: Result<Grant>)
    requires ValidRun(steps, hasher) && SlashFree(namespace) && |request.refreshToken| > 0
    requires var s := Run(steps, hasher);
             TokenOutcome(s.state.table, hasher, namespace, request, s.now, readUp, providerUp, r)
    ensures var accounts := Run(steps, hasher).accounts;
            if !readUp then r == Failure("store error")
            else if forall p :: !Holds(accounts, namespace, request.refreshToken, p) then r == Failure("bad request")
            else if !providerUp then r == Failure("store error")
            else r.Success? && r.value.refreshToken == request.refreshToken
  {
    if readUp {
      RunKeepsInv(steps, hasher);
      var s := Run(steps, hasher);
      var l :| IdLookup(s.state.table, namespace, request.refreshToken, s.now, true, l) &&
        AfterIdLookup(s.state.table, namespace, request.refreshToken, s.now, true, providerUp, l, r);
      AnswersAfterLookup(s.state.table, s.accounts, namespace, request.refreshToken, s.now, providerUp, l, r);
    }
  }

  lemma AnswersAfterLookup(table: Table<Value>, accounts: Accounts, namespace: string, token: string, now: int,
                           providerUp: bool, l: Result<string>, r: Result<Grant>)
    requires Encodes(table, accounts) && SlashFree(namespace)
    requires IdLookup(table, namespace, token, now, true, l)
    requires AfterIdLookup(table, namespace, token, now, true, providerUp, l, r)
    ensures if forall p :: !Holds(accounts, namespace, token, p) then r == Failure("bad request")
            else if !providerUp then r == Failure("store error")
            else r.Success? && r.value.refreshToken == token
  {
    FindsAccount(table, accounts, namespace, token, now, l);
    if FindsNone(accounts, namespace, token) {
      assert forall p :: !Holds(accounts, namespace, token, p);
    } else {
      var q :| Finds(accounts, namespace, token, q);
      AccountFound(table, accounts, namespace, q.1, now);
      if p :| Holds(accounts, namespace, token, p) {
        assert l == Success(p.1) == Success(q.1);
      }
      if (namespace, q.1) in accounts {
        assert Holds(accounts, namespace, token, q);
      }
    }
  }

  /** A request with neither a refresh token nor both id and secret is a bad request. */
  lemma AnswersToNothing(table: Table<Value>, hasher: Hasher, namespace: string, request: TokenRequest, now: int,
                         readUp: bool, providerUp: bool, r: Result<Grant>)
    requires request.refreshToken == "" && (request.id == "" || request.secret == "")
    requires TokenOutcome(table, hasher, namespace, request, now, readUp, providerUp, r)
    ensures r == Failure("bad request")
  {
  }
}
