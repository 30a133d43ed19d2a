/** Runs of the auth handler. The store is shown to be an encoding of a plain map from
    (namespace, id) to an account and its refresh token; the handler's promises follow from it. */
module AuthRuns {
  import opened Wrappers
  import opened KeyStore
  import opened AuthSpec
  import Text

  /** An account and the refresh token that was stored for it. */
  datatype Holder = Holder(account: Account, token: Option<string>)

  type Accounts = map<(string, string), Holder>

  datatype System = System(now: int, state: State, accounts: Accounts)

  /** `Visit` is what `List` and `Token` do to the state: they set up the default account. */
  datatype Step =
    | Tick(duration: nat)
    | GenerateStep(namespace: string, request: Request, random: Random, up: Up)
    | Visit(namespace: string, random: Random, up: Up)

  const INITIAL: System := System(0, State(map[], {}), map[])

  ghost predicate Used(accounts: Accounts, token: string) {
    exists p :: p in accounts && accounts[p].token == Some(token)
  }

  /** Namespaces and ids have no slash; refresh tokens have none either and are never repeated. */
  ghost predicate Enabled(s: System, step: Step) {
    step.Tick? ||
    (&& SlashFree(step.namespace)
     && (step.GenerateStep? ==> SlashFree(step.request.id))
     && SlashFree(step.random.token) && |step.random.token| > 0
     && !Used(s.accounts, step.random.token))
  }

  /** Whether `Generate` gets as far as writing an account. */
  predicate Creates(table: Table<Value>, namespace: string, id: string, up: Up, now: int) {
    |id| > 0 && up.read && up.accountWrite && !Live(table, AccountKey(namespace, id), now)
  }

  function Record(accounts: Accounts, table: Table<Value>, namespace: string, request: Request, random: Random,
                  up: Up, hasher: Hasher, now: int): Accounts
  {
    if !Creates(table, namespace, request.id, up, now) then accounts
    else accounts[(namespace, request.id) :=
                    Holder(NewAccount(request, namespace, random, hasher),
                           if up.tokenWrite then Some(random.token) else None)]
  }

  ghost function Next(s: System, step: Step, hasher: Hasher): System {
    match step
    case Tick(duration) => s.(now := s.now + duration)
    case GenerateStep(namespace, request, random, up) =>
      s.(state := s.state.(table := Generate(s.state.table, namespace, request, random, up, hasher, s.now).0),
         accounts := Record(s.accounts, s.state.table, namespace, request, random, up, hasher, s.now))
    case Visit(namespace, random, up) =>
      s.(state := SetupDefault(s.state, namespace, random, up, hasher, s.now).0,
         accounts := if namespace in s.state.namespaces || !up.read || HasUser(s.state.table, namespace, s.now)
                     then s.accounts
                     else Record(s.accounts, s.state.table, namespace, DEFAULT_ACCOUNT, random, up, hasher, s.now))
  }

  ghost predicate ValidRun(steps: seq<Step>, hasher: Hasher) {
    steps != [] ==>
      ValidRun(steps[..|steps| - 1], hasher) && Enabled(Run(steps[..|steps| - 1], hasher), steps[|steps| - 1])
  }

  ghost function Run(steps: seq<Step>, hasher: Hasher): System {
    if steps == [] then INITIAL else Next(Run(steps[..|steps| - 1], hasher), steps[|steps| - 1], hasher)
  }

  predicate AccountKeyOf(p: (string, string), key: string) {
    key == AccountKey(p.0, p.1)
  }

  predicate TokenKeyOf(p: (string, string), h: Holder, key: string) {
    h.token.Some? && key == RefreshKey(p.0, p.1, h.token.value)
  }

  ghost predicate HolderStored(table: Table<Value>, p: (string, string), h: Holder) {
    && SlashFree(p.0) && SlashFree(p.1) && |p.1| > 0
    && h.account.id == p.1 && h.account.issuer == p.0
    && AccountKey(p.0, p.1) in table
    && table[AccountKey(p.0, p.1)] == Entry(AccountRecord(h.account), None)
    && (h.token.Some? ==>
          && SlashFree(h.token.value) && |h.token.value| > 0
          && RefreshKey(p.0, p.1, h.token.value) in table
          && table[RefreshKey(p.0, p.1, h.token.value)] == Entry(Empty, None))
  }

  ghost predicate AccountKeyUsed(accounts: Accounts, key: string) {
    exists p :: p in accounts && AccountKeyOf(p, key)
  }

  ghost predicate TokenKeyUsed(accounts: Accounts, key: string) {
    exists p :: p in accounts && TokenKeyOf(p, accounts[p], key)
  }

  /** The store holds these accounts with these tokens, and nothing else of either kind. */
  ghost predicate Encodes(table: Table<Value>, accounts: Accounts) {
    && (forall p :: p in accounts ==> HolderStored(table, p, accounts[p]))
    && (forall k :: k in table && "account/" <= k ==> AccountKeyUsed(accounts, k))
    && (forall k :: k in table && "refresh/" <= k ==> TokenKeyUsed(accounts, k))
    && (forall p, q :: p in accounts && q in accounts && p != q && accounts[p].token.Some? ==>
          accounts[p].token != accounts[q].token)
  }

  ghost predicate UserIn(accounts: Accounts, namespace: string) {
    exists p :: p in accounts && p.0 == namespace && accounts[p].account.kind == "user"
  }

  ghost predicate Inv(s: System) {
    && Encodes(s.state.table, s.accounts)
    && (forall n :: n in s.state.namespaces ==> UserIn(s.accounts, n))
  }

  lemma KeyShapes(namespace: string, id: string, token: string)
    ensures "account/" <= AccountKey(namespace, id) && !("refresh/" <= AccountKey(namespace, id))
    ensures "refresh/" <= RefreshKey(namespace, id, token) && !("account/" <= RefreshKey(namespace, id, token))
  {
    assert AccountKey(namespace, id)[0] == 'a' && RefreshKey(namespace, id, token)[0] == 'r';
  }

  lemma AccountKeyInjective(n: string, i: string, n': string, i': string)
    requires SlashFree(n) && SlashFree(n')
    ensures AccountKey(n, i) == AccountKey(n', i') <==> n == n' && i == i'
  {
    if AccountKey(n, i) == AccountKey(n', i') {
      assert n + ['/'] + i == AccountKey(n, i)[8..] == AccountKey(n', i')[8..] == n' + ['/'] + i';
      Text.CutAtFirst(n, n', i, i', '/');
    }
  }

  lemma RefreshKeyInjective(n: string, i: string, t: string, n': string, i': string, t': string)
    requires SlashFree(n) && SlashFree(n') && SlashFree(i) && SlashFree(i')
    ensures RefreshKey(n, i, t) == RefreshKey(n', i', t') <==> n == n' && i == i' && t == t'
  {
    if RefreshKey(n, i, t) == RefreshKey(n', i', t') {
      var x, x' := i + ['/'] + t, i' + ['/'] + t';
      assert n + ['/'] + x == RefreshKey(n, i, t)[8..] == RefreshKey(n', i', t')[8..] == n' + ['/'] + x';
      Text.CutAtFirst(n, n', x, x', '/');
      Text.CutAtFirst(i, i', t, t', '/');
    }
  }

  /** A refresh key splits into its namespace, id and token. */
  lemma RefreshKeyParts(n: string, i: string, t: string)
    requires SlashFree(n) && SlashFree(i) && SlashFree(t)
    ensures Part(RefreshKey(n, i, t), 2) == Success(i) && Part(RefreshKey(n, i, t), 3) == Success(t)
  {
    assert RefreshKey(n, i, t) == "refresh" + ['/'] + n + ['/'] + i + ['/'] + t;
    Text.SplitFour("refresh", n, i, t, '/');
  }

  /** The store after an account and, if `h.token` is set, its refresh token have been written. */
  function WithHolder(table: Table<Value>, p: (string, string), h: Holder): Table<Value> {
    var written := table[AccountKey(p.0, p.1) := Entry(AccountRecord(h.account), None)];
    if h.token.None? then written
    else written[RefreshKey(p.0, p.1, h.token.value) := Entry(Empty, None)]
  }

  ghost predicate CanAdd(table: Table<Value>, accounts: Accounts, p: (string, string), h: Holder) {
    && Encodes(table, accounts)
    && p !in accounts
    && SlashFree(p.0) && SlashFree(p.1) && |p.1| > 0
    && h.account.id == p.1 && h.account.issuer == p.0
    && (h.token.Some? ==> SlashFree(h.token.value) && |h.token.value| > 0 && !Used(accounts, h.token.value))
  }

  lemma OldHolderStays(table: Table<Value>, accounts: Accounts, p0: (string, string), h: Holder, p: (string, string))
    requires CanAdd(table, accounts, p0, h) && p in accounts
    ensures HolderStored(WithHolder(table, p0, h), p, accounts[p])
  {
    assert HolderStored(table, p, accounts[p]);
    assert !(p.0 == p0.0 && p.1 == p0.1);
    AccountKeyInjective(p.0, p.1, p0.0, p0.1);
    var t0 := if h.token.Some? then h.token.value else "";
    var t := if accounts[p].token.Some? then accounts[p].token.value else "";
    KeyShapes(p.0, p.1, t);
    KeyShapes(p0.0, p0.1, t0);
    RefreshKeyInjective(p.0, p.1, t, p0.0, p0.1, t0);
  }

  lemma NewHolderStored(table: Table<Value>, accounts: Accounts, p0: (string, string), h: Holder)
    requires CanAdd(table, accounts, p0, h)
    ensures HolderStored(WithHolder(table, p0, h), p0, h)
  {
    KeyShapes(p0.0, p0.1, if h.token.Some? then h.token.value else "");
  }

  lemma KeysBelong(table: Table<Value>, accounts: Accounts, p0: (string, string), h: Holder, k: string)
    requires CanAdd(table, accounts, p0, h) && k in WithHolder(table, p0, h)
    ensures "account/" <= k ==> AccountKeyUsed(accounts[p0 := h], k)
    ensures "refresh/" <= k ==> TokenKeyUsed(accounts[p0 := h], k)
  {
    var after := accounts[p0 := h];
    KeyShapes(p0.0, p0.1, if h.token.Some? then h.token.value else "");
    if k == AccountKey(p0.0, p0.1) {
      assert p0 in after && AccountKeyOf(p0, k);
    } else if h.token.Some? && k == RefreshKey(p0.0, p0.1, h.token.value) {
      assert p0 in after && TokenKeyOf(p0, after[p0], k);
    } else if "account/" <= k {
      var p :| p in accounts && AccountKeyOf(p, k);
      assert p in after;
      assert !("refresh/" <= k) by { assert k[0] == 'a'; }
    } else if "refresh/" <= k {
      var p :| p in accounts && TokenKeyOf(p, accounts[p], k);
      assert p in after && after[p] == accounts[p];
    }
  }

  lemma AddHolder(table: Table<Value>, accounts: Accounts, p0: (string, string), h: Holder)
    requires CanAdd(table, accounts, p0, h)
    ensures Encodes(WithHolder(table, p0, h), accounts[p0 := h])
  {
    NewHolderStored(table, accounts, p0, h);
    forall p | p in accounts
      ensures HolderStored(WithHolder(table, p0, h), p, accounts[p])
    {
      OldHolderStays(table, accounts, p0, h, p);
    }
    forall k | k in WithHolder(table, p0, h)
      ensures "account/" <= k ==> AccountKeyUsed(accounts[p0 := h], k)
      ensures "refresh/" <= k ==> TokenKeyUsed(accounts[p0 := h], k)
    {
      KeysBelong(table, accounts, p0, h, k);
    }
  }

  lemma GenerateEncodes(table: Table<Value>, accounts: Accounts, namespace: string, request: Request, random: Random,
                        up: Up, hasher: Hasher, now: int)
    requires Encodes(table, accounts)
    requires SlashFree(namespace) && SlashFree(request.id) && SlashFree(random.token) && |random.token| > 0
    requires !Used(accounts, random.token)
    ensures var after := Record(accounts, table, namespace, request, random, up, hasher, now);
            && Encodes(Generate(table, namespace, request, random, up, hasher, now).0, after)
            && (forall p :: p in accounts ==> p in after && after[p] == accounts[p])
            && (Creates(table, namespace, request.id, up, now) ==> (namespace, request.id) !in accounts)
  {
    if Creates(table, namespace, request.id, up, now) {
      var p0 := (namespace, request.id);
      var h := Holder(NewAccount(request, namespace, random, hasher),
                      if up.tokenWrite then Some(random.token) else None);
      assert p0 !in accounts;
      AddHolder(table, accounts, p0, h);
    }
  }

  lemma AccountPrefix(namespace: string, n: string, i: string)
    requires SlashFree(namespace) && SlashFree(n)
    ensures "account/" + namespace + "/" <= AccountKey(n, i) <==> n == namespace
  {
    assert "account/" + namespace + "/" == "account/" + (namespace + ['/']);
    assert AccountKey(n, i) == "account/" + (n + ['/'] + i);
    Text.SharedFront("account/", namespace + ['/'], n + ['/'] + i);
    Text.ComponentPrefix(namespace, n, i, '/');
  }

  /** The accounts under the prefix of a namespace are the accounts of that namespace. */
  lemma UsersFound(table: Table<Value>, accounts: Accounts, namespace: string, now: int)
    requires Encodes(table, accounts) && SlashFree(namespace)
    ensures HasUser(table, namespace, now) <==> UserIn(accounts, namespace)
  {
    if HasUser(table, namespace, now) {
      var k :| k in table && Live(table, k, now) && "account/" + namespace + "/" <= k && IsUser(table[k].value);
      assert "account/" <= k by { assert k[..8] == ("account/" + namespace + "/")[..8]; }
      var p :| p in accounts && AccountKeyOf(p, k);
      assert HolderStored(table, p, accounts[p]);
      AccountPrefix(namespace, p.0, p.1);
      assert accounts[p].account.kind == "user";
    }
    if UserIn(accounts, namespace) {
      var p :| p in accounts && p.0 == namespace && accounts[p].account.kind == "user";
      UserIsFound(table, accounts, p, now);
    }
  }

  lemma UserIsFound(table: Table<Value>, accounts: Accounts, p: (string, string), now: int)
    requires Encodes(table, accounts) && p in accounts && accounts[p].account.kind == "user"
    ensures HasUser(table, p.0, now)
  {
    assert HolderStored(table, p, accounts[p]);
    AccountPrefix(p.0, p.0, p.1);
    assert IsUser(table[AccountKey(p.0, p.1)].value);
  }

  lemma UsersStay(accounts: Accounts, accounts': Accounts, namespace: string)
    requires UserIn(accounts, namespace) && Grows(accounts, accounts')
    ensures UserIn(accounts', namespace)
  {
    var p :| p in accounts && p.0 == namespace && accounts[p].account.kind == "user";
    assert p in accounts';
  }

  ghost predicate Grows(accounts: Accounts, accounts': Accounts) {
    forall p :: p in accounts ==> p in accounts' && accounts'[p] == accounts[p]
  }

  lemma VisitKeepsInv(s: System, namespace: string, random: Random, up: Up, hasher: Hasher)
    requires Inv(s) && Enabled(s, Visit(namespace, random, up))
    ensures var s' := Next(s, Visit(namespace, random, up), hasher);
            && Encodes(s'.state.table, s'.accounts)
            && Grows(s.accounts, s'.accounts)
            && (namespace in s'.state.namespaces ==> UserIn(s'.accounts, namespace))
  {
    var s' := Next(s, Visit(namespace, random, up), hasher);
    UsersFound(s.state.table, s.accounts, namespace, s.now);
    GenerateEncodes(s.state.table, s.accounts, namespace, DEFAULT_ACCOUNT, random, up, hasher, s.now);
    if namespace !in s.state.namespaces && namespace in s'.state.namespaces && !UserIn(s.accounts, namespace) {
      var p := (namespace, "default");
      assert p in s'.accounts && s'.accounts[p].account.kind == "user";
    }
  }

  lemma StepKeepsEncoding(s: System, step: Step, hasher: Hasher)
    requires Inv(s) && Enabled(s, step)
    ensures Encodes(Next(s, step, hasher).state.table, Next(s, step, hasher).accounts)
    ensures Grows(s.accounts, Next(s, step, hasher).accounts)
  {
    match step {
      case Tick(_) =>
      case GenerateStep(namespace, request, random, up) =>
        GenerateEncodes(s.state.table, s.accounts, namespace, request, random, up, hasher, s.now);
      case Visit(namespace, random, up) =>
        VisitKeepsInv(s, namespace, random, up, hasher);
    }
  }

  lemma StepKeepsInv(s: System, step: Step, hasher: Hasher)
    requires Inv(s) && Enabled(s, step)
    ensures Inv(Next(s, step, hasher)) && Grows(s.accounts, Next(s, step, hasher).accounts)
  {
    StepKeepsEncoding(s, step, hasher);
    forall n | n in Next(s, step, hasher).state.namespaces
      ensures UserIn(Next(s, step, hasher).accounts, n)
    {
      StepKeepsUsers(s, step, hasher, n);
    }
  }

  lemma StepKeepsUsers(s: System, step: Step, hasher: Hasher, namespace: string)
    requires Inv(s) && Enabled(s, step) && namespace in Next(s, step, hasher).state.namespaces
    ensures UserIn(Next(s, step, hasher).accounts, namespace)
  {
    StepKeepsEncoding(s, step, hasher);
    if namespace in s.state.namespaces {
      UsersStay(s.accounts, Next(s, step, hasher).accounts, namespace);
    } else {
      VisitKeepsInv(s, step.namespace, step.random, step.up, hasher);
    }
  }

  lemma {:induction false} RunKeepsInv(steps: seq<Step>, hasher: Hasher)
    requires ValidRun(steps, hasher)
    ensures Inv(Run(steps, hasher))
  {
    if steps == [] {
    } else {
      RunKeepsInv(steps[..|steps| - 1], hasher);
      StepKeepsInv(Run(steps[..|steps| - 1], hasher), steps[|steps| - 1], hasher);
    }
  }

  lemma {:induction false} AccountsStay(steps: seq<Step>, n: nat, hasher: Hasher)
    requires ValidRun(steps, hasher) && n <= |steps|
    ensures ValidRun(steps[..n], hasher)
    ensures Grows(Run(steps[..n], hasher).accounts, Run(steps, hasher).accounts)
    decreases |steps|
  {
    if n == |steps| {
      assert steps[..n] == steps;
    } else {
      var front := steps[..|steps| - 1];
      assert front[..n] == steps[..n];
      AccountsStay(front, n, hasher);
      RunKeepsInv(front, hasher);
      StepKeepsInv(Run(front, hasher), steps[|steps| - 1], hasher);
    }
  }

  /** No account is ever overwritten: a record found under an account key at any point of a run
      is still there, unchanged, at every later point. */
  lemma NeverOverwritten(steps: seq<Step>, n: nat, hasher: Hasher, key: string)
    requires ValidRun(steps, hasher) && n <= |steps|
    requires key in Run(steps[..n], hasher).state.table && "account/" <= key
    ensures key in Run(steps, hasher).state.table
    ensures Run(steps, hasher).state.table[key] == Run(steps[..n], hasher).state.table[key]
  {
    AccountsStay(steps, n, hasher);
    RunKeepsInv(steps[..n], hasher);
    RunKeepsInv(steps, hasher);
    var early, late := Run(steps[..n], hasher), Run(steps, hasher);
    var p :| p in early.accounts && AccountKeyOf(p, key);
    assert HolderStored(early.state.table, p, early.accounts[p]);
    assert HolderStored(late.state.table, p, late.accounts[p]);
  }

  predicate NonFailing(steps: seq<Step>) {
    forall step :: step in steps && !step.Tick? ==> step.up == Up(true, true, true)
  }

  lemma {:induction false} EveryAccountHasToken(steps: seq<Step>, hasher: Hasher)
    requires ValidRun(steps, hasher) && NonFailing(steps)
    ensures forall p :: p in Run(steps, hasher).accounts ==> Run(steps, hasher).accounts[p].token.Some?
  {
    if steps == [] {
    } else {
      var front := steps[..|steps| - 1];
      assert forall step :: step in front ==> step in steps;
      EveryAccountHasToken(front, hasher);
      assert steps[|steps| - 1] in steps;
    }
  }

  /** An account never has two refresh tokens, and while the store does not fail it has one. */
  lemma ExactlyOneToken(steps: seq<Step>, hasher: Hasher, namespace: string, id: string)
    requires ValidRun(steps, hasher) && SlashFree(namespace) && SlashFree(id)
    requires AccountKey(namespace, id) in Run(steps, hasher).state.table
    ensures var table := Run(steps, hasher).state.table;
            && (forall t, t' ::
                  RefreshKey(namespace, id, t) in table && RefreshKey(namespace, id, t') in table ==> t == t')
            && (NonFailing(steps) ==> exists t :: RefreshKey(namespace, id, t) in table)
  {
    RunKeepsInv(steps, hasher);
    var s := Run(steps, hasher);
    var p :| p in s.accounts && AccountKeyOf(p, AccountKey(namespace, id));
    assert HolderStored(s.state.table, p, s.accounts[p]);
    AccountKeyInjective(namespace, id, p.0, p.1);
    forall t | RefreshKey(namespace, id, t) in s.state.table
      ensures s.accounts[p].token == Some(t)
    {
      TokenKeyBelongs(s.state.table, s.accounts, namespace, id, t);
    }
    if NonFailing(steps) {
      EveryAccountHasToken(steps, hasher);
      assert RefreshKey(namespace, id, s.accounts[p].token.value) in s.state.table;
    }
  }

  lemma TokenKeyBelongs(table: Table<Value>, accounts: Accounts, namespace: string, id: string, t: string)
    requires Encodes(table, accounts) && SlashFree(namespace) && SlashFree(id)
    requires RefreshKey(namespace, id, t) in table
    ensures (namespace, id) in accounts && accounts[(namespace, id)].token == Some(t)
  {
    KeyShapes(namespace, id, t);
    var p :| p in accounts && TokenKeyOf(p, accounts[p], RefreshKey(namespace, id, t));
    assert HolderStored(table, p, accounts[p]);
    RefreshKeyInjective(namespace, id, t, p.0, p.1, accounts[p].token.value);
  }

  /** Every namespace in the cache has an account of type "user". */
  lemma CachedNamespacesHaveUsers(steps: seq<Step>, hasher: Hasher, namespace: string)
    requires ValidRun(steps, hasher) && namespace in Run(steps, hasher).state.namespaces
    ensures exists id ::
              && AccountKey(namespace, id) in Run(steps, hasher).state.table
              && IsUser(Run(steps, hasher).state.table[AccountKey(namespace, id)].value)
  {
    RunKeepsInv(steps, hasher);
    var s := Run(steps, hasher);
    var p :| p in s.accounts && p.0 == namespace && s.accounts[p].account.kind == "user";
    assert HolderStored(s.state.table, p, s.accounts[p]);
    assert AccountKey(namespace, p.1) in s.state.table;
  }

  /** What the handler's methods rely on: only accounts lie under the account prefix. */
  lemma StoreIsTyped(steps: seq<Step>, hasher: Hasher, key: string)
    requires ValidRun(steps, hasher) && key in Run(steps, hasher).state.table && "account/" <= key
    ensures Run(steps, hasher).state.table[key].value.AccountRecord?
  {
    RunKeepsInv(steps, hasher);
    var s := Run(steps, hasher);
    var p :| p in s.accounts && AccountKeyOf(p, key);
    assert HolderStored(s.state.table, p, s.accounts[p]);
  }
}
