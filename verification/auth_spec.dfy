/** The auth handler's accounts and refresh tokens, as records under `account/<ns>/<id>` and
    `refresh/<ns>/<id>/<token>`, and what each handler call does to them. */
module AuthSpec {
  import opened Wrappers
  import opened KeyStore
  import Text

  /** `secret` holds the hashed secret. */
  datatype Account = Account(id: string, kind: string, scopes: seq<string>, metadata: map<string, string>,
                             issuer: string, secret: string)

  datatype Value = AccountRecord(account: Account) | Empty

  /** The password hash: `matches` accepts the secret that was hashed, whatever the salt. */
  datatype Hasher = Hasher(hash: (string, string) -> string, matches: (string, string) -> bool)

  ghost predicate Lawful(h: Hasher) {
    forall secret, salt :: h.matches(h.hash(secret, salt), secret)
  }

  datatype Request = Request(id: string, kind: string, secret: string, scopes: seq<string>,
                             metadata: map<string, string>)

  /** The random values that one `Generate` draws. */
  datatype Random = Random(secret: string, salt: string, token: string)

  /** Which accesses to the store succeed during a call. */
  datatype Up = Up(read: bool, accountWrite: bool, tokenWrite: bool)

  const DEFAULT_ACCOUNT: Request := Request("default", "user", "password", ["admin"], map[])
  const NOT_FOUND: string := "not found"
  const STORE_ERROR: string := "store error"
  const BAD_REQUEST: string := "bad request"

  function AccountKey(namespace: string, id: string): string {
    "account/" + namespace + "/" + id
  }

  function RefreshKey(namespace: string, id: string, token: string): string {
    "refresh/" + namespace + "/" + id + "/" + token
  }

  predicate SlashFree(s: string) {
    '/' !in s
  }

  /** The request after its defaults have been set. */
  function Completed(request: Request, namespace: string, random: Random): Request {
    request.(kind := if |request.kind| == 0 then "user" else request.kind,
             secret := if |request.secret| == 0 then random.secret else request.secret,
             scopes := if |request.scopes| == 0 then ["namespace." + namespace] else request.scopes)
  }

  function NewAccount(request: Request, namespace: string, random: Random, hasher: Hasher): Account {
    var r := Completed(request, namespace, random);
    Account(r.id, r.kind, r.scopes, r.metadata, namespace, hasher.hash(r.secret, random.salt))
  }

  /** `Generate`: the new contents of the store, and the account in the response, which carries
      the secret in the clear. A store that cannot be read counts as "already exists". */
  function Generate(table: Table<Value>, namespace: string, request: Request, random: Random, up: Up, hasher: Hasher,
                    now: int)
    : (Table<Value>, Result<Account>)
  {
    var key := AccountKey(namespace, request.id);
    if |request.id| == 0 || !up.read || Live(table, key, now) then (table, Failure(BAD_REQUEST))
    else if !up.accountWrite then (table, Failure(STORE_ERROR))
    else
      var account := NewAccount(request, namespace, random, hasher);
      var written := Put(table, key, AccountRecord(account), 0, now);
      if !up.tokenWrite then (written, Failure(STORE_ERROR))
      else (Put(written, RefreshKey(namespace, request.id, random.token), Empty, 0, now),
            Success(account.(secret := Completed(request, namespace, random).secret)))
  }

  predicate IsUser(value: Value) {
    value.AccountRecord? && value.account.kind == "user"
  }

  ghost predicate HasUser(table: Table<Value>, namespace: string, now: int) {
    exists k :: k in table && Live(table, k, now) && "account/" + namespace + "/" <= k && IsUser(table[k].value)
  }

  /** The handler's state: the store and the namespaces known to have a user. */
  datatype State = State(table: Table<Value>, namespaces: set<string>)

  /** `setupDefaultAccount`: the new state, and whether it succeeded. */
  ghost function SetupDefault(s: State, namespace: string, random: Random, up: Up, hasher: Hasher, now: int)
    : (State, bool)
  {
    if namespace in s.namespaces then (s, true)
    else if !up.read then (s, false)
    else if HasUser(s.table, namespace, now) then (State(s.table, s.namespaces + {namespace}), true)
    else
      var (table, r) := Generate(s.table, namespace, DEFAULT_ACCOUNT, random, up, hasher, now);
      if r.Failure? then (State(table, s.namespaces), false)
      else (State(table, s.namespaces + {namespace}), true)
  }

  /** What `refreshTokenForAccount` may return. */
  ghost predicate RefreshLookup(table: Table<Value>, namespace: string, id: string, now: int, readUp: bool,
                                r: Result<string>)
  {
    var prefix := "refresh/" + namespace + "/" + id + "/";
    if !readUp then r == Failure(STORE_ERROR)
    else if !exists k :: Live(table, k, now) && prefix <= k then r == Failure(NOT_FOUND)
    else exists k :: Live(table, k, now) && prefix <= k && r == Part(k, 3)
  }

  /** A key's component, if the key has the four components of a refresh key. */
  function Part(key: string, i: nat): Result<string>
    requires i < 4
  {
    var comps := Text.Split(key, '/');
    if |comps| != 4 then Failure(NOT_FOUND) else Success(comps[i])
  }

  /** The keys that `accountIDForRefreshToken` looks at: those that begin with "refresh/<ns>",
      without a separator behind it, and end in "/<token>". */
  predicate TokenCandidate(table: Table<Value>, namespace: string, token: string, now: int, key: string) {
    Live(table, key, now) && "refresh/" + namespace <= key && Text.HasSuffix(key, "/" + token)
  }

  /** What `accountIDForRefreshToken` may return. */
  ghost predicate IdLookup(table: Table<Value>, namespace: string, token: string, now: int, readUp: bool,
                           r: Result<string>)
  {
    if !readUp then r == Failure(STORE_ERROR)
    else if !exists k :: TokenCandidate(table, namespace, token, now, k) then r == Failure(NOT_FOUND)
    else exists k :: TokenCandidate(table, namespace, token, now, k) && r == Part(k, 2)
  }

  datatype TokenRequest = TokenRequest(id: string, secret: string, refreshToken: string)

  /** The account that the access token was made for, and the refresh token in the response. */
  datatype Grant = Grant(account: Account, refreshToken: string)

  function AccountAt(table: Table<Value>, namespace: string, id: string, now: int): Option<Account> {
    var key := AccountKey(namespace, id);
    if Live(table, key, now) && table[key].value.AccountRecord? then Some(table[key].value.account) else None
  }

  /** The answer to a refresh token for which the lookup returned `l`. */
  ghost predicate AfterIdLookup(table: Table<Value>, namespace: string, refreshToken: string, now: int,
                                readUp: bool, providerUp: bool, l: Result<string>, r: Result<Grant>)
  {
    if l.Failure? then r == Failure(if l.error == NOT_FOUND then BAD_REQUEST else STORE_ERROR)
    else if !readUp then r == Failure(STORE_ERROR)
    else
      var account := AccountAt(table, namespace, l.value, now);
      if account.None? then r == Failure(BAD_REQUEST)
      else if !providerUp then r == Failure(STORE_ERROR)
      else r == Success(Grant(account.value, refreshToken))
  }

  /** The answer to a correct secret for which the lookup of the refresh token returned `l`. */
  ghost predicate AfterRefreshLookup(account: Account, providerUp: bool, l: Result<string>, r: Result<Grant>) {
    if l.Failure? || !providerUp then r == Failure(STORE_ERROR) else r == Success(Grant(account, l.value))
  }

  /** What `Token` may answer once the default account has been seen to. */
  ghost predicate TokenOutcome(table: Table<Value>, hasher: Hasher, namespace: string, request: TokenRequest, now: int,
                               readUp: bool, providerUp: bool, r: Result<Grant>)
  {
    if (|request.id| == 0 || |request.secret| == 0) && |request.refreshToken| == 0 then r == Failure(BAD_REQUEST)
    else if |request.refreshToken| > 0 then
      exists l :: IdLookup(table, namespace, request.refreshToken, now, readUp, l) &&
        AfterIdLookup(table, namespace, request.refreshToken, now, readUp, providerUp, l, r)
    else if !readUp then r == Failure(STORE_ERROR)
    else
      var account := AccountAt(table, namespace, request.id, now);
      if account.None? || !hasher.matches(account.value.secret, request.secret) then r == Failure(BAD_REQUEST)
      else
        exists l :: RefreshLookup(table, namespace, account.value.id, now, readUp, l) &&
          AfterRefreshLookup(account.value, providerUp, l, r)
  }
}
