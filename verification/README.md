# Verified models of the micro services' stateful handlers

This project models, in Dafny 4.11, the parts of the repository that keep state and that promise
something about it: the runtime manager, the auth, trace, registry and store handlers, store
snapshots, the request counters, the endpoint printer and the API routes. Handlers that change
their fields are classes; each of their methods is proved against a function of the old state. The
promises are then proved about these functions, for every input, every run or every reachable
state. `dafny verify dfyconfig.toml` verifies everything.

## How the model is built

- `store.dfy` is the keyed, expiring store. Its code is not in the repository, so its behaviour is
  an assumption: a record can be read until its deadline and not at it or later; an expiry of zero
  means never; a prefix read returns every live key with the prefix, once, in an arbitrary order,
  and nothing instead of an error when there is none; deleting a missing key is not an error.
- `text.dfy` has Go's `Split`, `Join`, prefix and suffix tests, and the lemmas about taking keys
  apart again. Lemmas about keys require their components to be free of the separator.
- Runtime manager: `runtime_model.dfy` (records and keys), `environment.dfy`, `manager_spec.dfy`
  (each operation as a function), `manager.dfy` (the class), `manager_reads.dfy` (what is read
  back), `manager_protocol.dfy` (runs of any number of managers), `manager_delivery.dfy` (which
  events are handed over), `manager_interleaving.dfy` (calls that interleave),
  `manager_convergence.dfy` (when a runtime agrees with the store), `manager_schedule.dfy` (the
  same, read off the schedule alone) and `manager_requests.dfy` (every field of a request on its way
  to the runtime and to the reader).
- Auth: `auth_spec.dfy`, `auth.dfy` (the class), `auth_runs.dfy` (runs; the store as an encoding of
  a map from accounts to tokens), `auth_lookups.dfy` (signing in), `auth_answers.dfy` (what accounts
  look like and every answer of `Token`) and `auth_interleaving.dfy` (calls of `Generate` that
  interleave).
- `trace_spec.dfy`, `trace.dfy` and `trace_answers.dfy`, `endpoint.dfy`, `snapshot.dfy`, `stats.dfy`, `registry.dfy`,
  `store_index.dfy`, `routes.dfy`: one component each.

Failures of the store, of the managed runtime and of the token provider, clocks, random values, the
arrival order of answers and what a runtime reports are parameters of the calls. Go's map orders and
the order of store listings are arbitrary choices in the loops. JSON is lossless. A manager is one
process lifetime, since its cache is in memory. Each handler call is one atomic step, with two
exceptions. Handling one event is atomic in `manager_protocol.dfy` and split into its four accesses
in `manager_interleaving.dfy`: the check for a marker, the read of the event, the call of the
runtime, and the write of status and marker. `Generate` is atomic in `auth_runs.dfy` and split into
its three accesses in `auth_interleaving.dfy`: the look for the account and the two writes.

## What the code does not do

Some promises hold only under a condition. These are proved with the condition, exactly where it is
an equivalence. Components of keys are free of the separator throughout, and lookups can read the
store unless its failure is mentioned.

- A runtime agrees with the stored services exactly if, for each service, the last create or delete
  that it accepted is a create just when the last one written to the store is
  (`RuntimeAgreesExactly`); which ones it accepts is decided by the first turn at each event within
  its lifetime (`RuntimeAgreesBySchedule`). A service whose event could
  not be published stays stored and can stay unknown to the runtime (`UnpublishedIsMissed`). If every write succeeds, handling each
  service's events in publication order suffices (`RuntimeMatchesStore`), but polling
  lists events in an arbitrary order: `OrderMatters` is a run in which every event is handled once
  and successfully, and a deleted service keeps running.
- A manager hands an event to its runtime at most once exactly if no two of its calls for that event
  that reach the runtime overlap (`AtMostOnceIffNoOverlap`). The code does not prevent such
  overlaps: `HandedOverTwice` is a run with one, and `OverlapRepeats` gives one from every state in
  which an event waits. With atomic calls it is at most once in every run (`AtMostOnce`).
- `accountIDForRefreshToken` lists the prefix "refresh/<namespace>" without a trailing separator.
  It finds a token from every namespace whose name is a prefix of the token's own namespace, so
  going from a token to an id and back returns to the token exactly in the token's own namespace
  (`TokenAccountToken`; `FoundFromShorterNamespace` is a run with the namespaces "a" and "ab"). If
  both namespaces have that id, `Token` answers for the caller's account (`GrantsOtherAccount`).
- The same function compares the end of a key, so besides a token it also takes the token behind its
  account's id, or behind its namespace and id. `UnknownToken` and `GrantByToken` say for every
  string what is found and granted; `JoinedTokenIsFound` shows strings that no account holds.
- A visit by `List` or `Token` leaves a namespace cached exactly when it was cached before, or its
  accounts can be read and it has a user, or its id "default" is free and both writes of the default
  account succeed (`VisitCaches`). An account "default" of another type blocks the default account
  (`ServiceBlocksDefault` is such a run).
- With atomic calls an account has a refresh token exactly if the token write succeeded when it was
  generated (`TokenIffWritten`). Without one it is locked out for good: no secret is accepted, and
  its id cannot be generated again (`LockedOut`).
- An account is overwritten exactly if two calls of `Generate` that write it overlap
  (`OverwrittenIffOverlap`); otherwise it keeps its record and at most one refresh token. The code
  locks only the set-up of default accounts: `OverlapReplaces` gives an overlap from every state in
  which an id is free, `ReplacedAccount` is such a run. With atomic calls no account is ever
  overwritten (`NeverOverwritten`).
- A restored record keeps the fields of earlier records where its own are empty. The round trip is
  lossless exactly when no empty field follows a set one, if no record is restored exactly at a saved
  deadline (`RoundTrip`; `ComesBackExactly` has the condition for each record at any time). A record
  that never expires comes back with the deadline of an earlier one that does
  (`DeadlineIsInherited`).
- A database or table is listed exactly when the writes at its first request succeeded: a failed
  `New` is ignored and not repeated (`ListingsAreExact`, `FailedNewIsNotRepeated`).
- On clean paths on which `proxyRoute` finds a service, `apiRoute` names the same one exactly for the
  shapes in `RoutesAgree`; for the path /v1/foo it does not (`VersionedPairDiffers`).
- A manager that is stopped and started again launches its two background loops once more, beside
  the earlier ones (`Manager.Start`).
- `readServices` matches versions by prefix, failed runtime calls are marked consumed like
  successful ones, and `filterServiceSpans` repeats spans (`BurstRepeats` says how often).
- The endpoint printer needs less for unique reading than one might expect: labels without a space
  that do not begin with a tab, and types without a newline. A type may end in " {". With a space in
  a label it is ambiguous (`SpacesAreAmbiguous`).

Where comments and code disagree the model follows the code: the comment on service keys shows
slashes and the code writes colons (service/runtime/manager/services.go:24-28), and the comment on
the routes names a service "go.micro.api.foo" where the code returns "foo"
(internal/resolver/api/route.go:14-16).

## Model

| member | source | states |
|---|---|---|
| RuntimeModel.KeysInjective | service/runtime/manager/services.go:24-28 | for colon-free parts, two services share a service key, or a status key, exactly when they are the same |
| RuntimeModel.ServiceKeySplits | service/runtime/manager/services.go:88-95 | a service key splits back into prefix, namespace, name and version |
| RuntimeModel.ServicesPrefixMeaning | service/runtime/manager/services.go:44-51 | the prefix built by readServices covers exactly the services of the namespace, of the name if given, whose version starts with the given one; without a name the version is ignored |
| RuntimeModel.StatusPrefixMeaning | service/runtime/manager/status.go:83-84 | the prefix of listStatuses covers exactly the statuses of that namespace |
| RuntimeModel.PrefixesDisjoint | service/runtime/manager/events.go:22-23 | no key is both an event key and a service or status key, whatever its components |
| Environment.RuntimeEnv | service/runtime/manager/events.go:137-170 | one assignment for each variable that should be set and no other; namespace over profile over request, the last assignment in a list wins, values keep their '=' |
| Environment.SetEnv | service/runtime/manager/events.go:138-146 | each variable has its last assignment in the list, or its old value; entries without '=' are skipped |
| Environment.SplitIsParse | service/runtime/manager/events.go:139-144 | splitting at every '=' and joining the rest again is reading the assignment at its first '=' |
| Environment.NamespaceIsSet | service/runtime/manager/events.go:157-160 | the namespace of the request is in MICRO_AUTH_NAMESPACE, whatever else assigns that |
| Environment.ProfileIsSet | service/runtime/manager/events.go:154-155 | the last assignment of each other variable in the profile is set, whatever the request assigns |
| Environment.RequestIsSet | service/runtime/manager/events.go:151-152 | the last assignment in the request is set if the profile does not assign the variable |
| Environment.NothingElseAssigned | service/runtime/manager/events.go:137-169 | every entry is one of the inputs', and no variable is assigned twice |
| RuntimeManager.Manager.ProcessEvent | service/runtime/manager/events.go:79-134 | the exact new cache and runtime calls for every branch: consumed before, store down, record gone, accepted, refused; the environment of a create |
| RuntimeManager.Manager.PollEvents | service/runtime/manager/events.go:55-74 | one pass lists every live event once and handles the listed keys in turn |
| RuntimeManager.Manager.PublishEvent | service/runtime/manager/events.go:26-51 | the event record under "event/" and its id, expiring 600 seconds later, or nothing and an error |
| RuntimeManager.Manager.Create | service/runtime/manager/manager.go:17-42 | defaults, then the service record, then the event; what a failure of either write leaves behind |
| RuntimeManager.Manager.Update | service/runtime/manager/manager.go:82-99 | only an event is published, the service record stays |
| RuntimeManager.Manager.Delete | service/runtime/manager/manager.go:102-124 | the service record goes, then the event is published; what a failure leaves behind |
| RuntimeManager.Manager.Start | service/runtime/manager/manager.go:127-147 | only a manager that is not running starts its runtime, and it counts as running even if that fails; the two watching loops are launched exactly when the runtime was started |
| RuntimeManager.Manager.Stop | service/runtime/manager/manager.go:150-157 | a manager that is not running does not stop its runtime |
| RuntimeManager.Manager.CacheStatus | service/runtime/manager/status.go:63-79 | a service without metadata is refused and changes nothing, any other sets its status |
| RuntimeManager.Manager.ReadServices | service/runtime/manager/services.go:44-70 | the stored services under the prefix, one for each key |
| RuntimeManager.Manager.Unique | service/runtime/manager/services.go:103-113 | the first occurrence of each entry, in order: the same entries without repetition |
| RuntimeManager.FirstsStayInFront | service/runtime/manager/services.go:103-113 | what has occurred first stays in front, whatever entries follow |
| RuntimeManager.Manager.ListNamespaces | service/runtime/manager/services.go:79-99 | succeeds exactly when every stored key has four parts; then each namespace once, or the default one if nothing is stored |
| RuntimeManager.Manager.ListStatuses | service/runtime/manager/status.go:83-106 | succeeds exactly when every status key of the namespace has four parts; then it answers for each service of the namespace what is cached for it, and nothing from another namespace |
| RuntimeManager.Manager.SyncStatus | service/runtime/manager/status.go:38-59 | the cache after visiting the stored namespaces in some order, stopping at the first error |
| RuntimeManager.Manager.Read | service/runtime/manager/manager.go:45-79 | for any store: fails exactly if the store is down, a status key has not four parts, or a listed service with a status has no metadata; otherwise each stored service with the status filed under its name and version, which for stores that Create has filled is its own |
| ManagerReads.ReadServicesExact | service/runtime/manager/services.go:44-70 | a listing finds exactly the matching stored services, each once |
| ManagerReads.NamespacesOfStored | service/runtime/manager/services.go:79-99 | on stores that Create has filled every key has four parts, and the second parts are the namespaces of the stored services |
| ManagerReads.SyncTakesLastReports | service/runtime/manager/status.go:38-79 | after a sync without errors each status is the runtime's last report in that service's namespace, or unchanged if there was none |
| ManagerReads.ReadAfterSync | service/runtime/manager/manager.go:62-76 | sync then read shows the last reported status and error of each stored service, taken from its own namespace |
| ManagerReads.SyncKeepsMarkers | service/runtime/manager/status.go:63-79 | syncing, complete or not, never touches the markers of consumed events |
| ManagerReads.StatusAfterProcessing | service/runtime/manager/events.go:122-129 | which status each service has after an event: after a refusal the error and the runtime's message, which the next read shows, else the event's own metadata, or the old one after an accepted delete; other services keep theirs |
| ManagerReads.StoredBeforePublished | service/runtime/manager/manager.go:35-123 | a published create finds its service record stored with metadata and defaults, a published delete finds it gone; without both writes nothing is published |
| ManagerReads.DeleteUndoesCreate | service/runtime/manager/manager.go:17-124 | deleting with the same arguments undoes creating, with the same default namespace and version |
| ManagerRequests.CreateIsHandedOver | service/runtime/manager/events.go:79-119 | in every run the create call for a published request has the request's name, metadata, image, type, command, arguments and environment list, each in its own place, and its version and namespace or the defaults |
| ManagerRequests.UpdateIsHandedOver | service/runtime/manager/events.go:79-119 | in every run an update call has the request's name, metadata, version and namespace or the defaults, and nothing to launch |
| ManagerRequests.DeleteIsHandedOver | service/runtime/manager/events.go:79-119 | in every run a delete call has the request's name, metadata, version and namespace or the defaults, and nothing to launch |
| ManagerRequests.AnswerOfTurn | service/runtime/manager/events.go:107-129 | every call was made at a turn at its event, and is noted with the runtime's answer there |
| ManagerRequests.CreateStores | service/runtime/manager/manager.go:17-38 | after a successful service write the record under the key spelled out from the request has every field of the request, the defaults only where nothing is given, and never expires |
| ManagerRequests.CreatedIsRead | service/runtime/manager/manager.go:17-79 | in every run, until a later create or delete of the same key, every covering listing returns the service with the requested name, version and metadata; a cached status adds its two entries and changes no other |
| ManagerRequests.ListedNamespaces | service/runtime/manager/services.go:79-99 | on stores that Create has filled the namespaces of the stored services are listed, each once, and "go.micro" if nothing is stored |
| ManagerRequests.SyncStopsAtNamespace | service/runtime/manager/status.go:44-51 | a sync that gets no answer for a namespace keeps what it has written and goes no further |
| ManagerRequests.SyncStopsAtService | service/runtime/manager/status.go:52-66 | a sync that meets a service without metadata keeps what it has written and goes no further |
| ManagerProtocol.AtMostOnce | service/runtime/manager/events.go:79-134 | in every run of any number of managers with atomic calls, each manager hands each event to its runtime at most once, also after expiry and after failed calls |
| ManagerProtocol.StoreIsTyped | service/runtime/manager/events.go:33-47 | in every run only event records lie under the event prefix, and create events carry their options |
| ManagerProtocol.MarkerOutlivesEvent | service/runtime/manager/events.go:131-133 | while a handed-over event can still be read, its marker is there and expires at least ten minutes later |
| ManagerProtocol.ExactlyOnceAfterTurn | service/runtime/manager/events.go:79-134 | once a manager has had its turn at an event that still existed, it has handed it over exactly once, for the rest of the run |
| ManagerProtocol.PollingPass | service/runtime/manager/events.go:55-74 | one polling pass with other parties' steps in between: every listed event that still exists at its turn has been handed over exactly once |
| ManagerRequests.PollHandsOverAll | service/runtime/manager/events.go:55-74 | the loop of a polling pass, as a part of a run, hands over exactly once every listed event that can still be read at its turn |
| ManagerDelivery.ReadableUntilDeadline | service/runtime/manager/events.go:39-47 | in every run the record of a published event can be read exactly for ten minutes after its publication |
| ManagerDelivery.HandedOverIffTurn | service/runtime/manager/events.go:79-134 | a manager hands over a published event exactly once if it has a turn at it within ten minutes of the publication while it can read the store, and otherwise not at all |
| ManagerInterleaving.RepeatsOverlap | service/runtime/manager/events.go:79-134 | however calls interleave, two calls of one manager that both hand over the same event have overlapped: each checked for the marker before the other wrote it |
| ManagerInterleaving.AtMostOnceIffNoOverlap | service/runtime/manager/events.go:79-134 | a manager hands over an event at most once exactly if no two of its calls for it that reach the runtime overlap |
| ManagerInterleaving.OverlapRepeats | service/runtime/manager/events.go:79-134 | from every state of every run in which an event waits, two overlapping calls both hand it over |
| ManagerInterleaving.HandedOverTwice | service/runtime/manager/events.go:49-50 | a run in which one manager hands over one event twice |
| ManagerInterleaving.AtomicRunsInterleave | service/runtime/manager/events.go:79-134 | every run of atomic calls is a run of interleaved calls with the same outcome |
| ManagerConvergence.StoredByWrites | service/runtime/manager/manager.go:17-124 | in every run the stored services are what the successful creates and deletes leave, in order, whether or not their events were published |
| ManagerConvergence.RuntimeAgreesExactly | service/runtime/manager/manager.go:17-124 | whichever writes failed, a runtime runs exactly the stored services if and only if, for each service, the last create or delete it accepted is a create just when the last one written to the store is |
| ManagerConvergence.RuntimeAgreesWithEvents | service/runtime/manager/manager.go:17-124 | if every write succeeds, the same with the last create or delete published |
| ManagerConvergence.UnpublishedIsMissed | service/runtime/manager/manager.go:36-41 | a run in which a service is stored, its event is not published, and the runtime never learns of it |
| ManagerSchedule.CallsFollowSchedule | service/runtime/manager/events.go:79-134 | in every run the runtime calls of a manager are its first turns at the events within their lifetime, in order, a function of the schedule alone |
| ManagerSchedule.RuntimeAgreesBySchedule | service/runtime/manager/events.go:55-134 | the exact condition for agreement in terms of requests, time and turns: the answers at the first timely turns against the last successful writes |
| ManagerConvergence.RuntimeMatchesStore | service/runtime/manager/manager.go:17-124 | if every write succeeds, it agrees once its manager has handed over all published events, each service's in order and all successfully |
| ManagerConvergence.OrderMatters | service/runtime/manager/events.go:66-70 | a run in which all events are handled once and successfully, but a deleted service keeps running because its events were taken up in the other order |
| ManagerConvergence.ReadsWhatWasRequested | service/runtime/manager/services.go:44-70 | a listing finds exactly the matching services that their own successful creates and deletes, in order, leave in existence |
| ManagerConvergence.ReadSucceeds | service/runtime/manager/manager.go:28-79 | in runs of colon-free requests, whichever writes fail, Read meets no malformed key and no missing metadata |
| AuthHandler.Auth.Generate | service/auth/handler/auth/auth.go:126-188 | the exact records written and the response, for each validation and store failure |
| AuthHandler.Auth.SetRefreshToken | service/auth/handler/auth/auth.go:272-275 | one empty record under namespace, id and token, or a store error and no change |
| AuthHandler.Auth.SetupDefaultAccount | service/auth/handler/auth/auth.go:68-123 | the default account is generated exactly when the namespace is not cached and has no user; the cache is set only on success |
| AuthHandler.Auth.RefreshTokenForAccount | service/auth/handler/auth/auth.go:278-294 | the token component of a key under the account's prefix, or not found |
| AuthHandler.Auth.AccountIDForRefreshToken | service/auth/handler/auth/auth.go:297-315 | the id component of a key under the namespace's prefix that ends in the token, or not found |
| AuthHandler.Auth.Token | service/auth/handler/auth/auth.go:204-269 | which answers are possible for every combination of credentials, lookups and failures |
| AuthHandler.Auth.List | service/auth/handler/auth/accounts.go:16-44 | one account without its secret for each key under the namespace's prefix |
| AuthRuns.NeverOverwritten | service/auth/handler/auth/auth.go:140-177 | with atomic calls an account record never changes once it has been written |
| AuthRuns.ExactlyOneToken | service/auth/handler/auth/auth.go:168-182 | with atomic calls no account ever has two refresh tokens, and with a store that does not fail every account has one |
| AuthRuns.CachedNamespacesHaveUsers | service/auth/handler/auth/auth.go:68-123 | every cached namespace has an account of type "user" |
| AuthRuns.GenerateEncodes | service/auth/handler/auth/auth.go:126-188 | generating keeps the store an encoding of the map of accounts, and changes no other account |
| AuthRuns.StoreIsTyped | service/auth/handler/auth/auth.go:140-177 | in every run only accounts lie under the account prefix |
| AuthInterleaving.OverwrittenIffOverlap | service/auth/handler/auth/auth.go:139-177 | however calls of Generate interleave, an account is overwritten exactly if two calls that write it have overlapped |
| AuthInterleaving.KeptWithoutOverlap | service/auth/handler/auth/auth.go:139-177 | without such an overlap an account record never changes once it has been written |
| AuthInterleaving.OneTokenWithoutOverlap | service/auth/handler/auth/auth.go:174-182 | without such an overlap an account has at most one refresh token |
| AuthInterleaving.OverlapReplaces | service/auth/handler/auth/auth.go:139-182 | from every state of every run in which an id is free, two overlapping calls leave the account of the second and the tokens of both |
| AuthInterleaving.AtomicRunsInterleave | service/auth/handler/auth/auth.go:68-188 | every run of atomic calls is a run of interleaved calls with the same store |
| AuthLookups.AccountTokenAccount | service/auth/handler/auth/auth.go:278-315 | from an account to its token and back returns to the account, on every reachable store |
| AuthLookups.TokenAccountToken | service/auth/handler/auth/auth.go:297-315 | a token is found exactly from namespaces whose name is a prefix of its own, and leads back to itself exactly from its own |
| AuthLookups.UnknownToken | service/auth/handler/auth/auth.go:304-314 | for every string: not found exactly when the keys can be listed and it is no account's token, neither alone nor behind the account's id or its namespace and id, of an account whose namespace begins with the caller's |
| AuthLookups.JoinedTokenIsFound | service/auth/handler/auth/auth.go:304-310 | in every run a token behind its account's id, or behind its namespace and id, is found although no account holds that string |
| AuthLookups.FoundFromShorterNamespace | service/auth/handler/auth/auth.go:298-310 | a run in which the token of an account in "ab" is found from "a", and does not lead back |
| AuthLookups.GrantsOtherAccount | service/auth/handler/auth/auth.go:221-268 | a run in which the token of ("ab", "x"), sent from "a", is answered for the account ("a", "x") |
| AuthLookups.GrantBySecret | service/auth/handler/auth/auth.go:232-268 | access by id and secret is granted exactly when store and token provider work, the namespace has that account, the secret matches and a refresh token is stored; what is granted |
| AuthLookups.GrantByToken | service/auth/handler/auth/auth.go:221-268 | for every string: access is granted exactly when store and token provider work, it names the token of an account in the caller's or a longer-named namespace, alone or behind id or namespace and id, and that id exists in the caller's; what is granted |
| AuthLookups.SignIn | service/auth/handler/auth/auth.go:204-269 | generate, then sign in by id and secret, then by the returned token: any time later both reach the generated account in its namespace |
| AuthAnswers.SignedInAsRequested | service/auth/handler/auth/auth.go:126-269 | the response and the account that both sign-ins reach have the requested id, type or "user", scopes or the namespace scope, and metadata; the account's secret matches the response's, which is the requested or the random one |
| AuthAnswers.DefaultSignsIn | service/auth/handler/auth/auth.go:30-123 | at any point after a visit has set up the default account, "password" signs in to it: a user with the scope "admin" |
| AuthAnswers.DefaultIsSetUp | service/auth/handler/auth/auth.go:85-118 | a visit creates only the account "default" of its namespace, and only where there is no user |
| AuthAnswers.GenerateAnswers | service/auth/handler/auth/auth.go:126-188 | exactly which calls succeed, which are a bad request and which a store error |
| AuthAnswers.AnswersToSecret | service/auth/handler/auth/auth.go:204-269 | every answer to an id and a secret: wrong credentials are a bad request, a missing token, a store or a provider that fails a store error, otherwise the grant |
| AuthAnswers.AnswersToToken | service/auth/handler/auth/auth.go:204-269 | every answer to a refresh token: no account behind it in the caller's namespace is a bad request, a store or a provider that fails a store error, otherwise the same token again |
| AuthLookups.ListsNamespace | service/auth/handler/auth/accounts.go:20-25 | the keys under a namespace's prefix are exactly the accounts of that namespace |
| AuthLookups.VisitCaches | service/auth/handler/auth/auth.go:68-123 | whichever accesses fail, a visit leaves the namespace cached exactly when it was cached, or the read succeeds and it has a user, or the read succeeds, the id "default" is free and both writes succeed |
| AuthLookups.TokenIffWritten | service/auth/handler/auth/auth.go:174-182 | at every later point an account has the refresh token drawn when it was generated if that write succeeded, and otherwise none |
| AuthLookups.LockedOut | service/auth/handler/auth/auth.go:139-258 | an account whose token write failed is refused with every secret and cannot be generated again, at every later point |
| TraceHandler.GroupByTrace | service/debug/trace/handler/handler.go:45-55 | the groups hold the last-written span for each trace and id, and nothing else |
| TraceHandler.FilterServiceSpans | service/debug/trace/handler/handler.go:44-71 | for every map order, as a set, exactly the last-written spans of the traces in which a surviving span's name contains the service |
| TraceHandler.BurstRepeats | service/debug/trace/handler/handler.go:60-68 | how often the append inside the loop returns each span of a trace |
| TraceHandler.DedupeSpans | service/debug/trace/handler/handler.go:73-83 | for each id exactly one span, the last one |
| TraceHandler.SnapshotsToSpans | service/debug/trace/handler/handler.go:85-91 | all spans of all snapshots, in order |
| TraceHandler.Trace.Read | service/debug/trace/handler/handler.go:94-142 | the newest or all entries, by service or deduplicated, cut to the limit; a negative limit fails |
| TraceHandler.Trace.Scrape | service/debug/trace/handler/handler.go:171-296 | the ring after a scrape: unknown spans only, no empty snapshots, no blank entry |
| TraceSpec.EntriesDisjoint | service/debug/trace/handler/handler.go:184-295 | in every run of scrapes ring entries have disjoint span ids, nothing is empty, and the ring keeps its size |
| TraceSpec.CollectedIsComplete | service/debug/trace/handler/handler.go:231-281 | a scrape keeps exactly the reported spans whose ids were not in the ring |
| TraceHandler.OneSpanPerId | service/debug/trace/handler/handler.go:73-142 | reading the past without service and limit returns one span for each id in the ring, as many as the entries have ids together |
| TraceAnswers.NewestRead | service/debug/trace/handler/handler.go:94-142 | the default read after a scrape with new spans returns one span for each new id and no older one, and after any other scrape what it did before |
| TraceAnswers.RingHoldsNewest | service/debug/trace/handler/handler.go:284-295 | in every run the ring holds the newest scrapes that found something, up to its size, the newest one last |
| TraceAnswers.SnapshotsReport | service/debug/trace/handler/handler.go:231-281 | each snapshot has the service, version, node, address and unknown spans of one answer |
| TraceAnswers.CollectedConcat | service/debug/trace/handler/handler.go:231-281 | the snapshots are in the order of the answers |
| TraceAnswers.UnknownConcat | service/debug/trace/handler/handler.go:255-265 | the unknown spans of an answer keep their order |
| TraceAnswers.LastWrittenIsLast | service/debug/trace/handler/handler.go:45-55 | of the spans with one trace and id the one that no other follows survives |
| TraceAnswers.LastWithIdIsLast | service/debug/trace/handler/handler.go:73-77 | of the spans with one id the one that no other follows survives |
| TraceAnswers.HitInWords | service/debug/trace/handler/handler.go:60-65 | a trace is hit when a surviving span's name is something, the service, and something |
| Endpoint.FormatEndpoint | internal/command/cli/command.go:30-59 | the printed text is the recursive rendering, every format has the arguments it needs, and reading the text gives a tree of the value's shape whose labels are its names in snake case and whose types are its types, in preorder |
| Endpoint.SprintfNested | internal/command/cli/command.go:41-58 | the format of a nested value consumes label, type and all children, in order |
| Endpoint.VerbsMatchArguments | internal/command/cli/command.go:38-58 | a format that prints has exactly as many verbs as arguments |
| Endpoint.ParseRender | internal/command/cli/command.go:30-59 | a parser recovers the tree of readable labels and types from the text, whatever less indented text follows it |
| Endpoint.UniquelyReadable | internal/command/cli/command.go:30-59 | two trees of readable labels and types with the same text are the same |
| Snapshots.FileSnapshot.Start | service/store/snapshot/snapshot.go:82-95 | refused while in use, and then nothing changes; otherwise the file is truncated |
| Snapshots.FileSnapshot.ReceiveRecords | service/store/snapshot/snapshot.go:102-129 | every record is written once, in order, with its absolute deadline; afterwards the snapshot is free again |
| Snapshots.Restore | service/store/snapshot/restore.go:79-98 | each emitted record has the decoded contents in a buffer of its own that later decodes leave alone |
| Snapshots.DecodedFields | service/store/snapshot/restore.go:80-97 | each decoded field is the value of the last one in the stream so far that was not empty |
| Snapshots.ComesBackExactly | service/store/snapshot/restore.go:79-98 | exactly when one record comes back with key, value and absolute deadline, for all restore times |
| Snapshots.RoundTrip | service/store/snapshot/restore.go:79-98 | if no record is restored exactly at a saved deadline, keys, values, order and absolute deadlines survive exactly when no empty field follows a set one |
| Snapshots.UniformStreamsComeBack | service/store/snapshot/snapshot.go:114-122 | with non-empty keys and values, and all or none of the records expiring, everything survives a restore at none of the saved deadlines |
| Snapshots.LostAtDeadline | service/store/snapshot/restore.go:94-96 | where nothing else is lost, an expiring record keeps its deadline exactly when it is not restored at that very time |
| Stats.Stats.Roll | internal/stats/stats.go:69-78 | a new empty counter at the end, the oldest dropped when there are 24 |
| Stats.Stats.Record | internal/stats/stats.go:94-101 | the newest counter takes the amount, no other changes |
| Stats.SlidingWindow | internal/stats/stats.go:60-101 | in every interleaving the counters are the last windows of the unbounded history, 23 or one more than there were rolls, and totals are sums of per-status counts |
| Registry.Registry.Register | service/registry/handler/handler.go:86-102 | the service is stored under its prefixed name |
| Registry.Registry.Deregister | service/registry/handler/handler.go:105-115 | the service under the prefixed name is removed |
| Registry.Registry.ListServices | service/registry/handler/handler.go:118-136 | the readable services, without their prefixes, in the registry's order |
| Registry.StoredMeansLive | service/registry/handler/handler.go:196-205 | the prefixed name tells exactly which namespace registered which service |
| Registry.SeenAs | service/registry/handler/handler.go:166-192 | a namespace sees a stored name as a given name exactly if it is that name itself or that name behind the namespace's own prefix |
| Registry.ListingConcat | service/registry/handler/handler.go:118-136 | services are listed in the registry's order |
| Registry.ListsOwnAndDefault | service/registry/handler/handler.go:118-205 | after any calls a namespace lists each live service once for itself and once for the default namespace if registered there, under its original name, and nothing else |
| StoreIndex.Handler.Get | service/store/handler/handler.go:31-87 | the resolved pair, and New exactly for pairs not seen before; a namespace alone decides on the database, go.micro and micro being one |
| StoreIndex.ResolvedInOrder | service/store/handler/handler.go:36-72 | the database is the first given of namespace, metadata, request and default, go.micro being micro; the table the first given of metadata, request and default |
| StoreIndex.Handler.New | service/store/store.go:61-77 | the two index records; a failed first write skips the second |
| StoreIndex.Handler.Databases | service/store/handler/handler.go:191-201 | each indexed database once, or an error exactly when the internal table cannot be read |
| StoreIndex.Handler.Tables | service/store/handler/handler.go:204-214 | each indexed table of the database once, or an error exactly when the internal table cannot be read |
| StoreIndex.ListingsAreExact | service/store/handler/handler.go:191-214 | databases and tables are listed exactly when the writes at their first request succeeded; with writes that succeed, exactly those that some request resolved to |
| StoreIndex.NewAtMostOnce | service/store/handler/handler.go:76-84 | New runs at most once for each pair |
| StoreIndex.FailedNewIsNotRepeated | service/store/handler/handler.go:76-84 | after a failed New a second request, whose writes would succeed, registers nothing |
| Routes.MethodName | internal/resolver/api/route.go:80-86 | the joined camel-case parts; the slice is overwritten in place and nothing in front of it |
| Routes.ToCamel | internal/resolver/api/route.go:88-95 | the title-cased words between dashes, joined |
| Routes.CamelOfWords | internal/resolver/api/route.go:88-95 | for dash-free words the camel form of the words joined by dashes is their titles one behind the other |
| Routes.CamelDash | internal/resolver/api/route.go:88-95 | a dash ends a word and begins the next, whatever follows |
| Routes.ApiRoute | internal/resolver/api/route.go:16-45 | the method is the camel forms of the last two segments with a dot, or of the only one and "Call"; the service is the segments in front of these two, the first of two, or version and name of three, from the original segments in spite of the in-place rewriting |
| Routes.ProxyService | internal/resolver/api/route.go:47-78 | which segments name the proxy's service, when it finds one |
| Routes.ProxyFinds | internal/resolver/api/route.go:47-78 | the proxy finds a service exactly when the segment that names it has only letters, digits and single dashes between them |
| Routes.VersionInWords | internal/resolver/api/route.go:11 | a version is a "v" and at least one digit, and nothing else |
| Routes.RoutesAgree | internal/resolver/api/route.go:16-78 | when the proxy finds a service, the two routes agree exactly for one segment, two unless versioned, three, and four if versioned |
| Routes.VersionedPairDiffers | internal/resolver/api/route.go:16-78 | for the path /v1/foo both routes find a service, and not the same one |

## Left out

- Command-line wiring, HTTP servers, proxies, templates and generated code: no state of their own.
- The code of the memory store, the registry, the ring buffer and the container runtimes is not part
  of this repository; the assumptions are above. The ring appends and drops its oldest entry.
- Interleavings inside the handler calls other than `Generate`, and between the two cache writes at
  the end of the handling of one event: the status and the marker are written in one step.
- The cache of namespaces and its lock among interleaved calls of `Generate`: the calls of a set-up
  may begin at any time there, which allows every order that the lock allows.
- Event records that are no valid JSON: the code logs the error and goes on with a nil event.
- A foreign record under the event prefix counts as absent; only events are ever written there.
- The token provider's own records, access tokens and their expiry, and their inspection.
- bcrypt, uuid, snake and title casing: parameters with the laws that are used. In particular
  random tokens are never repeated, and a hash matches the secret it was made from.
- The regular expressions of the routes are recognisers for segments without newlines, and paths
  are given by their clean segments, so `path.Clean` is not modelled.
- The registry's lookup of one service, its watcher, registration TTLs, and published events.
- The store handler's accesses to records, beyond resolving their database and table.
- The HTTP handlers of the counters, their memory figures, and starting and stopping them: the
  running flag is never set, so nothing is promised there.
- Client writes to the internal table `micro/internal`: only the index writes to it here.
- The network calls of a scrape: the nodes' answers are inputs, in the order in which they arrive.
- Parsing of snapshot URLs, and the file errors that make snapshots panic.
- Config, rules, bot and command sorting: simple, and independent of the parts above.
