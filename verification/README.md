# open-defender-icap: a verified model

This project models the stateful core of open-defender-icap, a web filter built around an ICAP adaptor, an
admin service and an event ingester, and proves what that core promises.

| file | what it models |
|---|---|
| `DomainScope` | override scopes, their normalization, and the two ways a cached key is matched against one |
| `DecisionCache` | the adaptor's memory in front of Redis, the admin service's deletions, and the refinement to one map |
| `InvalidationProtocol` | deletion, publishing and delivery interleaved with writes of several adaptors |
| `OverrideExchange`, `OverrideTable`, `OverrideImport`, `OverrideStore` | the overrides: text exchange, create, update, delete, merge and replace import with dry run |
| `LoginLockout`, `RefreshSessions`, `TokenRevocation`, `IamStore` | local authentication: lockout, session limit, token versions, the last-administrator guard |
| `LabelIndex`, `Taxonomy` | the taxonomy index and label validation |
| `ClassificationImport` | import of a classification bundle |
| `PolicyRules`, `PolicyStore` | the policy lifecycle over policies, rule rows and versions |
| `KeysetPagination` | forward and backward pages of the pending requests |
| `JsonPaths`, `AccessLogLine`, `EventEnrichment` | enrichment of proxy log events |
| `Text`, `CommonTypes` | strings and the decision types shared by the rest |

Conventions. A table is a map from ids to rows; a class holds the tables its methods update. The answer of a query
is a parameter together with a predicate that says what the database promises of it (each row once, in the order
of the query, ties in any order). New ids are parameters that are not in use. The clock is a parameter that does
not go backwards. A transaction is one step, except where a property is about its separate statements. Library
calls that the model does not look into (registered domain of a host, address and URL parsing, hashing, the policy
engine) are function parameters, so what is proved holds for all of them.

Some promises are false of the code as they are usually put, and are stated with their exact condition:

- dry run against applied import: `OverrideImport.DryRunTellsTheTruth`
- invalidation of every scope that an import changes: `OverrideImport.UninvalidatedScopesChangeExactly`
- agreement of Redis and memory on unnormalized scopes: `DomainScope.AgreeExactly`
- one map for several adaptors: `DecisionCache.SharedRedisRefinesSingleExactly`
- refresh rows after a raised token version: `TokenRevocation.RefreshAcceptedExactly`
- an administrator after group removals: `IamStore.MemberRemovalKeepsAnAdminExactly`, `IamStore.GroupRemovalKeepsAnAdminExactly`
- label ids fed back into validation: `Taxonomy.FeedbackStableExactly`
- re-import of a classification bundle: `ClassificationImport.ReimportOfBundle`
- the next cursor of a page reached backwards: `KeysetPagination.PreviousPageIsTheOneBefore`
- headers in a log line: `AccessLogLine.ReadOfFormat`

The first two need a row whose status is not in lower case. The API stores statuses in lower case
(services/admin-api/src/main.rs:2279-2291), so such a row is written by other means. The table's unique index
(services/admin-api/migrations/0025_overrides_active_scope_uniqueness.sql:19-21) covers the literal `active` only
and does not keep it out.

Check it with `dafny verify dfyconfig.toml`.

## Model

| member | source | states |
|---|---|---|
| `DomainScope.NormalizeAcceptsExactly` | services/admin-api/src/main.rs:2231-2265 | normalization accepts a value if and only if its trimmed lower-case form is a normal scope (host characters, a dot, at most 253 bytes, optional `*.`), and then returns that form |
| `DomainScope.NormalScopesExactly` | services/admin-api/src/main.rs:2239-2264 | a normal scope is a plain host (small letters, digits, `-`, `.`, a dot, at most 253 characters), or `*.` and a plain host |
| `DomainScope.ScopeErrorNamesItsCause` | services/admin-api/src/main.rs:2231-2262 | which fault each error stands for |
| `DomainScope.NormalizeIdempotent` | services/admin-api/src/main.rs:2231-2265 | accepted values land on normal scopes, and the normal scopes are exactly the fixpoints |
| `DomainScope.ScopeGlobMeaning` | services/admin-api/src/cache.rs:87-103 | the glob `subdomain:*.V`, character classes and escapes included, matches exactly the keys whose host ends in `.V`, for every key and every literal V |
| `DomainScope.RedisAndMemoryAgree` | services/icap-adaptor/src/cache.rs:271-290 | for every scope normalization accepts, every key and both wildcard flags, the keys named for deletion in Redis are exactly the keys an adaptor drops from memory |
| `DomainScope.MatchedKeysAreDecisionKeys` | services/icap-adaptor/src/cache.rs:271-290 | only `domain:` and `subdomain:` keys are ever matched by a scope |
| `DomainScope.AgreeExactly` | services/admin-api/src/cache.rs:87-103 | whatever scope is handed on, normalized or not, Redis and memory lose the same keys if and only if the domain is literal as a glob: no `*`, `?` or `[`, and no backslash before its last character |
| `DomainScope.DisagreeingKey` | services/icap-adaptor/src/cache.rs:271-290 | for every other scope, a key that only one side removes |
| `DomainScope.GlobStarSuffix` | services/admin-api/src/cache.rs:120-152 | a star before a literal pattern matches exactly the texts that end in it |
| `DecisionCache.CacheClient.Get` | services/icap-adaptor/src/cache.rs:48-60 | answers as memory first, Redis second; an expired memory entry is not answered |
| `DecisionCache.CacheClient.ReadRedis` | services/icap-adaptor/src/cache.rs:95-113 | a Redis entry answers only while it lives and decodes |
| `DecisionCache.CacheClient.Set` | services/icap-adaptor/src/cache.rs:62-93 | the new contents of memory (own expiry) and of Redis (expiry raised to one second) |
| `DecisionCache.CacheClient.ApplyInvalidation` | services/icap-adaptor/src/cache.rs:182-255 | the memory left after each kind of event, and nothing else changed |
| `DecisionCache.CacheInvalidator.DeleteKey` | services/admin-api/src/cache.rs:111-118 | removes one key; a blank key removes nothing |
| `DecisionCache.CacheInvalidator.DeletePattern` | services/admin-api/src/cache.rs:120-152 | the scan loop removes exactly the keys that match the pattern, whatever batches the scan answers with |
| `DecisionCache.CacheInvalidator.DeleteDomainScope` | services/admin-api/src/cache.rs:87-103 | removes exactly the two literal keys and the keys of the glob |
| `DecisionCache.CacheInvalidator.InvalidateOverride` | services/admin-api/src/cache.rs:33-40 | deletes the scope from Redis and publishes an event for the same scope |
| `DecisionCache.CacheInvalidator.FlushDomainEntries` | services/admin-api/src/cache.rs:105-109 | removes exactly the `domain:` and `subdomain:` keys |
| `DecisionCache.CacheInvalidator.InvalidatePolicy` | services/admin-api/src/cache.rs:42-45 | flushes the decision keys and publishes a policy event |
| `DecisionCache.FlushedMeaning` | services/admin-api/src/cache.rs:105-109 | a key survives the two flush patterns if and only if it has neither prefix |
| `DecisionCache.StepKeepsRelated` | services/icap-adaptor/src/cache.rs:48-93 | every operation of any adaptor keeps all memories and Redis related to the leases |
| `DecisionCache.AnswerExactly` | services/icap-adaptor/src/cache.rs:48-136 | after every run of any number of adaptors, `get` answers the adaptor's own last set while it is in memory, else the last set of any adaptor while it is in Redis, else nothing |
| `DecisionCache.OtherSetAnsweredExactly` | services/icap-adaptor/src/cache.rs:67-67 | after any run, an adaptor without an own entry in memory answers with another adaptor's set while fewer whole seconds have passed than max(1, ttl in seconds), and misses after the last of them |
| `DecisionCache.SharedRedisRefinesSingleExactly` | services/icap-adaptor/src/cache.rs:48-136 | for all runs, adaptors and keys, `get` answers as one map with lifetime max(ttl, 1 s) if and only if the adaptor's own entry in memory carries the last set's decision and that has not ended, or it has none there and the last set is in Redis or has ended |
| `DecisionCache.TwoLevelRefinesSingle` | services/icap-adaptor/src/cache.rs:48-136 | so for the adaptor that makes all the sets of a key, `get` answers as that map, the one excepted instant being stated |
| `DecisionCache.LaterSetIsNotSeen` | services/icap-adaptor/src/cache.rs:48-60 | a run on which the law fails: another adaptor's later set is hidden by the own entry |
| `DecisionCache.FractionOfSecondIsLost` | services/icap-adaptor/src/cache.rs:115-136 | a second one: Redis keeps whole seconds, so another adaptor misses before the lifetime ends |
| `DecisionCache.IllegalScopeBreaksTheLaw` | services/admin-api/src/cache.rs:33-40 | the condition on invalidated scopes cannot be weakened: for every other scope there is a run after which `get` and the single map differ |
| `InvalidationProtocol.StepKeepsInvariant` | services/admin-api/src/cache.rs:87-152 | every interleaved step keeps the phase invariant of a deletion job (what has been deleted, what the scan still owes) |
| `InvalidationProtocol.RunKeepsInvariant` | services/admin-api/src/cache.rs:33-40 | the job invariant holds at the end of every run in which no key of the scope was written since the job began |
| `InvalidationProtocol.DeliveredScopeMisses` | services/icap-adaptor/src/cache.rs:182-241 | in every interleaving: once the event is delivered and no matching key was written since the deletion began, the adaptor misses on every key of the scope |
| `InvalidationProtocol.LateRedisWriteHits` | services/icap-adaptor/src/cache.rs:62-71 | the no-write hypothesis is needed: a Redis write after the deletion makes the adaptor hit again |
| `InvalidationProtocol.InvalidationIsSelective` | services/admin-api/src/cache.rs:87-152 | in every interleaving of any number of jobs: a key that no scope covers keeps its entry in Redis and in each adaptor's memory as long as no step is about it |
| `InvalidationProtocol.StepKeepsJobsFit` | services/admin-api/src/cache.rs:120-152 | every step keeps this: a job holds only keys of its scope, and what its scan still owes is in Redis and not held |
| `InvalidationProtocol.JobCanFinish` | services/admin-api/src/cache.rs:33-40 | from every such state a job can be brought to its publication by at most seven steps of its own, whatever the others have done |
| `OverrideExchange.LinesOfJoin` | services/admin-api/src/main.rs:2304-2342 | splitting joined lines gives the lines back, for all one-line texts |
| `OverrideExchange.Parse` | services/admin-api/src/main.rs:2304-2342 | the parsing loop with its `seen` set computes the line-by-line specification |
| `OverrideExchange.ParseMeaning` | services/admin-api/src/main.rs:2304-2342 | each named scope is kept exactly once, and scopes, duplicates, invalid and ignored lines add up to all lines |
| `OverrideExchange.ParsedScopesAreNormal` | services/admin-api/src/main.rs:2304-2342 | every parsed scope is normal, and no scope is parsed twice |
| `OverrideExchange.SortDedupMeaning` | services/admin-api/src/main.rs:1294-1297 | sorting and deduplicating gives a strictly ascending list of exactly the same values |
| `OverrideExchange.SortedUnique` | services/admin-api/src/main.rs:1294-1297 | a strictly ascending list is determined by its set of elements |
| `OverrideExchange.Export` | services/admin-api/src/main.rs:1257-1297 | the lines of the exported text are strictly ascending and are exactly the values given |
| `OverrideExchange.SortLines` | services/admin-api/src/main.rs:1294-1294 | an ascending permutation of the values |
| `OverrideExchange.DedupLines` | services/admin-api/src/main.rs:1295-1295 | strictly ascending, with the same elements |
| `OverrideExchange.ExportParsesBack` | services/admin-api/src/main.rs:1257-1297 | parsing an export gives back the exported scopes, without duplicates or invalid lines |
| `OverrideTable.Validate` | services/admin-api/src/main.rs:2184-2207 | a payload is accepted if and only if its scope type is domain, its trimmed lower-case value is a normal scope, and its action and status are known; an error names a real fault; the result carries those normal forms, the trimmed reason and creator unless blank, and the expiry |
| `OverrideTable.CreateKeepsWellFormed` | services/admin-api/src/main.rs:1672-1792 | create keeps rows valid and at most one active row per scope |
| `OverrideTable.CreateRepairsScope` | services/admin-api/src/main.rs:1672-1792 | from any table, an active create leaves exactly one active row on its scope, the returned one, and no row of another scope changes |
| `OverrideTable.UpdateKeepsWellFormed` | services/admin-api/src/main.rs:1947-1998 | update keeps rows valid and at most one active row per scope, also when the row moves to another scope |
| `OverrideTable.DeleteKeepsWellFormed` | services/admin-api/src/main.rs:1826-1879 | delete keeps the same invariant |
| `OverrideTable.UpdateMeaning` | services/admin-api/src/main.rs:1940-1998 | after an update the row carries the payload, its old status if none is given and its old creation time; exactly the other active rows of its scope are revoked if it is active, and every other row is untouched |
| `OverrideTable.CreateMeaning` | services/admin-api/src/main.rs:1672-1792 | a create takes over the newest active row of its scope if it is active and there is one, and else adds a row; that row carries the payload, rivals are revoked, every other row is untouched |
| `OverrideTable.DeleteMeaning` | services/admin-api/src/main.rs:1826-1879 | a delete takes this row and no other |
| `OverrideTable.NewerIsStrictOrder` | services/admin-api/src/main.rs:1346-1349 | the order of the queries is strict and total |
| `OverrideTable.UpdateInvalidatesChangedScopes` | services/admin-api/src/main.rs:2355-2372 | every scope on which an active row appears, goes or changes by an update is among the scopes it invalidates |
| `OverrideImport.IndexActive` | services/admin-api/src/main.rs:1360-1406 | the index names one active row of every scope that has any, and lists all the others as duplicates |
| `OverrideImport.IndexLatest` | services/admin-api/src/main.rs:1360-1406 | the index names a row of exactly the scope and action pairs that occur |
| `OverrideImport.IndexByAction` | services/admin-api/src/main.rs:1360-1406 | the per-action sets hold exactly the scopes whose indexed row has that action |
| `OverrideImport.IndexKeepsNewest` | services/admin-api/src/main.rs:1360-1406 | every duplicate is older than the row kept for its scope |
| `OverrideImport.LatestKeepsNewest` | services/admin-api/src/main.rs:1391-1393 | of the rows of one scope and action the index names the newest |
| `OverrideImport.TargetExactly` | services/admin-api/src/main.rs:1469-1530 | the row written for a scope is its newest active row, else its newest row of the action, else a new one |
| `OverrideImport.UpsertAllMeaning` | services/admin-api/src/main.rs:1469-1552 | after the upserts every scope's target is its imported row, targets are distinct, and all other rows are untouched |
| `OverrideImport.BeforeDeleteMeaning` | services/admin-api/src/main.rs:1451-1552 | before stale rows are deleted, every row is a written target or an untouched row of the repaired table |
| `OverrideImport.ImportMeaning` | services/admin-api/src/main.rs:1451-1588 | what an applied import leaves of each row: written rows have the action, reason and actor of the import, no expiry and their old creation time; a replace deletes the active rows of the action on unnamed scopes; duplicates are revoked; the rest is as it was |
| `OverrideImport.CountersCountRows` | services/admin-api/src/main.rs:1408-1606 | imported counts the rows the table did not have, deleted the rows it has no more, updated the other named scopes |
| `OverrideImport.ReplaceLeavesExactlyTheScopes` | services/admin-api/src/main.rs:1554-1588 | a replace import of any content into any table leaves exactly the parsed scopes active for the action |
| `OverrideImport.ImportRestoresUniqueness` | services/admin-api/src/main.rs:1451-1545 | any applied import, into any table, leaves at most one active row per domain scope, whatever case statuses were stored in |
| `OverrideImport.StaleRows` | services/admin-api/src/main.rs:1554-1588 | the rows a replace deletes are exactly the indexed rows of the stale scopes stored as literal `active` |
| `OverrideImport.UninvalidatedScopesChangeExactly` | services/admin-api/src/main.rs:1451-1606 | a scope that an import does not invalidate keeps its active rows except repaired duplicates, so they change if and only if one of them was a duplicate |
| `OverrideImport.ChangedScopesAreInvalidated` | services/admin-api/src/main.rs:1551-1606 | without duplicates, every scope whose active rows an import changes is invalidated |
| `OverrideImport.RepairedScopeIsNotInvalidated` | services/admin-api/src/main.rs:1451-1467 | a table with a row of status `Active` on which a scope loses its one literally active row and is not invalidated |
| `OverrideImport.DryRunTellsTheTruth` | services/admin-api/src/main.rs:1408-1437 | from any table the dry-run counters equal the applied counters if and only if no scope to be deleted is stored with a status other than the literal `active`; the exact difference is stated |
| `OverrideImport.DryRunAgreesOnWellFormed` | services/admin-api/src/main.rs:1408-1437 | on tables reached through the API the two always agree |
| `OverrideImport.MixedCaseStatusMiscounts` | services/admin-api/src/main.rs:1394-1405 | a concrete table on which they differ |
| `OverrideStore.Store.Create` | services/admin-api/src/main.rs:1643-1824 | a refused payload changes nothing; an accepted one gives the specified table and the specified row id |
| `OverrideStore.Store.CreateValidated` | services/admin-api/src/main.rs:1672-1792 | the take-over, revoke and insert steps compute the specified table |
| `OverrideStore.Store.Update` | services/admin-api/src/main.rs:1881-2044 | refusal, missing row, or the specified table together with the scopes to invalidate |
| `OverrideStore.Store.Delete` | services/admin-api/src/main.rs:1826-1879 | removes the row and reports its scope, or reports that there is none |
| `OverrideStore.Store.BuildIndex` | services/admin-api/src/main.rs:1360-1406 | the indexing loop computes the index |
| `OverrideStore.Store.CountWould` | services/admin-api/src/main.rs:1408-1432 | the dry-run loop counts the known scopes, and both counts add up to the content |
| `OverrideStore.Store.UpsertScopes` | services/admin-api/src/main.rs:1469-1552 | the upsert loop, which keeps its two maps up to date, writes the same rows and counts as upserting from the initial index |
| `OverrideStore.Store.ImportScopes` | services/admin-api/src/main.rs:1408-1606 | a dry run changes nothing and reports the dry-run counters; an applied import gives the specified table, counters and invalidated scopes |
| `OverrideStore.Store.Import` | services/admin-api/src/main.rs:1332-1641 | invalid action and mode change nothing; otherwise the parsed scopes are imported and the answer holds the line report, the counters and the invalidated scopes |
| `OverrideStore.ParseModeExactly` | services/admin-api/src/main.rs:2293-2302 | which texts name which mode, and that merge is the default |
| `OverrideStore.ImportKeepsWellFormed` | services/admin-api/src/main.rs:1451-1588 | an import makes any table of valid rows well formed |
| `OverrideStore.StepKeepsWellFormed` | services/admin-api/src/main.rs:1332-2044 | each of the four operations keeps the table well formed |
| `OverrideStore.EveryRunKeepsOneActive` | services/admin-api/src/main.rs:1332-2044 | every run of create, update, delete and import keeps at most one active override per scope |
| `OverrideStore.ExportImportExport` | services/admin-api/src/main.rs:1257-1641 | export, replace-import, export gives the same bytes, on every table whose exported scopes are normal and for any order the queries answer in |
| `LoginLockout.LocalAccount.Authenticate` | services/admin-api/src/iam.rs:1043-1090 | the new row and the outcome for every branch of a login attempt |
| `LoginLockout.LocalAccount.SetPassword` | services/admin-api/src/iam.rs:1118-1155 | a password is accepted if and only if it has at least eight bytes after trimming; it then resets counter and lock, and otherwise nothing changes |
| `LoginLockout.StepKeepsInvariant` | services/admin-api/src/iam.rs:1043-1090 | past the limit every further check has waited for a full lock, and the next one must wait too |
| `LoginLockout.WrongChecksAreBounded` | services/admin-api/src/iam.rs:1043-1090 | in every serial run, n wrong passwords checked since the last reset, over a span T from the first of these checks to the last, satisfy n <= max + T div L; a lock is recorded exactly when the counter has reached the limit |
| `LoginLockout.BoundIsTight` | services/admin-api/src/iam.rs:1043-1090 | for every number of locks there is a run that meets the bound exactly |
| `LoginLockout.AttemptExactly` | services/admin-api/src/iam.rs:1043-1090 | a password is checked if and only if the account is active, has one and is not locked; only a checked one decides the attempt and changes the account, and how |
| `LoginLockout.BarredAttemptsChangeNothing` | services/admin-api/src/iam.rs:1031-1050 | in every run of attempts on a locked or disabled account none succeeds, even with the right password, and none changes counter or lock |
| `LoginLockout.RightPasswordAfterLock` | services/admin-api/src/iam.rs:1031-1090 | once the lock has ended the right password is accepted, whatever was tried meanwhile |
| `LoginLockout.SetPasswordReopens` | services/admin-api/src/iam.rs:1118-1155 | a password that is set opens an active account at once, whatever its history, with the full number of wrong attempts free again |
| `RefreshSessions.EnforcementKeepsNewest` | services/admin-api/src/auth.rs:425-455 | enforcement keeps exactly min(limit, live) tokens, none older than a revoked one, and no token of another user changes |
| `RefreshSessions.TokenTable.Issue` | services/admin-api/src/auth.rs:395-423 | issuing inserts one token and then enforces the limit |
| `RefreshSessions.TokenTable.Rotate` | services/admin-api/src/auth.rs:457-514 | the outcome and the new table for an unknown, revoked, expired, outdated or accepted token |
| `RefreshSessions.TokenTable.Logout` | services/admin-api/src/auth.rs:516-530 | revokes the token it names and no other |
| `RefreshSessions.StepKeepsLimit` | services/admin-api/src/auth.rs:395-455 | every single statement keeps the bound; an enforcement ends its issue and leaves its user within the plain limit |
| `RefreshSessions.SessionsStayWithinLimit` | services/admin-api/src/auth.rs:395-511 | in every interleaving of the insert and enforce statements, live tokens never exceed the limit plus the issues that have inserted but not yet enforced |
| `RefreshSessions.QuietSessionsWithinLimit` | services/admin-api/src/auth.rs:395-455 | with no issue in flight the limit holds |
| `RefreshSessions.IssuedTokenLivesExactly` | services/admin-api/src/auth.rs:395-455 | after every run that follows its insertion a token is live if and only if no step revoked it or deleted its user and less time has passed than max(600 s, ttl); it then has the user and version it was issued with |
| `IamStore.AdminTestIsEffectiveRole` | services/admin-api/src/iam.rs:237-267 | the guard's two queries say: active, with the administrator role among the effective roles |
| `IamStore.GuardExactly` | services/admin-api/src/iam.rs:301-316 | the guard lets a user be taken away if and only if the user exists, is not protected, and is not an active administrator without another one |
| `IamStore.AppliedExactly` | services/admin-api/src/iam.rs:100-224 | the exact condition on which each step is accepted; a refused step changes nothing |
| `IamStore.UsersAfter` | services/admin-api/src/iam.rs:100-224 | after an accepted step: who exists, who is active and with which version; a disabled user is inactive, an enabled one active, a deleted one gone, every user not named as before |
| `IamStore.DirectRolesAfter` | services/admin-api/src/iam.rs:482-513 | after an accepted step: a revoked role is no longer held directly, an assigned one is, a deleted user holds none, nothing else changes |
| `IamStore.GroupsAfter` | services/admin-api/src/iam.rs:421-430 | after an accepted step: who is in which group, and which roles a group gives |
| `IamStore.EffectiveRolesExactly` | services/admin-api/src/iam.rs:723-771 | the effective roles are those held directly and those of the user's groups |
| `IamStore.RunKeepsProtected` | services/admin-api/src/iam.rs:226-316 | in every run a protected user stays, stays active and keeps the administrator role it holds directly |
| `IamStore.IamService.EnsureMutationAllowed` | services/admin-api/src/iam.rs:301-316 | refuses exactly what the guard specifies |
| `IamStore.IamService.DisableUser` | services/admin-api/src/iam.rs:187-199 | guard, missing user, or disabled with the token version raised |
| `IamStore.IamService.EnableUser` | services/admin-api/src/iam.rs:201-212 | activates without touching the token version |
| `IamStore.IamService.UpdateUser` | services/admin-api/src/iam.rs:142-185 | guard on disabling, refused status, or the update with its effect on the token version |
| `IamStore.IamService.HardDeleteUser` | services/admin-api/src/iam.rs:214-224 | guard, or removal of the user with roles and memberships |
| `IamStore.IamService.RevokeRole` | services/admin-api/src/iam.rs:498-513 | guard on the administrator role, unknown role, or removal |
| `IamStore.StepKeepsAnAdmin` | services/admin-api/src/iam.rs:142-316 | every guarded or additive step leaves an active administrator if there was one |
| `IamStore.RunKeepsAnAdmin` | services/admin-api/src/iam.rs:142-316 | over every serial run an active administrator count of at least one never reaches zero |
| `IamStore.MemberRemovalKeepsAnAdminExactly` | services/admin-api/src/iam.rs:432-443 | the unguarded group removal leaves an administrator if and only if someone else is one, or the user is one by another way |
| `IamStore.MemberRemovalCanLeaveNone` | services/admin-api/src/iam.rs:432-443 | a concrete state in which it leaves none |
| `IamStore.GroupRemovalMeaning` | services/admin-api/src/iam.rs:394-403 | deleting a group takes the role from all its members at once: exactly those keep it who have it directly or through another group |
| `IamStore.GroupRemovalKeepsAnAdminExactly` | services/admin-api/src/iam.rs:531-544 | deleting a group, or revoking the administrator role from it, leaves an administrator if and only if some administrator has the role directly or through another group; revoking another role changes none |
| `IamStore.GroupRemovalCanLeaveNone` | services/admin-api/src/iam.rs:394-403 | a concrete state with two administrators in which either removal leaves none |
| `TokenRevocation.VersionsGrow` | services/admin-api/src/iam.rs:159-212 | a known user keeps at least its token version at every step, or is gone for good |
| `TokenRevocation.StampsComeFrom` | services/admin-api/src/auth.rs:395-423 | every version carried by a token, a row or an unfinished request was handed on from an earlier state or read by the step at hand |
| `TokenRevocation.RunKeepsConsistent` | services/admin-api/src/auth.rs:316-344 | in every interleaving of the statements of logins and rotations, no version already read exceeds its user's |
| `TokenRevocation.RaisesExactly` | services/admin-api/src/iam.rs:159-212 | exactly which steps raise a user's version |
| `TokenRevocation.RefreshRowsAreStable` | services/admin-api/src/auth.rs:457-490 | a refresh row keeps its user and version while it exists, and its id is never reused |
| `TokenRevocation.RaisedVersionRevokes` | services/admin-api/src/auth.rs:395-514 | in every interleaving: after a raise no version read up to then matches, so no access token or refresh row that carries one is accepted at any later point, even one issued or inserted later, also after enabling again |
| `TokenRevocation.RaiseRevokesWhatExists` | services/admin-api/src/auth.rs:316-344 | in particular no access token or refresh row that existed before the raise is accepted after it |
| `TokenRevocation.RefreshAcceptedExactly` | services/admin-api/src/auth.rs:457-514 | a refresh row inserted in the run is accepted if and only if it is live, its user is active and no step since its version was read raised the version; so a row accepted after a raise comes from a version read after it |
| `TokenRevocation.RotationMaySpanRaise` | services/admin-api/src/auth.rs:463-511 | a run that survives: in every state, a rotation that made its checks before a raise and reads the version again after it leaves an accepted row, while its access token is not accepted |
| `TokenRevocation.LoginMaySpanRaise` | services/admin-api/src/auth.rs:667-683 | the same for a login whose password was checked before the raise |
| `TokenRevocation.VersionUnchangedExactly` | services/admin-api/src/iam.rs:1118-1155 | from any step of a run to its end, the version of a remaining user is unchanged if and only if no step in between raised it |
| `TokenRevocation.AccessAcceptedExactly` | services/admin-api/src/auth.rs:1007-1024 | an access token issued in the run is accepted if and only if it is unexpired, its user exists and is active, and no step since its version was read raised the version |
| `TokenRevocation.GrantsExactly` | services/admin-api/src/auth.rs:346-423 | an access token comes from a checked request with the version that check read, for at least five minutes; a refresh row from a request that has read the version again, for at least ten |
| `TokenRevocation.RevokesExactly` | services/admin-api/src/auth.rs:457-530 | which step revokes which refresh row, and no other |
| `TokenRevocation.ActiveExactly` | services/admin-api/src/iam.rs:142-224 | the steps that change whether a user is active, and no others |
| `TokenRevocation.InactiveExactly` | services/admin-api/src/iam.rs:142-224 | from a point of a run at which a user is inactive, it stays so if and only if no later step enables it |
| `TokenRevocation.DisabledUntilEnabled` | services/admin-api/src/auth.rs:316-344 | in every interleaving: from a step that disables or deletes a user to the next one that enables it, no access token, refresh row, login or rotation of the user is accepted, whenever it began |
| `LabelIndex.NormalizeLabelText` | crates/taxonomy/src/lib.rs:406-436 | the buffer loop computes the normalized label |
| `LabelIndex.FillBuffer` | crates/taxonomy/src/lib.rs:411-428 | the loop with its `last_was_space` flag collapses the mapped text |
| `LabelIndex.NormalizeLabelCanonical` | crates/taxonomy/src/lib.rs:406-436 | results are canonical (single blanks, words of lower-case letters and digits), and canonical labels are fixpoints |
| `LabelIndex.NormalizeLabelSpells` | crates/taxonomy/src/lib.rs:406-436 | a normalized label has the letters and digits of the text, in small letters and with its word boundaries, and there is none exactly if the text has no letter or digit |
| `LabelIndex.NormalizedAlikeExactly` | crates/taxonomy/src/lib.rs:406-436 | two texts have the same normalized label if and only if they spell the same words |
| `LabelIndex.ByIdRefines` | crates/taxonomy/src/lib.rs:152-190 | the id map answers as the search for the last item with the id |
| `LabelIndex.LookupRefines` | crates/taxonomy/src/lib.rs:152-190 | the label map answers: last item by name, else first item by id |
| `LabelIndex.AliasesRefine` | crates/taxonomy/src/lib.rs:369-393 | aliases answer only terms not yet taken, and the first alias with an existing target wins |
| `LabelIndex.IndexRefinesSearch` | crates/taxonomy/src/lib.rs:306-334 | the finished index answers every input as the declarative search: exact id, else last name, else first normalized id, else first alias |
| `Taxonomy.Validate` | crates/taxonomy/src/lib.rs:70-109 | accepts exactly the valid taxonomies |
| `Taxonomy.Build` | crates/taxonomy/src/lib.rs:152-207 | for any alias tables, builds the specified store, or fails if and only if the unknown category is missing |
| `Taxonomy.New` | crates/taxonomy/src/lib.rs:152-207 | the same with the alias tables of the source |
| `Taxonomy.LocateDefault` | crates/taxonomy/src/lib.rs:182-192 | the default subcategory is the one of the last unknown category that has it |
| `Taxonomy.CategoryAliasResolves` | crates/taxonomy/src/lib.rs:438-478 | an alias of the table answers with its target in every valid taxonomy that has it, unless an id, a label or an earlier alias takes the text |
| `Taxonomy.IndexItems` | crates/taxonomy/src/lib.rs:152-190 | the loop over items fills both maps as specified |
| `Taxonomy.IndexSubcategories` | crates/taxonomy/src/lib.rs:160-189 | the nested loop fills every category's maps as specified |
| `Taxonomy.ApplyCategoryAliases` | crates/taxonomy/src/lib.rs:369-378 | the alias loop over categories |
| `Taxonomy.ApplySubcategoryAliases` | crates/taxonomy/src/lib.rs:380-393 | the alias loop over subcategories |
| `Taxonomy.CategoryResolutionRefines` | crates/taxonomy/src/lib.rs:306-334 | for every taxonomy and input, resolution is the search over the category list with the unknown category as fallback |
| `Taxonomy.SubcategoryResolutionRefines` | crates/taxonomy/src/lib.rs:336-367 | the same within each category, when category ids are distinct |
| `Taxonomy.ValidateLabelsSound` | crates/taxonomy/src/lib.rs:217-279 | for every valid taxonomy indices are in range, and any fallback reason means the unknown category with its default subcategory |
| `Taxonomy.ValidatedLabelsAreStable` | crates/taxonomy/src/lib.rs:217-279 | with tidy ids, feeding the returned ids back gives the same pair with no fallback |
| `Taxonomy.FeedbackStableExactly` | crates/taxonomy/src/lib.rs:217-279 | tidy or not: feeding the ids of a pair back gives the same pair with no fallback if and only if each id is tidy, or no item has the trimmed id and the item is the one its label stands for |
| `Taxonomy.UntidyIdIsNotFedBack` | crates/taxonomy/src/lib.rs:217-279 | a valid taxonomy with the ids `a` and ` a `, on which an answered pair fails: the label `b` is answered with the category ` a `, whose ids, fed back, are answered with the category `a` |
| `ClassificationImport.CanonicalKeyIsDomainExactly` | crates/common-types/src/normalizer.rs:136-155 | a key that parses becomes a `domain:` key unless it is a `subdomain:` key of dots only |
| `ClassificationImport.CanonicalHostMeaning` | crates/common-types/src/normalizer.rs:136-155 | the canonical host is the trimmed host in small letters without the dots at its end |
| `ClassificationImport.ParsesExactly` | services/admin-api/src/classifications.rs:509-519 | a key parses if and only if something other than white space follows one of the two prefixes |
| `ClassificationImport.DotsOnlyKeyStays` | services/admin-api/src/main.rs:615-622 | the key that stays: a concrete case |
| `ClassificationImport.ParseActionInverse` | services/admin-api/src/classifications.rs:1112-1123 | parsing undoes printing, and accepts nothing else |
| `ClassificationImport.GivenFieldsExactly` | services/admin-api/src/classifications.rs:556-640 | fields are taken as given if and only if action, risk level and confidence are valid, and as what |
| `ClassificationImport.PrepareExactly` | services/admin-api/src/classifications.rs:505-666 | an entry is prepared if and only if key, labels and fields (or the engine's answer) are, and with which content |
| `ClassificationImport.RowErrorNamesItsCause` | services/admin-api/src/classifications.rs:505-666 | which fault each row error stands for |
| `ClassificationImport.Collect` | services/admin-api/src/classifications.rs:505-666 | the preparation loop gives the deduplicated entries and the invalid rows |
| `ClassificationImport.LastValidEntryWins` | services/admin-api/src/classifications.rs:505-666 | a key is prepared if and only if a valid entry has it, and then the last such entry counts |
| `ClassificationImport.RoundingError` | services/admin-api/src/classifications.rs:1406-1415 | storing a confidence with four decimals is within the tolerance of the comparison |
| `ClassificationImport.IsSameExactly` | services/admin-api/src/classifications.rs:1406-1415 | rows count as the same if labels and risk are equal, the action parses as the entry's, and confidences are less than 0.0001 apart |
| `ClassificationImport.Store.ApplyEntries` | services/admin-api/src/classifications.rs:698-724 | the applied loop, in any hash-map order, gives order-free tables and counters |
| `ClassificationImport.Store.CountEntries` | services/admin-api/src/classifications.rs:733-745 | the dry-run loop, in any order, gives order-free counters |
| `ClassificationImport.Store.Import` | services/admin-api/src/classifications.rs:668-745 | tables and counters of dry and applied imports in both modes, independent of the iteration order |
| `ClassificationImport.CountersAddUp` | services/admin-api/src/classifications.rs:668-745 | imported + updated + skipped is the number of distinct prepared keys, in a dry run too |
| `ClassificationImport.ImportedExactly` | services/admin-api/src/classifications.rs:668-731 | the three tables at every key after an import in either mode: what a prepared key holds, when its old row and its request stay, and what becomes of the other keys |
| `ClassificationImport.MergeKeepsTheRest` | services/admin-api/src/classifications.rs:682-692 | a merge deletes nothing: every unprepared key keeps its classification, request and page, every prepared key holds its entry |
| `ClassificationImport.CountersCount` | services/admin-api/src/classifications.rs:668-745 | each counter counts keys of the tables before and after: rows that appeared, rows that changed, prepared rows that did not, and keys that are in no table any more |
| `ClassificationImport.ReplaceLeavesPreparedKeys` | services/admin-api/src/classifications.rs:1254-1269 | a replace leaves exactly the prepared `domain:` keys, each with its prepared content |
| `ClassificationImport.ReimportSkipsExactly` | services/admin-api/src/classifications.rs:1289-1358 | a second import of the same entries updates and deletes nothing, and only skips if and only if no prepared key lies outside the `domain:` keys |
| `ClassificationImport.ReimportOfBundle` | services/admin-api/src/classifications.rs:1421-1437 | the same seen from the bundle: it only skips if and only if no valid entry has a `subdomain:` host of dots only |
| `ClassificationImport.DotsOnlyBundleIsImportedAgain` | services/admin-api/src/classifications.rs:698-724 | a one-entry bundle with the key `subdomain:.` that is imported anew each time |
| `ClassificationImport.AcceptedLabelsAreStable` | services/admin-api/src/classifications.rs:521-538 | labels accepted by the taxonomy store are accepted again as themselves, with tidy ids |
| `ClassificationImport.ExportedRowIsTheSame` | services/admin-api/src/classifications.rs:435-490 | what an import stores is accepted when it is exported and imported again, and found to be the same, for keys that canonicalize to themselves |
| `KeysetPagination.CursorLimit` | services/admin-api/src/pagination.rs:102-104 | the page size is the requested one if that lies between 1 and 200, 50 if none is requested, and always between 1 and 200 |
| `KeysetPagination.KeyOrderIsTotal` | services/admin-api/src/classification_requests.rs:178-196 | the order of the keys is total, transitive, and by time first |
| `KeysetPagination.ListPending` | services/admin-api/src/classification_requests.rs:149-252 | fetch one row too many, truncate, reverse and name cursors: the result is the specified page |
| `KeysetPagination.FilterKeepsDescending` | services/admin-api/src/classification_requests.rs:149-200 | the status filter keeps the order and exactly the rows of that status |
| `KeysetPagination.ForwardPage` | services/admin-api/src/classification_requests.rs:200-252 | a forward page is the next `limit` rows and names the following page exactly if there is one |
| `KeysetPagination.BackwardPage` | services/admin-api/src/classification_requests.rs:200-252 | a backward page from any anchor row is the `limit` rows before it, or all of them if there are fewer, in table order, with exact cursors |
| `KeysetPagination.WalkIsChunks` | services/admin-api/src/classification_requests.rs:149-252 | a list of pages is a walk from the start if and only if it is the table cut every `limit` rows |
| `KeysetPagination.WalkVisitsEveryRow` | services/admin-api/src/classification_requests.rs:149-252 | a walk concatenates to the whole table and has max(1, ceil(n / limit)) pages |
| `KeysetPagination.PreviousPageIsTheOneBefore` | services/admin-api/src/classification_requests.rs:200-252 | the previous cursor of any later page gives exactly the rows of the page before; that page names its next page if and only if it is not the first |
| `PolicyRules.Normalize` | services/admin-api/src/policies.rs:778-817 | the loop over the submitted payloads, with its two sets, computes the specified rules or the first error |
| `PolicyRules.ValidateDomain` | services/admin-api/src/policies.rs:819-851 | the checks on one pattern, in their order, accept exactly the domain patterns |
| `PolicyRules.DomainPatternExactly` | services/admin-api/src/policies.rs:819-861 | an accepted pattern is, after an optional `*.`, a dotted host: letters, digits, `-` and `.`, with a letter or digit at both ends and on both sides of every dot |
| `PolicyRules.SubmittedRulesExactly` | services/admin-api/src/policies.rs:778-817 | a submitted list is accepted if and only if it is not empty, every action is a known name, every listed domain is a dotted host, trimmed ids are not empty, and priorities and trimmed ids are distinct; the rules are then the submitted ones in order |
| `PolicyRules.RefusalNamesFirstFault` | services/admin-api/src/policies.rs:778-817 | a refused list is refused for the first place at which it goes wrong: what stands before is fine by itself, and the error is a fault of that place |
| `PolicyRules.IdOfMeaning` | services/admin-api/src/policies.rs:797-806 | the id is the given or generated one without the white space around it |
| `PolicyRules.ParseActionExactly` | services/admin-api/src/policies.rs:888-901 | an action is its name, the name in small letters, or that with a hyphen between words, in white space; nothing else is |
| `PolicyRules.CastExactly` | services/admin-api/src/policies.rs:1026-1050 | the stored priority is the submitted one modulo 2^32, in the range of a signed 32-bit integer |
| `PolicyRules.RowKeepsRule` | services/admin-api/src/policies.rs:1026-1050 | a stored row holds all of its rule but the id |
| `PolicyRules.StoredPrioritiesDistinct` | services/admin-api/src/policies.rs:1026-1050 | distinct priorities stay distinct through the 32-bit cast |
| `PolicyStore.PolicyTables.ReplaceRules` | services/admin-api/src/policies.rs:1026-1050 | the delete-then-insert loop leaves one row per rule, in order, for this policy only |
| `PolicyStore.PolicyTables.InsertVersion` | services/admin-api/src/policies.rs:1052-1077 | appends one version to this policy's history |
| `PolicyStore.PolicyTables.Create` | services/admin-api/src/policies.rs:402-471 | the specified tables, or an error and no change |
| `PolicyStore.PolicyTables.Update` | services/admin-api/src/policies.rs:473-573 | the specified tables, or an error (missing, status refused, rules refused) and no change |
| `PolicyStore.PolicyTables.Publish` | services/admin-api/src/policies.rs:575-655 | the specified tables, or an error and no change |
| `PolicyStore.PolicyTables.Delete` | services/admin-api/src/policies.rs:657-707 | removal of policy, rules and versions, or refusal of a missing or active policy |
| `PolicyStore.PublishKeepsConsistent` | services/admin-api/src/policies.rs:575-655 | publishing keeps the stores in agreement and makes this policy the only active one |
| `PolicyStore.StepKeepsConsistent` | services/admin-api/src/policies.rs:402-707 | every operation keeps one active policy and the agreement of rule rows, versions and policies |
| `PolicyStore.AppliedExactly` | services/admin-api/src/policies.rs:903-942 | each operation is accepted exactly on its condition on the stored status and the request (a delete: the policy exists and is not active; an update: never to active, to archived only if not active); a refused one changes nothing |
| `PolicyStore.RefusalNamesItsCause` | services/admin-api/src/policies.rs:473-507 | which error a refused operation answers with |
| `PolicyStore.CreateMeaning` | services/admin-api/src/policies.rs:402-449 | an accepted create stores a draft, its first version and rule rows with the submitted rules, and touches no other policy |
| `PolicyStore.UpdateMeaning` | services/admin-api/src/policies.rs:473-549 | an accepted update writes the trimmed name and version, the status and the submitted rules, keeps what is not submitted, appends one version and touches no other policy |
| `PolicyStore.PublishMeaning` | services/admin-api/src/policies.rs:575-634 | a publish activates the policy under the given version, archives the active one, deploys the latest rules and changes nothing else |
| `PolicyStore.DeleteMeaning` | services/admin-api/src/policies.rs:657-688 | an accepted delete takes the policy with rules and history, and nothing else |
| `PolicyStore.EveryRunHoldsLastSubmitted` | services/admin-api/src/policies.rs:402-707 | after every run from the empty store a policy exists if and only if rules were accepted for it since its last deletion, and then its latest version and its rule rows hold the rules accepted last |
| `PolicyStore.EveryRunReportsConsistently` | services/admin-api/src/policies.rs:963-1024 | after every run from the empty store: at most one active policy, reported rule count equal to the reported list's length, distinct ids and stored priorities |
| `JsonPaths.EnsureWritesExactlyOpenPaths` | services/event-ingester/src/elastic.rs:491-512 | an assignment takes effect exactly on an open path, and changes nothing anywhere else |
| `JsonPaths.EnsureExtends` | services/event-ingester/src/elastic.rs:491-512 | no value other than null is lost or replaced by an assignment |
| `JsonPaths.EnsureTouchesNothingElse` | services/event-ingester/src/elastic.rs:491-512 | paths apart from the assigned one read the same |
| `AccessLogLine.ExtractTrailingQuotedFields` | services/event-ingester/src/elastic.rs:321-339 | the loop over the end of the line computes the last quoted fields in order |
| `AccessLogLine.ReadOfFormat` | deploy/docker/squid/squid.conf:22 | a line in the proxy's log format is read back: its leading words whatever stands between; what is read as the two headers, quotes in them or not; and that both come back if and only if neither holds a quote |
| `EventEnrichment.LogLineIsRead` | services/event-ingester/src/elastic.rs:207-217 | address, result, status, size, method and target of a formatted line are those that were written; what is read as the headers, and that they come back if and only if neither holds a quote |
| `EventEnrichment.Event.EnrichSquidEvent` | services/event-ingester/src/elastic.rs:192-309 | the branches, in place, assign exactly the derived values in order |
| `EventEnrichment.EnrichedFieldExactly` | services/event-ingester/src/elastic.rs:192-309 | each derived field holds its derived value exactly where the event left room for it, and what was there otherwise |
| `EventEnrichment.EnrichedKeepsValues` | services/event-ingester/src/elastic.rs:474-512 | every value of the input other than null is found at its path afterwards: scalars and arrays unchanged, objects with all they held |
| `EventEnrichment.EnrichedTouchesNothingElse` | services/event-ingester/src/elastic.rs:192-309 | away from the derived fields the event reads the same |
| `EventEnrichment.EnrichIdempotent` | services/event-ingester/src/elastic.rs:192-309 | a second enrichment changes nothing, for all events |
| `EventEnrichment.ClientAddressOfUntrustedPeer` | services/event-ingester/src/elastic.rs:219-257 | without a trusted proxy the client address is the peer's, whatever headers are quoted |
| `EventEnrichment.ClientExactly` | services/event-ingester/src/elastic.rs:219-257 | the recorded source is Forwarded, X-Forwarded-For or the peer exactly as trust and the headers decide, and the address is that source's |
| `EventEnrichment.AddressValues` | services/event-ingester/src/elastic.rs:207-257 | what the addresses and headers of a line give |
| `EventEnrichment.StatusValues` | services/event-ingester/src/elastic.rs:259-284 | what result and status of a line give; the action is a block for 403, 407 and 451 only |
| `EventEnrichment.RequestValues` | services/event-ingester/src/elastic.rs:286-308 | what size, method and target of a line give |
| `EventEnrichment.LineGivesStatus` | services/event-ingester/src/elastic.rs:259-284 | from the log line to the event, where it has room: result, status, inferred action and traffic class under their paths; a block for 403, 407 and 451 only |
| `EventEnrichment.LineGivesRequest` | services/event-ingester/src/elastic.rs:286-308 | the same for size, method, domain, URL and normalized key |
| `EventEnrichment.LineGivesClient` | services/event-ingester/src/elastic.rs:219-257 | the same for the peer, the client and where its address was found |
| `EventEnrichment.LineGivesHeaders` | services/event-ingester/src/elastic.rs:225-232 | the same for the two headers as they were read |
| `EventEnrichment.NormalizeEvent` | services/event-ingester/src/elastic.rs:160-190 | the index of the timestamp's day, or of today; enrichment, ingestion time and trace id, for objects only |
| `EventEnrichment.IndexStableExactly` | services/event-ingester/src/elastic.rs:160-172 | an event is indexed on the same day whenever it is normalized, and again, if and only if it has a readable timestamp |
| `EventEnrichment.NormalizeIdempotent` | services/event-ingester/src/elastic.rs:160-190 | a normalized event is left alone by a later normalization |
| `EventEnrichment.NormalizedExtends` | services/event-ingester/src/elastic.rs:160-190 | a normalized event holds everything the event held |

## Left out

- HTTP routing, role checks on requests, audit logging, metrics and health probes: they do not touch the modelled state.
- Hashing, signatures, base64, JSON text and UUID generation: opaque, with fresh ids.
- Public-suffix and IDNA lookup: the registered domain of a host is a function parameter.
- Redis back-off timing and pub/sub plumbing: the three connection attempts are outcomes given as a parameter, and delivery is a step that may or may not happen; the refinement to one map is for writes that succeed.
- Redis matches bytes and stops at a nesting depth of 1000; globs here match characters at any depth, which is the same for literal patterns.
- 32-bit overflow of failure and token version counters: they are unbounded here; the one cast that matters, of rule priorities, is modelled.
- Concurrent login attempts for one user: the failure counter and the lockout are modelled for serial attempts.
- An import of overrides invalidates scopes before its transaction commits; here the table changes in one step and the scopes are part of the answer.
- OIDC logins and service accounts: only local users are modelled.
- Role and permission administration, and updates of group names and status, which do not bear on the administrator test.
- LoginLockout.LocalAccount.SetPassword: the account is given, so the answer for a missing user is not part of it; `IamStore` models that answer.
- Classification flags, classification version rows and the pending-request details settled by an import.
- Cursor encoding and its error for malformed or mismatched cursors.
- Legacy page and offset listings and text search filters: easy, and not connected to the properties here.
- ICAP parsing, CIDR matching, reports, the command line tool, the web interface and the crawler.
- Nested JSON maps are values: an event's map is reassigned rather than updated through references into it, which no caller can observe.
- ClassificationImport.RoundingError: confidences are real numbers; binary floating-point error below the tolerance and NaN are not modelled.
- ClassificationImport.ExportedRowIsTheSame: for keys that canonicalize to themselves, because the registered domain of a host is opaque here.
