# Verified model of the authentication service

A Dafny 4.11 model of the parts of the service whose correctness is hardest to
see: refresh-session rotation under concurrency, persisted unread counters,
the resource-permission catalog and the actions stored against it, captcha
layout, the dictionary cache, masking of connection strings, calendar charts
and route selection. `dafny verify dfyconfig.toml` checks everything.

## What the files hold

- `SessionStore`, `SessionProtocol`, `SessionInvariant`, `SessionTheorems`,
  `SessionOutcomes`, `RefreshTokenText`: the session store as a class, the calls
  of the session service as processes whose store calls and clock readings are
  single atomic steps, an invariant over every schedule, what no schedule can
  bring about, how each call goes on from every reachable state, and the text of
  a token. A caller
  may name any session and any positive generation, issued or not; the keyed
  code in a token's text is an arbitrary function; session identifiers are drawn
  at most once.
- `MessageStatus`, `MessageRecipients`, `MessageProtocol`, `MessageSharing`,
  `MessageTheorems`, `MessageMissed`, `MessageLateDelivery`, `MessageEffects`,
  `MessageProgress`: each SQL statement as a function on the tables at its own instant, and any number of transactions
  open at once under the shared gate and their row locks, between whose
  statements others commit, accounts are created, rows are polled and time
  passes. `Db.missed` is history that decides nothing: the deliveries that the
  recipient's row does not count.
- `ResourceCatalog`, `CycleCheck`, `CatalogSearch`, `BindingMerge`,
  `DirectoryBindings`, `CatalogValidation`: the catalog graph, its searches and
  its validation.
- `Words`, `Ordering`, `Grants`, `GrantLoops`, `GrantMeaning`, `PageOrigins`,
  `ActionConfig`: what a stored selection resolves to, as a function, as the
  loops that compute it, and as told by the catalog alone.
- `ActionMigration`, `DefaultMigration`, `ActionTable`, `ActionAssignment`,
  `ActionCodes`, `PermissionGroups`, `ActionStore`, `RenameMeaning`,
  `DefaultMeaning`, `AssignmentMeaning`: the action table under creation, update,
  deletion, assignment and catalog edits. `Store.Valid` is the invariant: the
  committed catalog valid, every group registered, every projection equal to the
  resolution against that catalog, codes and words unique.
- `CaptchaShuffle`, `CaptchaLayout`, `LineDrawing`, `Arithmetic`: glyph placement and the noise line.
- `ValueCache`, `CacheProtocol`: the two caches and the readers, writers and
  invalidations around them.
- `DsnMasking`, `Calendar`, `Routes`, `Options`.

Random draws, clock readings, identifiers from a sequence, generated codes and
the order in which maps are walked are arbitrary in the model. Time zones are
arbitrary functions from seconds to dates. The test for sensitive names and
the JSON text of a binding are arbitrary functions (the latter injective).

Two promises are false as the comments of the code state them.

A token that is current on arrival can be punished when a rotation stalls for a
whole retry window between reading the clock and its compare-and-set
(`SlowRotationPunishesCurrentToken`); `PunishedExactly` gives the exact
condition and `CurrentTokenIsNeverPunished` the guarantee without such stalls.

A persisted unread row can stay wrong. A send locks the rows of its recipients
when it begins, but checks that they exist only when it delivers; an account
created in between, whose first Status call is open at the same time, ends with
a row that does not count the message (`LateRecipientIsMiscounted`, from every
quiet state and for every list that names a missing account). At its commit a
send is missed by exactly those recipients' rows that were committed meanwhile
and that it had not locked (`SendIsMissedExactly`), and later by a row that was
computed before that commit. A row is right exactly when it has missed nothing
that is still visible and unread (`CommittedRowsTellTheTruth`), and it misses
nothing if every send names accounts that exist when it begins
(`ExactWhenNamedWhileExisting`), which a caller can check before the call.

## Model

| member | source | states |
|---|---|---|
| SessionTheorems.EarlyTokenIsNeverPunished | {{ .Project }}/internal/modules/auth/session.go:198-220 | In every interleaving, a token whose arrival precedes the stamp of the rotation that replaced it plus the retry window never leads ReadRefresh to delete the session, whatever newer rotations its read crossed. |
| SessionTheorems.CurrentTokenIsNeverPunished | {{ .Project }}/internal/modules/auth/session.go:157-220 | If every rotation commits within a retry window of its stamp, a token that was the newest one on arrival is never punished as a replay. |
| SessionTheorems.CurrentTokenPunishedOnlyBySlowRotation | {{ .Project }}/internal/modules/auth/session.go:174-220 | The only way to punish a token that was the newest one on arrival: a rotation whose compare-and-set came at least a full window after its stamp, with the arrival in between. |
| SessionTheorems.SlowRotationPunishesCurrentToken | {{ .Project }}/internal/modules/auth/session.go:174-220 | Without promptness the claim is false: a concrete schedule in which the newest token is punished because a rotation stalled between its stamp and its compare-and-set. |
| SessionTheorems.PunishedExactly | {{ .Project }}/internal/modules/auth/session.go:198-216 | A fetched record gets its family deleted if and only if it decodes, the token was replaced, it arrived a full window after the replacing stamp, and not before the newest stamp the read saw. |
| SessionTheorems.RenewDecidesInTwoPasses | {{ .Project }}/internal/modules/auth/session.go:155-195 | Only the first pass of Renew reaches the compare-and-set; after a failed one the next read sees a later generation or nothing, so the three-attempt error cannot happen. |
| SessionTheorems.RefreshYieldsOwnOrNext | {{ .Project }}/internal/modules/auth/session.go:150-195 | A successful refresh of generation g hands out generation g or g + 1 of the same session. |
| SessionOutcomes.ReadRefreshDecides | {{ .Project }}/internal/modules/auth/session.go:133-149 | From every reachable state, in terms of the session's history: a read sees the newest record of a session that is still there and otherwise denies; the token is then accepted exactly if its generation is the one read, or the one before and the arrival precedes its replacement plus the window; a token replaced for longer than the window, by the newest stamp seen, is punished; every other one, and every one after the session's expiry, is denied. |
| SessionOutcomes.RenewDecides | {{ .Project }}/internal/modules/auth/session.go:150-196 | What each step of Renew does from every reachable state: a refresh of generation g is answered with the newest token when that is generation g + 1, or g inside its window; it goes on to rotate when the newest is g outside the window; and it is denied exactly when the session moved further, expired or vanished. A rotation succeeds exactly while the session is stored at generation g, appends one stamp to its history and hands out generation g + 1; otherwise the read is repeated. |
| SessionOutcomes.RenewStarts | {{ .Project }}/internal/modules/auth/session.go:150-154 | A renewal is begun exactly by the identity the session was created for. |
| SessionOutcomes.UndisturbedRefresh | {{ .Project }}/internal/modules/auth/session.go:133-196 | From every reachable state, ReadRefresh and Renew with a good token and nothing in between end with a token: the newest one, unchanged, for the generation before it or inside the retry window, and otherwise that of exactly one new rotation stamped with the current time. |
| SessionOutcomes.UndisturbedIssue | {{ .Project }}/internal/modules/auth/session.go:103-128 | From every reachable state a valid identity is issued generation 1 of a new session that ends after the lifetime its remember flag chose, exactly while the store has room; an invalid one is denied. |
| SessionOutcomes.IssueAndRevokeDecide | {{ .Project }}/internal/modules/auth/session.go:103-128 | The store call of Issue commits exactly while the deadline is ahead and there is room, showing the new session and hiding none; revocation and punishment remove that session and nothing else. |
| SessionOutcomes.SessionsLast | {{ .Project }}/internal/modules/auth/session.go:111-123 | In every reachable state a stored session expires at its creation instant plus the lifetime its remember flag chose, to the millisecond. |
| SessionOutcomes.OnlyDeletesEnd | {{ .Project }}/internal/modules/auth/session_store.go:54-78 | A live session stays stored with its deadline through every step of every schedule but the delete of a revocation or of a punished replay; neither a sweep nor a full store removes it. |
| SessionTheorems.OneTokenPerGeneration | {{ .Project }}/internal/modules/auth/session.go:315-318 | All callers that are given one generation of a session are given the identical token. |
| SessionTheorems.SessionsKeepTheirBirth | {{ .Project }}/internal/modules/auth/session.go:174-192 | Between any two moments of a run a stored session changes only in generation and rotation stamp, and only forward; identity, creation and expiry stay. |
| SessionTheorems.GoneForGood | {{ .Project }}/internal/modules/auth/session_store.go:80-121 | Once a session that existed is deleted or expired, no later read returns it and no later rotation revives it. |
| SessionTheorems.LiveRecordsAreWellShaped | {{ .Project }}/internal/modules/auth/session.go:296-303 | Every visible record passes the decoding checks; rotations are a window apart, so createdAt + (generation - 2) * window <= rotatedAt < expiredAt; the MaxInt64 generation is out of reach. |
| SessionInvariant.RunKeeps | {{ .Project }}/internal/modules/auth/session.go:103-220 | The invariant behind all of these survives every schedule of process steps, lost replies, failed calls, sweeps and clock ticks. |
| SessionInvariant.VerdictByHistory | {{ .Project }}/internal/modules/auth/session.go:201-220 | What a token's verdict is, in terms of the stamps in the session's history instead of the record's fields. |
| SessionInvariant.StampsApart | {{ .Project }}/internal/modules/auth/session.go:174-192 | Successive rotation stamps of one session are at least a retry window apart. |
| SessionStore.MemorySessionStore.Create | {{ .Project }}/internal/modules/auth/session_store.go:54-78 | The new map and the error of a create, including the purge of expired entries when the store is full. |
| SessionStore.MemorySessionStore.Get | {{ .Project }}/internal/modules/auth/session_store.go:80-92 | A hit exactly on an unexpired entry; an expired one is dropped. |
| SessionStore.MemorySessionStore.Rotate | {{ .Project }}/internal/modules/auth/session_store.go:94-111 | The compare-and-set on the complete value, with its three refusals. |
| SessionStore.MemorySessionStore.Delete | {{ .Project }}/internal/modules/auth/session_store.go:113-121 | Removes one entry and nothing else. |
| SessionStore.MemorySessionStore.Close | {{ .Project }}/internal/modules/auth/session_store.go:123-133 | Empties the store for good. |
| SessionStore.MemorySessionStore.RemoveExpired | {{ .Project }}/internal/modules/auth/session_store.go:161-167 | The cleanup walk in any map order leaves exactly the visible entries. |
| SessionStore.CreateShowsEntry | {{ .Project }}/internal/modules/auth/session_store.go:54-78 | A successful create needs an identifier nobody can see and a deadline ahead, and shows the entry without hiding another. |
| SessionStore.CreateDecides | {{ .Project }}/internal/modules/auth/session_store.go:54-78 | The outcome of a create in terms of what is visible: refused for a deadline not ahead, a visible identifier, or as many visible entries as the capacity; done otherwise. |
| SessionStore.RefusedCreateIsInvisible | {{ .Project }}/internal/modules/auth/session_store.go:54-78 | A refused create changes nothing an observer can see now or later, even when it purged. |
| SessionStore.CapacityIsReal | {{ .Project }}/internal/modules/auth/session_store.go:70-75 | A capacity refusal means that so many entries are really visible. |
| SessionStore.RotateObserved | {{ .Project }}/internal/modules/auth/session_store.go:94-111 | Rotate succeeds if and only if the complete expected value is visible and the deadline ahead; a refused one is invisible. |
| SessionStore.RedisRotatesLikeMemory | {{ .Project }}/internal/modules/auth/session_store.go:193-207 | The Redis rotation script decides and shows the same as the memory store, whatever expired keys Redis still holds. |
| SessionStore.RedisCreatesLikeMemory | {{ .Project }}/internal/modules/auth/session_store.go:180-191 | The Redis creation script agrees with the memory store for a new identifier while there is room. |
| RefreshTokenText.IssuedTokenIsParsed | {{ .Project }}/internal/modules/auth/session.go:315-332 | The text of an issued token is parsed back to its session and generation, within the 128 character limit. |
| RefreshTokenText.ParsedTokenIsTheIssuedOne | {{ .Project }}/internal/modules/auth/session.go:320-332 | Any accepted text is exactly the text issued for the session and generation it is read as. |
| MessageTheorems.CommittedRowsTellTheTruth | {{ .Project }}/internal/modules/msg/status.go:84-111 | In every reachable committed state and at every instant from then on, a row whose deadline is null or ahead equals the full recount of visible unread messages if and only if it has missed none of them; a row misses what was delivered to its account without being counted, until the row is next recomputed or the message is retracted. |
| MessageTheorems.CommittedRowsCountAllButTheMissed | {{ .Project }}/internal/modules/msg/status.go:84-111 | In every interleaving of transactions that share the gate, such a row counts exactly the recount without what it has missed, and has the latest publication time among it. |
| MessageTheorems.StatusIsExactInsideTheCall | {{ .Project }}/internal/modules/msg/status.go:13-45 | Every reply of Status, fast or slow path, is the recount of some instant between its call and its return without what its row had missed by then; it is the exact recount if and only if the row had missed none of it. |
| MessageTheorems.ConstraintsAlwaysHold | {{ .Project }}/internal/modules/msg/status.go:105-111 | The table's check constraints hold in every committed state: the count is never negative, and zero exactly when there is no latest time. |
| MessageTheorems.RunKeeps | {{ .Project }}/internal/modules/msg/status.go:51-82 | The invariant survives every schedule of statements at different instants, lock waits, commits, registrations, polls, aborts and ticks. |
| MessageTheorems.ApplyKeeps | {{ .Project }}/internal/modules/msg/status.go:51-82 | One step of any transaction keeps it. |
| MessageLateDelivery.LateRecipientIsMiscounted | {{ .Project }}/internal/modules/msg/msg.go:160-191 | From every reachable state with nothing open, for every recipient list that names an account that does not exist, every expiry ahead and every unused message id: a schedule that ends with nothing open and the account's row, deadline null or ahead, different from the recount. So naming only existing accounts is necessary as well as sufficient. |
| MessageMissed.ExactWhenNamedWhileExisting | {{ .Project }}/internal/modules/msg/msg.go:160-191 | For every account that no send has named before the account existed, in every run: nothing is missed, every row whose deadline is null or ahead equals the full recount, and every reply of Status was exact at an instant inside its call. |
| MessageMissed.NobodyMissesAnything | {{ .Project }}/internal/modules/msg/msg.go:160-191 | If every send of a run names only accounts that exist when it begins, no row has missed anything. |
| MessageMissed.SendIsMissedExactly | {{ .Project }}/internal/modules/msg/msg.go:174-191 | At the commit of a send a recipient's row misses its message if and only if that row was committed meanwhile and the send had not locked it. |
| MessageMissed.OtherAttends | {{ .Project }}/internal/modules/msg/status.go:47-82 | A commit makes no other open transaction miss anything for an account whose rows the sends to it have locked. |
| MessageSharing.CommitIsWork | {{ .Project }}/internal/modules/msg/status.go:47-82 | Applying a transaction's own writes to what is committed by then gives exactly what the transaction saw: row locks and the shared gate leave no lost update. |
| MessageSharing.StatementAgrees | {{ .Project }}/internal/modules/msg/status.go:51-82 | A statement of a transaction that shares the gate differs from the committed tables only in what the transaction may write. |
| MessageSharing.OtherStays | {{ .Project }}/internal/modules/msg/status.go:51-82 | A commit leaves every other open transaction in order: its rows can still be relied on at its next statement. |
| MessageSharing.MergedIsGood | {{ .Project }}/internal/modules/msg/status.go:84-111 | In the merge of two transactions' writes every row counts all but what it has missed: a delivery that only the other side made is missed, and nothing else changes. |
| MessageSharing.MissesAgree | {{ .Project }}/internal/modules/msg/status.go:47-82 | What the rows miss does not depend on the order in which two transactions commit. |
| MessageProtocol.StatementKeeps | {{ .Project }}/internal/modules/msg/msg.go:160-194 | Each statement of each operation keeps what the transaction may rely on in the rows. |
| MessageEffects.CommitHasEffect | {{ .Project }}/internal/modules/msg/msg.go:160-410 | In every interleaving, what a commit did to the committed tables: a read sets the read time of its own receipt if it was empty, keeps it undeleted and changes no other receipt or message; a delete is the mirror image; reading everything does this for exactly the messages then visible and unread; a send adds one message with its scope and expiry and one empty receipt per recipient; a retraction removes exactly that message and its receipts; Status and the sweep write neither. |
| MessageEffects.OnlyCommitsWrite | {{ .Project }}/internal/modules/msg/msg.go:160-410 | No other step writes a message or a receipt, except that a dropped account takes its receipts with it. |
| MessageEffects.CommitRenewsRows | {{ .Project }}/internal/modules/msg/status.go:51-101 | After the commit of any operation but a send, the rows of its users exist, and none of the rows it is about was overdue when it ran. |
| MessageProgress.StatementDecides | {{ .Project }}/internal/modules/msg/msg.go:160-410 | From every reachable state, a statement that need not wait goes on to the next stage exactly if the committed tables have what it needs (the message visible and not deleted for a read, visible for a delete, there for a retraction; every recipient an account; an expiry ahead) and otherwise rolls the transaction back. |
| MessageProgress.UndisturbedOperation | {{ .Project }}/internal/modules/msg/status.go:51-82 | From every reachable state with nothing open, an operation that the tables allow takes effect within its statements. |
| MessageProgress.StatusIsAnswered | {{ .Project }}/internal/modules/msg/status.go:13-33 | Every commit of a Status call appends its reply. |
| MessageRecipients.Recipients | {{ .Project }}/internal/modules/msg/msg.go:141-159 | A list of recipients is accepted exactly when it fits the scope, and then each account is kept once, in the order of first mention. |
| MessageStatus.ReadTakesOne | {{ .Project }}/internal/modules/msg/msg.go:350-364 | Reading takes exactly that message out of its reader's recount at every instant and changes nobody else's; reading again changes nothing. |
| MessageStatus.DeleteTakesOne | {{ .Project }}/internal/modules/msg/msg.go:366-379 | The same for deleting; a deleted message can no longer be read. |
| MessageStatus.ReadAllTakesTheVisible | {{ .Project }}/internal/modules/msg/msg.go:381-395 | Reading everything leaves exactly what becomes visible later, and nothing of one user's reaches another. |
| MessageStatus.CountedWithMessage | {{ .Project }}/internal/modules/msg/msg.go:160-194 | What counting one message adds to what a row counts and to the publication times it aggregates. |
| MessageStatus.AddStatusAgrees | {{ .Project }}/internal/modules/msg/status.go:105-111 | Counting a sent message by increment agrees with a recount, although the statements of the send run at different instants and some rows fell due in between; afterwards no counted row misses the message. |
| MessageStatus.RefreshRepairs | {{ .Project }}/internal/modules/msg/status.go:84-101 | A refresh makes every chosen row right again, whatever it had missed, and a due-only refresh keeps the rows it does not touch. |
| MessageStatus.RecomputedIsTrusted | {{ .Project }}/internal/modules/msg/status.go:84-101 | A recomputed row misses nothing and equals the recount until its new deadline. |
| MessageStatus.TruthfulExactly | {{ .Project }}/internal/modules/msg/status.go:84-101 | A row that counts all but what it has missed equals the recount if and only if it has missed none of it. |
| MessageStatus.RecountIsStable | {{ .Project }}/internal/modules/msg/status.go:89-98 | Until the deadline a refresh computes, nothing is published and nothing expires: the recount stays the same. |
| MessageStatus.ReceiptWriteKeeps | {{ .Project }}/internal/modules/msg/msg.go:350-397 | Writing one user's receipts only matters to that user's row. |
| MessageStatus.DeleteMessageKeeps | {{ .Project }}/internal/modules/msg/msg.go:399-410 | Retracting a message leaves the tables well formed and every row to be recomputed. |
| MessageStatus.AddUserKeeps | {{ .Project }}/internal/modules/msg/msg.go:91-106 | A user created later disturbs no row: old broadcasts do not reach it. |
| CatalogValidation.Validate | {{ .Project }}/internal/modules/localization/resource_catalog.go:118-299 | Accepts exactly the catalogs whose scopes and keys are in order, whose nodes and features are sound, in which no page and no feature has two owners, and whose combined parent and reference links form no loop, in whatever order the maps are walked. |
| CycleCheck.CheckAcyclic | {{ .Project }}/internal/modules/localization/resource_catalog.go:229-251 | The three-state search over all roots passes if and only if the graph has no cycle. |
| CycleCheck.Search.VisitUnseen | {{ .Project }}/internal/modules/localization/resource_catalog.go:231-246 | A visit finishes its key and leaves the active keys alone, or the graph is cyclic. |
| CycleCheck.TopologicalIsAcyclic | {{ .Project }}/internal/modules/localization/resource_catalog.go:229-251 | The order in which keys are finished rules out cycles. |
| CatalogValidation.CheckReferences | {{ .Project }}/internal/modules/localization/resource_catalog.go:167-177 | The reference loop accepts exactly distinct, existing, same-scope targets of a directory. |
| CatalogValidation.CheckSelection | {{ .Project }}/internal/modules/localization/resource_catalog.go:178-188 | The operation restriction of one reference is accepted exactly when it is nonempty, duplicate free and supported. |
| CatalogValidation.CheckParents | {{ .Project }}/internal/modules/localization/resource_catalog.go:190-198 | The parent walk accepts a key exactly when every ancestor it can climb to is a new directory of the same scope. |
| CatalogValidation.BadAncestor | {{ .Project }}/internal/modules/localization/resource_catalog.go:190-198 | Where every parent taken alone is sound, an ancestor chain can only fail by running into a loop. |
| CatalogValidation.CheckChildOrder | {{ .Project }}/internal/modules/localization/resource_catalog.go:155-163 | The child order is accepted exactly when it lists distinct children and references of a directory. |
| CatalogValidation.CheckEntries | {{ .Project }}/internal/modules/localization/resource_catalog.go:199-207 | The pages of a node are accepted exactly when each is well formed and owned by nobody yet, and become the node's. |
| CatalogValidation.CheckOperations | {{ .Project }}/internal/modules/localization/resource_catalog.go:208-227 | The operations of a node are accepted exactly when each lists registered pages and features, once and under the node's key, and no feature is listed twice or owned already; its features become the node's. |
| CatalogValidation.CheckDistinct | {{ .Project }}/internal/modules/localization/resource_catalog.go:212-218 | Listed pages are registered and listed once. |
| CatalogValidation.CheckFeatures | {{ .Project }}/internal/modules/localization/resource_catalog.go:219-226 | Listed features are registered, listed once, under the node's key and owned by nobody yet. |
| CatalogValidation.CheckFeature | {{ .Project }}/internal/modules/localization/resource_catalog.go:252-297 | A feature is accepted exactly when some resource uses it and it names pages, buttons and endpoints that are well formed and lie in its owner's scope. |
| CatalogSearch.SupportSearch.Supports | {{ .Project }}/internal/modules/localization/resource_catalog.go:301-329 | Ends on every catalog, cyclic or not, gives the path back unchanged, and finds support exactly when some resource offering the operation can be reached without entering the path. |
| ResourceCatalog.DirectoryReachesThroughEdges | {{ .Project }}/internal/modules/localization/resource_catalog.go:301-329 | A path guard loses nothing: a directory reaches what its edges reach without passing it again. |
| DirectoryBindings.DirectoryResourceBindings | {{ .Project }}/internal/modules/action/resource_conversion.go:113-163 | Returns exactly the reachable pairs of resource and operation, each once and with its full feature list, in the order in which the search lists them first: children by sort number and key, then references. |
| DirectoryBindings.DirectorySearch.Visit | {{ .Project }}/internal/modules/action/resource_conversion.go:121-160 | Appends exactly the bindings due below a key in the order of the search, ends on cyclic catalogs, and restores the path. |
| DirectoryBindings.ChildrenInOrder | {{ .Project }}/internal/modules/action/resource_conversion.go:138-147 | The children of a directory are searched once each, by their sort numbers and then by their keys. |
| DirectoryBindings.ExpandsIffSupported | {{ .Project }}/internal/modules/action/resource_conversion.go:113-163 | For one operation the expansion is nonempty exactly when the support search succeeds, once edges stay in scope. |
| CatalogValidation.ExpansionMatchesSupport | {{ .Project }}/internal/modules/localization/resource_catalog.go:301-329 | The same on every catalog that passes the node checks of validation. |
| CatalogValidation.ExpandedBindingsResolve | {{ .Project }}/internal/modules/action/resource_conversion.go:113-163 | Every binding of an expansion of a validated catalog can be resolved in the owner's scope. |
| BindingMerge.MergeBindings | {{ .Project }}/internal/modules/action/resource_conversion.go:165-187 | One entry per identity, in the words of its first part, with the features of all parts, in the order of first mention. |
| BindingMerge.CollectedMeansUnion | {{ .Project }}/internal/modules/action/resource_conversion.go:165-187 | A merged entry selects all features as soon as one part does, and otherwise exactly the union. |
| BindingMerge.IdentityIsInjective | {{ .Project }}/internal/modules/action/resource_conversion.go:169 | The joined text of key and operation never confuses two pairs whose operations have no colon. |
| Grants.BindingSelectsFields | {{ .Project }}/internal/modules/localization/resource_catalog.go:332-425 | Resolving one binding for selected fields is selecting from its full resolution, with the same refusals. |
| Grants.AllSelectsFields | {{ .Project }}/internal/modules/localization/resource_catalog.go:441-485 | The same for the resolution of a whole scope. |
| Grants.ResourcesSelectFields | {{ .Project }}/internal/modules/localization/resource_catalog.go:512-552 | The same for the default resource selection. |
| Grants.FewerFeaturesFewerEndpoints | {{ .Project }}/internal/modules/localization/resource_catalog.go:349-381 | For one operation a smaller feature selection gives a subset of the endpoints. |
| GrantLoops.ResolveBindingByLoops | {{ .Project }}/internal/modules/localization/resource_catalog.go:332-425 | The loops refuse the same bindings as the resolution the lemmas are about, and on every catalog that passes validation give the same grant, in whatever order owners and entries are walked. |
| GrantLoops.SoundHasOneOwnerEach | {{ .Project }}/internal/modules/localization/resource_catalog.go:199-207 | In a catalog that passes validation every page has one owner, so the walk over owners finds the same entry in any order. |
| GrantLoops.ResolveAllByLoops | {{ .Project }}/internal/modules/localization/resource_catalog.go:441-485 | The same for the loops over a scope's keys and operations, page marks and missing pages. |
| GrantLoops.ResolveResourcesByLoops | {{ .Project }}/internal/modules/localization/resource_catalog.go:512-552 | The same for the checks and loops of the default selection. |
| GrantLoops.CollectFeatures | {{ .Project }}/internal/modules/localization/resource_catalog.go:349-381 | The feature loop stops exactly at an unknown, foreign or repeated feature, and otherwise collects scopes, buttons, pages and endpoints. |
| GrantLoops.ListUi | {{ .Project }}/internal/modules/localization/resource_catalog.go:382-419 | The walk over owners and entries shows exactly the entries that belong to the resource or are referenced. |
| GrantMeaning.OperationReaches | {{ .Project }}/internal/modules/localization/resource_catalog.go:332-425 | One operation reaches exactly the endpoints of the chosen features, each once and in order. |
| GrantMeaning.OperationShows | {{ .Project }}/internal/modules/localization/resource_catalog.go:382-419 | A page is shown, entered, or shown with a button exactly when the features and entries say so. |
| GrantMeaning.ButtonsOfAPage | {{ .Project }}/internal/modules/localization/resource_catalog.go:412 | The buttons of a page are those that carry its key with the menu segment turned into a button segment. |
| PageOrigins.ResolvedPagesAreOriginal | {{ .Project }}/internal/modules/localization/resource_catalog.go:407-419 | Every page of a resolved configuration, merged or not, carries the path and the parent that its owner registers; on a valid catalog that owner is the only one. |
| GrantMeaning.OperationAllowsExactly | {{ .Project }}/internal/modules/localization/resource_catalog.go:332-425 | One operation allows exactly the endpoints, pages, page entries, buttons and permission scopes that its features and pages name. |
| GrantMeaning.AllAllowsExactly | {{ .Project }}/internal/modules/localization/resource_catalog.go:441-485 | Resolving a scope succeeds exactly when each of its operations does; it is marked by the wildcard and allows exactly the endpoints and buttons of all of them, and every page they show or the scope owns, each of which can be entered. |
| GrantMeaning.AllEntersEveryPage | {{ .Project }}/internal/modules/localization/resource_catalog.go:463-483 | Under the wildcard every page of the scope can be entered. |
| GrantMeaning.EachIsTheUnion | {{ .Project }}/internal/modules/localization/resource_catalog.go:512-552 | Several operations resolve exactly when each does, and allow exactly the endpoints, pages, buttons and scopes that one of them allows. |
| GrantMeaning.ConfigIsTheUnion | {{ .Project }}/internal/modules/action/config.go:248-279 | A configuration with explicit bindings allows exactly what one of its bindings allows, pages, buttons and scopes included, and is unrestricted exactly when one of them is. |
| GrantMeaning.ConfigResolvesExactly | {{ .Project }}/internal/modules/action/config.go:235-321 | A configuration resolves if and only if its word is valid, its selection is stated in one way, its bindings are valid and distinct pairs, and everything selected is registered; for the built-ins, the selection or the whole scope. |
| GrantMeaning.BindingResolvesExactly | {{ .Project }}/internal/modules/localization/resource_catalog.go:332-381 | A binding resolves exactly if its key is in scope and its features are registered under the operation, each once; the wildcard takes no features and needs every operation of the scope to resolve. |
| DefaultMeaning.DefaultAllowsExactly | {{ .Project }}/internal/modules/localization/resource_catalog.go:512-552 | A default selection allows exactly what its keys and their selected registered features allow. |
| DefaultMeaning.DefaultResolvesExactly | {{ .Project }}/internal/modules/localization/resource_catalog.go:512-540 | On a valid catalog it resolves exactly if its keys are readable resources of the scope, its features are registered by one of them, and nothing is listed twice. |
| ActionConfig.ConfigSelectsFields | {{ .Project }}/internal/modules/action/config.go:235-321 | Resolving a configuration for selected fields equals projecting its full resolution, with the same refusals. |
| ActionConfig.ResolvedIsUnique | {{ .Project }}/internal/modules/action/config.go:290-319 | A resolved configuration has one entry per menu key and one row per endpoint. |
| ActionConfig.MergeKeepsEveryPage | {{ .Project }}/internal/modules/action/config.go:291-310 | Merging pages keeps every page, page entry and button, and adds none. |
| ActionConfig.ResolveIsIdempotent | {{ .Project }}/internal/modules/action/config.go:235-321 | Resolving a resolved configuration gives it back. |
| ActionConfig.Resolve | {{ .Project }}/internal/modules/action/config.go:235-321 | The loops over bindings, pages and endpoints compute the resolution the lemmas are about. |
| ActionConfig.MergePageEntries | {{ .Project }}/internal/modules/action/config.go:291-310 | The page loop with its index map. |
| ActionConfig.DedupeEndpoints | {{ .Project }}/internal/modules/action/config.go:311-319 | The endpoint loop with its seen set. |
| ActionConfig.ResolvedIsUpToDate | {{ .Project }}/internal/modules/action/config.go:324-338 | What is stored after a resolution is what resolving it again gives. |
| ActionConfig.ProjectedIsUpToDate | {{ .Project }}/internal/modules/action/resource_migration.go:160-198 | Writing only the four projection fields back beside a stored selection makes it agree with the catalog. |
| ActionMigration.RenameTwiceIsOnce | {{ .Project }}/internal/modules/action/resource_migration.go:217-234 | Valid renames are idempotent: applying them a second time changes no key. |
| ActionMigration.RenamedKeyIsFound | {{ .Project }}/internal/modules/action/resource_migration.go:217-234 | A renamed key is gone from the new catalog and found in it under its new name; every other key stays. |
| ActionMigration.ConvertedIsSettled | {{ .Project }}/internal/modules/action/resource_migration.go:69-98 | Converted bindings, merged features included, are left alone by the rename pass that follows. |
| ActionMigration.MigratedPairs | {{ .Project }}/internal/modules/action/resource_conversion.go:37-56 | The whole migration of explicit bindings, listed or in the single form, grants exactly the pairs due: those of kept bindings under the new names and everything reachable below resources that became directories; the next row gives their features. |
| ActionMigration.MigratedFeatures | {{ .Project }}/internal/modules/action/resource_conversion.go:37-60 | The features of each migrated binding: everything if one contribution selects everything, otherwise exactly the union of the contributed lists; without a resource that became a directory, the renamed lists as they were. |
| DefaultMigration.DefaultMigrated | {{ .Project }}/internal/modules/action/resource_conversion.go:76-104 | The migrated default selection, told by the two catalogs and the old one: a resource is listed exactly if an old key that did not become a directory stands for it under its new name, or a new directory reaches it for reading; where a key became a directory, a feature is selected exactly if it is a registered read feature of a kept resource that was selected under an old name or with no list, or of a reached resource; nothing is listed twice. |
| DefaultMeaning.ConvertedRowAllows | {{ .Project }}/internal/modules/action/resource_conversion.go:76-104 | After such an edit the stored action's endpoints, scopes, pages, page entries and buttons are exactly those that the due keys and the due features allow in the new catalog. |
| DefaultMeaning.KeptResourceKeepsItsParts | {{ .Project }}/internal/modules/action/resource_conversion.go:88-96 | A resource of the selection that did not become a directory keeps the endpoints, scopes, pages and buttons of its selected features, as far as the new catalog registers them with the same parts. |
| DefaultMeaning.ConvertedDefaultResolves | {{ .Project }}/internal/modules/action/resource_conversion.go:76-104 | A conversion strands no default selection whose other resources can still be read in the new catalog. |
| DefaultMigration.NoDirectoryIsRead | {{ .Project }}/internal/modules/action/resource_conversion.go:76-104 | A default selection of resources lists no directory after any edit. |
| DefaultMigration.NoDirectoryIsBound | {{ .Project }}/internal/modules/action/resource_conversion.go:41-56 | Explicit bindings of resources name no directory after any edit. |
| RenameMeaning.RenamesKeepEveryGrant | {{ .Project }}/internal/modules/action/resource_migration.go:15-215 | After a catalog edit that only renames keys of a valid catalog, every stored action, whether with bindings, a default selection or the built-in for everything, keeps exactly the endpoints and scopes it had and, where the catalog keeps its pages, every page, page entry and button, and stays restricted or unrestricted. |
| RenameMeaning.KeepRenamed | {{ .Project }}/internal/modules/action/resource_migration.go:126-151 | Selecting features and renaming them commute when no two share a new name. |
| RenameMeaning.RenamedBindingAllows | {{ .Project }}/internal/modules/action/resource_migration.go:69-151 | A renamed binding resolves in the new catalog and allows the same as the old one in the old catalog, wildcard included. |
| ActionMigration.ConvertBindings | {{ .Project }}/internal/modules/action/resource_conversion.go:41-53 | The conversion loop produces the merge of exactly these contributions. |
| ActionMigration.MigrateSelection | {{ .Project }}/internal/modules/action/resource_migration.go:49-151 | Conversion of bindings, then of the default selection, then every stored key renamed, in every field; the rows before tell what that selects. |
| ActionTable.OneByOneIsAtOnce | {{ .Project }}/internal/modules/action/groups.go:44-54 | Group updates applied one after the other equal one simultaneous move when no target is itself moved. |
| ActionTable.SortedMovesAreSimultaneous | {{ .Project }}/internal/modules/dictionary/permission_groups.go:39-45 | The validity check of the moves makes that condition true. |
| ActionTable.MovedGroupIsRegistered | {{ .Project }}/internal/modules/dictionary/permission_groups.go:46-64 | After valid moves and unused removals every remaining group is registered in the new catalog. |
| ActionTable.ReconcileGroups | {{ .Project }}/internal/modules/action/groups.go:44-61 | Refuses invalid moves and rows left in a removed group, each exactly then, and otherwise commits the simultaneous move. |
| ActionTable.MigrateRow | {{ .Project }}/internal/modules/action/resource_migration.go:44-201 | One row keeps code, word and group; its selection follows the edit and its projection is what the new catalog gives. It is refused only if its migrated selection cannot be resolved. |
| ActionTable.MigrateRows | {{ .Project }}/internal/modules/action/resource_migration.go:39-202 | Every row is migrated, or some row is stranded. |
| ActionTable.ReconcileResources | {{ .Project }}/internal/modules/action/resource_migration.go:15-32 | Accepts only catalogs that pass validation with valid renames, leaves rows alone without an edit, and otherwise migrates them all; a refusal names its reason. |
| ActionStore.Store.UpdateCatalog | {{ .Project }}/internal/modules/dictionary/dictionary.go:337-470 | How an edit ends: a version conflict exactly when the expected value is not the committed one; committed with all rows migrated and moved together, the catalog valid, every action registered and up to date; or refused for a stated reason with nothing changed. |
| ActionStore.Store.Create | {{ .Project }}/internal/modules/action/action.go:140-214 | The exact outcome: invalid when the definition is not writable, exhausted when all five drawn codes are taken, a conflict when the word is; otherwise one action with the resolved configuration under a free drawn code, and the table stays consistent. |
| ActionStore.Store.Update | {{ .Project }}/internal/modules/action/action.go:216-293 | The exact outcome, in the order of the checks; a committed update replaces the changed fields with a resolved configuration and the table stays consistent. |
| ActionStore.ChangedFieldByField | {{ .Project }}/internal/modules/action/action.go:240-249 | A changed action takes each field that was asked for and keeps the others and its code. |
| ActionStore.BlankGroup | {{ .Project }}/internal/modules/action/config.go:103-114 | A group that is asked for is taken; without one the action is filed under its first binding's resource, else its single resource, else the group of its word. |
| ActionStore.GroupOfWord | {{ .Project }}/internal/modules/action/config.go:95-101 | The group of a word is the word without its second part, and none for a word of fewer than four parts. |
| ActionStore.GroupOfValidWord | {{ .Project }}/internal/modules/action/config.go:95-130 | For every valid word that is a valid group. |
| ActionStore.Store.Delete | {{ .Project }}/internal/modules/action/action.go:295-334 | Removes exactly the listed actions. |
| ActionStore.CatalogUpdateKeepsConsistent | {{ .Project }}/internal/modules/action/resource_migration.go:15-215 | After migration and moves every stored action has a registered group and the projection the new catalog gives. |
| ActionStore.Store.Insert | {{ .Project }}/internal/modules/action/action.go:181-198 | Codes and words stay unique. |
| ActionStore.Store.ResolveAssignment | {{ .Project }}/internal/modules/action/assignment.go:33-99 | Returns one distinct code per requested binding, each the oldest action granting exactly that binding, trimmed as the list of codes is; existing actions stay, and every added one was created for a binding without a match, under a drawn code, the nearest group and the resolved definition of that binding. A refusal has its reason in the request, in a definition or group that cannot be had, or in codes that are all taken. |
| ActionCodes.NormalizeCodes | {{ .Project }}/internal/modules/action/action.go:541-556 | The loop trims the codes, drops blanks and keeps the first of equal codes, in the given order. |
| ActionCodes.NormalizedAreTheTrimmed | {{ .Project }}/internal/modules/action/action.go:541-556 | What is left are exactly the given codes, trimmed and not blank. |
| ActionCodes.NormalizedStays | {{ .Project }}/internal/modules/action/action.go:541-556 | Normalizing a second time changes nothing. |
| ActionCodes.PlainCodesStay | {{ .Project }}/internal/modules/action/action.go:541-556 | Different codes without space around them stay as they are, in their order. |
| ActionStore.RepeatedAssignment | {{ .Project }}/internal/modules/action/assignment.go:33-99 | A repeated request, in any order, finds every binding matched and is given the same codes. |
| AssignmentMeaning.AssignedGrantsTheRequest | {{ .Project }}/internal/modules/action/assignment.go:33-99 | Together the restricted ones among the assigned actions allow exactly what the request asks for - endpoints, pages, page entries, buttons and listed scopes - and one of them is unrestricted exactly when the request names a wildcard. |
| AssignmentMeaning.MatchGrantsTheRequest | {{ .Project }}/internal/modules/action/assignment.go:73-97 | An action that satisfies a binding allows exactly what was requested, pages, buttons and scopes included, whether it is stored with bindings, as a default selection or as the built-in for everything. |
| AssignmentMeaning.SatisfiesExactly | {{ .Project }}/internal/modules/action/assignment.go:131-169 | An action matches exactly if its configuration consists of one binding that normalizes to the requested one: its only explicit binding, the least wildcard resource of its scope for the built-in everything, or the only key of a default selection with its selected features. |
| AssignmentMeaning.OldestMatches | {{ .Project }}/internal/modules/action/assignment.go:73-85 | The code found is that of the oldest matching action, and none is found exactly when no action matches. |
| AssignmentMeaning.NormalizedMeans | {{ .Project }}/internal/modules/action/assignment.go:101-124 | A requested binding is taken exactly if it is well formed and resolves, and then lists its features, or all registered ones, in ascending order and once. |
| ActionAssignment.OrderDoesNotMatter | {{ .Project }}/internal/modules/action/assignment.go:101-124 | The normalized request does not depend on the order of the request. |
| ActionAssignment.NormalizeRequest | {{ .Project }}/internal/modules/action/assignment.go:101-124 | The loop refuses exactly the requests with an invalid or repeated binding and otherwise returns all normalized bindings in order. |
| ActionAssignment.DifferentBindingsDifferentCodes | {{ .Project }}/internal/modules/action/assignment.go:73-85 | Two different bindings are never given one code. |
| ActionAssignment.SatisfiedInOwnScope | {{ .Project }}/internal/modules/action/assignment.go:65-72 | Looking only at the actions of the requested scopes misses no match. |
| ActionAssignment.CreatedSatisfies | {{ .Project }}/internal/modules/action/assignment.go:188-251 | The definition created on a miss satisfies its binding and no other. |
| ActionStore.Store.CreateAssigned | {{ .Project }}/internal/modules/action/assignment.go:188-251 | Adds one action for exactly this binding under the first drawn code that is free with its word, filed under the chosen group, or changes nothing because no group or definition is valid or all draws are taken. |
| ActionStore.Store.AssignmentGroup | {{ .Project }}/internal/modules/action/assignment.go:188-217 | The climb ends on any catalog. The first key on the way up that has a registered permission group or is a registered group itself decides, the permission group before the key; without one the least registered group of the scope is taken, and none exactly if the scope has none. |
| PermissionGroups.ChosenGroupIsUnique | {{ .Project }}/internal/modules/action/assignment.go:188-217 | That describes one group at most. |
| ActionStore.AssignedWordParts | {{ .Project }}/internal/modules/action/assignment.go:218-233 | The word of a created action has four parts: the scope, the operation, a mark, and the lower-cased code. |
| ActionStore.CodeMakesASegment | {{ .Project }}/internal/modules/action/assignment.go:233 | A code of letters and digits makes a valid last part. |
| ActionStore.Store.FindMatches | {{ .Project }}/internal/modules/action/assignment.go:69-85 | Finds the oldest match of every selected binding. |
| CaptchaLayout.PointCaptcha.RandomCenters | {{ .Project }}/internal/modules/auth/captcha.go:390-448 | For every random source a successful layout has each rectangle inside the padded canvas and all pairs disjoint; it fails only when the source does, a glyph exceeds the canvas, or a glyph exceeds a grid cell. The layout is that of the first packing attempt that completes, larger glyphs first; the grid is used only after the last attempt has failed, and the numbers drawn say so. |
| CaptchaLayout.PointCaptcha.GridCenters | {{ .Project }}/internal/modules/auth/captcha.go:450-489 | The grid fallback succeeds only with such a layout, never asks for an impossible draw, and refuses only a glyph that exceeds a cell. |
| CaptchaLayout.PointCaptcha.RandomizeCenters | {{ .Project }}/internal/modules/auth/captcha.go:491-527 | Every move keeps the layout, and after a grid layout no move asks for a nonpositive bound. |
| CaptchaLayout.PointCaptcha.PlaceInOrder | {{ .Project }}/internal/modules/auth/captcha.go:411-446 | One packing attempt is complete only with every glyph inside and clear of the others, each where its last draw put it; it gives up exactly when some glyph overlapped wherever it was tried. |
| CaptchaLayout.PointCaptcha.PlaceOne | {{ .Project }}/internal/modules/auth/captcha.go:420-438 | Each glyph takes the first drawn center that is clear of those placed, and gives up after exactly the bounded number of tries, all of which overlapped. |
| CaptchaLayout.PointCaptcha.RandomCenter | {{ .Project }}/internal/modules/auth/captcha.go:421-429 | The center is that of the two numbers drawn. |
| CaptchaLayout.PointCaptcha.EveryCenterIsDrawn | {{ .Project }}/internal/modules/auth/captcha.go:414-429 | Every center that keeps the glyph inside stands for exactly one pair of possible draws. |
| CaptchaLayout.CenterOverlaps | {{ .Project }}/internal/modules/auth/captcha.go:529-540 | The distance test decides exactly whether the rectangles overlap. |
| CaptchaLayout.LargestFirst | {{ .Project }}/internal/modules/auth/captcha.go:391-409 | The selection sort yields a permutation with larger glyphs first. |
| CaptchaShuffle.ShuffleInts | {{ .Project }}/internal/modules/auth/captcha.go:672-681 | The loop applies one draw per position, and any draws leave a permutation. |
| CaptchaShuffle.DifferentDrawsDifferentOrders | {{ .Project }}/internal/modules/auth/captcha.go:672-681 | Different draws give different orders. |
| CaptchaShuffle.EveryOrderIsReached | {{ .Project }}/internal/modules/auth/captcha.go:672-681 | Every order is reached by some draws: with uniform draws every order is equally likely. |
| LineDrawing.DrawLine | {{ .Project }}/internal/modules/auth/captcha.go:711-738 | Ends for all endpoints, visits max(dx, dy) + 1 pixels from the first to the last endpoint, the k-th being the ideal line rounded to the nearest pixel. |
| LineDrawing.StepForward | {{ .Project }}/internal/modules/auth/captcha.go:728-736 | The error term steps the longer side always and the shorter side exactly when rounding says so. |
| CacheProtocol.HitsFollowInvalidations | {{ .Project }}/internal/modules/dictionary/dictionary.go:125-148 | In every interleaving a hit of a load begun after an invalidation returned was read from the database at or after that version bump. |
| CacheProtocol.CommittedWriteIsSeen | {{ .Project }}/internal/modules/dictionary/dictionary.go:150-181 | A value that stands since the bump is what every later hit returns. |
| CacheProtocol.FilledValueIsHit | {{ .Project }}/internal/modules/dictionary/dictionary.go:125-146 | A value filled in under the current version is what the next load of its key returns. |
| CacheProtocol.MissedValueIsRead | {{ .Project }}/internal/modules/dictionary/dictionary.go:132-144 | After a miss the database is asked, and the value found there is filled in under the version loaded before. |
| CacheProtocol.RunKeeps | {{ .Project }}/internal/infra/rds/cache.go:73-118 | The invariant behind it: a cached value was read after the bump that opened its version. |
| CacheProtocol.OneSlotFillIsAnEviction | {{ .Project }}/internal/modules/dictionary/dictionary.go:70-79 | Filling one slot per key is a fill followed by evictions, so the theorem covers the memory cache. |
| ValueCache.OneSlotOnlyMissesMore | {{ .Project }}/internal/modules/dictionary/dictionary.go:58-87 | Over any calls the one-slot cache reports the same versions as the cache of all versions and hits only where that one has the same hit. |
| ValueCache.LoadAnswersTheLastStore | {{ .Project }}/internal/infra/rds/cache.go:73-118 | After any calls, a load answers with a value exactly if it was the last stored for its key under the number of invalidations so far, less than its time to live ago. |
| ValueCache.OneSlotHitsExactly | {{ .Project }}/internal/modules/dictionary/dictionary.go:58-87 | After any calls, a load of the one-slot cache answers with a value exactly if the call that last filled the slot stored it under the current version, less than its time to live ago, and no call has emptied the slot since. |
| ValueCache.MemoryValueCache.Load | {{ .Project }}/internal/modules/dictionary/dictionary.go:58-68 | The answer and the dropped slot of a load. |
| ValueCache.MemoryValueCache.Store | {{ .Project }}/internal/modules/dictionary/dictionary.go:70-79 | The slot written by a store. |
| ValueCache.MemoryValueCache.Invalidate | {{ .Project }}/internal/modules/dictionary/dictionary.go:81-87 | A new version and no slots. |
| DsnMasking.MaskDsnOptions | {{ .Project }}/internal/common/redact/redact.go:172-238 | The index loops compute the transformation the other rows describe. |
| DsnMasking.MaskHides | {{ .Project }}/internal/common/redact/redact.go:95-104 | A mask is three, six or nine characters long, shows nothing of a value of at most three characters, the first three of one of at most six, and otherwise the first and last three, with stars in between. |
| DsnMasking.MaskTellsNoMore | {{ .Project }}/internal/common/redact/redact.go:95-104 | Two values have the same mask if and only if they agree in these shown characters. |
| DsnMasking.SecretsAreHidden | {{ .Project }}/internal/common/redact/redact.go:170-238 | A scan of the masked text finds the settings of the original in their order, every sensitive value hidden in this way and every other one as it was. |
| DsnMasking.MaskedTextTellsNoMore | {{ .Project }}/internal/common/redact/redact.go:170-238 | Two masked texts are equal if and only if the originals agree in layout, keys and the written form of all other values, and their sensitive values agree in the shown characters: changing only the hidden part of a secret never shows. |
| DsnMasking.MaskingCommutesWithScanning | {{ .Project }}/internal/common/redact/redact.go:170-238 | Scanning the masked text gives the input's settings in order with exactly the sensitive values masked. |
| DsnMasking.MalformedIsHidden | {{ .Project }}/internal/common/redact/redact.go:191-227 | Malformed text becomes three stars. |
| DsnMasking.MaskOptionsIsIdempotent | {{ .Project }}/internal/common/redact/redact.go:170-238 | Masking a masked text changes nothing. |
| DsnMasking.MaskIsIdempotent | {{ .Project }}/internal/common/redact/redact.go:95-104 | A mask of a mask is that mask. |
| DsnMasking.ReplacementIsRead | {{ .Project }}/internal/common/redact/redact.go:228-234 | The escaped and quoted replacement is read back as the masked value, whatever follows. |
| DsnMasking.ReadValue | {{ .Project }}/internal/common/redact/redact.go:198-227 | The loop over a quoted or escaped value decodes it, or reports a missing end. |
| Calendar.HeatCells | {{ .Project }}/internal/modules/audit/heatmap.go:7-29 | For any time zone the cells partition the interval without gap or overlap; hourly cells last an hour at most, and with regular dates no cell of a range over a day spans two dates. |
| Calendar.DayEndsLater | {{ .Project }}/internal/modules/audit/heatmap.go:35-48 | The search ends behind its start for every zone, at the first instant of the next date when that lies in the window. |
| Calendar.SearchFinds | {{ .Project }}/internal/modules/user/summary.go:126-139 | With dates running forwards the binary search returns the first second of the sought date. |
| Calendar.NextCalendarDay | {{ .Project }}/internal/modules/audit/heatmap.go:35-48 | The loop computes that search. |
| Calendar.CalendarStart | {{ .Project }}/internal/modules/user/summary.go:126-139 | The loop computes that search. |
| Calendar.CreationBuckets | {{ .Project }}/internal/modules/user/summary.go:96-122 | The day buckets join up, and each holds exactly the instants of its local date. |
| Calendar.ExactlyOneSpan | {{ .Project }}/internal/modules/audit/summary.go:136-163 | Every instant of the range lies in exactly one cell. |
| Calendar.HeatCountsAddUp | {{ .Project }}/internal/modules/audit/summary.go:136-163 | The bucket number of every event is its own cell, and the cell counts add up to the number of events. |
| Calendar.TrendCountsAddUp | {{ .Project }}/internal/modules/audit/summary.go:103-135 | Every event of the range is shown in one trend bucket, so the bucket counts add up to the number of events. |
| Calendar.TrendStarts | {{ .Project }}/internal/modules/audit/summary.go:128-134 | The loop lists equally spaced buckets from the one of the lower bound up to the upper bound. |
| Routes.ResolveHttpRoute | {{ .Project }}/internal/modules/auth/permission.go:315-337 | The chosen registered route matches and no other matching one is lexicographically more static. |
| Routes.OrderDoesNotMatter | {{ .Project }}/internal/modules/auth/permission.go:315-337 | The canonical text of the chosen route does not depend on the order of registration. |
| Routes.EqualPriorityEqualRoute | {{ .Project }}/internal/modules/auth/permission.go:305-337 | Two routes that match one path with equal priority have one canonical text. |
| Routes.MatchRouteTemplate | {{ .Project }}/internal/modules/auth/permission.go:139-157 | A parameter matches exactly one proper segment and a literal only itself. |
| Routes.TrailingSlash | {{ .Project }}/internal/modules/auth/permission.go:140 | One slash at the end of a template or of a path makes no difference. |
| Routes.CheckEndpoints | {{ .Project }}/internal/modules/auth/permission.go:67-78 | The grant loop admits exactly the requests some endpoint grants for the chosen route. |
| Routes.CheckPermission | {{ .Project }}/internal/modules/auth/permission.go:47-102 | A request is allowed exactly when some granted endpoint admits it, or under the wildcard when no feature of another scope declares it. |
| Routes.FindElsewhere | {{ .Project }}/internal/modules/auth/permission.go:79-100 | The walk over the catalog's features, in any order, finds a declaration by another scope exactly when there is one. |
| Routes.GrantIsMostStatic | {{ .Project }}/internal/modules/auth/permission.go:67-78 | A grant that admits a request matches it, and no registered route for it is more static. |
| Routes.ParameterNeverAdmitsSibling | {{ .Project }}/internal/modules/auth/permission.go:67-78 | A grant with a parameter never admits a request for which a literal sibling is registered. |

## Left out

- CommittedRowsTellTheTruth: an account is deleted only while no transaction is open, and the operations of one user and the sweep start only for accounts that exist; serialization failures and deadlocks end a transaction as an abort.
- StatusIsExactInsideTheCall: the same, and the observation time a reply carries is not modelled.
- CommitHasEffect: a message's title, content, type and sender, and the times at which rows were created or updated, are not modelled.
- RenewDecides: the password reset flag of an identity, which the service leaves out of every comparison, is not modelled.
- UpdateCatalog: labels, languages and other parts of the dictionary value are not modelled, and permission checks of the caller are not part of this model.
- Create: caller permissions, names in other languages and trimming of spaces are not modelled; the same holds for Update.
- CheckPermission: the identity of the caller, forced password resets and the normalisation of the target are not modelled.
- HeatCells: weekday and hour labels of a cell are not modelled.
- IssuedTokenIsParsed: removal of surrounding spaces is not modelled.
- Invalidate: the memory version is an unbounded number; wrap-around after 2^64 invalidations is not modelled.
- Validate: a null map or list is read as an empty one, and the messages of a refusal are not modelled.
- AssignedGrantsTheRequest: an unrestricted action keeps no pages or endpoints, so only its mark is compared.
- RenamesKeepEveryGrant: when an edit also changes pages, endpoints and scopes are compared but pages are not.
- ResolveAssignment: that codes come back exactly as stored needs codes without space around them, as the generator draws them.
- Endpoints with equal display text, whose order the source leaves to map iteration, are ordered by protocol.
- A statement that waits for a row lock reads the tables and the clock when it proceeds. PostgreSQL takes the statement's time and snapshot before the wait; only the first statement of a transaction, which reads no clock, waits for rows that exist when it begins.
- The order of equal keys under the library's sorting functions and case mapping beyond ASCII letters.
- JSON encoding, absent against null against empty fields other than feature lists, and database constraints beyond unique codes and words.
- Splitting of sensitive names into words and the URL form of a connection string.
- SQL aggregates other than counts per bucket, pagination, filters and list fields.
- Cryptography, random generation, image rendering, HTTP and gRPC plumbing, configuration loading.
- Failures of best-effort cache invalidation, re-keying or disabling the catalog row, and process-local catalog snapshots.
