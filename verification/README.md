# Elara, verified in Dafny

Elara is a configuration store that speaks the etcd v3 API on top of bbolt, with a groups-only access control
and OIDC login. This project models its two hardest parts and proves what they keep.

**Transactions and watches.** A `Txn` is a tree of guards, ranges, puts, range deletes and nested
transactions. `Txn` gives it a meaning: a function from a store to a new store, a response tree and the
notifications owed. `TxnService` and `BoltStore` are the machinery as the service runs it (flattened
transaction boundaries, rollback, the collector that only the outermost call flushes, cursor scans and the
seek and step back of the history bucket), each method proved to compute that meaning. `TxnLaws` says what
that meaning amounts to without its own recursion, `History` what reads at a revision answer, `Reach` and
`Access` what ranges get at: locked namespaces, and namespaces the caller has no right to. `Serial` is every
interleaving of transactions over the one writer, `Snapshot` what read-only transactions see beside them,
`TxnHandler` and `TxnWire` the gRPC face, `Watch` and `Publisher` what subscribers receive, notify calls
overlapping as they may. `Pipeline` and `EndToEnd` join them: from any run of transactions to what a watching
client has been sent. `Lex`, `KeyEncoding` and `PrefixScan` hold the byte order, the key encodings and the
bucket scans underneath.

**Administration.** `Policy` is the access decision and its three forms (Enforce, the domain scan, the
in-memory namespace filter). `Directory` says what each group and user use case answers and leaves, in the
order it checks; `DirectoryChecks` says, on the rules themselves, exactly when each answer is given,
`DirectorySafety` what one of them does to the authority of others, and `DirectoryService` runs them: checks
against the enforcer's cache, rule writes to disk recorded as operations, and those operations replayed onto
the cache after the commit, when the writer lock is already released. `DirectoryRuns` is therefore every
interleaving of use cases, of single replayed operations, of reloads and of restarts that seed the superadmin,
in which even two checks of one use case may meet the cache of different moments; `DirectoryReplay`,
`DirectoryTrace`, `DirectoryCatchUp` and `DirectoryGuard` say what survives that. `Oidc` and `OidcService` do
the same for the login callback.

`dafny verify dfyconfig.toml` checks everything.

Properties the code does not have are kept as found, with the exact condition under which they hold and an
input that breaks them:

- Bucket order and etcd key order differ when one namespace extends another with a byte below the slash (`dev`
  and `dev-eu`), so a whole-namespace range read or delete also takes the neighbour's keys, while a watch of
  the same range does not (`KeyEncoding.OrdersAgree`, `NamespaceRangeOfBuckets`, `NamespaceRangesDiffer`).
- A range is checked for access at its two ends only, and an open one at its start only: it may return and
  delete keys of namespaces in between to which the caller has no right (`Access.ReadsExact`, `DeletesExact`,
  `OpenRangeEscapes`, `PrefixRangeEscapes`).
- A range delete asks only the start namespace for its lock and deletes from locked neighbours
  (`Reach.LocksExact`, `LockedNeighbourIsDeleted`).
- The history bucket is searched by a prefix that a path extended by a NUL shares, so a read at a revision may
  answer with another path's value (`History.RecallExact`, `AnotherPathsValue`).
- A read at a past revision looks at keys that exist now and at puts, not at deletions: it misses a key
  deleted since, and shows the old value of one that had been deleted then and was made again
  (`History.TimeTravelExact`, `DeletionIsForgotten`).
- The changelog is keyed by revision and a range delete has one revision, so of several deleted keys it keeps
  the last; a live watcher forwards the first (`KvStore.RowsLoseEvents`, `Watch.ForwardComplete`,
  `Watch.RangeDeleteSplits`).
- Notifications are published after the commit without an order between transactions, so a later commit can
  overtake an earlier one and a live watcher then drops the earlier (`Pipeline.PublishedIsStream`,
  `Pipeline.OvertakenIsLost`).
- Notify calls run beside each other under a read lock: two subscribers may be given two events in opposite
  orders (`Publisher.Hub.Deliver`, `Undisturbed`, `SubscribersMayDisagree`).
- A read-only transaction is not one snapshot (`Snapshot.SnapshotExact`, `TornRead`).
- A limited range read reports more keys when the bucket goes on past the range (`KvStore.MoreExact`,
  `KvStore.OneKeyReportsMore`).
- The publisher-side filter is too narrow for a range whose start key alone lacks its second slash
  (`Watch.FilterExact`, `Watch.NarrowLoses`).
- A replay that finds nothing leaves `lastSent` at 0, so an older event still unpublished at the subscription
  can be sent to a watcher that asked for later ones (`Watch.ExactlyOnce`, `Watch.ExactIff`,
  `Watch.StaleIsSent`); and a watcher whose start revision lies ahead is sent whatever comes before it
  (`Watch.FutureStartExact`).
- The comments on the administration surface say that checks inside a write transaction see a stable snapshot
  and leave no window between check and change. The cache is brought up to date after the lock is released, so
  two superadmins can delete each other, which only a restart repairs (`DirectoryGuard.NeverEmptied`,
  `EmptiedExactly`, `TwoDeleteEachOther`), a removal can miss an addition (`DirectorySafety.GroupsExact`,
  `DirectoryGuard.RemovalMissed`), and replays that overtake one another leave a revoked permission in force
  (`DirectoryCatchUp.CatchExact`, `StoresPart`, `DirectoryGuard.RevokedYetInForce`). What no interleaving
  breaks is that nobody ends up with authority that neither they nor an actor had
  (`DirectoryTrace.NoAuthorityFromNowhere`), as long as no group still holding rules is deleted
  (`DirectoryCatchUp.NothingGainedInTidyRuns`).
- Deleting a group drops its permission rules from the cache but not from disk, whatever the comment on the
  administration surface says; whoever joins a group made again under the same name gets them with the next
  load (`DirectoryCatchUp.StoresPart`, `DirectorySafety.BoundedIff`, `DeletedRightsReturn`,
  `RightsNobodyHeld`).
- The API takes members of a group by email, writes the emails into the membership rules and decides requests
  by user id, so updating a group's members changes nobody's authority (`DirectorySafety.EmailsReachNobody`).
- `EffectiveNamespaces` reports a namespace that Enforce refuses when a rule names it without its prefix
  (`Policy.TrimmedScanExact`, `Policy.BareDomainMisleads`); such a rule is refused by the permission update
  and accepted by group creation (`DirectorySafety.InitialPermissionsUnchecked`). The web client's "all in
  namespace" label is wrong for a start key without its second slash (`KeyEncoding.AllInNamespaceLabel`).

## Model

| member | source | states |
|---|---|---|
| `KeyEncoding.SplitAfterJoin` | internal/handler/etcdv3/keyencoding.go:17-58 | Decoding an encoded name gives the name back, its path rooted, for every non-empty slash-free namespace. |
| `KeyEncoding.JoinAfterSplit` | internal/handler/etcdv3/keyencoding.go:17-58 | Encoding a decoded key gives the key back if and only if the key has its second slash; otherwise it gains exactly one. |
| `KeyEncoding.SplitKeyDomain` | internal/handler/etcdv3/keyencoding.go:17-43 | A key decodes if and only if it opens with a slash and a non-empty first segment, and then to a slash-free namespace and a rooted path. |
| `KeyEncoding.ParseStoreKeyInverts` | internal/storage/bbolt/config/keys.go:14-28 | Bucket keys decode to the name that was written if and only if its namespace holds no NUL. |
| `KeyEncoding.StoreKeyInverts` | internal/storage/bbolt/config/keys.go:14-28 | Re-encoding a decoded bucket key gives it back if and only if it contains a NUL. |
| `KeyEncoding.HistoryKeyOrder` | internal/storage/bbolt/config/keys.go:41-60 | The history rows of one key are sorted by revision, for all revisions of 64 bits. |
| `KeyEncoding.HistoryKeyInjective` | internal/storage/bbolt/config/keys.go:41-60 | Two rows share a history key only if they are the same row of the same key. |
| `KeyEncoding.OrdersAgree` | internal/storage/bbolt/config/keys.go:14-28 | For all names the service can store, the order buckets are scanned in and the order of etcd keys agree on two of them if and only if neither namespace extends the other with a byte below the slash; a NUL counts only if the byte behind it is above the slash. |
| `KeyEncoding.RangesAgreeInOneNamespace` | internal/handler/etcdv3/watch_server.go:530-553 | Inside one namespace the range a scan takes from the bucket and the range a watch takes from the key order select the same names, except that an end in the namespace "\x00" is read as no end. |
| `KeyEncoding.NamespaceRangeOfKeys` | web/src/lib/etcd-key.ts:83-90 | The prefix range of a whole namespace, read over etcd keys, covers exactly that namespace. |
| `KeyEncoding.NamespaceRangeOfBuckets` | internal/storage/bbolt/config/etcd.go:129-152 | The same range scanned in bucket order covers that namespace, those that extend it with a byte below the slash, and, of namespaces holding a NUL, exactly the two further kinds spelled out; no others. |
| `KeyEncoding.NamespaceRangesDiffer` | internal/storage/bbolt/config/etcd.go:129-152 | For every namespace there is such a neighbour: a range read or delete of the namespace reaches it, a watch of the same range does not. |
| `KeyEncoding.NamespaceRangeDecodes` | internal/handler/etcdv3/keyencoding.go:71-94 | The prefix range of a namespace decodes to the bounds the two lemmas above speak of. |
| `KeyEncoding.SplitRangeInverts` | internal/handler/etcdv3/keyencoding.go:60-94 | Every single key, open range and bounded range a client can name decodes to itself. |
| `KeyEncoding.DecodersAgree` | web/src/lib/etcd-key.ts:23-39 | The web client's decoder and the server's agree on every ASCII key, refusals included. |
| `KeyEncoding.PrefixRangeExact` | web/src/lib/etcd-key.ts:45-53 | Whenever isPrefixRange holds, a key lies in the range if and only if it starts with the range's start. |
| `KeyEncoding.AllInNamespaceLabel` | web/src/lib/etcd-key.ts:83-90 | For every ASCII range, the label "all in namespace" is right for every stored name if and only if the start key spells out its second slash. |
| `KvStore.PutAccounts` | internal/storage/bbolt/config/etcd.go:293-334 | A put leaves a valid store: one changelog row per revision, and each key explained by its rows, the one at its CreateRevision creating it, every later one up to its ModRevision updating it, its Version their number, the last holding its value. Its one notification rebuilds the key space, the changelog and the revision. |
| `KvStore.PutRefused` | internal/storage/bbolt/config/etcd.go:293-334 | A put is refused if and only if its namespace or its key is locked, each with its own error. |
| `KvStore.PutReports` | internal/storage/bbolt/config/etcd.go:293-334 | The previous pair it reports is what a read of that key answered before, none if and only if that was empty; the revision goes up by one, and the changelog row created or updated accordingly is appended. |
| `KvStore.PutThenRead` | internal/storage/bbolt/config/etcd.go:231-334 | A read after a put answers its value, its revision, the CreateRevision a read answered before or else the new revision, and one version more; reads of other keys answer as before. |
| `KvStore.DeleteAccounts` | internal/storage/bbolt/config/etcd.go:421-466 | A range delete does too, with one notification per deleted key, all under its one revision. |
| `KvStore.DeleteRefused` | internal/storage/bbolt/config/etcd.go:343-390 | A range delete is refused if and only if the start namespace, or else one of the keys in range, is locked. |
| `KvStore.DeleteReports` | internal/storage/bbolt/config/etcd.go:421-466 | The pairs it returns are those a read of the range answered before, in order, reduced to their names when they were not asked for; with none in range nothing changes and the revision is 0, otherwise it goes up by one. |
| `KvStore.DeleteThenRead` | internal/storage/bbolt/config/etcd.go:421-466 | A read afterwards answers nothing inside the range and as before outside. |
| `KvStore.AccountsCompose` | internal/usecase/config/kv_events.go:23-62 | Notification streams that account for two successive changes account, joined, for both. |
| `KvStore.RowsAreEvents` | internal/storage/bbolt/config/repository.go:765-785 | With one notification per revision the changelog rows are the notifications, one for one. |
| `KvStore.RowsLoseEvents` | internal/storage/bbolt/config/repository.go:765-785 | The changelog is as long as the notification stream if and only if no range delete hit several keys; its later rows overwrite the earlier ones of the same revision. |
| `KvStore.AbsentGuardExact` | internal/usecase/config/service_txn.go:261-297 | The guard "CreateRevision = 0" holds if and only if the key is absent. |
| `KvStore.SingleKeyRange` | internal/storage/bbolt/config/etcd.go:129-152 | A range without an end selects that key if it exists and nothing else. |
| `History.RecallExact` | internal/storage/bbolt/config/etcd.go:183-205 | The seek and step back in the history bucket lands on the key's own newest row at or before the revision if and only if no row of another path with the same prefix falls in between. |
| `History.RecallIsNewest` | internal/storage/bbolt/config/etcd.go:183-205 | Then a read at a revision answers with the newest value written at or before it, and with nothing if and only if there was none. |
| `History.NoStrayAmongPlainPaths` | internal/storage/bbolt/config/etcd.go:183-205 | Among paths without a NUL no such row exists, whatever was written. |
| `History.AnotherPathsValue` | internal/storage/bbolt/config/etcd.go:183-205 | A path extended by a NUL and written before: the read of the shorter path answers with the longer one's value at a revision at which the shorter did not exist. |
| `History.ReadAtExact` | internal/storage/bbolt/config/etcd.go:158-181 | A read of a key at a revision answers nothing if the key is gone now, the present pair if it has not changed since, and otherwise the newest value put at or before the revision, with the asked revision as ModRevision and the present CreateRevision and Version. |
| `History.TimeTravelExact` | internal/storage/bbolt/config/etcd.go:158-205 | Of any two stores of which one came from the other, a read of a key at the earlier revision shows the value it then had, or its absence, if and only if the key exists now as it did then, or did not exist then and had never been put: history is consulted for keys that exist now and knows no deletions. |
| `History.DeletionIsForgotten` | internal/storage/bbolt/config/etcd.go:158-205 | A key put, deleted and put again: read at the revision at which it was there, after its deletion, it is missing; read at the revision at which it was gone, after it was put again, it shows its first value. |
| `KvStore.KeysOnlyExact` | internal/storage/bbolt/config/etcd.go:158-181 | A keys-only read answers the pairs of a plain current read without their values, at whatever revision it asks. |
| `KvStore.RangeExact` | internal/storage/bbolt/config/etcd.go:53-118 | A read, current or at a revision, returns every pair it finds in range in key order, or the first ones up to the limit with the flag telling whether the bucket goes on. |
| `KvStore.MoreExact` | internal/storage/bbolt/config/etcd.go:53-118 | For every read with a limit, the more flag means more to find in range if and only if it is not the case that the limit took exactly all there was and the bucket holds keys past it. |
| `KvStore.OneKeyReportsMore` | internal/storage/bbolt/config/etcd.go:53-118 | A read of one key with limit 1 reports more whenever the bucket holds any key past it. |
| `KvStore.RangeGuardExact` | internal/usecase/config/service_txn.go:276-297 | A guard over a range holds if and only if it holds of every stored pair in it, or of absence when there is none. |
| `KvStore.RangeGuardIsEach` | internal/usecase/config/service_txn.go:276-297 | So it holds if and only if the same guard asked of each stored key in range by itself holds, or, when there is none, asked of any absent key. |
| `KvStore.NumberGuardsExact` | internal/usecase/config/service_txn.go:397-437 | For every store, name and number, guards on Version, CreateRevision and ModRevision with =, !=, > and < hold if and only if the stored entry's own number stands in that relation, absence counting as 0. |
| `KvStore.UnknownGuardFails` | internal/usecase/config/service_txn.go:397-454 | A guard with an unknown target or relation never holds. |
| `KvStore.PresentGuardExact` | internal/usecase/config/service_txn.go:397-437 | The guards "Version > 0" and "CreateRevision != 0" hold if and only if the key exists. |
| `KvStore.UnchangedGuardExact` | internal/usecase/config/service_txn.go:397-437 | The guard "ModRevision = r" holds if and only if r is the key's last change; then the changelog row of r put its present value and no later row is about it. |
| `KvStore.ModifiedGuardsExact` | internal/usecase/config/service_txn.go:397-437 | "ModRevision > r" holds if and only if the key changed after r, and "ModRevision < r+1" if and only if it did not, absence counting as no change. |
| `KvStore.ValueGuardsExact` | internal/usecase/config/service_txn.go:397-454 | A value guard compares the stored value bytewise, absence counting as empty; of equal, greater and less exactly one holds. |
| `Txn.ReadOnlyTxn` | internal/usecase/config/service_txn.go:183-201 | If hasWrites says no then, whichever way any compare at any depth goes, neither branch changes the store or owes a notification. |
| `Txn.TxnSound` | internal/usecase/config/service_txn.go:203-234 | A transaction tree that runs to its end answers with a tree shaped like the executed branches, owes exactly one notification per put and per deleted key in program order, and these account for its whole change of the store; its header revision is the store's. |
| `Txn.OpsSound` | internal/usecase/config/service_txn.go:299-318 | The same for a branch. |
| `Txn.OpSound` | internal/usecase/config/service_txn.go:320-391 | The same for one operation. |
| `TxnLaws.BranchTaken` | internal/usecase/config/service_txn.go:203-234 | A tree that runs to its end succeeded if and only if every guard held of the store it started from, and answers, leaves and owes exactly what that branch does. |
| `TxnLaws.EachMeetsTheLast` | internal/usecase/config/service_txn.go:299-391 | Operation number i of a branch answers what its own kind of call answers on the store that the i operations before it left. |
| `TxnLaws.TxnRespects` | internal/usecase/config/service_txn.go:320-391 | At every depth nothing is announced that the schema check refuses or that puts into a locked namespace, and every locked key is still there, as it was. |
| `TxnLaws.NothingElseFails` | internal/usecase/config/service_txn.go:203-391 | A tree of known operations whose values pass the schema runs to its end on every store without locks: locks, the schema and malformed operations are the only reasons to fail. |
| `TxnLaws.HasWritesExact` | internal/usecase/config/service_txn.go:183-201 | A tree counts as writing if and only if a put or a range delete occurs in it, in whichever branch at whatever depth. |
| `BoltStore.ScanIsRange` | internal/storage/bbolt/config/etcd.go:53-152 | In a sorted bucket, the keys from the seek to the first break are exactly the keys in range: stopping early loses nothing. |
| `BoltStore.ScanPairs` | internal/storage/bbolt/config/etcd.go:53-118 | The cursor loop of RangeQuery computes the range's pairs at the asked revision up to the limit, and whether the bucket goes on. |
| `BoltStore.SeekBack` | internal/storage/bbolt/config/etcd.go:183-205 | Seeking and stepping back unless the seek hit leaves the cursor on the last key at or before the one sought, or nowhere if there is none. |
| `BoltStore.LookupHistory` | internal/storage/bbolt/config/etcd.go:183-205 | The cursor routine computes the lookup that the history results speak of. |
| `BoltStore.ReadValue` | internal/storage/bbolt/config/etcd.go:158-181 | A pair at a revision carries the value the lookup finds, or is left out. |
| `BoltStore.CollectDeleteTargets` | internal/storage/bbolt/config/etcd.go:343-390 | The targets of a range delete are the keys in range, or the error that one of them is locked. |
| `BoltStore.Db.PutKey` | internal/storage/bbolt/config/etcd.go:293-334 | Writing through the open transaction gives the new store, the previous pair and the new revision, or the lock error, and never touches the committed state. |
| `BoltStore.Db.DeleteRangeKeys` | internal/storage/bbolt/config/etcd.go:421-466 | Likewise for a range delete, revision 0 when nothing matched. |
| `BoltStore.Db.DeleteTargets` | internal/storage/bbolt/config/etcd.go:421-466 | The delete loop removes exactly its targets under one new revision; of their changelog rows the last one stays. |
| `BoltStore.WriteChangelog` | internal/storage/bbolt/config/repository.go:765-785 | A second row of a revision replaces the first and no other row changes. |
| `Reach.TouchesExact` | internal/storage/bbolt/config/etcd.go:129-152 | A range that a client can name takes in a key of a namespace that a client can write if and only if it takes in the namespace's first key or starts, non-empty, in it. |
| `Reach.StaysOnExact` | internal/storage/bbolt/config/etcd.go:129-152 | All keys clients can write that such a range could ever select lie in a finite list of namespaces if and only if the range is empty, one key of a listed namespace, or ends where the start namespace has gained only bytes 1, every step listed. |
| `Reach.LocksExact` | internal/storage/bbolt/config/etcd.go:421-466 | For every range a client can name, every set of locks and all stores of keys clients can write: accepted range deletes spare every locked namespace if and only if the start namespace is locked, which refuses them, or the range touches no locked one. |
| `Reach.PutLocksExact` | internal/storage/bbolt/config/etcd.go:293-334 | An accepted put lands in a locked namespace if and only if its namespace holds a NUL and what precedes the NUL is locked. |
| `Reach.LockedNeighbourIsDeleted` | internal/storage/bbolt/config/etcd.go:421-466 | A delete of a whole namespace removes a key of its locked "-eu" neighbour. |
| `BoltStore.Db.Begin` | pkg/bbolt/manager.go:136-176 | Beginning gives a private copy of the committed state, or fails and changes nothing. |
| `BoltStore.Db.Commit` | pkg/bbolt/manager.go:136-176 | Committing publishes the private copy, or fails and publishes nothing; either way the writer slot is free again. |
| `BoltStore.Db.Rollback` | pkg/bbolt/manager.go:136-176 | Rolling back leaves the committed state alone. |
| `BoltStore.PendingEvents.Flush` | internal/usecase/config/kv_events.go:33-45 | Flushing publishes what was collected, in order, and empties the collector. |
| `TxnService.Service.RunTransaction` | internal/usecase/config/service_txn.go:141-174 | A tree that may write either comes back with an error, the committed store unchanged and nothing published, or commits exactly its meaning and then publishes exactly its notifications; nested, it only adds to the open transaction and collector. |
| `TxnService.Service.RunTxn` | internal/usecase/config/service_txn.go:203-259 | Inside a transaction it computes the tree's meaning, and the header revision equals the store's revision right after the executed branch. |
| `TxnService.Service.RunOps` | internal/usecase/config/service_txn.go:299-318 | The loop over a branch computes its meaning in order and stops at the first failure. |
| `TxnService.Service.RunOp` | internal/usecase/config/service_txn.go:320-391 | Each kind of operation computes its meaning and hands the header the revision it reports. |
| `TxnService.Service.EvalCompares` | internal/usecase/config/service_txn.go:261-274 | The guards are evaluated as the conjunction of their meanings. |
| `TxnService.Service.EvalCompare` | internal/usecase/config/service_txn.go:276-297 | A guard over a range holds of every pair in it, or of absence when it is empty. |
| `TxnService.Service.PutKey` | internal/usecase/config/service_kv.go:94-139 | A put behaves the same alone and nested; alone, it publishes only after its own commit. |
| `TxnService.Service.DeleteRangeKeys` | internal/usecase/config/service_kv.go:143-182 | A range delete likewise. |
| `TxnService.RevisionFromResponses` | internal/usecase/config/service_txn.go:236-259 | A revision found in the responses is the first that a read of this branch observed, and 0 comes back only if none observed any. |
| `TxnService.ReportFacts` | internal/usecase/config/service_txn.go:320-391 | Across puts, empty range deletes, ranges and nested read-only transactions, an operation reports 0 only if it left the revision where it was, and otherwise the revision it left behind. |
| `Snapshot.SnapshotExact` | internal/usecase/config/service_txn.go:141-149 | A read-only tree whose every read meets a store of its own answers as one store does if and only if the verdict on its guards, the pairs and revision of every range it reads and a header read for itself are as they are there, at every depth. |
| `Snapshot.StillAgrees` | internal/usecase/config/service_txn.go:203-259 | If all the reads it makes meet one store, they are. |
| `Snapshot.HeaderWasCurrent` | internal/usecase/config/service_txn.go:203-259 | Whatever is written meanwhile, the revision in the header of a read-only tree was the store's at one of the reads it made, at every depth. |
| `Snapshot.HeaderIsNoOlder` | internal/usecase/config/service_txn.go:203-234 | And it is no older than the header of any transaction nested in it. |
| `Snapshot.FirstFailureDecides` | internal/usecase/config/service_txn.go:261-274 | The verdict on a list of guards, each read at its own moment, is that of the first to fail where it is read, and nothing is read past it. |
| `Snapshot.HighestExact` | internal/usecase/config/service_txn.go:299-318 | The header candidate of a branch is the highest revision its operations report. |
| `Snapshot.UncommittedIsSnapshot` | internal/usecase/config/service_txn.go:122-149 | In every run of writers, a read-only tree with no commit between its first read and its last answers as the store of those moments. |
| `Snapshot.TornRead` | internal/usecase/config/service_txn.go:122-149 | A key written between the guard that it be absent and the read of it: an answer that no store gives. |
| `Serial.TurnKeepsOutlook` | internal/usecase/config/service_txn.go:299-391 | No single step of a running transaction changes what the whole transaction will come to. |
| `Serial.InvStep` | pkg/bbolt/manager.go:97-176 | Every begin, operation, commit, rollback and publication step keeps the system invariant. |
| `Serial.Serializable` | internal/usecase/config/service_txn.go:122-174 | At every moment of every interleaving, the committed store is the one the committed transactions give run one after another in commit order, each answered as if alone, and each has published a prefix, in order, of what it owes. |
| `Serial.SomeoneDeleted` | internal/usecase/config/service_kv.go:143-182 | If a key is there after one commit and gone after a later one, a transaction in between deleted it and owes the notification. |
| `Serial.AtMostOneHolder` | internal/usecase/config/service_txn.go:122-140 | Of two transactions guarded by "CreateRevision = 0" on one key that both succeeded, the first leaving the key in place, some transaction committed between them deleted it. |
| `Serial.LockIsHeld` | internal/usecase/config/service_txn.go:122-140 | The usual lock transaction, whose success branch puts the key, does leave it in place. |
| `Serial.NoLostUpdate` | internal/usecase/config/service_txn.go:122-174 | Of two committed transactions guarded by one ModRevision of a key that both succeeded, neither the first nor anything committed between them touched the key: at most one of the writers that read a revision wins. |
| `TxnHandler.ExecutedWereAllowed` | internal/handler/etcdv3/kv_txn.go:52-98 | Every operation executed at any depth passed its own access check beforehand, and every put it announces lies in a namespace the caller may write; for what ranges return and delete see the rows of Access. |
| `Access.TxnAllowedExact` | internal/handler/etcdv3/kv_txn.go:52-98 | A tree passes the access check if and only if, for every guard and operation in it at every depth and in both branches, the operation is known and the caller has the namespace of each key it names, that one or the wildcard, and for puts and deletes is a writer; the end of an open range names none. |
| `Access.ReadersCannotWrite` | internal/handler/etcdv3/kv_txn.go:52-98 | A caller who is no writer has every tree with a put or delete in it refused, wherever it stands in the tree and whether or not it would run. |
| `Access.WithinExact` | internal/handler/etcdv3/kv_server.go:217-233 | Every key a client can write that a range could select lies in namespaces the caller has the right to if and only if the range is empty, the caller may go anywhere, or the range stays on the caller's list. |
| `Access.ReadsExact` | internal/handler/etcdv3/kv_server.go:217-233 | No store of such keys lets a range read answer with a pair outside the caller's rights if and only if the range is within them. |
| `Access.DeletesExact` | internal/handler/etcdv3/kv_server.go:217-233 | No such store lets a range delete remove such a pair if and only if the range is within them. |
| `Access.OpenRangeEscapes` | internal/handler/etcdv3/kv_server.go:217-233 | A caller with one namespace passes the check for the open range from there on, which is not within its rights, for reading and for writing. |
| `Access.PrefixRangeEscapes` | internal/handler/etcdv3/kv_server.go:217-233 | The prefix range of a namespace is refused to a caller who has only that namespace; to one who also has the end's it is allowed and takes in namespaces between. |
| `Access.TxnStaysWithin` | internal/handler/etcdv3/kv_txn.go:52-98 | A transaction tree all of whose ranges are within the caller's rights returns, deletes and announces nothing outside them, at any depth. |
| `TxnHandler.ResponseFits` | internal/handler/etcdv3/kv_txn.go:302-388 | A request that converts, with any result tree of the executed branches' shape, is answered without a mismatch and without reading a missing result. |
| `TxnHandler.HandleTxn` | internal/handler/etcdv3/kv_txn.go:27-50 | A request that does not convert is answered with that error, one that is not allowed with PermissionDenied; a refused request leaves store and subscribers alone; an accepted one was convertible and allowed, committed its meaning, published what its responses call for and carries the committed revision. |
| `TxnHandler.ConvertErrors` | internal/handler/etcdv3/kv_txn.go:100-297 | Conversion refuses only with InvalidArgument or Unimplemented. |
| `TxnWire.ConvertInverts` | internal/handler/etcdv3/kv_txn.go:100-297 | The request a client builds for a transaction tree converts back to exactly that tree, at every depth, guards and both branches in place. |
| `TxnWire.ConvertDomain` | internal/handler/etcdv3/kv_txn.go:100-297 | A request converts if and only if every key in it, at every depth, opens with a slash and a non-empty namespace, range ends too unless open, and no operation is unknown or asks to ignore its value. |
| `TxnWire.RespondInverts` | internal/handler/etcdv3/kv_txn.go:302-388 | From the response to a request that asks for everything, the whole result tree can be read back. |
| `TxnWire.RespondExact` | internal/handler/etcdv3/kv_txn.go:302-388 | A response carries all the pairs of its result or none, none exactly when only the count or no previous pair was asked for; counts, revision and the more flag are the result's either way. |
| `Watch.CommonPathPrefix` | internal/handler/etcdv3/watch_server.go:555-567 | The result is a prefix of both paths and no longer one is. |
| `Watch.MatchesExact` | internal/handler/etcdv3/watch_server.go:530-553 | An event matches a watch if and only if the caller may read its namespace and it lies in the range: for a single key, the name that a read of the key selects; for a bounded range, between the two keys as the client sent them; for an open range always. |
| `Watch.WatchedIsRead` | internal/handler/etcdv3/watch_server.go:530-553 | Inside one namespace that is what a read of the same range selects. |
| `Watch.PrefixIsMatched` | internal/handler/etcdv3/watch_server.go:530-553 | For a prefix range it is every key with the prefix. |
| `Watch.FilterShape` | internal/transport/watch/publisher.go:188-205 | The subscription passes every name of the start namespace under the start path, or under the common prefix of both paths when both ends lie in it, and any name when the range spans namespaces. |
| `Watch.FilterKeepsWanted` | internal/handler/etcdv3/watch_server.go:276-296 | The publisher-side subscription never loses an event the watcher wants, for every range but one whose start key alone lacks its second slash. |
| `Watch.FilterExact` | internal/handler/etcdv3/watch_server.go:530-567 | Whatever the claims, it loses none of the events that match if and only if the range is not of that one kind or the caller may read no namespace beside it. |
| `Watch.NarrowLoses` | internal/handler/etcdv3/watch_server.go:276-296 | Any readable namespace beside a range of that kind gives an event that is lost. |
| `Watch.ReplayEntry` | internal/handler/etcdv3/watch_server.go:477-518 | A changelog row becomes one message with the value the history holds for that revision, if it matches, and lastSent moves to it. |
| `Watch.MessageExact` | internal/handler/etcdv3/watch_server.go:396-426 | A message decodes to the event's name and carries its revision and, unless it deletes, its version and value. |
| `Watch.ReplayedIsLive` | internal/handler/etcdv3/watch_server.go:477-518 | An event replayed from its changelog row is the message it was live. |
| `Watch.MatchingExact` | internal/handler/etcdv3/watch_server.go:428-472 | What a stretch of the log sends is the message of each matching row in it and nothing else. |
| `Watch.ReplayHistory` | internal/handler/etcdv3/watch_server.go:428-472 | However the log grows between batches, replay sends the matching rows of one whole stretch, from the start revision to a point no earlier than the subscription. |
| `Watch.ListChanges` | internal/storage/bbolt/config/repository.go:516-547 | The first rows after a revision, consecutive and at most the limit; none when there are none. |
| `Watch.ForwardRises` | internal/handler/etcdv3/watch_server.go:396-426 | Whatever arrives, in whatever order or twice, the positive revisions forwarded strictly increase. |
| `Watch.OutputRises` | internal/handler/etcdv3/watch_server.go:348-472 | So do those of a watcher's whole output, replayed and live. |
| `Watch.ForwardComplete` | internal/handler/etcdv3/watch_server.go:396-426 | Live forwarding delivers every wanted event if and only if the wanted revisions arrive in strictly increasing order above what was sent; of a range delete over several keys only the first passes. |
| `Watch.RangeDeleteSplits` | internal/handler/etcdv3/watch_server.go:396-426 | Of a range delete over two wanted keys a live watcher sends the first and the changelog keeps the second. |
| `Watch.RunWatcher` | internal/handler/etcdv3/watch_server.go:348-392 | The watcher's loop sends the replayed rows and then what forwarding makes of the channel. |
| `Watch.FilterInvisible` | internal/transport/watch/publisher.go:188-205 | Receiving through the subscription filter changes nothing about what is forwarded. |
| `Watch.ExactlyOnce` | internal/handler/etcdv3/watch_server.go:348-472 | With publication in revision order, one event per revision and no drop, a watcher started at a past revision sends exactly the matching rows from there on, each once and in order, whatever the batching and the commits in between; only when nothing was there to replay can matching rows from before the start, still unpublished at the subscription, come first. |
| `Watch.ExactIff` | internal/handler/etcdv3/watch_server.go:348-472 | The output is exactly the matching rows from the start revision on if and only if replay found a match or no such earlier row was outstanding. |
| `Watch.StaleIsSent` | internal/handler/etcdv3/watch_server.go:348-472 | A watcher from revision 2 on that wants nothing there is sent revision 1 if that was still unpublished at its subscription. |
| `Watch.FutureStartExact` | internal/handler/etcdv3/watch_server.go:360-390 | When the start revision lies ahead and nothing is replayed, nothing below it is sent if and only if the first wanted event to arrive is not below it: live events are forwarded whatever their revision. |
| `Pipeline.StreamRebuildsStore` | internal/usecase/config/service_kv.go:94-182 | At every moment of every run, a client that applies the notification stream to an empty copy holds the committed key space; the changelog is as long as the stream if and only if there was one notification per revision. |
| `Pipeline.StreamIsLog` | internal/storage/bbolt/config/repository.go:765-785 | Then the stream is the changelog, row by row. |
| `Pipeline.PublishedIsStream` | internal/usecase/config/kv_events.go:33-62 | Once every committed transaction has published all it owes, what subscribers were given is the notification stream of the commit order if and only if no transaction was overtaken by a later one. |
| `Pipeline.OvertakenIsLost` | internal/usecase/config/kv_events.go:33-45 | Nothing enforces that order: from any moment with two transactions still to publish there is a run in which the later goes first, and a live watcher that wants both never sends the earlier. |
| `EndToEnd.StreamNames` | internal/usecase/config/service_kv.go:94-182 | In every run of transactions that put canonical names, every notification names such a key: what watchers need of events follows from the requests. |
| `EndToEnd.PublishedByMoment` | internal/usecase/config/kv_events.go:33-62 | By no moment of a run has more been published than committed. |
| `EndToEnd.WatcherSeesEveryCommit` | internal/handler/etcdv3/watch_server.go:348-518 | End to end over every run of transactions, with the revision read at one moment and the subscription made at a later one: once all commits are published in turn, one call at a time and without overflow, the watcher has sent the matching changelog rows from its start revision on, each once and in order, preceded only by the stale rows described above. |
| `Publisher.Hub.Subscribe` | internal/transport/watch/publisher.go:47-80 | With no notify call under way, a subscription gets a new id and an open, empty channel, and its story starts at this point of the calls. |
| `Publisher.Hub.Close` | internal/transport/watch/publisher.go:60-78 | A channel is closed while it is open, so never twice, and leaves the map with that; a channel is open exactly while it is in the map. |
| `Publisher.Hub.Cleanup` | internal/transport/watch/publisher.go:60-78 | Calling cleanup again, or after Shutdown, does nothing. |
| `Publisher.Hub.Shutdown` | internal/transport/watch/publisher.go:155-165 | Afterwards nobody is subscribed and every channel is closed, each closed once. |
| `Publisher.Hub.BeginNotify` | internal/transport/watch/publisher.go:167-186 | A notify call begins beside any number of others and will look at every subscription there is. |
| `Publisher.Hub.Deliver` | internal/transport/watch/publisher.go:167-205 | One subscription of one call in flight: its channel is open, the event goes to its end if it matches and there is room. In every interleaving each subscriber's stream stays a selection of the matching calls since it joined, none twice and none behind a call that began after it had ended, so calls that do not overlap keep their order. |
| `Publisher.Hub.EndNotify` | internal/transport/watch/publisher.go:167-186 | A call ends once it has looked at all of them. |
| `Publisher.Hub.Notify` | internal/transport/watch/publisher.go:167-205 | With nobody in between, every matching subscription with room gets the event and no other channel changes. |
| `Publisher.Hub.Receive` | internal/transport/watch/publisher.go:47-80 | A reader takes the oldest buffered event, and what it has taken stays a prefix of what was accepted. |
| `Publisher.Undisturbed` | internal/transport/watch/publisher.go:167-205 | Then, once all have ended and if no buffer overflowed, a subscriber was given exactly the matching events since it joined, in order. |
| `Publisher.EitherOrder` | internal/transport/watch/publisher.go:167-186 | In any hub, of two calls in flight to a subscription that wants both and has room, whichever is taken first comes first. |
| `Publisher.SubscribersMayDisagree` | internal/transport/watch/publisher.go:167-186 | So in any hub two such calls may reach two such subscribers in opposite orders. |
| `Publisher.Overlapping` | internal/transport/watch/publisher.go:167-186 | Any two events may come to that. |
| `PrefixScan.MatchingIsSlice` | pkg/bbolt/executor.go:101-120 | In a sorted bucket the keys with a prefix form one slice. |
| `PrefixScan.HasPrefix` | pkg/bbolt/executor.go:122-134 | The byte loop decides prefix. |
| `PrefixScan.Scan` | pkg/bbolt/executor.go:101-120 | Seeking to the prefix and stepping while it matches decodes exactly the keys with that prefix, in order, or reports the first that does not decode. |
| `Policy.HoldingIsClosed` | internal/domain/rbac.go:72-97 | Whoever passes a permission passes every request that permission covers. |
| `Policy.CoversIsOrder` | internal/domain/rbac.go:72-97 | What permissions cover what is an order on permissions that contains every single widening: an object, a domain or an action to the wildcard, read to write. |
| `Policy.CoversIsLeast` | internal/domain/rbac.go:72-97 | It is the least such order: nothing is covered but by such steps. |
| `Policy.CanExact` | internal/service/auth/casbin/enforcer.go:86-107 | A user passes a request if and only if a rule of the user's own or of a group the user is in covers it. |
| `Policy.NewDomainSet` | internal/service/authz/domain_set.go:15-34 | The wildcard is set if and only if "*" is listed, and the rest are listed as given. |
| `Policy.EffectiveDomains` | internal/service/authz/pdp.go:45-78 | The set contains a domain if and only if Enforce passes there, for every policy, object and action; nothing when the enforcer fails. |
| `Policy.ScopedActions` | internal/usecase/filter/service.go:106-131 | The wildcard actions and the per-domain table hold exactly what the rules for the object list. |
| `Policy.Namespaces` | internal/usecase/filter/service_namespaces.go:16-66 | The filter returns the existing namespaces on which the held actions satisfy a requested one, in their order and each with its resolved actions; narrowing the repository query by name first loses none. |
| `Policy.Resolve` | internal/usecase/filter/service.go:157-181 | The wildcard alone, or the held actions in catalog order. |
| `Policy.ResolvedExact` | internal/usecase/filter/service.go:157-181 | For every set of held actions: the wildcard alone if it is held, otherwise each of read, write, create and delete that is held, once and in that order. |
| `Policy.ShownIsEnforced` | internal/usecase/filter/service.go:157-181 | The actions shown for a namespace grant exactly the actions Enforce passes on it. |
| `Policy.VisibleIsEnforced` | internal/usecase/filter/service_namespaces.go:26-63 | With one requested action that is exactly the existing namespaces on which HasNamespace holds. |
| `Policy.VisibleForAny` | internal/usecase/filter/service_namespaces.go:26-63 | With several requested actions a namespace is listed if and only if Enforce passes one of them on it, with none requested if it passes any action. |
| `Policy.FilterAgreesWithEnforce` | internal/usecase/filter/service.go:133-155 | Held actions satisfy a request if and only if Enforce passes it on that namespace. |
| `Policy.EffectiveNamespaces` | internal/service/authz/pdp.go:116-132 | The stripped set contains a name if and only if a reaching rule's domain is "*" or strips to that name. |
| `Policy.TrimmedScanExact` | internal/service/authz/pdp.go:116-132 | It agrees with Enforce on a namespace if and only if a rule grants the action on "*" or on the full domain anyway, or no rule grants it on another domain that strips to the name. |
| `Policy.BareDomainMisleads` | internal/service/authz/pdp.go:116-132 | A rule on the domain "prod" lists namespace prod although Enforce refuses it there. |
| `DirectorySafety.InitialPermissionsUnchecked` | internal/usecase/group/service_create.go:50-150 | A permission outside the catalog is refused by every UpdatePermissions, yet whoever holds it can create a group with it. |
| `DirectorySafety.BareDomainIsReachable` | internal/usecase/group/service_create.go:50-150 | So the rule on the bare domain "prod" can be made by whoever may do everything. |
| `DirectorySafety.ReloadIsInvisible` | internal/service/auth/casbin/enforcer.go:171-181 | When disk and cache differ by nothing but rules of groups that no longer exist, reloading the cache changes nobody's answers. |
| `DirectorySafety.DeltaVouched` | internal/service/authz/scope.go:105-126 | Whatever cache a use case reads, every rule it grants and every rule met by a new member who can log in is held there by the actor, or is about the group being made. |
| `DirectorySafety.StepIsBounded` | internal/service/authz/scope.go:105-126 | So after one use case and its replay everybody passes only requests that they or the actor passed before, apart from reading and writing a group just created. |
| `DirectorySafety.TidyStep` | internal/service/auth/casbin/tx_enforcer.go:87-105 | Every step keeps each rule's group in existence if and only if it does not delete a group that still holds rules. |
| `DirectorySafety.BoundedIff` | internal/service/authz/scope.go:105-126 | A use case stays within that bound, at once or after a reload, if and only if each rule of a group that somebody joins by it, found in the cache or on disk, was held by them or the actor, or is about the group being made: what the membership check does not ask is exactly what the disk has and the cache has not. |
| `DirectorySafety.DeletedRightsReturn` | internal/usecase/group/service_delete.go:11-33 | Whoever manages groups can delete one, make it again and let anybody join, every gate and check passing, and the next reload gives that user each of its old permissions. |
| `DirectorySafety.RightsNobodyHeld` | internal/usecase/group/service_delete.go:11-33 | A concrete policy in which that is a permission nobody held, the maker included. |
| `DirectorySafety.EmailsJoinNobody` | internal/handler/v2/group/handler.go:72-101 | The API takes members of a group by email and decides by id: updating members or creating a group leaves every membership of everyone who can log in as it was, on disk and in the cache. |
| `DirectorySafety.EmailsReachNobody` | internal/usecase/group/service_update.go:85-145 | So UpdateMembers changes nobody's answers: it neither lets anyone in nor ends a membership made by id. |
| `DirectoryReplay.ReplayIsLastWord` | internal/service/auth/casbin/enforcer.go:289-330 | After any replay each rule and membership is as the last operation about it says, and as before if there was none. |
| `DirectoryReplay.OpsAmount` | internal/service/authz/pap_tx.go:43-100 | The operations a use case records do to any rules exactly what its delta does. |
| `DirectoryReplay.ReplayedAtOnce` | internal/service/auth/casbin/enforcer.go:128-169 | Replayed at once they give the cache the use case is specified to leave. |
| `DirectoryRuns.AtOnce` | internal/service/authz/pap.go:44-57 | A use case that reads everything at one moment is an instance of one whose checks each met a cache of their own moment, and commits the same. |
| `DirectoryRuns.SavedIsAmended` | internal/service/authz/pap.go:44-57 | Whatever moments it read at, what it commits amends the disk by its delta, joins only existing groups and grants only to groups. |
| `DirectoryRuns.MembershipNeedsRight` | internal/usecase/user/service_update_groups.go:140-227 | Over every interleaving, no membership of anybody who can log in changes on disk but by a use case about that very user and group whose actor was seen with write on that group in one of the caches it read, by deleting the user or the group, or for the account a restart puts in charge. |
| `DirectoryRuns.BootSeeds` | internal/service/auth/bootstrap.go:77-93 | A start of the process leaves the superadmin group immutable with its wildcard rule, and its account able to do everything. |
| `DirectoryRuns.SeededStep` | internal/service/auth/bootstrap.go:158-208 | No step of any run takes the superadmin group, its immutability or its wildcard rule away again. |
| `DirectoryRuns.BootExact` | internal/service/auth/bootstrap.go:155-311 | Of accounts, groups and rules a start changes nothing but its own account, which is the system's and has the configured email, the superadmin group, its rule and that membership. |
| `DirectoryRuns.DistinctStep` | internal/service/auth/bootstrap.go:216-311 | Every step of every run, restarts under another email among them, keeps emails unshared and at most one account the system's. |
| `DirectoryTrace.UseIsHarmless` | internal/service/authz/scope.go:105-126 | A use case that spanned any number of other replays grants nothing, and lets nobody who can log in join anything, but what some actor held at the start of the run. |
| `DirectoryTrace.MoveKeepsTrace` | internal/service/auth/casbin/enforcer.go:128-181 | Replays in any order, reloads and restarts with their seeding keep that. |
| `DirectoryTrace.NoAuthorityFromNowhere` | internal/service/authz/scope.go:105-126 | Over every interleaving of use cases, single replayed operations, reloads and restarts from a seeded start, the checks of one use case reading the cache at different moments, new groups taking names with no rule on disk: whatever somebody ends up able to do, they or some actor of the run could do at the start, or are the account a restart put in charge, apart from reading and writing groups created in the run. |
| `DirectoryCatchUp.CatchExact` | internal/service/auth/casbin/enforcer.go:128-169 | Replaying an operation leaves what the cache will come to unchanged if and only if no older outstanding operation says the opposite of the same rule or membership with nothing later about it. |
| `DirectoryCatchUp.StoresPart` | internal/service/auth/casbin/enforcer.go:128-169 | From a state where the caught-up cache is the disk, one step leaves it so if and only if it neither deletes a group holding rules nor replays past such an older operation. |
| `DirectoryCatchUp.SettledStep` | internal/service/auth/casbin/enforcer.go:128-169 | With fresh names and no such overtaking, every step keeps disk and caught-up cache equal except for rules of groups that no longer exist. |
| `DirectoryCatchUp.AloneIsAfter` | internal/service/auth/casbin/enforcer.go:128-169 | A use case whose replay nobody comes between leaves what its specification says. |
| `DirectoryCatchUp.CacheIsFreshToo` | internal/usecase/group/service_create.go:152-195 | A name with no rule on disk has none in the cache either, unless a removal about it is outstanding. |
| `DirectoryCatchUp.TidyRunIsFresh` | internal/service/auth/casbin/tx_enforcer.go:87-105 | A run of requests the API accepts that deletes no group holding rules only ever makes groups under names with no rule on disk, however replays go. |
| `DirectoryCatchUp.NothingGainedInTidyRuns` | internal/service/authz/scope.go:105-126 | Over such runs nobody gains what neither they nor an actor could do at the start, the accounts that restarts put in charge apart. |
| `DirectoryGuard.RestartGuards` | internal/service/auth/bootstrap.go:374-390 | A start puts its account among the superadmins, whoever is left of them. |
| `DirectoryGuard.GuardedStep` | internal/usecase/user/service_manage.go:234-340 | Every step of every run keeps the superadmin group present and immutable and its wildcard rule in both stores; only deleting a superadmin takes from who they are on disk, and only a restart adds its account. |
| `DirectoryGuard.EmptiedExactly` | internal/usecase/user/service_manage.go:330-340 | An accepted deletion empties the superadmin group if and only if every other superadmin the cache shows is one whose deletion is still to be replayed. |
| `DirectoryGuard.CheckIsExact` | internal/usecase/user/service_manage.go:330-340 | With no deletion outstanding as it reads, the last-admin check is right about the disk. |
| `DirectoryGuard.NeverEmptied` | internal/usecase/user/service_manage.go:330-340 | Over every run the superadmins only dwindle between one start of the process and the next, and some are left if and only if no deletion since the last start was of that kind. |
| `DirectoryGuard.NeverLockedOut` | internal/usecase/user/service_manage.go:330-340 | Then somebody who was a superadmin when the process started can still do everything. |
| `DirectoryGuard.TwoDeleteEachOther` | internal/usecase/user/service_manage.go:234-282 | Two superadmins delete each other: the second still sees both, and nobody is left until a restart. |
| `DirectoryGuard.RevokedYetInForce` | internal/service/auth/casbin/enforcer.go:128-169 | A permission granted and revoked, the two replayed in the other order: nothing outstanding, gone from disk, in force in the cache. |
| `DirectoryGuard.RemovalMissed` | internal/usecase/user/service_update_groups.go:86-117 | A removal from a group that runs before the addition is replayed finds nothing to remove, succeeds, and the membership stays. |
| `DirectorySafety.MembersExact` | internal/usecase/group/service_update.go:99-139 | An accepted members delta makes (current minus removed) plus added of the members the cache shows, changes nothing else, and counts up if and only if that is a change; it makes the same of the members on disk if and only if the cache was right about everyone the request names. |
| `DirectorySafety.PermissionsExact` | internal/usecase/group/service_update.go:184-223 | The permissions delta, compared with the disk, always does there what was asked; the cache comes to it if and only if it was right about every permission named. |
| `DirectorySafety.GroupsExact` | internal/usecase/user/service_update_groups.go:86-117 | The same as for members, for a user's groups and MembershipVersion; the groups' own MembersVersion does not move. |
| `DirectoryChecks.UpdateMembersExact` | internal/usecase/group/service_update.go:85-145 | For every directory and request: accepted if and only if the lists are disjoint, the group exists and is mutable, the version named is current and, if anyone is added, the actor holds every rule of the group; each error for its own exact reason, in that order. |
| `DirectoryChecks.UpdatePermissionsExact` | internal/usecase/group/service_update.go:173-229 | Accepted if and only if the lists are disjoint and in the catalog, the group is mutable, the version current, what is granted anew is held by the actor and, when the group has members and anything changes, so is all it will hold; each error for its own exact reason. |
| `DirectoryChecks.AssignableExact` | internal/usecase/group/service_update.go:310-403 | A permission can be assigned if and only if the catalog lists its object and action, everywhere or, of namespaces and groups, on a named one. |
| `DirectoryChecks.UpdateGroupsExact` | internal/usecase/user/service_update_groups.go:50-124 | Accepted if and only if the lists are disjoint, the user exists, is not the system's and is at the version named, the groups the user is in exist, the actor may write every group the request names, those to change are mutable, and the actor holds every rule of those to be joined. A request that names one group the actor may not write is Forbidden, whatever would change. |
| `DirectoryChecks.UpdateGroupsNotFound` | internal/usecase/user/service_update_groups.go:50-124 | And what is missing or the system's answers so. |
| `DirectoryChecks.DeltaFaultExact` | internal/usecase/user/service_update_groups.go:140-227 | The same of the delta computation alone. |
| `DirectoryChecks.FirstBlockedDecides` | internal/usecase/user/service_update_groups.go:244-269 | Of a list of groups the first that is missing or immutable decides which of the two errors. |
| `DirectoryChecks.AdditionsDecideFirst` | internal/usecase/user/service_update_groups.go:140-194 | Groups that cannot be joined are the reason before any that cannot be left. |
| `DirectoryChecks.CreateUserExact` | internal/usecase/user/service_manage.go:47-87 | A user is created if and only if the email is valid, the actor may create users or write every group of a non-empty list, id and email are unused, and the actor may write, and holds every rule of, all the groups, which are mutable; each error for its own exact reason. |
| `DirectoryChecks.CreateUserLeaves` | internal/usecase/user/service_manage.go:184-232 | The new account and its memberships, in both stores, and no other change. |
| `DirectoryChecks.DeleteUserExact` | internal/usecase/user/service_manage.go:234-340 | A user is deleted if and only if it exists, is not the actor, the actor may write users or a group the user is in, holds every rule of the user and of the user's groups, and the user is not the only superadmin; each error for its own exact reason. |
| `DirectoryChecks.DeleteUserLeaves` | internal/usecase/user/service_manage.go:234-282 | The account and its memberships go from both stores, the user's own rules from the cache alone. |
| `DirectoryChecks.CreateGroupExact` | internal/usecase/group/service_create.go:50-150 | A group is created if and only if the actor holds its permissions, every manager exists, may be written by the actor and holds them too, the name is new and canonical; each error for its own reason. |
| `DirectoryChecks.CanonicalExact` | internal/domain/name.go:10-36 | A name is canonical if and only if it has 1 to 63 characters, all lower-case letters, digits or hyphens, no hyphen first or last. |
| `DirectoryChecks.FirstUnfitDecides` | internal/usecase/group/service_create.go:114-147 | The first manager that is unfit decides the error. |
| `DirectoryChecks.CreateGroupLeaves` | internal/usecase/group/service_create.go:152-247 | The group with its counters, its rules, its members and write on it for each manager, and nothing else, in both stores. |
| `DirectoryChecks.DeleteGroupExact` | internal/usecase/group/service_delete.go:11-33 | Exactly an existing, mutable group is deleted; its row and memberships go from both stores, its rules from the cache alone. |
| `DirectorySafety.LoadedAreMutable` | internal/usecase/user/service_update_groups.go:244-269 | A list of groups that loads contains only existing, mutable groups. |
| `DirectorySafety.ManagersExist` | internal/usecase/group/service_create.go:114-147 | Managers that pass are existing groups the actor may write and that dominate the initial permissions. |
| `DirectoryService.ToSet` | internal/util/sliceutil/setops.go:3-12 | The set of the slice's elements. |
| `DirectoryService.FirstOverlap` | internal/util/sliceutil/setops.go:42-58 | A hit if and only if the slices meet, and then the first element of the second that the first has. |
| `DirectoryService.ComposePost` | internal/util/sliceutil/setops.go:60-75 | Kept items first, then added; as a set, (current minus removed) plus added. |
| `DirectoryService.Admin.ReplayOp` | internal/service/auth/casbin/enforcer.go:289-330 | One recorded operation reaches the cache, as the runs say. |
| `DirectoryService.Admin.ApplyOpsToCache` | internal/service/auth/casbin/enforcer.go:289-330 | With nobody in between the cache becomes what replaying the recorded operations gives. |
| `DirectoryService.Admin.CommitTx` | internal/service/auth/casbin/enforcer.go:128-169 | The commit leaves the disk as specified, the cache alone, and the recorded operations to be replayed. |
| `DirectoryService.Admin.LoadPolicy` | internal/service/auth/casbin/enforcer.go:171-181 | The cache becomes the disk; what is outstanding stays outstanding. |
| `DirectoryService.Admin.Bootstrap` | internal/service/auth/bootstrap.go:77-120 | Group, wildcard rule, account and membership are seeded in one transaction and the cache loaded, as a restart in the runs says; when the email belongs to another account nothing is changed. |
| `DirectoryService.Admin.EnsureSuperAdminGroup` | internal/service/auth/bootstrap.go:155-188 | The group is created, or made immutable. |
| `DirectoryService.Admin.EnsureAdminUser` | internal/service/auth/bootstrap.go:216-311 | The system account takes the configured email, or a new one is made if there is none. |
| `DirectoryService.Admin.FindSystemUser` | internal/storage/bbolt/user/repository.go:299-332 | Finds a system account if and only if there is one. |
| `DirectoryService.Admin.ApplyPermissionDeltas` | internal/service/authz/pap_tx.go:43-61 | Writes to disk and records, in order, exactly the removals and then the additions of the group's rules. |
| `DirectoryService.Admin.ApplyMemberDeltas` | internal/service/authz/pap_tx.go:63-81 | Likewise for a group's members. |
| `DirectoryService.Admin.ApplyUserMembershipDeltas` | internal/service/authz/pap_tx.go:83-100 | Likewise for a user's groups. |
| `DirectoryService.Admin.HoldsEach` | internal/usecase/group/service_update.go:275-285 | Checking one by one against the cache decides whether the principal holds them all. |
| `DirectoryService.Admin.RequireMembershipGrant` | internal/service/authz/scope.go:105-126 | Passes if and only if the actor holds every permission the group grants. |
| `DirectoryService.Admin.RequireWriteUser` | internal/service/authz/scope.go:128-192 | Passes on a global write, or on write over one of the target's groups, and otherwise names the reason. |
| `DirectoryService.Admin.CascadeCheckPerms` | internal/usecase/group/service_update.go:405-424 | Passes if and only if the group is empty or the actor holds all it will hold. |
| `DirectoryService.Admin.LoadGroupsByNames` | internal/usecase/user/service_update_groups.go:244-269 | The first missing or immutable group decides the error. |
| `DirectoryService.Admin.UpdateMembers` | internal/usecase/group/service_update.go:85-145 | Answers and commits exactly what the specification says, leaves the cache to the replay, refusals leave everything as it was, and the composed list is the membership the replay brings. |
| `DirectoryService.Admin.UpdatePermissions` | internal/usecase/group/service_update.go:173-229 | Likewise; the composed list is the permission set on disk. |
| `DirectoryService.Admin.UpdateGroups` | internal/usecase/user/service_update_groups.go:50-124 | Answers and commits exactly what DirectoryChecks.UpdateGroupsExact accepts and DirectorySafety.GroupsExact says, leaves the cache to the replay, refusals leave everything as it was, and the composed list is what the replay makes of the user's groups. |
| `DirectoryService.Admin.ComputeGroupDelta` | internal/usecase/user/service_update_groups.go:140-194 | The effective additions and removals, or the first reason against them in the order they are checked, the right to write every group named among them. |
| `DirectoryService.Admin.CreateUser` | internal/usecase/user/service_manage.go:47-87 | Likewise for creating a user, whose row is written before the last checks and gone again if they fail. |
| `DirectoryService.Admin.ApplyInitialGroups` | internal/usecase/user/service_manage.go:184-232 | The initial memberships are written if and only if every check passes again inside the transaction. |
| `DirectoryService.Admin.DeleteUser` | internal/usecase/user/service_manage.go:234-282 | Likewise for deleting a user: not oneself, within reach and authority, and not the only superadmin the cache shows. |
| `DirectoryService.Admin.CreateGroup` | internal/usecase/group/service_create.go:50-98 | Likewise for creating a group with its initial permissions, members and managers. |
| `DirectoryService.Admin.AuthorizeManagers` | internal/usecase/group/service_create.go:114-147 | The first manager group that may not be one decides the error. |
| `DirectoryService.Admin.WireInitialManagers` | internal/usecase/group/service_create.go:225-247 | Each manager group gains write on the new group and nothing else is written. |
| `DirectoryService.Admin.DeleteGroup` | internal/usecase/group/service_delete.go:11-33 | The group, its row and its memberships go; its permission rules stay on disk. |
| `Oidc.StepKeeps` | internal/usecase/auth/service_callback.go:94-178 | Every callback, user creation and status change keeps the two indexes true to the users and at most one identity of the provider per user; no user, identity or link is lost or rewritten, and a system user's identities never change once there are any. |
| `Oidc.RunKeeps` | internal/usecase/auth/service_callback.go:21-92 | The same between any two moments of any run without user deletion. |
| `Oidc.SubjectKeepsUser` | internal/usecase/auth/service_callback.go:94-123 | Once a subject has logged in as a user, every later login of it is that user, or is refused because the user is deactivated or the session fails. |
| `Oidc.SubjectsNeverShare` | internal/usecase/auth/service_callback.go:157-165 | No two subjects ever log in as the same user. |
| `Oidc.LinkedOnlyByEmail` | internal/usecase/auth/service_callback.go:125-178 | A subject is linked only by a verified address that normalizes to the user's own, and only to an active user with no identity of the provider. |
| `Oidc.LoginExact` | internal/usecase/auth/service_callback.go:35-178 | A callback logs in as a user if and only if that user is active, a session can be made, and the subject is linked to the user or is entitled by email: a verified address that normalizes to the user's own, no identity of the provider yet, and not a system user that has any. It answers Deactivated if and only if the user it comes to is inactive. |
| `Oidc.RefusedBecause` | internal/usecase/auth/service_callback.go:94-178 | A subject not yet linked is refused with each error for its own exact reason, and never with a taken identity. |
| `Oidc.LoginLeaves` | internal/usecase/auth/service_callback.go:35-92 | A login stamps the user, appends the subject's identity if it was not there, indexes it, and changes nothing else. |
| `Oidc.DeactivatedStaysOut` | internal/usecase/auth/service_callback.go:35-92 | Over every run, between an accepted deactivation of a user and the next accepted reactivation no login, of whatever subject, comes to that user. |
| `Oidc.CreateExact` | internal/storage/bbolt/user/repository.go:46-86 | A user is created if and only if id, email and password identity are unused; it is active, with that identity alone, and nobody else changes. |
| `Oidc.SwitchExact` | internal/service/auth/users.go:264-293 | A user is switched if and only if it exists, is not the system's and is in the other state, and only that changes. |
| `OidcService.UserStore.Callback` | internal/usecase/auth/service_callback.go:35-92 | The callback does exactly what the rows above say, a deactivated user refused among them, and whatever fails, however late, leaves no link, no stamp and no index entry behind. |
| `OidcService.UserStore.LinkOidcByEmail` | internal/usecase/auth/service_callback.go:125-178 | The email fallback links, or refuses with the error of the first check that fails. |
| `OidcService.UserStore.LinkIdentity` | internal/service/auth/users.go:160-207 | Append only, idempotent, and closed for a system user that has an identity. |
| `OidcService.UserStore.RecordLogin` | internal/service/auth/users.go:209-227 | Stamps the login and changes nothing else. |
| `OidcService.UserStore.Update` | internal/storage/bbolt/user/repository.go:88-129 | The row and both indexes move together, or an index collision is reported. |
| `OidcService.UserStore.ReconcileIdentityIndex` | internal/storage/bbolt/user/repository.go:494-528 | Stale entries go, new ones point to the user, and it fails if and only if a new one belongs to somebody else. |

## Left out

- TxnService.Service.RunTransaction: a read-only tree runs without a transaction; the method is stated for a store nobody else moves meanwhile, and what it reads beside writers is in `Snapshot`, on values.
- History.RecallExact: and the other results on reads at a revision take revisions below 2 to the 64, where eight bytes tell them apart; the source's signed 64-bit counter stays below that. All other revisions, versions and limits are unbounded.
- Time, content hashes, formats, metadata, display names and log messages.
- The JSON Schema check: a fixed predicate on name and value.
- Lock and unlock operations: locks are part of the store and tested where the source tests them (`Reach.LocksExact` says what that protects), but the calls that set them and the lock events they publish are not modelled.
- The CreateRevision of a replayed event: the source leaves it 0 where a live event carries it, so messages are compared without it.
- TxnWire.RespondInverts: the sort order and field shaping a range request may ask for are not modelled.
- Single-key reads at a revision outside a range.
- KeyEncoding.AllInNamespaceLabel: stated for ASCII keys, where UTF-16 code units and UTF-8 bytes are the same numbers; so is `KeyEncoding.DecodersAgree`.
- KeyEncoding.PrefixRangeExact: stated over the bytes that the server orders; the web client increments a code unit, which is the same for ASCII keys.
- Pipeline.StreamIsLog: takes the shape of event names as given; `EndToEnd.StreamNames` derives it from the requests.
- Watch.ExactlyOnce: takes the notifications in commit order, one per revision and none dropped, as the watcher's documentation does, and says what one watcher has sent once all has reached it. `EndToEnd.WatcherSeesEveryCommit` derives what can be derived of that from a run; `Pipeline.PublishedIsStream` and `Publisher.Undisturbed` say when the order is kept; `Watch.OutputRises` holds for any order. It is claimed only when a replay runs, since the current revision is read before the subscription and a watcher without replay can miss what commits in between.
- Cancellation, send errors, progress messages and reconnection of watch streams.
- Goroutines, mutexes and channels as such: a section under an exclusive lock is one step, a read-locked one a step per subscription, and a channel a bounded sequence.
- Policy.Namespaces: the search term of the query is not modelled.
- The switch that turns permission checks off: modelled in the domain scan only; administration is stated with checks on.
- DirectoryRuns.AtOnce: a use case in the runs is accepted when each of its checks passed on some cache it met; which cache each one read is not kept, so the results hold of more runs than the code has.
- A replay that fails half way, after which the source reloads the cache: the reload is modelled as a step, the failure not.
- Nested groups: memberships go from users to groups by type. The source's own readers skip group subjects in member position.
- The coarse permission gates of the request handlers: the administration theorems hold without them; `DirectorySafety.DeletedRightsReturn` shows them open.
- DirectoryService.Admin.CreateUser: the login identity and password hash of the new user are not part of it; identities are in `Oidc`.
- DirectoryService.Admin.DeleteUser: revoking the user's sessions is not modelled.
- The visibility filters on response lists, and the metadata-only group update: easy members.
- Casbin, bbolt, gRPC, the OIDC code exchange and email normalization: taken by their contracts. Casbin's Enforce is the matcher the source registers, its DeleteUser as the source's cache replay describes it, normalization is any function.
- DirectoryService.Admin.Bootstrap: the password and identity of the account, demo data, and the start with authentication off, which looks its account up by identity, are not part of it.
- User deletion in the OIDC runs: a deleted user's subject may of course be linked again.
- HTTP and ConnectRPC handlers, cookies, sessions, webhooks, metrics, dashboards, import and export, pagination, the client monitor and the web interface beyond its key decoder.
