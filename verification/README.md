# wmdb-rnw sync core, modelled in Dafny

This project models the synchronization layer of `wmdb-rnw`, which sits between a
WatermelonDB store on the client and a CRUD HTTP API. The model covers these parts:

- **Grouping** (`grouping.dfy`): the `Object.groupBy` polyfill. Each item is added to the group its callback names, and every group keeps input order.
- **Chunks** (`chunks.dfy`): `fetchItemsInChunks`, the do-while paging loop. It runs against a remote whose `getList` returns slices of a fixed dataset.
- **WatermelonSync** (`watermelon_sync.dfy`): one table's `pullChanges` and `pushChanges`.
  - Pull classifies every fetched record against the watermark `lastPulledAt` into `created`, `updated`, `deleted` or `ignored`. It reports the counts to `onSync` when that callback is given, and returns the change set with the deleted bucket reduced to ids.
  - Push plans at most three remote calls, in the order create, update, delete. A failing call stops the rest.
- **SyncTables** (`sync_tables.dfy`): the orchestration.
  - Every table's pull and push gets the same arguments.
  - The per-table pull results are merged.
  - `catchDiagnosticError` always rethrows.
- **SyncTrigger** (`sync_trigger.dfy`): `triggerSync` as a single-flight gate over the state `busyRef`/`busy`/`online`/`lastSyncTime`. It also covers:
  - the rule that decides when the trigger is exposed;
  - the interval activation;
  - the event activation.
- **WatermelonLocal** (`watermelon_local.dfy`): the decision logic of the local CRUD hooks. That is the default columns, the filter-to-query translation with an explicit meaning for the clauses, item selection, the `setItem` dispatch, `updateItem` with a null id, and `deleteItems` as a soft delete.
- **Common** (`common.dfy`): `Option` and JavaScript truthiness for optional numbers.

JavaScript truthiness is modelled explicitly, because the classifier depends on it. A watermark of `0` counts as no watermark. A missing or zero `createdAt` counts as "created after" any watermark. `isDeleted` is `deletedAt > 0`.

Clock reads are parameters: `now` for `unixSeconds()` and `getUnixTimestamp()`, `nowMs` for `Date.now()`. The awaited sync cycle is an abstract outcome, `Resolved` or `Rejected`. Each remote call is accepted or rejected by a caller-supplied predicate. Store writes are values that describe the write: `CreateRecord` or `UpdateRecord`.

## Behaviour worth knowing

The model follows the code. In these places the code departs from the plain precedence reading of its classifier, or does less than a reader might assume:

- Classification only matches the plain rules (deletion, then "already deleted", then update, then creation, each strictly after the watermark) for well-formed records and a watermark that is absent or positive. This is `ClassifyAgreesWithPrecedence`. Outside that case the code behaves differently:
  - Under a truthy watermark, the update condition is checked before the creation condition. So a record whose updatedAt is after the watermark is delivered as `updated`, even a new one whose createdAt is after the watermark too.
  - A watermark of `0` means a full sync (`ZeroWatermarkIsFullSync`, `ZeroWatermarkSkipsTombstone`).
  - A live record without `createdAt` is delivered on every pull: as `updated` when its updatedAt is after the watermark, otherwise as `created` (`MissingCreatedAtIsAlwaysCreated`).
  - `isDeleted` does not count a negative `deletedAt` as deleted, so under an absent or positive watermark such a record is classified as live.
- The invalid-row check only writes a warning. It never drops a record or aborts the pull.
- `catchDiagnosticError` only logs: it prints the error, adds a hint for the missing-migration message, and rethrows the original error unchanged.
- Tables are pulled and pushed concurrently (`Promise.all`), so no order across tables is guaranteed. Only each table's own three calls are ordered.
- The merged pull timestamp is whichever one the deep merge keeps. The model does not claim it is the largest.
- The event activation fires on mount and on every change of the condition to a truthy value. This is an effect keyed on the condition alone.
- The interval warning is logged only for a negative interval. An interval of `0` disables auto-sync without any message.

## Model

| member | source | states |
|---|---|---|
| Grouping.GroupBy | src/groupBy.ts:13-29 | The keys present are exactly the keys the callback produced for some item at its 0-based index. Each group equals the in-order selection of the items with that key, and no group is empty. |
| Grouping.GroupPrefixIsSelection | src/groupBy.ts:17-27 | After n loop iterations the accumulator holds exactly the keys used so far, each mapped to the in-order selection of its items. |
| Grouping.SelectedNonEmpty | src/groupBy.ts:21-25 | A key's selection is non-empty iff at least one item produced that key. |
| Grouping.GroupSizesSum | src/groupBy.ts:18-27 | The groups partition the input: over any duplicate-free list that names every produced key, the group sizes sum to the input length. |
| Chunks.FetchItemsInChunks | src/fetchItemsInChunks.ts:3-18 | Request k asks for offset k·limit with the same limit, and at least one request is made. All responses but the last have length `limit`; the last one does not. The result is the responses joined in order, it equals the dataset, and exactly \|data\|/limit + 1 requests are made. |
| WatermelonSync.Classify | src/useWatermelonSync.ts:52-66 | With a truthy watermark W, the result is `deleted` iff deletedAt is truthy and later than W. A tombstone at or before W is `ignored`. For a live record, `updated` wins over `created`, and a missing createdAt gives `created` unless the record is updated. With a falsy W, tombstones are `ignored` and every other record is `created`. |
| WatermelonSync.ClassifyAgreesWithPrecedence | src/useWatermelonSync.ts:127-139 | For records with positive createdAt and updatedAt, and a positive or absent deletedAt, under an absent or positive watermark, the truthiness chain equals the plain precedence rules. |
| WatermelonSync.ZeroWatermarkIsFullSync | src/useWatermelonSync.ts:53-65 | For every record, a watermark of 0 classifies exactly as no watermark. |
| WatermelonSync.ZeroWatermarkSkipsTombstone | src/useWatermelonSync.ts:53-65 | Under a watermark of 0 every tombstone with a positive deletedAt is ignored, where the plain precedence rules would deliver it as deleted. |
| WatermelonSync.MissingCreatedAtIsAlwaysCreated | src/useWatermelonSync.ts:127-130 | A live record with no createdAt and an old updatedAt is classified `created` under any positive watermark. |
| WatermelonSync.IdsConcat | src/useWatermelonSync.ts:89-91 | The ids of a concatenation are the ids of each part, concatenated. So the ids keep the records' order, and each record contributes its own id once. |
| WatermelonSync.IdsMembers | src/useWatermelonSync.ts:89-91 | The id list holds every present id and nothing else, and has one entry per record when every record has an id. |
| WatermelonSync.InvalidRows | src/useWatermelonSync.ts:68-76 | The warning count is positive iff some record lacks a truthy createdAt or updatedAt. |
| WatermelonSync.PullChanges | src/useWatermelonSync.ts:39-96 | The result has only the table's own key. Created and updated are exactly the records classified so, in fetch order, and deleted is the ids of the deleted bucket. The `onSync` counts are reported iff a callback is given, and they are the three bucket sizes. There are no more deleted ids than deleted records. The timestamp is the clock read. A warning is raised iff a row is invalid, it carries the number of invalid rows, and it never changes the buckets. |
| WatermelonSync.BucketsPartition | src/useWatermelonSync.ts:48-66 | Every fetched record lands in exactly one of the four buckets (created, updated, deleted, ignored), so the bucket sizes add up to the number of records. |
| WatermelonSync.PullPartitionsItems | src/useWatermelonSync.ts:48-66 | With an `onSync` callback, the three reported counts plus the number of ignored records equal the number of fetched records. |
| WatermelonSync.PullAgainIsEmpty | src/useWatermelonSync.ts:52-66 | Pulling again with a watermark no older than every record's timestamps, all createdAt present, yields an empty change set, and zero counts when they are reported. |
| WatermelonSync.PullFromRemote | src/useWatermelonSync.ts:44-46 | A pull over a paged remote classifies the whole remote table, after \|data\|/1000 + 1 list requests. |
| WatermelonSync.PushChanges | src/useWatermelonSync.ts:98-119 | An absent table entry is empty. The `onSync` counts are reported iff a callback is given, and they are the entry's list lengths. There are at most three calls, in create, update, delete order, none with an empty list. Each list is sent whole by its own kind of call. |
| WatermelonSync.PlanShape | src/useWatermelonSync.ts:116-118 | The call plan has at most one call per kind, in kind order, and no call with an empty payload. |
| WatermelonSync.PlanSendsEntry | src/useWatermelonSync.ts:112-118 | The creates, updates and delete ids sent are exactly the entry's three lists. |
| WatermelonSync.Await | src/useWatermelonSync.ts:116-118 | Calls are issued as a prefix of the plan. All succeed iff every call is accepted. On failure, the last issued call is the first rejected one, and every call before it was accepted. |
| WatermelonSync.RunPush | src/useWatermelonSync.ts:106-118 | With an `onSync` callback the counts are reported first, even when a later call fails; without one nothing is reported. The issued calls follow in plan order, and the push succeeds iff every planned call is accepted. |
| SyncTables.MergeAllDisjoint | src/syncTables.ts:22-36 | The merged map's keys are the union of the parts' keys. With pairwise disjoint keys, every part's entry comes through unchanged. |
| SyncTables.MergeDistinctTables | src/syncTables.ts:22-36 | With distinct table names, the merged pull keys are the table names, and each entry is that table's own pull entry. |
| SyncTables.PullAll | src/syncTables.ts:21-36 | Every table's pull is called with the same lastPulledAt, schemaVersion, migration and `onPull`. With distinct names, the merge holds each table's entry unchanged. A timestamp exists iff there is a table, and it is one of the tables' clock reads. |
| SyncTables.PushAll | src/syncTables.ts:37-42 | Every table's push receives the same changes and lastPulledAt snapshot and the same `onPush`. Each table reports its own entry's counts iff `onPush` is given, and sends its own entry's lists. |
| SyncTables.CatchDiagnosticError | src/syncTables.ts:47-58 | The original error is always rethrown unchanged. The first log line is the error, and the only other line is the migration hint, which is logged iff the error is an `Error` with exactly the missing-migration message. |
| SyncTables.SettleSynchronize | src/syncTables.ts:45 | A failure of `synchronize` is rethrown as it was, after the error is logged; success passes through without logging. |
| SyncTrigger.TryStart | src/Sync.tsx:122-138 | With the lock held, or with no sync function, the trigger returns false and changes nothing. Otherwise it takes the lock (`busyRef` and `busy`) before the await and leaves online and lastSyncTime alone. |
| SyncTrigger.Finish | src/Sync.tsx:140-155 | The result and online are true iff the cycle resolved, and the notice is "Synchronized" or "Offline" accordingly. The lock is released. lastSyncTime is the clock in whole seconds rounded down: t·1000 ≤ now < (t+1)·1000. |
| SyncTrigger.Exposed | src/Sync.tsx:160 | The trigger is exposed iff sync is enabled and not busy. An exposed trigger in a consistent state does start a cycle. |
| SyncTrigger.StepKeepsSingleFlight | src/Sync.tsx:126-138 | Every trigger or completion keeps at most one cycle in flight, with the lock held exactly while one is. A trigger during a cycle only records a false result. |
| SyncTrigger.RunKeepsSingleFlight | src/Sync.tsx:122-158 | The single-flight invariant holds under any interleaving of triggers and completions. |
| SyncTrigger.SecondTriggerRejected | src/Sync.tsx:126-138 | Two triggers in a row start exactly one cycle, and the second resolves to false. |
| SyncTrigger.IntervalPeriodMs | src/Sync.tsx:172-177 | An interval is installed iff the trigger is exposed and the seconds are positive, with a period of seconds·1000 ms. |
| SyncTrigger.IntervalWarning | src/Sync.tsx:182-187 | The "greater than 0" message is logged iff the interval is negative, and then no interval is installed. |
| SyncTrigger.EventSyncFires | src/Sync.tsx:198-203 | The event sync fires only when the condition holds and the trigger is exposed, and only on mount or when the condition was not already true. |
| WatermelonLocal.DefaultGetColumns | src/useWatermelonLocal.ts:41 | The result has no "deletedAt". Every other column keeps its multiplicity and its order. A list without "deletedAt" is returned unchanged. |
| WatermelonLocal.DefinedEntries | src/useWatermelonLocal.ts:77 | Every kept entry comes from the filter and has a defined value. |
| WatermelonLocal.DefinedEntriesKeeps | src/useWatermelonLocal.ts:77 | Exactly the entries whose value is undefined are dropped. Every other entry is kept in its original order and as often as it occurs. |
| WatermelonLocal.EntryClauses | src/useWatermelonLocal.ts:77-82 | There are never more clauses than filter entries. |
| WatermelonLocal.EntryClausesFollowDefined | src/useWatermelonLocal.ts:77-82 | There is one clause per defined filter entry, in entry order, and each is that entry's clause. |
| WatermelonLocal.FilterClauses | src/useWatermelonLocal.ts:74-87 | With no filter, the query is the single clause `id = null`. With a filter, the last clause is `deletedAt = null` unless the columns include "deletedAt". |
| WatermelonLocal.EntryClauseMeaning | src/useWatermelonLocal.ts:79-81 | A scalar entry matches on equality. An array entry matches when the field equals one of the array's elements. |
| WatermelonLocal.EntryClausesMeaning | src/useWatermelonLocal.ts:77-82 | A record matches all entry clauses iff it satisfies every defined filter entry. |
| WatermelonLocal.FilterQueryMeaning | src/useWatermelonLocal.ts:74-86 | A record is selected iff it satisfies every defined filter entry and, unless "deletedAt" is a requested column, has a null deletedAt. |
| WatermelonLocal.NoFilterSelectsNothing | src/useWatermelonLocal.ts:87 | Without a filter, no record that has an id is selected. |
| WatermelonLocal.DefaultColumnsHideDeleted | src/useWatermelonLocal.ts:55-87 | With the default columns, a soft-deleted record is never selected. |
| WatermelonLocal.GetList | src/useWatermelonLocal.ts:60-98 | The list is the query's rows with or without a filter, and undefined only until the query has emitted: the selector's test sees the filter's JSON text, never an empty string. |
| WatermelonLocal.GetItem | src/useWatermelonLocal.ts:128-135 | The item is undefined exactly while the list is loading. An empty list gives null, and otherwise the item is the first row. |
| WatermelonLocal.NoFilterListIsEmpty | src/useWatermelonLocal.ts:60-98 | Without a filter, once the `id = null` query has emitted, the list is empty and the item is null, since every stored record has an id. |
| WatermelonLocal.GetListIgnoresMissingFilter | src/useWatermelonLocal.ts:68 | Without a filter a loaded list comes back as written, where the intended list would stay undefined. |
| WatermelonLocal.GetListIntended | src/useWatermelonLocal.ts:68 | The intended list is undefined without a filter and the query's rows with one. |
| WatermelonLocal.UpdateItem | src/useWatermelonLocal.ts:188-208 | A null or undefined id creates a record. Otherwise the write updates that id. The item's own fields, without `id`, are all written and override the timestamps the write supplies. updatedAt2 defaults to now. |
| WatermelonLocal.UpdateItems | src/useWatermelonLocal.ts:188-216 | The items are written one after another, in order. The batch succeeds iff every item's id is nullish or names a stored record. Otherwise the writes stop just before the first item whose `find` rejects, and the earlier writes stand. |
| WatermelonLocal.DeleteItems | src/useWatermelonLocal.ts:249-255 | Every written item with an id becomes an update of that record. The update sets deletedAt2 to now and keeps the item's other fields, so nothing is removed. An item without an id is created instead. Each write stores exactly the item's properties, without id, plus deletedAt2 and the write timestamps, which default to now. The writes stop at the first item whose id names no stored record. |
| WatermelonLocal.SetList | src/useWatermelonLocal.ts:100-103 | The items are written in order until the first one whose target record, the filter's id if it defines one and the item's own otherwise, is not stored. A defined filter property overrides the item's own value, and item properties the filter leaves undefined are kept. A filter id that is neither null nor undefined redirects every item to an update of that one record. A null filter id makes every write a creation. An undefined filter id leaves the item's own id to decide between update and create. Each write stores exactly the item's and the filter's defined properties, without id, plus the write timestamps, which default to now. |
| WatermelonLocal.SetItem | src/useWatermelonLocal.ts:143-155 | A non-null next value writes `{id, ...next, ...filter}`, which has exactly the id, next's keys and the filter's defined keys. The filter wins over next, and next wins over the hook's id. Null with a truthy id deletes that id, and null without an id does nothing. |
| WatermelonLocal.SetNullSoftDeletes | src/useWatermelonLocal.ts:140-155 | Setting null on a hook with an id ends in an update of that id whose patch is exactly updatedAt2 and deletedAt2 set to now. |
| WatermelonLocal.SetWithoutIdCreates | src/useWatermelonLocal.ts:151-152 | A value without an id, on a hook without an id, ends in a record creation. |
| WatermelonLocal.ItemSetterAsWrittenNeverDeletes | src/useWatermelonLocal.ts:116-126 | Through the `useItem` setter as written, setting null yields a write rather than the delete that `setItem(null)` performs. With no current item, that write is an update of the hook's id whose patch holds only the hook's defined properties and `updatedAt2`. |
| WatermelonLocal.ItemSetterArg | src/useWatermelonLocal.ts:116-126 | The corrected setter passes null through as null. Any other value is laid over the current item. |
| WatermelonLocal.ItemSetterDeletes | src/useWatermelonLocal.ts:116-126 | With the corrected setter, setting null on an item with an id deletes it. |

## Findings

| source | as written | input that shows it | evidently intended | confidence | as-written member | corrected member |
|---|---|---|---|---|---|---|
| src/useWatermelonLocal.ts:124 | The `useItem` setter calls `setItem({ ...getItem, ...newValue })`. Spreading `null` yields an object, so `setItem` never receives null. | A hook whose filter has id "a", and the setter called with `null`. With a current item, its properties are written back to "a". With no current item, the result is an update of "a" that touches only `updatedAt2` and the filter's properties. It is never a delete of "a". | Passing null through, so that setting an item to null deletes it, as `setItem(null)` does. The cast to `Partial<T> \| null` suggests this. | medium; not executed | WatermelonLocal.ItemSetterAsWrittenNeverDeletes | WatermelonLocal.ItemSetterDeletes |
| src/useWatermelonLocal.ts:68 | The selector's second parameter is named `filter` and shadows the hook's argument. It receives the memo dependency `JSON.stringify(filter ?? null)`, a non-empty string, so `filter ? v?.map(parse) : undefined` never takes its `undefined` branch. | `useGetList()` with no filter, once the `id = null` query has emitted no rows. The list is `[]`, and `useGetItem()` gives null, instead of undefined for both. | Undefined without a filter, as the `: undefined` branch shows. | low; not executed; assumes `useMemoValue` passes its dependency values to the selector, as the call at lines 132-135 also relies on | WatermelonLocal.GetListIgnoresMissingFilter | WatermelonLocal.GetListIntended |

## Left out

- `src/adapter.ts`, `src/adapterLoki.ts`, `src/adapterSqlite.ts` and `src/index.ts` are not part of this model. They only select and configure backends or re-export names.
- `src/useWmdbQuery.ts` is not part of this model. It is subscription plumbing over the store's query engine. Query clauses are given a meaning by `Matches` instead: a column that is absent reads as undefined, and a stored record carries every column.
- Parts of WatermelonDB `synchronize` are not modelled: applying changes locally, persisting the watermark, and collecting the outstanding local change set. It is a foreign library.
- The internals of `database.write`, `database.batch`, `prepareCreate`, `find`, `mergeObject` and `BigIntBase32.parse` are foreign library calls. Writes are described as `CreateRecord`/`UpdateRecord` values, and `BigIntBase32.parse` is the identity.
- `updateItemsWmdb`, `deleteItemsWmdb` and `deleteItemWmdbSingle` are left out. They are unused, and the code flags them as broken.
- Several hooks are not modelled separately because they only wrap modelled operations: `useList`, `useCreateList`, `useUpdateList`, `useDeleteList`, `useCreateItem`, `useUpdateItem`, `useDeleteItem`, `createItem`, `deleteItem`, and the id collection of `createItems`.
- The caller-supplied `parse` argument of `useWatermelonSync` and `useWatermelonLocal` is taken as the identity; the model does not claim what it does to a record. This affects WatermelonSync.PullChanges (rows are classified unparsed), WatermelonSync.PushChanges, WatermelonSync.PlanSendsEntry and WatermelonSync.RunPush (deletes are sent as bare ids, while the source sends parsed `{ id }` objects), and WatermelonLocal.GetList, WatermelonLocal.SetList, WatermelonLocal.DeleteItems and `createItems` (items are written unparsed).
- Grouping.GroupBy: keys are compared as Dafny values. The polyfill stores groups on a plain object, so numeric keys become strings (1 and "1" share a group) and a `"__proto__"` key sets the prototype instead. The sync core only groups by its four fixed bucket names, where this makes no difference.
- Console logging, the more-than-500-rows warning of `useGetList`, and `log`/`notify` side effects are left out beyond the recorded notice strings and log lines.
- React state, effects and the `setInterval` timing are left out. The model gives the conditions under which an interval or an event sync is installed or fires, not the timer.
- WatermelonLocal.UpdateItems, WatermelonLocal.DeleteItems and WatermelonLocal.SetList: a store write that fails for a reason other than a missing record is not modelled. Creations and updates of a stored record are assumed to succeed.
- WatermelonLocal.SetItemWrite describes the write a `setItem` call asks for. As with `UpdateItems`, that write rejects when its id names no stored record (`Lands`), and the model does not restate this per call.
- SyncTables.PullAll: every table's `getList` requests are assumed to answer. A rejected request rejects that table's pull, and through `Promise.all` the whole pull; the model gives the results of a pull in which every request answers.
- Concurrency across tables (`Promise.all`) is not modelled. Push is modelled as each table's own sequential call plan.
- The `useItem` setter's updater-function form is not modelled. Only the value form is.
- SyncTables.PullAll: the merged timestamp is only stated to be one of the tables' clock reads. Which one survives the deep merge is left open on purpose. Duplicate table names are merged list by list, and nothing is claimed about them.
- Chunks.FetchItemsInChunks: requires `limit > 0`. With a limit of 0 and an empty remote the source loops forever, and its only caller passes 1000.
- WatermelonLocal.UpdateItems: all clock reads of one batch are modelled as a single `now`, while the source reads the clock once per record.
- WatermelonLocal.DeleteItems: the `deletedAt2` and `updatedAt2` clock reads are modelled as the same `now`.
- SyncTrigger.IntervalPeriodMs: interval seconds are integers, so fractional intervals are not modelled.
