# Task reconciliation and OAuth 1.0 signing, modelled in Dafny

This project models two independent pieces of the `spikes` repository.

**The TodoApp task service (`PersistedTasksService`).** The service keeps a
working set of task records. Each record is a task with a sync state
(`IN_SYNC`, `AHEAD`, `SYNC_ERROR`, `DELETED_LOCALLY`) and a version, the
clock time it was written at. The service publishes a stream of status
events (`Loading`, `Idle`, `Error`, each with or without data) that never
completes. Its implementation is not among the files modelled: its
behaviour is the one fixed by `PersistedTasksServiceTest.kt`, which the
model follows case by case.

- `TaskModel` holds the values:
  - `Task`, `SyncedTask` and `Tasks`;
  - `Tasks.save`, which replaces the record with the same id or appends;
  - `Tasks.asSynced`;
  - the active and completed filters;
  - the re-stamping that `clearCompletedTasks` does.
- `TaskEvents` holds the event type and the validated event constructors:
  - a list the data validator rejects counts as no data;
  - the validator itself (`NoEmptyTasksPredicate`) is a parameter `hasData`.

  It also holds the view projection that the active and completed streams
  apply to each event.
- `Reconciliation` states each service call as a pure step. A step maps the
  current working set and the answers of the collaborators to three
  things: the events emitted, the new working set, and the writes to the
  local store. The collaborators are the local store, the remote source,
  the freshness checker and the clock, and their answers are explicit
  inputs. The steps are `Query`, `Mutation`, `Refresh` and `ClearCompleted`.
- `TasksService.PersistedTasksService` is the service as an object. It has
  the fields `working`, `log`, `savedAll` and `savedTasks`, and its methods
  emit event by event. Each method is proved to append exactly the projected
  events of its step, and to leave the working set and the store writes the
  step prescribes. The invariant `Valid` says that every delivered event
  carries data only when the validator accepts it.

**The ReactTwitter OAuth helper (`oauth-helper.js`).**

- `OauthParams` holds parameter encoding, the in-place sort by key, the
  `key=value&...` join and their composition (`_collectParameters`).
- `Oauth` holds these:
  - the signing key of section 3.4.2 of RFC 5849;
  - the signature base string of section 3.4.1.1;
  - the `Authorization` header of section 3.5.1;
  - the callback-URL parser.
- `Text` holds the string order that JavaScript's `>` uses, `split` and its
  inverse join, and ASCII upper-casing.

The percent encoder is a function parameter `enc`, and so is HMAC-SHA1 with
Base64, as `sign`. Nothing is assumed about either.

Some things the source promises only up to the sort's tie-breaking. The
comparator sorts by key only. `Array.prototype.sort` promised no stability
before ECMAScript 2019, which made it stable. The model assumes neither, so
`CollectParameters` promises only that its result is the join of some
key-sorted permutation of the encoded parameters.
`CollectOrderIndependent` then shows that with distinct encoded
keys that order, and so the parameter string, is unique.
`DuplicateKeysAmbiguous` shows that with a repeated key it is not. Two
orders of `a=1`, `a=2` both qualify and join differently. This is where
the code departs from section 3.4.1.3.2 of RFC 5849, which orders equal
names by value. Even under a stable sort, entries with equal keys keep
their input order, which still is not the order by value.

## Model

Source paths are relative to the repository root.

| member | source | states |
|---|---|---|
| TaskModel.Save | Architecture/TodoApp/android/core/src/test/kotlin/com/novoda/todoapp/tasks/service/PersistedTasksServiceTest.kt:320-321 | `Tasks.save`: the saved record is in the result; records of other ids stay where they were; with unique ids the record of the same id is replaced in place; an absent id is appended at the end; unique ids stay unique |
| TaskModel.Find | Architecture/TodoApp/android/core/src/test/kotlin/com/novoda/todoapp/tasks/service/PersistedTasksServiceTest.kt:320-321 | the position found holds the id and no earlier position does; none found means no record has the id |
| TaskModel.SaveTwice | Architecture/TodoApp/android/core/src/test/kotlin/com/novoda/todoapp/tasks/service/PersistedTasksServiceTest.kt:320-321 | saving two records of one id keeps only the second, where the id stood: `save(save(ts, r1), r2) == save(ts, r2)` |
| TaskModel.Task.Complete | Architecture/TodoApp/android/core/src/test/kotlin/com/novoda/todoapp/tasks/service/PersistedTasksServiceTest.kt:302-321 | `task.complete()`: the same task, id, title and description kept, marked completed |
| TaskModel.Task.Activate | Architecture/TodoApp/android/core/src/test/kotlin/com/novoda/todoapp/tasks/service/PersistedTasksServiceTest.kt:378-397 | `task.activate()`: the same task, id, title and description kept, marked active |
| TaskModel.Lookup | Architecture/TodoApp/android/core/src/test/kotlin/com/novoda/todoapp/tasks/service/PersistedTasksServiceTest.kt:327-331 | the record found belongs to the set and has the id; none found means no record has it |
| TaskModel.LookupAfterSave | Architecture/TodoApp/android/core/src/test/kotlin/com/novoda/todoapp/tasks/service/PersistedTasksServiceTest.kt:327-331 | after a save the id looks up to exactly the saved record, whatever ids the set held before |
| TaskModel.AsSynced | Architecture/TodoApp/android/core/src/test/kotlin/com/novoda/todoapp/tasks/service/PersistedTasksServiceTest.kt:1049 | `Tasks.asSynced(list, time)`: one record per task, in list order, each in sync at `time` |
| TaskModel.DataOf | Architecture/TodoApp/android/core/src/test/kotlin/com/novoda/todoapp/tasks/service/PersistedTasksServiceTest.kt:1049 | the tasks of the records, position by position |
| TaskModel.AsSyncedRoundTrip | Architecture/TodoApp/android/core/src/test/kotlin/com/novoda/todoapp/tasks/service/PersistedTasksServiceTest.kt:1032-1049 | stamping a list and taking the tasks back gives the list; a list with distinct ids gives records with unique ids |
| TaskModel.Keep | Architecture/TodoApp/android/core/src/test/kotlin/com/novoda/todoapp/tasks/service/PersistedTasksServiceTest.kt:716-731 | the active/completed filter: a record is kept iff it is in the set and its `completed` flag is the one asked for |
| TaskModel.KeepAppend | Architecture/TodoApp/android/core/src/test/kotlin/com/novoda/todoapp/tasks/service/PersistedTasksServiceTest.kt:716-731 | the filter keeps the records' order: filtering a concatenation concatenates the filtered parts |
| TaskModel.KeepPartitions | Architecture/TodoApp/android/core/src/test/kotlin/com/novoda/todoapp/tasks/service/PersistedTasksServiceTest.kt:716-731 | the active and the completed views together hold every record exactly once (as multisets) |
| TaskModel.KeepExtremes | Architecture/TodoApp/android/core/src/test/kotlin/com/novoda/todoapp/tasks/service/PersistedTasksServiceTest.kt:699-714 | a view whose flag no record has is empty; one whose flag every record has is the whole set |
| TaskModel.MarkForClearing | Architecture/TodoApp/android/core/src/test/kotlin/com/novoda/todoapp/tasks/service/PersistedTasksServiceTest.kt:1009-1014 | first step of a clear: same tasks in the same order, completed ones `DELETED_LOCALLY`, the others `AHEAD`, all at the clock time |
| TaskModel.MarkFailed | Architecture/TodoApp/android/core/src/test/kotlin/com/novoda/todoapp/tasks/service/PersistedTasksServiceTest.kt:1016-1021 | a failed clear: every record becomes `SYNC_ERROR`, task and version kept |
| TaskModel.MarkingKeepsTasks | Architecture/TodoApp/android/core/src/test/kotlin/com/novoda/todoapp/tasks/service/PersistedTasksServiceTest.kt:1009-1021 | both re-stampings keep the tasks in order, hence keep ids unique |
| TaskModel.Unversioned | Architecture/TodoApp/android/core/src/test/kotlin/com/novoda/todoapp/tasks/service/PersistedTasksServiceTest.kt:234-257 | the content a refresh compares: each record's task and state, versions left out |
| TaskModel.AsSyncedSameContent | Architecture/TodoApp/android/core/src/test/kotlin/com/novoda/todoapp/tasks/service/PersistedTasksServiceTest.kt:234-257 | two stampings of the same list at different times have the same content |
| TaskEvents.Validated | Architecture/TodoApp/android/core/src/test/kotlin/com/novoda/todoapp/tasks/service/PersistedTasksServiceTest.kt:974-988 | `updateData` through the validator: data is present iff the validator accepts the list, and is then that list |
| TaskEvents.LoadingWith | Architecture/TodoApp/android/core/src/test/kotlin/com/novoda/todoapp/tasks/service/PersistedTasksServiceTest.kt:976 | `loadingEventWith(tasks)`: a `Loading` event whose data is present iff the validator accepts the list, and is then that list |
| TaskEvents.IdleWith | Architecture/TodoApp/android/core/src/test/kotlin/com/novoda/todoapp/tasks/service/PersistedTasksServiceTest.kt:974 | `idleEventWith(tasks)`: an `Idle` event whose data is present iff the validator accepts the list, and is then that list |
| TaskEvents.ErrorWith | Architecture/TodoApp/android/core/src/test/kotlin/com/novoda/todoapp/tasks/service/PersistedTasksServiceTest.kt:982-988 | `errorEventWith(tasks, cause)`: an `Error` event carrying the cause, whose data is present iff the validator accepts the list, and is then that list |
| TaskEvents.Project | Architecture/TodoApp/android/core/src/test/kotlin/com/novoda/todoapp/tasks/service/PersistedTasksServiceTest.kt:699-731 | a view keeps the event's kind and error cause; it delivers data iff the event has data and the validator accepts the filtered list, and that data is exactly the filtered list (the records whose flag is the view's, all of them for the all-tasks view) |
| TaskEvents.ProjectAll | Architecture/TodoApp/android/core/src/test/kotlin/com/novoda/todoapp/tasks/service/PersistedTasksServiceTest.kt:699-731 | a run of events through a view, event by event |
| TaskEvents.ProjectAllAppend | Architecture/TodoApp/android/core/src/test/kotlin/com/novoda/todoapp/tasks/service/PersistedTasksServiceTest.kt:207-232 | projecting two runs one after the other equals projecting their concatenation |
| TaskEvents.ProjectAllTasks | Architecture/TodoApp/android/core/src/test/kotlin/com/novoda/todoapp/tasks/service/PersistedTasksServiceTest.kt:71-126 | the all-tasks stream delivers validated events unchanged |
| TaskEvents.ProjectToNothing | Architecture/TodoApp/android/core/src/test/kotlin/com/novoda/todoapp/tasks/service/PersistedTasksServiceTest.kt:699-714 | a view that filters the data down to nothing yields the data-less event of the same kind, not no event |
| Reconciliation.Known | Architecture/TodoApp/android/core/src/test/kotlin/com/novoda/todoapp/tasks/service/PersistedTasksServiceTest.kt:88-105 | local data counts iff the read delivered a list the validator accepts |
| Reconciliation.Query | Architecture/TodoApp/android/core/src/test/kotlin/com/novoda/todoapp/tasks/service/PersistedTasksServiceTest.kt:54-205 | a query emits 2 to 4 validated events: `Loading(none)` first, only `Loading` before the last, and a last that is `Idle` or `Error`; it saves to the local store exactly when the local read did not fail, the local data was not fresh and the remote sent a list, and then it saves that list stamped at the clock time |
| Reconciliation.Resolve | Architecture/TodoApp/android/core/src/test/kotlin/com/novoda/todoapp/tasks/service/PersistedTasksServiceTest.kt:88-126 | after a successful local read, fresh local data ends the query on itself; otherwise only `Loading` events precede a non-loading last event |
| Reconciliation.Settle | Architecture/TodoApp/android/core/src/test/kotlin/com/novoda/todoapp/tasks/service/PersistedTasksServiceTest.kt:107-205 | the remote's answer: a list produces exactly `Loading` then `Idle` of the list stamped in sync at the clock time, and is saved; an empty remote gives exactly `Idle(known)` and a failure exactly `Error(known, cause)`, the local data known also being the working set left |
| Reconciliation.QueryFreshLocal | Architecture/TodoApp/android/core/src/test/kotlin/com/novoda/todoapp/tasks/service/PersistedTasksServiceTest.kt:88-105 | fresh local data: exactly `[Loading(none), Loading(local), Idle(local)]`, no save, and the remote makes no difference |
| Reconciliation.QueryExpiredLocal | Architecture/TodoApp/android/core/src/test/kotlin/com/novoda/todoapp/tasks/service/PersistedTasksServiceTest.kt:107-126 | expired local data: `Loading(local)`, then `Loading` and `Idle` of the remote list stamped at the clock time, which is what `saveTasks` receives |
| Reconciliation.QueryNoLocalData | Architecture/TodoApp/android/core/src/test/kotlin/com/novoda/todoapp/tasks/service/PersistedTasksServiceTest.kt:54-86 | no local data: the remote list, stamped, is loaded, shown and saved |
| Reconciliation.QueryNothing | Architecture/TodoApp/android/core/src/test/kotlin/com/novoda/todoapp/tasks/service/PersistedTasksServiceTest.kt:143-155 | empty local and empty remote: exactly `[Loading(none), Idle(none)]` |
| Reconciliation.QueryLocalFailure | Architecture/TodoApp/android/core/src/test/kotlin/com/novoda/todoapp/tasks/service/PersistedTasksServiceTest.kt:157-187 | a failed local read yields `[Loading(none), Error(none, cause)]` whatever the remote holds |
| Reconciliation.QueryRemoteFailure | Architecture/TodoApp/android/core/src/test/kotlin/com/novoda/todoapp/tasks/service/PersistedTasksServiceTest.kt:128-205 | a failed remote read ends in an error carrying the best data known: `[Loading(none), Loading(local), Error(local)]`, or `[Loading(none), Error(none)]` without local data |
| Reconciliation.QueryViewOfNothing | Architecture/TodoApp/android/core/src/test/kotlin/com/novoda/todoapp/tasks/service/PersistedTasksServiceTest.kt:699-714 | an active or completed view that keeps none of the local records still delivers `[Loading(none), Loading(none), Idle(none)]` |
| Reconciliation.QueryViewFiltered | Architecture/TodoApp/android/core/src/test/kotlin/com/novoda/todoapp/tasks/service/PersistedTasksServiceTest.kt:716-731 | an active or completed view of local data, with nothing from the remote and fresh or not, delivers exactly `[Loading(none), Loading(kept), Idle(kept)]`, `kept` being the records with the view's flag in their order |
| Reconciliation.QueryKeepsIdsUnique | Architecture/TodoApp/android/core/src/test/kotlin/com/novoda/todoapp/tasks/service/PersistedTasksServiceTest.kt:54-205 | when the local list holds one record per id and the remote list repeats no id, the working set a query leaves holds one record per id |
| Reconciliation.Mutation | Architecture/TodoApp/android/core/src/test/kotlin/com/novoda/todoapp/tasks/service/PersistedTasksServiceTest.kt:302-531 | a complete/activate/save emits only `Idle` events and never calls `saveTasks` |
| Reconciliation.Superseded | Architecture/TodoApp/android/core/src/test/kotlin/com/novoda/todoapp/tasks/service/PersistedTasksServiceTest.kt:326-349 | the stale-write guard: true iff the first record with the edited id has a version later than the clock, as 456 is later than 321 |
| Reconciliation.MutationSuperseded | Architecture/TodoApp/android/core/src/test/kotlin/com/novoda/todoapp/tasks/service/PersistedTasksServiceTest.kt:326-349 | when the stored record's version is later than the clock, nothing is emitted, saved or changed |
| Reconciliation.MutationApplied | Architecture/TodoApp/android/core/src/test/kotlin/com/novoda/todoapp/tasks/service/PersistedTasksServiceTest.kt:302-376 | otherwise exactly two events: `Idle(set.save(task, AHEAD, now))`, then `Idle(set.save(task, IN_SYNC or SYNC_ERROR, now))` on the original set; the record reaches the local store iff the remote accepted it |
| Reconciliation.MutationKeepsOthers | Architecture/TodoApp/android/core/src/test/kotlin/com/novoda/todoapp/tasks/service/PersistedTasksServiceTest.kt:454-531 | a mutation keeps ids unique, leaves records of other ids untouched, and leaves the edited id looking up to the settled record |
| Reconciliation.Refresh | Architecture/TodoApp/android/core/src/test/kotlin/com/novoda/todoapp/tasks/service/PersistedTasksServiceTest.kt:277-300 | a refresh always starts with `Loading(current)` and never writes a single task |
| Reconciliation.RefreshSuppression | Architecture/TodoApp/android/core/src/test/kotlin/com/novoda/todoapp/tasks/service/PersistedTasksServiceTest.kt:207-275 | an unchanged remote list gives `[Loading(current), Idle(current)]` and no save; a changed one gives `[Loading(current), Loading(new), Idle(new)]` and saves new |
| Reconciliation.RefreshTwiceSuppressed | Architecture/TodoApp/android/core/src/test/kotlin/com/novoda/todoapp/tasks/service/PersistedTasksServiceTest.kt:234-257 | refreshing again against the same remote list, at any clock time, is suppressed |
| Reconciliation.RefreshKeepsIdsUnique | Architecture/TodoApp/android/core/src/test/kotlin/com/novoda/todoapp/tasks/service/PersistedTasksServiceTest.kt:207-300 | a refresh of a set with one record per id, against a remote list that repeats no id, leaves one record per id |
| Reconciliation.QueryThenRefreshSuppressed | Architecture/TodoApp/android/core/src/test/kotlin/com/novoda/todoapp/tasks/service/PersistedTasksServiceTest.kt:234-257 | a query answered by a remote list followed by a refresh against the same list adds only `Loading` and `Idle` of the queried set |
| Reconciliation.ClearCompleted | Architecture/TodoApp/android/core/src/test/kotlin/com/novoda/todoapp/tasks/service/PersistedTasksServiceTest.kt:933-972 | a clear first emits `Loading` of the set marked for clearing and never writes a single task |
| Reconciliation.ClearCompletedConfirmed | Architecture/TodoApp/android/core/src/test/kotlin/com/novoda/todoapp/tasks/service/PersistedTasksServiceTest.kt:933-951 | on success: `Loading` and `Idle` of the remaining remote list, whose records are its tasks in sync at the clock time, and which is saved |
| Reconciliation.ClearFailedSet | Architecture/TodoApp/android/core/src/test/kotlin/com/novoda/todoapp/tasks/service/PersistedTasksServiceTest.kt:1016-1021 | marking then failing keeps the tasks in order with every record `SYNC_ERROR` at the clock time |
| Reconciliation.ClearCompletedFailed | Architecture/TodoApp/android/core/src/test/kotlin/com/novoda/todoapp/tasks/service/PersistedTasksServiceTest.kt:953-972 | on failure: an error with the `SyncError` cause carrying the whole set, same tasks, every record `SYNC_ERROR` at the clock time; nothing saved |
| Reconciliation.ClearKeepsIdsUnique | Architecture/TodoApp/android/core/src/test/kotlin/com/novoda/todoapp/tasks/service/PersistedTasksServiceTest.kt:933-972 | a clear of a set with one record per id leaves one record per id, when the remaining remote list repeats no id |
| TasksService.Delivered | Architecture/TodoApp/android/core/src/test/kotlin/com/novoda/todoapp/tasks/service/PersistedTasksServiceTest.kt:207-232 | delivering more events extends the delivered run by their projections |
| TasksService.PersistedTasksService.constructor | Architecture/TodoApp/android/core/src/test/kotlin/com/novoda/todoapp/tasks/service/PersistedTasksServiceTest.kt:35-40 | a new service has an empty working set, an empty log and no store writes, and `Valid` holds: every delivered event carries data only when the validator accepts it |
| TasksService.PersistedTasksService.Emit | Architecture/TodoApp/android/core/src/test/kotlin/com/novoda/todoapp/tasks/service/PersistedTasksServiceTest.kt:699-731 | one event is appended, through the subscribed view, and the log stays validated |
| TasksService.PersistedTasksService.GetTasksEvent | Architecture/TodoApp/android/core/src/test/kotlin/com/novoda/todoapp/tasks/service/PersistedTasksServiceTest.kt:54-205 | the log grows by exactly the projected events of `Query`, the working set becomes the query's, and `saveTasks` is called exactly when `Query` saves; with one record per id in the local list and no repeated id in the remote list, the working set holds one record per id |
| TasksService.PersistedTasksService.Subscribe | Architecture/TodoApp/android/core/src/test/kotlin/com/novoda/todoapp/tasks/service/PersistedTasksServiceTest.kt:54-205 | the events, working set and `saveTasks` call of `Query`, emitted event by event |
| TasksService.PersistedTasksService.ResolveQuery | Architecture/TodoApp/android/core/src/test/kotlin/com/novoda/todoapp/tasks/service/PersistedTasksServiceTest.kt:88-126 | the log grows by exactly the events of `Resolve`, with its working set and save |
| TasksService.PersistedTasksService.ReadRemote | Architecture/TodoApp/android/core/src/test/kotlin/com/novoda/todoapp/tasks/service/PersistedTasksServiceTest.kt:107-205 | the log grows by exactly the events of `Settle`, with its working set and save |
| TasksService.PersistedTasksService.Mutate | Architecture/TodoApp/android/core/src/test/kotlin/com/novoda/todoapp/tasks/service/PersistedTasksServiceTest.kt:302-531 | the log grows by exactly the events of `Mutation` on the old working set, which it replaces, and `saveTask` receives the settled record exactly when `Mutation` says so; a working set with one record per id keeps one record per id |
| TasksService.PersistedTasksService.Complete | Architecture/TodoApp/android/core/src/test/kotlin/com/novoda/todoapp/tasks/service/PersistedTasksServiceTest.kt:302-376 | as `Mutate`, for the task marked completed, ids kept unique |
| TasksService.PersistedTasksService.Activate | Architecture/TodoApp/android/core/src/test/kotlin/com/novoda/todoapp/tasks/service/PersistedTasksServiceTest.kt:378-452 | as `Mutate`, for the task marked active, ids kept unique |
| TasksService.PersistedTasksService.Save | Architecture/TodoApp/android/core/src/test/kotlin/com/novoda/todoapp/tasks/service/PersistedTasksServiceTest.kt:454-531 | as `Mutate`, for the task as given, ids kept unique |
| TasksService.PersistedTasksService.RefreshTasks | Architecture/TodoApp/android/core/src/test/kotlin/com/novoda/todoapp/tasks/service/PersistedTasksServiceTest.kt:207-300 | the log grows by exactly the events of `Refresh` on the old working set; working set and `saveTasks` as `Refresh` prescribes; one record per id is kept when the remote list repeats no id |
| TasksService.PersistedTasksService.Reload | Architecture/TodoApp/android/core/src/test/kotlin/com/novoda/todoapp/tasks/service/PersistedTasksServiceTest.kt:207-300 | the events, working set and `saveTasks` call of `Refresh`, emitted event by event |
| TasksService.PersistedTasksService.ClearCompletedTasks | Architecture/TodoApp/android/core/src/test/kotlin/com/novoda/todoapp/tasks/service/PersistedTasksServiceTest.kt:933-972 | the log grows by exactly the events of `ClearCompleted` on the old working set; working set and `saveTasks` as `ClearCompleted` prescribes; one record per id is kept when the remaining remote list repeats no id |
| TasksService.PersistedTasksService.Clear | Architecture/TodoApp/android/core/src/test/kotlin/com/novoda/todoapp/tasks/service/PersistedTasksServiceTest.kt:933-972 | the events, working set and `saveTasks` call of `ClearCompleted`, emitted event by event |
| OauthParams.EncodeAll | ReactNative/ReactTwitter/core/service/oauth-helper.js:57-68 | each entry's key and value passed through the encoder, position by position |
| OauthParams.EncodeAllAppend | ReactNative/ReactTwitter/core/service/oauth-helper.js:55-70 | encoding `params` then `queryParams` is encoding their concatenation |
| OauthParams.EncodeAllPermutation | ReactNative/ReactTwitter/core/service/oauth-helper.js:55-70 | entries supplied in another order encode to the same multiset |
| OauthParams.PercentEncodeParams | ReactNative/ReactTwitter/core/service/oauth-helper.js:55-70 | one encoded entry per `params` entry, in order, followed by one per `queryParams` entry, in order |
| OauthParams.Compare | ReactNative/ReactTwitter/core/service/oauth-helper.js:73-75 | the comparator returns 1 iff the first key is after the second, -1 iff before, 0 iff the keys are equal; values never matter |
| OauthParams.CompareProperties | ReactNative/ReactTwitter/core/service/oauth-helper.js:73-75 | the comparator is antisymmetric and returns 0 exactly for equal keys; values never matter |
| OauthParams.SortEncodedParams | ReactNative/ReactTwitter/core/service/oauth-helper.js:72-76 | the array ends as a permutation of its contents ordered non-decreasingly by key |
| OauthParams.InsertAt | ReactNative/ReactTwitter/core/service/oauth-helper.js:72-76 | one insertion step: a key-sorted prefix grows by one entry, contents kept as a multiset |
| OauthParams.Items | ReactNative/ReactTwitter/core/service/oauth-helper.js:84 | each entry as `key=value` |
| OauthParams.JoinParams | ReactNative/ReactTwitter/core/service/oauth-helper.js:78-87 | the output is the `key=value` items joined with single `&` |
| OauthParams.JoinedEmpty | ReactNative/ReactTwitter/core/service/oauth-helper.js:78-87 | the joined string is empty iff there are no entries |
| OauthParams.JoinedSplitsIntoItems | ReactNative/ReactTwitter/core/service/oauth-helper.js:78-87 | with no `&` in keys and values, splitting the joined string on `&` gives back exactly the items: no leading, trailing or doubled `&` |
| OauthParams.SortAndJoin | ReactNative/ReactTwitter/core/service/oauth-helper.js:49-53 | sorting a copy by key and joining gives the join of some key-sorted permutation of the input |
| OauthParams.CollectParameters | ReactNative/ReactTwitter/core/service/oauth-helper.js:49-53 | the result is the join of some key-sorted arrangement of the encoded `params` followed by the encoded `queryParams` |
| OauthParams.DistinctKeysDetermine | ReactNative/ReactTwitter/core/service/oauth-helper.js:72-76 | with distinct keys, a key determines its entry |
| OauthParams.ArrangementUnique | ReactNative/ReactTwitter/core/service/oauth-helper.js:72-76 | two key-sorted permutations of one multiset whose keys determine entries are equal |
| OauthParams.CollectOrderIndependent | ReactNative/ReactTwitter/core/service/oauth-helper.js:49-53 | with distinct encoded keys, the collected string is independent of supply order and of the split between `params` and `queryParams` |
| OauthParams.DuplicateKeysAmbiguous | ReactNative/ReactTwitter/core/service/oauth-helper.js:73-75 | with a repeated key, two different orders are both valid sorts and join to different strings |
| Text.LessTransitive | ReactNative/ReactTwitter/core/service/oauth-helper.js:74 | the order `>` compares keys by is transitive |
| Text.LessTotal | ReactNative/ReactTwitter/core/service/oauth-helper.js:74 | of two different keys one is before the other |
| Text.LessIrreflexive | ReactNative/ReactTwitter/core/service/oauth-helper.js:74 | no key is before itself |
| Text.LessTrichotomy | ReactNative/ReactTwitter/core/service/oauth-helper.js:74 | two keys are equal or one is before the other |
| Text.Split | ReactNative/ReactTwitter/core/service/oauth-helper.js:36-37 | `split` always yields at least one piece |
| Text.JoinSplit | ReactNative/ReactTwitter/core/service/oauth-helper.js:36-37 | joining the pieces of a split with the separator gives the string back |
| Text.SplitJoin | ReactNative/ReactTwitter/core/service/oauth-helper.js:36-37 | splitting a join of separator-free pieces gives the pieces back |
| Text.SplitThree | ReactNative/ReactTwitter/core/service/oauth-helper.js:44-47 | three separator-free fields joined by the separator split back into those three |
| Text.Upper | ReactNative/ReactTwitter/core/service/oauth-helper.js:45 | `toUpperCase` on ASCII: same length, each lower-case letter capitalised, all else kept |
| Text.UpperIdempotent | ReactNative/ReactTwitter/core/service/oauth-helper.js:45 | upper-casing twice is upper-casing once |
| Oauth.SigningKey | ReactNative/ReactTwitter/core/service/oauth-helper.js:25 | the key is the encoded consumer secret, one `&`, the encoded token secret; the `&` is there even for an empty token secret |
| Oauth.SigningKeyFields | ReactNative/ReactTwitter/core/service/oauth-helper.js:25 | with no `&` in the encoded secrets, the key splits back into exactly the two of them |
| Oauth.BaseString | ReactNative/ReactTwitter/core/service/oauth-helper.js:44-47 | the base string is the method, `&`, the encoded URL, `&`, the encoded parameter string: its length is theirs plus two, with `&` right after the method and right after the URL |
| Oauth.BaseStringFields | ReactNative/ReactTwitter/core/service/oauth-helper.js:44-47 | with no `&` inside the parts, the base string splits into exactly upper(method), enc(url), enc(parameters) |
| Oauth.GetSignatureBase | ReactNative/ReactTwitter/core/service/oauth-helper.js:44-47 | the result is `upper(method) & enc(url) & enc(collected)` for a key-sorted arrangement of the encoded parameters |
| Oauth.SignatureBaseOrderIndependent | ReactNative/ReactTwitter/core/service/oauth-helper.js:44-53 | with distinct encoded keys, the base string does not depend on the order parameters were supplied in |
| Oauth.HeaderFields | ReactNative/ReactTwitter/core/service/oauth-helper.js:17-19 | the entries of the parameters in input order; none exactly when there is no parameter |
| Oauth.HeaderPrefixStep | ReactNative/ReactTwitter/core/service/oauth-helper.js:17-19 | one more loop turn extends `OAuth ` plus the entries so far by the next parameter's entry |
| Oauth.AuthorizationHeader | ReactNative/ReactTwitter/core/service/oauth-helper.js:14-21 | the header is `OAuth `, then the parameter entries, then the `oauth_signature` entry, and nothing else |
| Oauth.HeaderFieldsAppend | ReactNative/ReactTwitter/core/service/oauth-helper.js:17-19 | the header entries of two runs of parameters are the entries of the first followed by those of the second |
| Oauth.HeaderFieldAt | ReactNative/ReactTwitter/core/service/oauth-helper.js:17-19 | parameter `i` contributes `enc(k)="enc(v)", ` between the entries before and after it |
| Oauth.CallbackQuery | ReactNative/ReactTwitter/core/service/oauth-helper.js:33 | `substr(prefix.length)`: empty for a URL shorter than the prefix, otherwise the rest after the prefix's length of characters |
| Oauth.PairKey | ReactNative/ReactTwitter/core/service/oauth-helper.js:37-38 | `values[0]`: the text before the first `=`, the whole pair when it has none |
| Oauth.PairValue | ReactNative/ReactTwitter/core/service/oauth-helper.js:37-38 | `values[1]`: undefined exactly when the pair has no `=`, otherwise a text without `=` |
| Oauth.PairValueAfterKey | ReactNative/ReactTwitter/core/service/oauth-helper.js:37-38 | the value is the text right after the first `=` up to the next `=` or the end |
| Oauth.CallbackPrefixUnchecked | ReactNative/ReactTwitter/core/service/oauth-helper.js:32-33 | whatever text of the prefix's length precedes the query is dropped unread |
| Oauth.ParsedStep | ReactNative/ReactTwitter/core/service/oauth-helper.js:36-39 | storing one more pair under its key extends the parse by that pair, a later key overwriting |
| Oauth.GetOauthTokenAndVerifierFromURLCallback | ReactNative/ReactTwitter/core/service/oauth-helper.js:31-42 | the map holds exactly the keys of the pairs, each mapped to the value (text between the first and second `=`, undefined without `=`) of the last pair with that key |
| Oauth.CallbackOfJoined | ReactNative/ReactTwitter/core/service/oauth-helper.js:31-42 | a callback whose query is `key=value` items joined with `&` splits back into those keys and values |
| Oauth.ParsedCallbackOfJoined | ReactNative/ReactTwitter/core/service/oauth-helper.js:31-42 | for such a callback with distinct keys, the parsed map sends each key to its own value |
| Oauth.OauthHelper.constructor | ReactNative/ReactTwitter/core/service/oauth-helper.js:10-12 | the helper keeps the consumer secret it is given |
| Oauth.OauthHelper.GetSigningKey | ReactNative/ReactTwitter/core/service/oauth-helper.js:24-28 | the signature is `sign(base, enc(consumerSecret) & enc(tokenSecret))` for a valid signature base string |
| Oauth.OauthHelper.BuildAuthorizationHeader | ReactNative/ReactTwitter/core/service/oauth-helper.js:14-22 | `OAuth `, then `enc(k)="enc(v)", ` for every parameter in input order, then `oauth_signature="enc(signature)"` over a valid base string |

## Left out

- The implementation of `PersistedTasksService`, `Tasks`, `Event` and `SyncedData` is not part of this model. Their behaviour is taken from what the tests assert.
- `NoEmptyTasksPredicate` is not part of this model. It is the parameter `hasData`. The only property of it that any member assumes is that it rejects the empty list (`requires !hasData([])` on `ProjectToNothing` and `QueryViewOfNothing`).
- RxJava subjects, replay to late subscribers, and the interleaving of asynchronous completions are not modelled. Each call's collaborator answers are inputs to it, as the replayed subjects resolve synchronously in the tests. There is one log per service, written by one caller.
- TasksService.PersistedTasksService.GetTasksEvent: every call is a new subscription that runs the local read, the remote read and `saveTasks` again. In the tests a later subscriber to the same service does not start a new load; it only receives the last event replayed (lines 940-951 and 961-972 of the test), and that replay is not modelled.
- One record per id is not part of `Valid`. The model does not deduplicate incoming lists, so a remote list that repeats an id gives a working set that repeats it. Each service method instead promises to keep ids unique when its inputs have unique ids.
- Throwable identity is not modelled. A failure is an opaque token `Thrown(n)`; the clear failure's `SyncError` is the cause `ClearSyncError`.
- The freshness check and the clock are inputs `isFresh` and `now`.
- Reconciliation.Query: with local data that is not fresh and a remote that completes with no list, the model ends with `Idle(local)`. The tests pin this only where the freshness check is unstubbed and so returns false.
- Reconciliation.Refresh: the model compares the remote list with the current set with versions left out. A remote with no list or a failure during a refresh ends with `Idle(current)` or `Error(current)`. The tests pin neither of these two cases.
- Reconciliation.ClearCompleted: on a failed clear the model marks every record `SYNC_ERROR`, as the expected data at lines 1016-1021 of the test does, not only the records marked for deletion.
- HMAC-SHA1 and Base64 (crypto-js) are not modelled. They are the function parameter `sign`.
- percent-encoder.js is not part of this model. The encoder is the function parameter `enc`.
- `generateNonce` is not modelled, because it draws from `Math.random`.
- OauthParams.SortEncodedParams: the JavaScript engine's sort algorithm is not modelled. The model sorts by insertion with the same comparator, and promises only what any sort by that comparator gives: a permutation ordered by key.
- JavaScript objects become ordered sequences of key/value pairs. Object key iteration order is taken to be the sequence order.
- Duplicate keys inside one object cannot occur in the source but are allowed in the model.
- The callback parser's special object keys such as `__proto__` are not modelled.
- Text.Upper: `toUpperCase` is modelled on ASCII letters only. Other characters are kept as they are, whereas JavaScript also maps non-ASCII letters and may change the length.
- Text.Less: compares characters by code point. JavaScript compares UTF-16 code units, and the two orders differ only above the Basic Multilingual Plane. For the same reason Oauth.CallbackQuery drops the prefix's length in code points where `substr` drops UTF-16 code units; the two differ only when a character above the Basic Multilingual Plane falls within the first 31 units.
