/** The reconciliation protocol of PersistedTasksService as pure steps: what
    one call emits, which working set it leaves, and what it hands to the
    local store, given what its collaborators answered. */
module Reconciliation {
  import opened Wrappers
  import opened TaskModel
  import opened TaskEvents

  /** What the local store's task stream delivered. */
  datatype LocalRead = LocalData(tasks: Tasks) | LocalEmpty | LocalFailed(cause: Cause)

  /** What the remote source's task stream delivered. */
  datatype RemoteRead = RemoteData(list: seq<Task>) | RemoteEmpty | RemoteFailed(cause: Cause)

  /** How the remote source answered `saveTask`. */
  datatype RemoteWrite = Accepted | Rejected(cause: Cause)

  /** How the remote source answered `clearCompletedTasks`: the tasks that
      remain, or a failure. */
  datatype RemoteClear = Remaining(list: seq<Task>) | ClearFailed(cause: Cause)

  /** The effect of one call: the events it emits (before any view filter),
      the working set it leaves, and what it passes to the local store's
      `saveTasks` and `saveTask`. */
  datatype Outcome = Outcome(events: seq<Event>, working: Tasks,
                             savedAll: Option<Tasks>, savedTask: Option<SyncedTask>)

  /** Local data that counts as data, if any. */
  function Known(hasData: Validator, local: LocalRead): (k: Option<Tasks>)
    ensures k.Some? <==> local.LocalData? && hasData(local.tasks)
    ensures k.Some? ==> k.value == local.tasks
  {
    match local
    case LocalData(ts) => Validated(hasData, ts)
    case _ => None
  }

  /** One subscription to the task stream: Loading without data first; a
      failed local read ends in an error without data whatever the remote
      did; fresh local data is shown and the remote ignored; otherwise the
      local data (if any) is shown while loading and the remote decides the
      end, its list stamped in sync at `now` and saved locally. */
  function Query(hasData: Validator, local: LocalRead, remote: RemoteRead, isFresh: bool, now: int)
    : (o: Outcome)
    ensures 2 <= |o.events| <= 4 && o.events[0] == Loading(None)
    ensures forall i :: 0 <= i < |o.events| - 1 ==> o.events[i].Loading?
    ensures !o.events[|o.events| - 1].Loading?
    ensures forall i :: 0 <= i < |o.events| ==> Normal(hasData, o.events[i])
    ensures o.savedTask.None?
    ensures o.savedAll.Some? <==> !local.LocalFailed? && !(Known(hasData, local).Some? && isFresh) && remote.RemoteData?
    ensures o.savedAll.Some? ==> o.savedAll.value == o.working == AsSynced(remote.list, now)
  {
    if local.LocalFailed? then
      Outcome([Loading(None), Error(None, local.cause)], [], None, None)
    else
      var rest := Resolve(hasData, Known(hasData, local), remote, isFresh, now);
      Outcome([Loading(None)] + rest.events, rest.working, rest.savedAll, None)
  }

  /** What follows Loading(none) once the local read succeeded: the fresh
      local data when there is some, otherwise the local data known (if
      any) while loading and then the remote's answer. */
  function Resolve(hasData: Validator, known: Option<Tasks>, remote: RemoteRead, isFresh: bool, now: int)
    : (o: Outcome)
    ensures 1 <= |o.events| <= 3 && !o.events[|o.events| - 1].Loading?
    ensures forall i :: 0 <= i < |o.events| - 1 ==> o.events[i].Loading?
    ensures known.Some? && isFresh ==> o.savedAll.None? && o.working == known.value
  {
    if known.Some? && isFresh then
      Outcome([Loading(known), Idle(known)], known.value, None, None)
    else
      var rest := Settle(hasData, known, remote, now);
      Outcome((if known.Some? then [Loading(known)] else []) + rest.events, rest.working, rest.savedAll, None)
  }

  /** The end of a query that consults the remote, given the local data
      known: a remote list is stamped in sync at `now`, shown as Loading and
      Idle and saved; otherwise the known local data (or none) ends the
      query, as Idle when the remote had nothing and as the error when it
      failed. */
  function Settle(hasData: Validator, known: Option<Tasks>, remote: RemoteRead, now: int): (o: Outcome)
    ensures 1 <= |o.events| <= 2 && !o.events[|o.events| - 1].Loading?
    ensures |o.events| == 2 ==> o.events[0].Loading?
    ensures o.savedTask.None? && (o.savedAll.Some? <==> remote.RemoteData?)
    ensures remote.RemoteData? ==> o.savedAll == Some(o.working) && o.working == AsSynced(remote.list, now)
    ensures remote.RemoteData? ==>
              o.events == [LoadingWith(hasData, AsSynced(remote.list, now)), IdleWith(hasData, AsSynced(remote.list, now))]
    ensures !remote.RemoteData? ==> o.events[0].data == known && o.working == known.GetOr([])
    ensures remote.RemoteEmpty? ==> o.events == [Idle(known)]
    ensures remote.RemoteFailed? ==> o.events == [Error(known, remote.cause)]
  {
    match remote
    case RemoteData(list) =>
      var synced := AsSynced(list, now);
      Outcome([LoadingWith(hasData, synced), IdleWith(hasData, synced)], synced, Some(synced), None)
    case RemoteEmpty =>
      Outcome([Idle(known)], known.GetOr([]), None, None)
    case RemoteFailed(cause) =>
      Outcome([Error(known, cause)], known.GetOr([]), None, None)
  }

  /** Fresh local data: exactly Loading(none), Loading(local), Idle(local),
      nothing saved, and the remote's answer makes no difference. */
  lemma QueryFreshLocal(hasData: Validator, ts: Tasks, r1: RemoteRead, r2: RemoteRead, now: int)
    requires hasData(ts)
    ensures var o := Query(hasData, LocalData(ts), r1, true, now);
      o.events == [Loading(None), LoadingWith(hasData, ts), IdleWith(hasData, ts)] &&
      o.savedAll.None? && o.working == ts
    ensures Query(hasData, LocalData(ts), r1, true, now) == Query(hasData, LocalData(ts), r2, true, now)
  {
  }

  /** Expired local data: Loading(local), then the remote list stamped at
      `now` as Loading and Idle; that stamped list is what gets saved. */
  lemma QueryExpiredLocal(hasData: Validator, ts: Tasks, list: seq<Task>, now: int)
    requires hasData(ts)
    ensures var o := Query(hasData, LocalData(ts), RemoteData(list), false, now);
      var synced := AsSynced(list, now);
      o.events == [Loading(None), LoadingWith(hasData, ts),
                   LoadingWith(hasData, synced), IdleWith(hasData, synced)] &&
      o.savedAll == Some(synced) && o.working == synced
  {
  }

  /** No local data: the remote list is loaded, shown and saved. */
  lemma QueryNoLocalData(hasData: Validator, list: seq<Task>, now: int)
    ensures var o := Query(hasData, LocalEmpty, RemoteData(list), false, now);
      var synced := AsSynced(list, now);
      o.events == [Loading(None), LoadingWith(hasData, synced), IdleWith(hasData, synced)] &&
      o.savedAll == Some(synced)
  {
  }

  /** Nothing anywhere: exactly Loading(none), Idle(none). */
  lemma QueryNothing(hasData: Validator, isFresh: bool, now: int)
    ensures Query(hasData, LocalEmpty, RemoteEmpty, isFresh, now).events == [Loading(None), Idle(None)]
  {
  }

  /** A failed local read is fatal to the query whatever the remote holds. */
  lemma QueryLocalFailure(hasData: Validator, cause: Cause, remote: RemoteRead, isFresh: bool, now: int)
    ensures var o := Query(hasData, LocalFailed(cause), remote, isFresh, now);
      o.events == [Loading(None), Error(None, cause)] && o.savedAll.None?
  {
  }

  /** A failed remote read ends in an error carrying the best data known:
      the local data when there is some, none otherwise. */
  lemma QueryRemoteFailure(hasData: Validator, local: LocalRead, cause: Cause, now: int)
    requires !local.LocalFailed?
    ensures var o := Query(hasData, local, RemoteFailed(cause), false, now);
      o.events[|o.events| - 1] == Error(Known(hasData, local), cause) &&
      (local.LocalData? && hasData(local.tasks) ==>
         o.events == [Loading(None), LoadingWith(hasData, local.tasks), ErrorWith(hasData, local.tasks, cause)]) &&
      (local.LocalEmpty? ==> o.events == [Loading(None), Error(None, cause)])
  {
  }

  /** A view that keeps none of the local records still emits its three
      events, all without data: Loading(none), Loading(none), Idle(none). */
  lemma QueryViewOfNothing(hasData: Validator, view: View, ts: Tasks, isFresh: bool, now: int)
    requires !hasData([]) && hasData(ts)
    requires view.ActiveTasks? ==> forall x :: x in ts ==> x.data.completed
    requires view.CompletedTasks? ==> forall x :: x in ts ==> !x.data.completed
    requires !view.AllTasks?
    ensures ProjectAll(hasData, view, Query(hasData, LocalData(ts), RemoteEmpty, isFresh, now).events)
         == [Loading(None), Loading(None), Idle(None)]
  {
    var es := Query(hasData, LocalData(ts), RemoteEmpty, isFresh, now).events;
    assert es == [Loading(None), Loading(Some(ts)), Idle(Some(ts))];
    ProjectToNothing(hasData, view, ts);
  }

  /** A view of a set the local store holds delivers Loading without data,
      then Loading and Idle of exactly the records the view keeps, in order,
      through the validator; the remote had nothing. */
  lemma QueryViewFiltered(hasData: Validator, completed: bool, ts: Tasks, isFresh: bool, now: int)
    requires hasData(ts)
    ensures var view := if completed then CompletedTasks else ActiveTasks;
      ProjectAll(hasData, view, Query(hasData, LocalData(ts), RemoteEmpty, isFresh, now).events)
        == [Loading(None), LoadingWith(hasData, Keep(ts, completed)), IdleWith(hasData, Keep(ts, completed))]
  {
    var view := if completed then CompletedTasks else ActiveTasks;
    var es := Query(hasData, LocalData(ts), RemoteEmpty, isFresh, now).events;
    assert es == [Loading(None), Loading(Some(ts)), Idle(Some(ts))];
    assert Apply(view, ts) == Keep(ts, completed);
  }

  /** With one record per id in what the local store delivers and no
      repeated id in the remote list, a query leaves one record per id. */
  lemma QueryKeepsIdsUnique(hasData: Validator, local: LocalRead, remote: RemoteRead, isFresh: bool, now: int)
    requires local.LocalData? ==> UniqueIds(local.tasks)
    requires remote.RemoteData? ==> DistinctIds(remote.list)
    ensures UniqueIds(Query(hasData, local, remote, isFresh, now).working)
  {
    if remote.RemoteData? {
      AsSyncedRoundTrip(remote.list, now);
    }
  }

  /** The stale-action guard: the stored record for the id (the first one
      holding it) was written after the action's clock time. */
  function Superseded(working: Tasks, id: string, now: int): (r: bool)
    ensures r <==> exists i :: 0 <= i < |working| && working[i].data.id == id && working[i].version > now &&
                              forall j :: 0 <= j < i ==> working[j].data.id != id
  {
    match Lookup(working, id)
    case Some(r) => r.version > now
    case None => false
  }

  /** complete/activate/save of `edited` at clock time `now`: unless the
      guard holds, the record is saved ahead and shown, then saved in sync
      (and stored locally) or flagged as a sync error, and shown again. */
  function Mutation(hasData: Validator, working: Tasks, edited: Task, now: int, write: RemoteWrite)
    : (o: Outcome)
    ensures o.savedAll.None?
    ensures forall i :: 0 <= i < |o.events| ==> o.events[i].Idle?
  {
    if Superseded(working, edited.id, now) then
      Outcome([], working, None, None)
    else
      var ahead := Save(working, SyncedTask(edited, Ahead, now));
      match write
      case Accepted =>
        var synced := SyncedTask(edited, InSync, now);
        Outcome([IdleWith(hasData, ahead), IdleWith(hasData, Save(ahead, synced))],
                Save(ahead, synced), None, Some(synced))
      case Rejected(_) =>
        var failed := SyncedTask(edited, SyncError, now);
        Outcome([IdleWith(hasData, ahead), IdleWith(hasData, Save(ahead, failed))],
                Save(ahead, failed), None, None)
  }

  /** The state a mutation's remote answer leaves the record in. */
  function Settled(write: RemoteWrite): SyncState {
    if write.Accepted? then InSync else SyncError
  }

  /** A superseded action changes nothing: no event, no write. */
  lemma MutationSuperseded(hasData: Validator, working: Tasks, edited: Task, now: int, write: RemoteWrite)
    requires Superseded(working, edited.id, now)
    ensures Mutation(hasData, working, edited, now, write) == Outcome([], working, None, None)
  {
  }

  /** An action that is not superseded emits exactly two Idle events: the set
      with the record saved ahead at `now`, then the ORIGINAL set with the
      record saved settled at `now`; it stores the record locally exactly
      when the remote accepted it. */
  lemma MutationApplied(hasData: Validator, working: Tasks, edited: Task, now: int, write: RemoteWrite)
    requires !Superseded(working, edited.id, now)
    ensures var o := Mutation(hasData, working, edited, now, write);
      var settled := SyncedTask(edited, Settled(write), now);
      o.events == [IdleWith(hasData, Save(working, SyncedTask(edited, Ahead, now))),
                   IdleWith(hasData, Save(working, settled))] &&
      o.working == Save(working, settled) &&
      (o.savedTask.Some? <==> write.Accepted?) &&
      (o.savedTask.Some? ==> o.savedTask.value == settled)
  {
    SaveTwice(working, SyncedTask(edited, Ahead, now), SyncedTask(edited, Settled(write), now));
  }

  /** A mutation keeps one record per id, touches no record of another id,
      and leaves the edited record settled at `now` unless superseded. */
  lemma MutationKeepsOthers(hasData: Validator, working: Tasks, edited: Task, now: int, write: RemoteWrite)
    requires UniqueIds(working)
    ensures var o := Mutation(hasData, working, edited, now, write);
      UniqueIds(o.working) &&
      (forall i :: 0 <= i < |working| && working[i].data.id != edited.id ==> o.working[i] == working[i]) &&
      (!Superseded(working, edited.id, now) ==>
         Lookup(o.working, edited.id) == Some(SyncedTask(edited, Settled(write), now)))
  {
    if !Superseded(working, edited.id, now) {
      var settled := SyncedTask(edited, Settled(write), now);
      MutationApplied(hasData, working, edited, now, write);
      LookupAfterSave(working, settled);
    }
  }

  /** refreshTasks: Loading(current) first; a remote list that differs from
      the current set other than in versions is shown as Loading and Idle and
      saved; an unchanged one yields only Idle(current). */
  function Refresh(hasData: Validator, working: Tasks, remote: RemoteRead, now: int): (o: Outcome)
    ensures |o.events| >= 2 && o.events[0] == LoadingWith(hasData, working)
    ensures o.savedTask.None?
  {
    var start := [LoadingWith(hasData, working)];
    match remote
    case RemoteData(list) =>
      var synced := AsSynced(list, now);
      if Unversioned(synced) == Unversioned(working) then
        Outcome(start + [IdleWith(hasData, working)], working, None, None)
      else
        Outcome(start + [LoadingWith(hasData, synced), IdleWith(hasData, synced)], synced, Some(synced), None)
    case RemoteEmpty =>
      Outcome(start + [IdleWith(hasData, working)], working, None, None)
    case RemoteFailed(cause) =>
      Outcome(start + [ErrorWith(hasData, working, cause)], working, None, None)
  }

  /** A refresh keeps one record per id when the remote list has no
      repeated id. */
  lemma RefreshKeepsIdsUnique(hasData: Validator, working: Tasks, remote: RemoteRead, now: int)
    requires UniqueIds(working)
    requires remote.RemoteData? ==> DistinctIds(remote.list)
    ensures UniqueIds(Refresh(hasData, working, remote, now).working)
  {
    if remote.RemoteData? {
      AsSyncedRoundTrip(remote.list, now);
    }
  }

  /** Change suppression: a remote list with the same content as the current
      set gives Loading(current), Idle(current) and no save; a different one
      gives Loading(current), Loading(new), Idle(new) and saves new. */
  lemma RefreshSuppression(hasData: Validator, working: Tasks, list: seq<Task>, now: int)
    ensures var o := Refresh(hasData, working, RemoteData(list), now);
      var synced := AsSynced(list, now);
      (Unversioned(synced) == Unversioned(working) ==>
         o.events == [LoadingWith(hasData, working), IdleWith(hasData, working)] &&
         o.working == working && o.savedAll.None?) &&
      (Unversioned(synced) != Unversioned(working) ==>
         o.events == [LoadingWith(hasData, working), LoadingWith(hasData, synced), IdleWith(hasData, synced)] &&
         o.working == synced && o.savedAll == Some(synced))
  {
  }

  /** Refreshing again against the same remote list, at any clock time, is
      suppressed: the second refresh adds only Loading and Idle of the set the
      first one left, and saves nothing. */
  lemma RefreshTwiceSuppressed(hasData: Validator, working: Tasks, list: seq<Task>, t1: int, t2: int)
    ensures var o1 := Refresh(hasData, working, RemoteData(list), t1);
      var o2 := Refresh(hasData, o1.working, RemoteData(list), t2);
      o2.events == [LoadingWith(hasData, o1.working), IdleWith(hasData, o1.working)] &&
      o2.working == o1.working && o2.savedAll.None?
  {
    var o1 := Refresh(hasData, working, RemoteData(list), t1);
    AsSyncedSameContent(list, t1, t2);
    if Unversioned(AsSynced(list, t1)) == Unversioned(working) {
      assert o1.working == working;
    }
  }

  /** A query answered by a remote list, then a refresh against the same
      list at a later clock time: the refresh only restarts loading and
      settles back on the queried set, saving nothing. */
  lemma QueryThenRefreshSuppressed(hasData: Validator, local: LocalRead, list: seq<Task>,
                                   isFresh: bool, t1: int, t2: int)
    requires Query(hasData, local, RemoteData(list), isFresh, t1).savedAll.Some?
    ensures var q := Query(hasData, local, RemoteData(list), isFresh, t1);
      var r := Refresh(hasData, q.working, RemoteData(list), t2);
      r.events == [LoadingWith(hasData, q.working), IdleWith(hasData, q.working)] &&
      r.working == q.working && r.savedAll.None?
  {
    AsSyncedSameContent(list, t1, t2);
  }

  /** clearCompletedTasks: Loading of the set with completed records marked
      deleted and the rest ahead at `now`; then either the remaining remote
      list stamped at `now` (Loading, Idle, saved), or an error with the
      SyncError cause carrying the marked set with every record a sync
      error. */
  function ClearCompleted(hasData: Validator, working: Tasks, now: int, clear: RemoteClear)
    : (o: Outcome)
    ensures |o.events| >= 2 && o.events[0] == LoadingWith(hasData, MarkForClearing(working, now))
    ensures o.savedTask.None?
  {
    var marked := MarkForClearing(working, now);
    match clear
    case Remaining(list) =>
      var synced := AsSynced(list, now);
      Outcome([LoadingWith(hasData, marked), LoadingWith(hasData, synced), IdleWith(hasData, synced)],
              synced, Some(synced), None)
    case ClearFailed(_) =>
      var failed := MarkFailed(marked);
      Outcome([LoadingWith(hasData, marked), ErrorWith(hasData, failed, ClearSyncError)],
              failed, None, None)
  }

  /** Clearing keeps one record per id when the remaining remote list has no
      repeated id. */
  lemma ClearKeepsIdsUnique(hasData: Validator, working: Tasks, now: int, clear: RemoteClear)
    requires UniqueIds(working)
    requires clear.Remaining? ==> DistinctIds(clear.list)
    ensures UniqueIds(ClearCompleted(hasData, working, now, clear).working)
  {
    match clear
    case Remaining(list) =>
      AsSyncedRoundTrip(list, now);
    case ClearFailed(_) =>
      MarkingKeepsTasks(working, now);
      MarkingKeepsTasks(MarkForClearing(working, now), now);
  }

  /** On success the service ends with the remote's remaining list, in sync
      at `now`, shown as Loading then Idle and saved. */
  lemma ClearCompletedConfirmed(hasData: Validator, working: Tasks, now: int, list: seq<Task>)
    ensures var o := ClearCompleted(hasData, working, now, Remaining(list));
      |o.events| == 3 && o.events[1] == LoadingWith(hasData, AsSynced(list, now)) &&
      o.events[2] == IdleWith(hasData, AsSynced(list, now)) &&
      DataOf(o.working) == list && o.savedAll == Some(o.working) &&
      forall x :: x in o.working ==> x.state == InSync && x.version == now
  {
    AsSyncedRoundTrip(list, now);
  }

  /** Marking for clearing and then failing keeps the tasks in their order
      and leaves every record a sync error stamped at `now`. */
  lemma ClearFailedSet(working: Tasks, now: int)
    ensures var failed := MarkFailed(MarkForClearing(working, now));
      DataOf(failed) == DataOf(working) &&
      forall i :: 0 <= i < |failed| ==> failed[i].state == SyncError && failed[i].version == now
  {
    var marked := MarkForClearing(working, now);
    var failed := MarkFailed(marked);
    forall i | 0 <= i < |failed|
      ensures failed[i].data == working[i].data && failed[i].state == SyncError && failed[i].version == now
    {
      assert failed[i] == SyncedTask(marked[i].data, SyncError, marked[i].version);
    }
    assert DataOf(failed) == DataOf(working);
  }

  /** Partial-failure report: the error carries the SyncError cause and the
      whole set, same tasks in the same order, every record a sync error at
      `now`; nothing is saved. */
  lemma ClearCompletedFailed(hasData: Validator, working: Tasks, now: int, cause: Cause)
    ensures var o := ClearCompleted(hasData, working, now, ClearFailed(cause));
      |o.events| == 2 && o.events[1] == ErrorWith(hasData, o.working, ClearSyncError) &&
      DataOf(o.working) == DataOf(working) && o.savedAll.None? &&
      forall i :: 0 <= i < |o.working| ==> o.working[i].state == SyncError && o.working[i].version == now
  {
    var failed := MarkFailed(MarkForClearing(working, now));
    assert ClearCompleted(hasData, working, now, ClearFailed(cause)) ==
      Outcome([LoadingWith(hasData, MarkForClearing(working, now)), ErrorWith(hasData, failed, ClearSyncError)],
              failed, None, None);
    ClearFailedSet(working, now);
  }
}
