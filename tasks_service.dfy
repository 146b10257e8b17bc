/** The task service as an object: a working set that each call replaces,
    an event log that calls only ever append to (the stream never
    completes), and the writes it hands to the local store. */
module TasksService {
  import opened Wrappers
  import opened TaskModel
  import opened TaskEvents
  import opened Reconciliation

  /** Delivering more events through a view extends the run delivered so far
      by their projections. */
  lemma Delivered(hasData: Validator, view: View, start: seq<Event>, sent: seq<Event>, more: seq<Event>)
    ensures start + ProjectAll(hasData, view, sent) + ProjectAll(hasData, view, more)
         == start + ProjectAll(hasData, view, sent + more)
  {
    ProjectAllAppend(hasData, view, sent, more);
  }

  class PersistedTasksService {
    /** The data validator the events are built with. */
    const hasData: Validator
    /** Which stream the log is subscribed to. */
    var view: View
    /** The record set the next call starts from. */
    var working: Tasks
    /** Every event delivered so far, oldest first. */
    var log: seq<Event>
    /** The arguments of every `saveTasks` call on the local store. */
    var savedAll: seq<Tasks>
    /** The arguments of every `saveTask` call on the local store. */
    var savedTasks: seq<SyncedTask>

    /** Every delivered event carries data only when the validator accepts it. */
    ghost predicate Valid()
      reads this
    {
      forall i :: 0 <= i < |log| ==> Normal(hasData, log[i])
    }

    constructor (hasData: Validator)
      ensures Valid() && this.hasData == hasData && view == AllTasks
      ensures working == [] && log == [] && savedAll == [] && savedTasks == []
    {
      this.hasData := hasData;
      view := AllTasks;
      working := [];
      log := [];
      savedAll := [];
      savedTasks := [];
    }

    /** Delivers one event through the subscribed view. */
    method Emit(e: Event)
      requires Valid()
      modifies this`log
      ensures Valid() && log == old(log) + [Project(hasData, view, e)]
    {
      log := log + [Project(hasData, view, e)];
    }

    /** getTasksEvent / getActiveTasksEvent / getCompletedTasksEvent: one
        subscription through `view`, answered by the local read, the remote
        read, the freshness check and the clock. When the local store holds
        one record per id and the remote list repeats no id, the working set
        holds one record per id. */
    method GetTasksEvent(view: View, local: LocalRead, remote: RemoteRead, isFresh: bool, now: int)
      requires Valid()
      modifies this`view, this`working, this`log, this`savedAll
      ensures Valid() && this.view == view
      ensures var o := Query(hasData, local, remote, isFresh, now);
        log == old(log) + ProjectAll(hasData, view, o.events) &&
        working == o.working &&
        savedAll == old(savedAll) + (if o.savedAll.Some? then [o.savedAll.value] else [])
      ensures (local.LocalData? ==> UniqueIds(local.tasks)) && (remote.RemoteData? ==> DistinctIds(remote.list)) ==>
              UniqueIds(working)
    {
      Subscribe(view, local, remote, isFresh, now);
      if (local.LocalData? ==> UniqueIds(local.tasks)) && (remote.RemoteData? ==> DistinctIds(remote.list)) {
        QueryKeepsIdsUnique(hasData, local, remote, isFresh, now);
      }
    }

    /** The events, working set and store writes of one subscription. */
    method Subscribe(view: View, local: LocalRead, remote: RemoteRead, isFresh: bool, now: int)
      requires Valid()
      modifies this`view, this`working, this`log, this`savedAll
      ensures Valid() && this.view == view
      ensures var o := Query(hasData, local, remote, isFresh, now);
        log == old(log) + ProjectAll(hasData, view, o.events) &&
        working == o.working &&
        savedAll == old(savedAll) + (if o.savedAll.Some? then [o.savedAll.value] else [])
    {
      this.view := view;
      ghost var start := log;
      Emit(Loading(None));
      ghost var sent := [Loading(None)];
      assert log == start + ProjectAll(hasData, view, sent);
      if local.LocalFailed? {
        Emit(Error(None, local.cause));
        Delivered(hasData, view, start, sent, [Error(None, local.cause)]);
        working := [];
      } else {
        var known := Known(hasData, local);
        ResolveQuery(known, remote, isFresh, now);
        Delivered(hasData, view, start, sent, Resolve(hasData, known, remote, isFresh, now).events);
      }
    }

    /** The rest of a query once the local read succeeded. */
    method ResolveQuery(known: Option<Tasks>, remote: RemoteRead, isFresh: bool, now: int)
      requires Valid()
      modifies this`working, this`log, this`savedAll
      ensures Valid()
      ensures var o := Resolve(hasData, known, remote, isFresh, now);
        log == old(log) + ProjectAll(hasData, view, o.events) &&
        working == o.working &&
        savedAll == old(savedAll) + (if o.savedAll.Some? then [o.savedAll.value] else [])
    {
      ghost var start := log;
      if known.Some? && isFresh {
        Emit(Loading(known));
        Emit(Idle(known));
        Delivered(hasData, view, start, [], [Loading(known), Idle(known)]);
        working := known.value;
      } else {
        ghost var sent: seq<Event> := [];
        if known.Some? {
          Emit(Loading(known));
          sent := [Loading(known)];
        }
        assert log == start + ProjectAll(hasData, view, sent);
        ReadRemote(known, remote, now);
        Delivered(hasData, view, start, sent, Settle(hasData, known, remote, now).events);
      }
    }

    /** The remote's answer to a query: its list, nothing, or a failure. */
    method ReadRemote(known: Option<Tasks>, remote: RemoteRead, now: int)
      requires Valid()
      modifies this`working, this`log, this`savedAll
      ensures Valid()
      ensures var o := Settle(hasData, known, remote, now);
        log == old(log) + ProjectAll(hasData, view, o.events) &&
        working == o.working &&
        savedAll == old(savedAll) + (if o.savedAll.Some? then [o.savedAll.value] else [])
    {
      match remote {
        case RemoteData(list) =>
          var synced := AsSynced(list, now);
          savedAll := savedAll + [synced];
          Emit(LoadingWith(hasData, synced));
          Emit(IdleWith(hasData, synced));
          working := synced;
        case RemoteEmpty =>
          Emit(Idle(known));
          working := known.GetOr([]);
        case RemoteFailed(cause) =>
          Emit(Error(known, cause));
          working := known.GetOr([]);
      }
    }

    /** The optimistic write shared by complete, activate and save. */
    method Mutate(edited: Task, now: int, write: RemoteWrite)
      requires Valid()
      modifies this`working, this`log, this`savedTasks
      ensures Valid()
      ensures var o := Mutation(hasData, old(working), edited, now, write);
        log == old(log) + ProjectAll(hasData, view, o.events) &&
        working == o.working &&
        savedTasks == old(savedTasks) + (if o.savedTask.Some? then [o.savedTask.value] else [])
      ensures old(UniqueIds(working)) ==> UniqueIds(working)
    {
      ghost var o := Mutation(hasData, working, edited, now, write);
      ghost var log0 := log;
      var existing := Lookup(working, edited.id);
      if existing.Some? && existing.value.version > now {
        assert o.events == [];
        return;
      }
      var ahead := TaskModel.Save(working, SyncedTask(edited, Ahead, now));
      working := ahead;
      Emit(IdleWith(hasData, ahead));
      match write {
        case Accepted =>
          var synced := SyncedTask(edited, InSync, now);
          savedTasks := savedTasks + [synced];
          working := TaskModel.Save(working, synced);
        case Rejected(_) =>
          working := TaskModel.Save(working, SyncedTask(edited, SyncError, now));
      }
      Emit(IdleWith(hasData, working));
      assert o.events == [IdleWith(hasData, ahead), IdleWith(hasData, working)];
      ProjectAllTwo(hasData, view, IdleWith(hasData, ahead), IdleWith(hasData, working));
      assert log == log0 + ProjectAll(hasData, view, o.events);
    }

    /** complete(task): the task marked completed, written optimistically. */
    method Complete(task: Task, now: int, write: RemoteWrite)
      requires Valid()
      modifies this`working, this`log, this`savedTasks
      ensures Valid()
      ensures var o := Mutation(hasData, old(working), task.Complete(), now, write);
        log == old(log) + ProjectAll(hasData, view, o.events) &&
        working == o.working &&
        savedTasks == old(savedTasks) + (if o.savedTask.Some? then [o.savedTask.value] else [])
      ensures old(UniqueIds(working)) ==> UniqueIds(working)
    {
      Mutate(task.Complete(), now, write);
    }

    /** activate(task): the task marked active, written optimistically. */
    method Activate(task: Task, now: int, write: RemoteWrite)
      requires Valid()
      modifies this`working, this`log, this`savedTasks
      ensures Valid()
      ensures var o := Mutation(hasData, old(working), task.Activate(), now, write);
        log == old(log) + ProjectAll(hasData, view, o.events) &&
        working == o.working &&
        savedTasks == old(savedTasks) + (if o.savedTask.Some? then [o.savedTask.value] else [])
      ensures old(UniqueIds(working)) ==> UniqueIds(working)
    {
      Mutate(task.Activate(), now, write);
    }

    /** save(task): the task as given, written optimistically. */
    method Save(task: Task, now: int, write: RemoteWrite)
      requires Valid()
      modifies this`working, this`log, this`savedTasks
      ensures Valid()
      ensures var o := Mutation(hasData, old(working), task, now, write);
        log == old(log) + ProjectAll(hasData, view, o.events) &&
        working == o.working &&
        savedTasks == old(savedTasks) + (if o.savedTask.Some? then [o.savedTask.value] else [])
      ensures old(UniqueIds(working)) ==> UniqueIds(working)
    {
      Mutate(task, now, write);
    }

    /** refreshTasks: re-read the remote and publish it only if it changed.
        One record per id is kept when the remote list repeats no id. */
    method RefreshTasks(remote: RemoteRead, now: int)
      requires Valid()
      modifies this`working, this`log, this`savedAll
      ensures Valid()
      ensures var o := Refresh(hasData, old(working), remote, now);
        log == old(log) + ProjectAll(hasData, view, o.events) &&
        working == o.working &&
        savedAll == old(savedAll) + (if o.savedAll.Some? then [o.savedAll.value] else [])
      ensures old(UniqueIds(working)) && (remote.RemoteData? ==> DistinctIds(remote.list)) ==> UniqueIds(working)
    {
      ghost var before := working;
      Reload(remote, now);
      if UniqueIds(before) && (remote.RemoteData? ==> DistinctIds(remote.list)) {
        RefreshKeepsIdsUnique(hasData, before, remote, now);
      }
    }

    /** The events, working set and store writes of one refresh. */
    method Reload(remote: RemoteRead, now: int)
      requires Valid()
      modifies this`working, this`log, this`savedAll
      ensures Valid()
      ensures var o := Refresh(hasData, old(working), remote, now);
        log == old(log) + ProjectAll(hasData, view, o.events) &&
        working == o.working &&
        savedAll == old(savedAll) + (if o.savedAll.Some? then [o.savedAll.value] else [])
    {
      Emit(LoadingWith(hasData, working));
      match remote {
        case RemoteData(list) =>
          var synced := AsSynced(list, now);
          if Unversioned(synced) == Unversioned(working) {
            Emit(IdleWith(hasData, working));
          } else {
            Emit(LoadingWith(hasData, synced));
            Emit(IdleWith(hasData, synced));
            savedAll := savedAll + [synced];
            working := synced;
          }
        case RemoteEmpty =>
          Emit(IdleWith(hasData, working));
        case RemoteFailed(cause) =>
          Emit(ErrorWith(hasData, working, cause));
      }
    }

    /** clearCompletedTasks: mark, ask the remote to clear, then publish the
        remaining list or report the failure on every record. One record per
        id is kept when the remaining list repeats no id. */
    method ClearCompletedTasks(now: int, clear: RemoteClear)
      requires Valid()
      modifies this`working, this`log, this`savedAll
      ensures Valid()
      ensures var o := ClearCompleted(hasData, old(working), now, clear);
        log == old(log) + ProjectAll(hasData, view, o.events) &&
        working == o.working &&
        savedAll == old(savedAll) + (if o.savedAll.Some? then [o.savedAll.value] else [])
      ensures old(UniqueIds(working)) && (clear.Remaining? ==> DistinctIds(clear.list)) ==> UniqueIds(working)
    {
      ghost var before := working;
      Clear(now, clear);
      if UniqueIds(before) && (clear.Remaining? ==> DistinctIds(clear.list)) {
        ClearKeepsIdsUnique(hasData, before, now, clear);
      }
    }

    /** The events, working set and store writes of one clear. */
    method Clear(now: int, clear: RemoteClear)
      requires Valid()
      modifies this`working, this`log, this`savedAll
      ensures Valid()
      ensures var o := ClearCompleted(hasData, old(working), now, clear);
        log == old(log) + ProjectAll(hasData, view, o.events) &&
        working == o.working &&
        savedAll == old(savedAll) + (if o.savedAll.Some? then [o.savedAll.value] else [])
    {
      var marked := MarkForClearing(working, now);
      working := marked;
      Emit(LoadingWith(hasData, marked));
      match clear {
        case Remaining(list) =>
          var synced := AsSynced(list, now);
          Emit(LoadingWith(hasData, synced));
          Emit(IdleWith(hasData, synced));
          savedAll := savedAll + [synced];
          working := synced;
        case ClearFailed(_) =>
          working := MarkFailed(marked);
          Emit(ErrorWith(hasData, working, ClearSyncError));
      }
    }
  }
}
