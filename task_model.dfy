/** The versioned data model of the to-do service: tasks, their sync
    metadata, and the `Tasks` record list with `save`, `asSynced` and the
    active/completed views. */
module TaskModel {
  import opened Wrappers

  /** A to-do item; two tasks are equal when every field is. */
  datatype Task = Task(id: string, title: string, description: string, completed: bool)
  {
    /** `task.complete()`: the same task marked done. */
    function Complete(): (t: Task)
      ensures t.completed
      ensures t.id == id && t.title == title && t.description == description
    {
      this.(completed := true)
    }

    /** `task.activate()`: the same task marked not done. */
    function Activate(): (t: Task)
      ensures !t.completed
      ensures t.id == id && t.title == title && t.description == description
    {
      this.(completed := false)
    }
  }

  /** Where a record stands with respect to the remote source. */
  datatype SyncState = InSync | Ahead | SyncError | DeletedLocally

  /** `SyncedData<Task>`: a task with its sync state and the clock time it was
      written at (its version). */
  datatype SyncedTask = SyncedTask(data: Task, state: SyncState, version: int)

  /** `Tasks`: records in display order, meant to hold one record per id. */
  type Tasks = seq<SyncedTask>

  predicate UniqueIds(ts: Tasks) {
    forall i, j :: 0 <= i < j < |ts| ==> ts[i].data.id != ts[j].data.id
  }

  /** Position of the first record for `id`, if there is one. */
  function Find(ts: Tasks, id: string): (r: Option<nat>)
    ensures r.None? ==> forall i :: 0 <= i < |ts| ==> ts[i].data.id != id
    ensures r.Some? ==> r.value < |ts| && ts[r.value].data.id == id &&
                        forall i :: 0 <= i < r.value ==> ts[i].data.id != id
  {
    if ts == [] then None
    else if ts[0].data.id == id then Some(0)
    else match Find(ts[1..], id)
      case None => None
      case Some(i) => Some(i + 1)
  }

  /** `Tasks.save(record)`: the record with the same id is replaced where it
      stands, or, when there is none, the record is appended. */
  function Save(ts: Tasks, r: SyncedTask): (res: Tasks)
    ensures |res| >= |ts| && r in res
    ensures forall i :: 0 <= i < |ts| && ts[i].data.id != r.data.id ==> res[i] == ts[i]
    ensures forall i :: 0 <= i < |ts| && ts[i].data.id == r.data.id && UniqueIds(ts) ==>
              |res| == |ts| && res[i] == r
    ensures (forall i :: 0 <= i < |ts| ==> ts[i].data.id != r.data.id) ==> res == ts + [r]
    ensures UniqueIds(ts) ==> UniqueIds(res)
  {
    match Find(ts, r.data.id)
    case Some(i) =>
      var res := ts[i := r];
      assert res[i] == r;
      res
    case None => ts + [r]
  }

  /** `Find` gives the first position holding `id`. */
  lemma FindAt(ts: Tasks, id: string, k: nat)
    requires k < |ts| && ts[k].data.id == id
    requires forall i :: 0 <= i < k ==> ts[i].data.id != id
    ensures Find(ts, id) == Some(k)
  {
  }

  /** Saving a second record for the same id undoes the first save: only the
      last write for an id is kept, where the id already stood. */
  lemma SaveTwice(ts: Tasks, r1: SyncedTask, r2: SyncedTask)
    requires r1.data.id == r2.data.id
    ensures Save(Save(ts, r1), r2) == Save(ts, r2)
  {
    var s1 := Save(ts, r1);
    match Find(ts, r1.data.id)
    case Some(i) =>
      FindAt(s1, r2.data.id, i);
    case None =>
      FindAt(s1, r2.data.id, |ts|);
  }

  /** The record for `id`, if any. */
  function Lookup(ts: Tasks, id: string): (r: Option<SyncedTask>)
    ensures r.Some? ==> r.value in ts && r.value.data.id == id
    ensures r.None? ==> forall x :: x in ts ==> x.data.id != id
  {
    match Find(ts, id)
    case Some(i) => Some(ts[i])
    case None => None
  }

  /** After a save, looking the id up gives the saved record. */
  lemma LookupAfterSave(ts: Tasks, r: SyncedTask)
    ensures Lookup(Save(ts, r), r.data.id) == Some(r)
  {
    var res := Save(ts, r);
    var k := Find(res, r.data.id);
    match Find(ts, r.data.id)
    case Some(i) =>
      FindAt(res, r.data.id, i);
    case None =>
      FindAt(res, r.data.id, |ts|);
  }

  /** `Tasks.asSynced(list, time)`: every task as an in-sync record written at
      `time`, in list order. */
  function AsSynced(list: seq<Task>, time: int): (ts: Tasks)
    ensures |ts| == |list|
    ensures forall i :: 0 <= i < |list| ==> ts[i] == SyncedTask(list[i], InSync, time)
  {
    if list == [] then [] else [SyncedTask(list[0], InSync, time)] + AsSynced(list[1..], time)
  }

  /** The tasks of the records, in order. */
  function DataOf(ts: Tasks): (list: seq<Task>)
    ensures |list| == |ts| && forall i :: 0 <= i < |ts| ==> list[i] == ts[i].data
  {
    if ts == [] then [] else [ts[0].data] + DataOf(ts[1..])
  }

  predicate DistinctIds(list: seq<Task>) {
    forall i, j :: 0 <= i < j < |list| ==> list[i].id != list[j].id
  }

  /** Stamping a list and reading its tasks back gives the list; stamping
      keeps ids unique when the list had no repeated id. */
  lemma AsSyncedRoundTrip(list: seq<Task>, time: int)
    ensures DataOf(AsSynced(list, time)) == list
    ensures DistinctIds(list) ==> UniqueIds(AsSynced(list, time))
  {
    var ts := AsSynced(list, time);
    var back := DataOf(ts);
    assert forall i :: 0 <= i < |list| ==> back[i] == ts[i].data == list[i];
  }

  /** Records whose task's `completed` flag is `completed`, in order: the
      active view keeps `false`, the completed view keeps `true`. */
  function Keep(ts: Tasks, completed: bool): (res: Tasks)
    ensures forall x :: x in res ==> x in ts && x.data.completed == completed
    ensures forall x :: x in ts && x.data.completed == completed ==> x in res
    ensures |res| <= |ts|
  {
    if ts == [] then []
    else if ts[0].data.completed == completed then [ts[0]] + Keep(ts[1..], completed)
    else Keep(ts[1..], completed)
  }

  /** One step of the filter: the head is kept exactly when its flag matches. */
  lemma KeepCons(t: SyncedTask, rest: Tasks, completed: bool)
    ensures Keep([t] + rest, completed) == (if t.data.completed == completed then [t] else []) + Keep(rest, completed)
  {
    var ts := [t] + rest;
    assert ts[0] == t && ts[1..] == rest;
    if t.data.completed != completed {
      assert [] + Keep(rest, completed) == Keep(rest, completed);
    }
  }

  /** The filter keeps the records' order: filtering a concatenation is
      concatenating the filtered parts. */
  lemma {:induction false} KeepAppend(a: Tasks, b: Tasks, completed: bool)
    ensures Keep(a + b, completed) == Keep(a, completed) + Keep(b, completed)
    decreases |a|
  {
    if a == [] {
      assert a + b == b;
    } else {
      var x, rest := a[0], a[1..];
      var head := if x.data.completed == completed then [x] else [];
      calc {
        Keep(a + b, completed);
      == { assert a + b == [x] + (rest + b); KeepCons(x, rest + b, completed); }
        head + Keep(rest + b, completed);
      == { KeepAppend(rest, b, completed); }
        head + (Keep(rest, completed) + Keep(b, completed));
      ==
        (head + Keep(rest, completed)) + Keep(b, completed);
      == { assert a == [x] + rest; KeepCons(x, rest, completed); }
        Keep(a, completed) + Keep(b, completed);
      }
    }
  }

  /** The active and the completed view split the records between them: no
      record is lost or duplicated. */
  lemma {:induction false} KeepPartitions(ts: Tasks)
    ensures multiset(Keep(ts, false)) + multiset(Keep(ts, true)) == multiset(ts)
    decreases |ts|
  {
    if ts != [] {
      KeepPartitions(ts[1..]);
      assert ts == [ts[0]] + ts[1..];
    }
  }

  /** A view whose flag no record has is empty; a view whose flag every record
      has is the whole list. */
  lemma {:induction false} KeepExtremes(ts: Tasks, completed: bool)
    ensures (forall x :: x in ts ==> x.data.completed != completed) ==> Keep(ts, completed) == []
    ensures (forall x :: x in ts ==> x.data.completed == completed) ==> Keep(ts, completed) == ts
    decreases |ts|
  {
    if ts != [] {
      KeepExtremes(ts[1..], completed);
      assert forall x :: x in ts[1..] ==> x in ts;
      assert ts == [ts[0]] + ts[1..];
    }
  }

  /** The first step of clearCompleted: completed tasks marked for deletion,
      the others ahead, all written at `now`. */
  function MarkForClearing(ts: Tasks, now: int): (marked: Tasks)
    ensures |marked| == |ts|
    ensures forall i :: 0 <= i < |ts| ==>
              marked[i].data == ts[i].data && marked[i].version == now &&
              (marked[i].state == DeletedLocally <==> ts[i].data.completed) &&
              (marked[i].state == Ahead <==> !ts[i].data.completed)
  {
    if ts == [] then []
    else
      var state := if ts[0].data.completed then DeletedLocally else Ahead;
      [SyncedTask(ts[0].data, state, now)] + MarkForClearing(ts[1..], now)
  }

  /** The records of a failed clear: each flagged as a sync error, tasks and
      versions untouched. */
  function MarkFailed(ts: Tasks): (failed: Tasks)
    ensures |failed| == |ts|
    ensures forall i :: 0 <= i < |ts| ==>
              failed[i] == SyncedTask(ts[i].data, SyncError, ts[i].version)
  {
    if ts == [] then [] else [ts[0].(state := SyncError)] + MarkFailed(ts[1..])
  }

  /** Re-stamping keeps the tasks, hence the ids, as they were. */
  lemma MarkingKeepsTasks(ts: Tasks, now: int)
    ensures DataOf(MarkForClearing(ts, now)) == DataOf(ts)
    ensures DataOf(MarkFailed(ts)) == DataOf(ts)
    ensures UniqueIds(ts) ==> UniqueIds(MarkForClearing(ts, now)) && UniqueIds(MarkFailed(ts))
  {
  }

  /** Content with the versions left out: the tasks and their states. */
  function Unversioned(ts: Tasks): (r: seq<(Task, SyncState)>)
    ensures |r| == |ts| && forall i :: 0 <= i < |ts| ==> r[i] == (ts[i].data, ts[i].state)
  {
    if ts == [] then [] else [(ts[0].data, ts[0].state)] + Unversioned(ts[1..])
  }

  /** Two stampings of one list differ only in their versions. */
  lemma AsSyncedSameContent(list: seq<Task>, t1: int, t2: int)
    ensures Unversioned(AsSynced(list, t1)) == Unversioned(AsSynced(list, t2))
  {
  }
}
