/** Status events of the task streams (`Event<Tasks>`) and the views the
    active/completed streams apply to them. */
module TaskEvents {
  import opened Wrappers
  import opened TaskModel

  /** Why an event is an error: a failure token standing for the thrown
      value, or the SyncError a failed clear reports. */
  datatype Cause = Thrown(token: nat) | ClearSyncError

  /** `Event<Tasks>`: loading, idle or error, with or without data. */
  datatype Event =
    | Loading(data: Option<Tasks>)
    | Idle(data: Option<Tasks>)
    | Error(data: Option<Tasks>, cause: Cause)

  /** The event's data validator (`NoEmptyTasksPredicate`): tells whether a
      record list counts as data. Its definition is not modelled; only
      `!hasData([])` is assumed where needed. */
  type Validator = Tasks -> bool

  /** `updateData(tasks)` through the validator: data that does not count is
      no data, so an event with such a list equals the data-less event. */
  function Validated(hasData: Validator, ts: Tasks): (d: Option<Tasks>)
    ensures d.Some? <==> hasData(ts)
    ensures d.Some? ==> d.value == ts
  {
    if hasData(ts) then Some(ts) else None
  }

  /** `loadingEvent().updateData(tasks)`. */
  function LoadingWith(hasData: Validator, ts: Tasks): (e: Event)
    ensures e.Loading?
    ensures e.data.Some? <==> hasData(ts)
    ensures e.data.Some? ==> e.data.value == ts
  {
    Loading(Validated(hasData, ts))
  }

  /** `idleEvent().updateData(tasks)`. */
  function IdleWith(hasData: Validator, ts: Tasks): (e: Event)
    ensures e.Idle?
    ensures e.data.Some? <==> hasData(ts)
    ensures e.data.Some? ==> e.data.value == ts
  {
    Idle(Validated(hasData, ts))
  }

  /** An error event carrying `tasks`, with the same validator. */
  function ErrorWith(hasData: Validator, ts: Tasks, cause: Cause): (e: Event)
    ensures e.Error? && e.cause == cause
    ensures e.data.Some? <==> hasData(ts)
    ensures e.data.Some? ==> e.data.value == ts
  {
    Error(Validated(hasData, ts), cause)
  }

  /** An event carries data only when the validator accepts it. */
  predicate Normal(hasData: Validator, e: Event) {
    e.data.Some? ==> hasData(e.data.value)
  }

  /** Which of the three task streams: all, active only, completed only. */
  datatype View = AllTasks | ActiveTasks | CompletedTasks

  /** The records a view keeps: all of them, or those whose `completed` flag
      is the view's, in order. */
  function Apply(view: View, ts: Tasks): (r: Tasks)
    ensures view.AllTasks? ==> r == ts
    ensures !view.AllTasks? ==> forall x :: x in r <==> x in ts && x.data.completed == view.CompletedTasks?
  {
    match view
    case AllTasks => ts
    case ActiveTasks => Keep(ts, false)
    case CompletedTasks => Keep(ts, true)
  }

  /** The same event with its data filtered by the view and validated again:
      the view delivers data exactly when the event had some and what the
      view keeps of it still counts as data, and that data is the records
      the view keeps. */
  function Project(hasData: Validator, view: View, e: Event): (p: Event)
    ensures Normal(hasData, p)
    ensures p.Loading? == e.Loading? && p.Idle? == e.Idle? && p.Error? == e.Error?
    ensures e.Error? ==> p.cause == e.cause
    ensures p.data.Some? <==> e.data.Some? && hasData(Apply(view, e.data.value))
    ensures p.data.Some? ==> p.data.value == Apply(view, e.data.value)
  {
    var d := match e.data
      case None => None
      case Some(ts) => Validated(hasData, Apply(view, ts));
    match e
    case Loading(_) => Loading(d)
    case Idle(_) => Idle(d)
    case Error(_, cause) => Error(d, cause)
  }

  function ProjectAll(hasData: Validator, view: View, es: seq<Event>): (ps: seq<Event>)
    ensures |ps| == |es| && forall i :: 0 <= i < |es| ==> ps[i] == Project(hasData, view, es[i])
  {
    if es == [] then [] else [Project(hasData, view, es[0])] + ProjectAll(hasData, view, es[1..])
  }

  /** Projection distributes over concatenation of event runs. */
  lemma {:induction false} ProjectAllAppend(hasData: Validator, view: View, es: seq<Event>, more: seq<Event>)
    ensures ProjectAll(hasData, view, es + more) == ProjectAll(hasData, view, es) + ProjectAll(hasData, view, more)
    decreases |es|
  {
    if es == [] {
      assert es + more == more;
    } else {
      assert (es + more)[0] == es[0];
      assert (es + more)[1..] == es[1..] + more;
      ProjectAllAppend(hasData, view, es[1..], more);
    }
  }

  lemma ProjectAllTwo(hasData: Validator, view: View, a: Event, b: Event)
    ensures ProjectAll(hasData, view, [a, b]) == [Project(hasData, view, a), Project(hasData, view, b)]
  {
  }

  /** The all-tasks stream delivers normal events unchanged. */
  lemma ProjectAllTasks(hasData: Validator, es: seq<Event>)
    requires forall i :: 0 <= i < |es| ==> Normal(hasData, es[i])
    ensures ProjectAll(hasData, AllTasks, es) == es
  {
    var ps := ProjectAll(hasData, AllTasks, es);
    forall i | 0 <= i < |es| ensures ps[i] == es[i] {
      assert Normal(hasData, es[i]);
    }
  }

  /** A view that filters a list down to nothing turns its event into the
      data-less event of the same kind, rather than dropping it. */
  lemma ProjectToNothing(hasData: Validator, view: View, ts: Tasks)
    requires !hasData([])
    requires view.ActiveTasks? ==> forall x :: x in ts ==> x.data.completed
    requires view.CompletedTasks? ==> forall x :: x in ts ==> !x.data.completed
    requires !view.AllTasks?
    ensures Project(hasData, view, LoadingWith(hasData, ts)) == Loading(None)
    ensures Project(hasData, view, IdleWith(hasData, ts)) == Idle(None)
  {
    KeepExtremes(ts, false);
    KeepExtremes(ts, true);
  }
}
