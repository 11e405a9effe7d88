/**
 * The change events the todo store publishes on its single subject, and the
 * derived streams `added`, `removed`, `updated`, `filterChanged`,
 * `lengthChanged` and `completed`, each a filter on the event's type and, for
 * the first three, a projection onto the carried record. The published events
 * are represented by their log in publication order.
 */
module Streams {
  import opened Todos

  /** The `filterType` payload: 'all', 'incomplete' or 'completed'. */
  datatype FilterType = FilterAll | FilterIncomplete | FilterCompleted

  /** The `type` tag of an event. */
  datatype EventType = AddedType | RemovedType | UpdatedType | FilterChangedType | LengthChangedType | CompletedType
  {
    /** The three tags whose events carry a `todo` field. */
    predicate CarriesTodo() {
      AddedType? || RemovedType? || UpdatedType?
    }
  }

  /** A tagged change event. */
  datatype Event =
    | Added(todo: Todo)
    | Removed(todo: Todo)
    | Updated(todo: Todo)
    | FilterChanged(filterType: FilterType)
    | LengthChanged(countTodos: nat)
    | Completed(countCompleted: nat)
  {
    /** The event has a `todo` field. */
    predicate HasTodo() {
      Added? || Removed? || Updated?
    }

    function Type(): (ty: EventType)
      ensures ty.CarriesTodo() <==> HasTodo()
    {
      match this
      case Added(_) => AddedType
      case Removed(_) => RemovedType
      case Updated(_) => UpdatedType
      case FilterChanged(_) => FilterChangedType
      case LengthChanged(_) => LengthChangedType
      case Completed(_) => CompletedType
    }
  }

  /** The event `{type: ty, todo: t}`. */
  function Carrying(ty: EventType, t: Todo): (e: Event)
    requires ty.CarriesTodo()
    ensures e.Type() == ty && e.todo == t
  {
    match ty
    case AddedType => Added(t)
    case RemovedType => Removed(t)
    case UpdatedType => Updated(t)
  }

  /** An event is determined by its tag and its record. */
  lemma CarryingOfEvent(e: Event)
    requires e.HasTodo()
    ensures e == Carrying(e.Type(), e.todo)
  {
  }

  /** What a loop publishing `{type: ty, todo: t}` for each `t` of `ts` in turn appends to the log. */
  function EventsCarrying(ty: EventType, ts: seq<Todo>): (r: seq<Event>)
    requires ty.CarriesTodo()
    ensures |r| == |ts|
    ensures forall i :: 0 <= i < |ts| ==> r[i].Type() == ty && r[i].todo == ts[i]
  {
    if ts == [] then [] else [Carrying(ty, ts[0])] + EventsCarrying(ty, ts[1..])
  }

  /** `whereEqualTo('type', ty)`: the events with this tag, in publication order. */
  function WhereType(log: seq<Event>, ty: EventType): (r: seq<Event>)
    ensures |r| <= |log|
    ensures forall e :: e in r <==> e in log && e.Type() == ty
    ensures forall i :: 0 <= i < |r| ==> r[i].Type() == ty
  {
    if log == [] then []
    else (if log[0].Type() == ty then [log[0]] else []) + WhereType(log[1..], ty)
  }

  /** `selectProperty('todo')`: the carried records, one per event, in order. */
  function SelectTodo(log: seq<Event>): (r: seq<Todo>)
    requires forall i :: 0 <= i < |log| ==> log[i].HasTodo()
    ensures |r| == |log|
    ensures forall i :: 0 <= i < |log| ==> log[i].HasTodo() && r[i] == log[i].todo
  {
    if log == [] then [] else assert log[0].HasTodo(); [log[0].todo] + SelectTodo(log[1..])
  }

  /** `whereEqualTo('type', ty).selectProperty('todo')`. */
  function TodoStream(log: seq<Event>, ty: EventType): (r: seq<Todo>)
    requires ty.CarriesTodo()
    ensures |r| <= |log|
    ensures forall t :: t in r <==> Carrying(ty, t) in log
  {
    var w := WhereType(log, ty);
    var r := SelectTodo(w);
    assert forall t :: t in r ==> Carrying(ty, t) in w by {
      forall t | t in r ensures Carrying(ty, t) in w {
        var i :| 0 <= i < |r| && r[i] == t;
        CarryingOfEvent(w[i]);
      }
    }
    assert forall t :: Carrying(ty, t) in w ==> t in r by {
      forall t | Carrying(ty, t) in w ensures t in r {
        var i :| 0 <= i < |w| && w[i] == Carrying(ty, t);
        assert r[i] == w[i].todo;
      }
    }
    r
  }

  /** The `added` stream: every record announced as added, in order. */
  function AddedStream(log: seq<Event>): (r: seq<Todo>)
    ensures forall t :: t in r <==> Added(t) in log
  {
    TodoStream(log, AddedType)
  }

  /** The `removed` stream. */
  function RemovedStream(log: seq<Event>): (r: seq<Todo>)
    ensures forall t :: t in r <==> Removed(t) in log
  {
    TodoStream(log, RemovedType)
  }

  /** The `updated` stream. */
  function UpdatedStream(log: seq<Event>): (r: seq<Todo>)
    ensures forall t :: t in r <==> Updated(t) in log
  {
    TodoStream(log, UpdatedType)
  }

  /** The `filterChanged` stream: whole events, not projected. */
  function FilterChangedStream(log: seq<Event>): (r: seq<Event>)
    ensures forall e :: e in r <==> e in log && e.FilterChanged?
  {
    WhereType(log, FilterChangedType)
  }

  /** The `lengthChanged` stream before its 30 ms throttle. */
  function LengthChangedStream(log: seq<Event>): (r: seq<Event>)
    ensures forall e :: e in r <==> e in log && e.LengthChanged?
  {
    WhereType(log, LengthChangedType)
  }

  /** The `completed` stream before its 30 ms throttle. */
  function CompletedStream(log: seq<Event>): (r: seq<Event>)
    ensures forall e :: e in r <==> e in log && e.Completed?
  {
    WhereType(log, CompletedType)
  }

  // ---- the derived streams follow the log ----

  lemma {:induction false} WhereTypeAppend(a: seq<Event>, b: seq<Event>, ty: EventType)
    ensures WhereType(a + b, ty) == WhereType(a, ty) + WhereType(b, ty)
  {
    if a == [] {
      assert a + b == b;
    } else {
      assert (a + b)[1..] == a[1..] + b;
      WhereTypeAppend(a[1..], b, ty);
    }
  }

  lemma {:induction false} SelectTodoAppend(a: seq<Event>, b: seq<Event>)
    requires forall i :: 0 <= i < |a| ==> a[i].HasTodo()
    requires forall i :: 0 <= i < |b| ==> b[i].HasTodo()
    ensures SelectTodo(a + b) == SelectTodo(a) + SelectTodo(b)
  {
    if a == [] {
      assert a + b == b;
    } else {
      assert (a + b)[1..] == a[1..] + b;
      SelectTodoAppend(a[1..], b);
    }
  }

  /** Each derived record stream of a concatenated log is the concatenation of the streams. */
  lemma TodoStreamAppend(a: seq<Event>, b: seq<Event>, ty: EventType)
    requires ty.CarriesTodo()
    ensures TodoStream(a + b, ty) == TodoStream(a, ty) + TodoStream(b, ty)
  {
    WhereTypeAppend(a, b, ty);
    SelectTodoAppend(WhereType(a, ty), WhereType(b, ty));
  }

  /** A run of events carrying `ts` with tag `ty` gives `ts` on the stream for `ty` and nothing on any other. */
  lemma {:induction false} WhereTypeOfCarrying(ty: EventType, ts: seq<Todo>, other: EventType)
    requires ty.CarriesTodo()
    ensures WhereType(EventsCarrying(ty, ts), other) == if ty == other then EventsCarrying(ty, ts) else []
  {
    if ts != [] {
      var r := EventsCarrying(ty, ts);
      assert r[1..] == EventsCarrying(ty, ts[1..]);
      WhereTypeOfCarrying(ty, ts[1..], other);
    }
  }

  lemma {:induction false} SelectTodoOfCarrying(ty: EventType, ts: seq<Todo>)
    requires ty.CarriesTodo()
    ensures SelectTodo(EventsCarrying(ty, ts)) == ts
  {
    if ts != [] {
      var r := EventsCarrying(ty, ts);
      assert r[1..] == EventsCarrying(ty, ts[1..]);
      SelectTodoOfCarrying(ty, ts[1..]);
    }
  }

  lemma {:induction false} EventsCarryingAppend(ty: EventType, a: seq<Todo>, b: seq<Todo>)
    requires ty.CarriesTodo()
    ensures EventsCarrying(ty, a + b) == EventsCarrying(ty, a) + EventsCarrying(ty, b)
  {
    if a == [] {
      assert a + b == b;
    } else {
      assert (a + b)[1..] == a[1..] + b;
      EventsCarryingAppend(ty, a[1..], b);
    }
  }

  /** One more turn of a publishing loop appends one more event. */
  lemma EventsCarryingSnoc(ty: EventType, ts: seq<Todo>, j: nat)
    requires ty.CarriesTodo() && j < |ts|
    ensures EventsCarrying(ty, ts[..j + 1]) == EventsCarrying(ty, ts[..j]) + [Carrying(ty, ts[j])]
  {
    assert ts[..j + 1] == ts[..j] + [ts[j]];
    EventsCarryingAppend(ty, ts[..j], [ts[j]]);
  }

  /** One more turn of a publishing loop, stated on the whole log. */
  lemma LogSnoc(log0: seq<Event>, log: seq<Event>, ty: EventType, ts: seq<Todo>, j: nat)
    requires ty.CarriesTodo() && j < |ts|
    requires log == log0 + EventsCarrying(ty, ts[..j])
    ensures log + [Carrying(ty, ts[j])] == log0 + EventsCarrying(ty, ts[..j + 1])
  {
    EventsCarryingSnoc(ty, ts, j);
  }

  /** Publishing one `{type: ty, todo: t}` event per record of `ts` extends the stream for `ty` by
      exactly `ts`, in order, and leaves every other derived stream as it was. */
  lemma PublishMany(log: seq<Event>, ty: EventType, ts: seq<Todo>, other: EventType)
    requires ty.CarriesTodo()
    ensures other.CarriesTodo() ==>
      TodoStream(log + EventsCarrying(ty, ts), other) == TodoStream(log, other) + (if ty == other then ts else [])
    ensures !other.CarriesTodo() ==> WhereType(log + EventsCarrying(ty, ts), other) == WhereType(log, other)
  {
    WhereTypeAppend(log, EventsCarrying(ty, ts), other);
    WhereTypeOfCarrying(ty, ts, other);
    if other.CarriesTodo() {
      TodoStreamAppend(log, EventsCarrying(ty, ts), other);
      if ty == other { SelectTodoOfCarrying(ty, ts); }
    }
  }

  /** A single record event: the stream for its tag gains that one record, the others are unchanged. */
  lemma PublishOne(log: seq<Event>, ty: EventType, t: Todo, other: EventType)
    requires ty.CarriesTodo()
    ensures other.CarriesTodo() ==>
      TodoStream(log + [Carrying(ty, t)], other) == TodoStream(log, other) + (if ty == other then [t] else [])
    ensures !other.CarriesTodo() ==> WhereType(log + [Carrying(ty, t)], other) == WhereType(log, other)
  {
    assert EventsCarrying(ty, [t]) == [Carrying(ty, t)];
    PublishMany(log, ty, [t], other);
  }

  /** An event without a record leaves the record streams alone and extends its own tag's stream. */
  lemma PublishSignal(log: seq<Event>, e: Event, other: EventType)
    requires !e.HasTodo()
    ensures other.CarriesTodo() ==> TodoStream(log + [e], other) == TodoStream(log, other)
    ensures WhereType(log + [e], other) == WhereType(log, other) + (if e.Type() == other then [e] else [])
  {
    WhereTypeAppend(log, [e], other);
    assert WhereType([e], other) == if e.Type() == other then [e] else [];
  }

  /** A filter change followed by its replay: `filterChanged` gains that one event, `added` gains the
      replayed records in order, and `removed` and `updated` are unchanged. */
  lemma PublishFilterReplay(log: seq<Event>, kind: FilterType, ts: seq<Todo>)
    ensures var log' := log + [FilterChanged(kind)] + EventsCarrying(AddedType, ts);
      FilterChangedStream(log') == FilterChangedStream(log) + [FilterChanged(kind)] &&
      AddedStream(log') == AddedStream(log) + ts &&
      RemovedStream(log') == RemovedStream(log) &&
      UpdatedStream(log') == UpdatedStream(log)
  {
    var mid := log + [FilterChanged(kind)];
    PublishSignal(log, FilterChanged(kind), FilterChangedType);
    PublishMany(mid, AddedType, ts, FilterChangedType);
    PublishSignal(log, FilterChanged(kind), AddedType);
    PublishMany(mid, AddedType, ts, AddedType);
    PublishSignal(log, FilterChanged(kind), RemovedType);
    PublishMany(mid, AddedType, ts, RemovedType);
    PublishSignal(log, FilterChanged(kind), UpdatedType);
    PublishMany(mid, AddedType, ts, UpdatedType);
  }
}
