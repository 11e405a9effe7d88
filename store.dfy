/**
 * The todo store: an ordered in-memory collection of todo records that its
 * public operations change in place, and the log of every event the store has
 * published on its subject, in publication order.
 */
module Store {
  import opened Todos
  import opened Streams

  class TodoStore {
    /** The records, in insertion (display) order. */
    var collection: seq<Todo>
    /** Everything published with `subject.onNext`, oldest first. */
    var events: seq<Event>

    constructor ()
      ensures collection == [] && events == []
    {
      collection := [];
      events := [];
    }

    // ---- private helpers ----

    /** `subject.onNext(e)`. */
    method Publish(e: Event)
      modifies this
      ensures collection == old(collection)
      ensures events == old(events) + [e]
    {
      events := events + [e];
    }

    /** The helper `add(todo)`: `collection.push(todo)`. */
    method Push(t: Todo)
      modifies this
      ensures collection == old(collection) + [t]
      ensures events == old(events)
    {
      collection := collection + [t];
    }

    /** The helper `remove(todo)`: `collection.splice(collection.indexOf(todo), 1)`. Every caller
        passes a record it has just read from the collection. */
    method Delete(t: Todo)
      requires t in collection
      modifies this
      ensures collection == RemoveAt(old(collection), IndexOf(old(collection), t))
      ensures events == old(events)
    {
      collection := RemoveAt(collection, IndexOf(collection, t));
    }

    /** The helper `replace(existing, updated)`: `collection.splice(collection.indexOf(existing), 1, updated)`. */
    method Replace(existing: Todo, updated: Todo)
      requires existing in collection
      modifies this
      ensures collection == ReplaceAt(old(collection), IndexOf(old(collection), existing), updated)
      ensures events == old(events)
    {
      collection := ReplaceAt(collection, IndexOf(collection, existing), updated);
    }

    /** The `_.each(view, ...)` loop that publishes one `added` event per record of `view`. */
    method Replay(view: seq<Todo>)
      modifies this
      ensures collection == old(collection)
      ensures events == old(events) + EventsCarrying(AddedType, view)
    {
      var j := 0;
      while j < |view|
        invariant 0 <= j <= |view|
        invariant collection == old(collection)
        invariant events == old(events) + EventsCarrying(AddedType, view[..j])
      {
        ghost var before := events;
        Publish(Added(view[j]));
        LogSnoc(old(events), before, AddedType, view, j);
        j := j + 1;
      }
      assert view[..j] == view;
    }

    /** The body of toggleAll's `_.each`: replace one snapshot record by its copy with the target value. */
    method MarkOne(todo: Todo, completed: bool, ghost orig: seq<Todo>, ghost j: nat)
      requires j < |FindAll(orig, !completed)| && todo == FindAll(orig, !completed)[j]
      requires collection == MarkFirst(orig, completed, j)
      modifies this
      ensures collection == MarkFirst(orig, completed, j + 1)
      ensures events == old(events) + [Updated(Mark(todo, completed))]
    {
      var updated := Extend(todo, SetCompleted(completed));
      MarkFirstStep(orig, completed, j);
      Replace(todo, updated);
      Publish(Updated(updated));
    }

    /** The body of clearCompleted's `_.each`: splice out one snapshot record and announce it. */
    method DropOne(todo: Todo, ghost orig: seq<Todo>, ghost j: nat)
      requires j < |FindAll(orig, true)| && todo == FindAll(orig, true)[j]
      requires collection == DropFirst(orig, j)
      modifies this
      ensures collection == DropFirst(orig, j + 1)
      ensures events == old(events) + [Removed(todo)]
    {
      DropFirstStep(orig, j);
      Delete(todo);
      Publish(Removed(todo));
    }

    // ---- public operations ----

    /** `create(text)`, with the id that `nextId()` would read from the clock passed in. */
    method Create(id: string, text: string)
      modifies this
      ensures collection == old(collection) + [Todo(id, text, false)]
      ensures events == old(events) + [Added(Todo(id, text, false))]
    {
      var todo := NewTodo(id, text);
      Push(todo);
      Publish(Added(todo));
    }

    /** `add(todo)`: no check that the id is new. */
    method Add(todo: Todo)
      modifies this
      ensures collection == old(collection) + [todo]
      ensures events == old(events) + [Added(todo)]
    {
      Push(todo);
      Publish(Added(todo));
    }

    /** `remove(id)`: only the first record with `id` goes; a missing id changes nothing. */
    method Remove(id: string)
      modifies this
      ensures var k := FindIndex(old(collection), id);
        if k == -1 then
          collection == old(collection) && events == old(events)
        else
          |collection| == |old(collection)| - 1 &&
          collection[..k] == old(collection)[..k] && collection[k..] == old(collection)[k + 1..] &&
          events == old(events) + [Removed(old(collection)[k])]
    {
      var todo := Find(collection, id);
      if todo.Some? {
        IndexOfFirstById(collection, id);
        RemoveAtElements(collection, FindIndex(collection, id));
        Delete(todo.value);
        Publish(Removed(todo.value));
      }
    }

    /** `update(id, text)`: the first record with `id` is replaced, at its index, by a copy with the new title. */
    method Update(id: string, text: string)
      modifies this
      ensures var k := FindIndex(old(collection), id);
        if k == -1 then
          collection == old(collection) && events == old(events)
        else
          |collection| == |old(collection)| &&
          collection[k] == Todo(id, text, old(collection)[k].completed) &&
          (forall j :: 0 <= j < |collection| && j != k ==> collection[j] == old(collection)[j]) &&
          events == old(events) + [Updated(collection[k])]
    {
      var todo := Find(collection, id);
      if todo.Some? {
        var updated := Extend(todo.value, SetTitle(text));
        IndexOfFirstById(collection, id);
        ReplaceAtElements(collection, FindIndex(collection, id), updated);
        Replace(todo.value, updated);
        Publish(Updated(updated));
      }
    }

    /** `toggle(id)`: the first record with `id` is replaced, at its index, by a copy with `completed` flipped. */
    method Toggle(id: string)
      modifies this
      ensures var k := FindIndex(old(collection), id);
        if k == -1 then
          collection == old(collection) && events == old(events)
        else
          |collection| == |old(collection)| &&
          collection[k] == old(collection)[k].(completed := !old(collection)[k].completed) &&
          (forall j :: 0 <= j < |collection| && j != k ==> collection[j] == old(collection)[j]) &&
          events == old(events) + [Updated(collection[k])]
    {
      var todo := Find(collection, id);
      if todo.Some? {
        var updated := Extend(todo.value, SetCompleted(!todo.value.completed));
        IndexOfFirstById(collection, id);
        ReplaceAtElements(collection, FindIndex(collection, id), updated);
        Replace(todo.value, updated);
        Publish(Updated(updated));
      }
    }

    /** `toggleAll(completed)`: every record that differs is replaced, at its index, by a copy with the
        target value, with one `updated` event per replaced record, in collection order. */
    method ToggleAll(completed: bool)
      modifies this
      ensures collection == MarkAll(old(collection), completed)
      ensures events == old(events) +
        EventsCarrying(UpdatedType, MarkAll(FindAll(old(collection), !completed), completed))
    {
      var toUpdate := FindAll(collection, !completed);
      ghost var orig := collection;
      MarkFirstNone(orig, completed);
      var j := 0;
      while j < |toUpdate|
        invariant 0 <= j <= |toUpdate|
        invariant events == old(events) + EventsCarrying(UpdatedType, MarkAll(toUpdate[..j], completed))
        invariant collection == MarkFirst(orig, completed, j)
      {
        ghost var before := events;
        MarkOne(toUpdate[j], completed, orig, j);
        UpdatedEventsSnoc(old(events), before, toUpdate, j, completed);
        j := j + 1;
      }
      MarkFirstAll(orig, completed, j);
      assert toUpdate[..j] == toUpdate;
    }

    /** `clearCompleted()`: every completed record is spliced out, with one `removed` event per record,
        in collection order. */
    method ClearCompleted()
      modifies this
      ensures collection == FindAll(old(collection), false)
      ensures events == old(events) + EventsCarrying(RemovedType, FindAll(old(collection), true))
    {
      var toRemove := FindAll(collection, true);
      ghost var orig := collection;
      DropFirstNone(orig);
      var j := 0;
      while j < |toRemove|
        invariant 0 <= j <= |toRemove|
        invariant events == old(events) + EventsCarrying(RemovedType, toRemove[..j])
        invariant collection == DropFirst(orig, j)
      {
        ghost var before := events;
        DropOne(toRemove[j], orig, j);
        LogSnoc(old(events), before, RemovedType, toRemove, j);
        j := j + 1;
      }
      DropFirstAll(orig, j);
      assert toRemove[..j] == toRemove;
    }

    /** `showAll()`: announce the filter, then replay every record. */
    method ShowAll()
      modifies this
      ensures collection == old(collection)
      ensures events == old(events) + [FilterChanged(FilterAll)] + EventsCarrying(AddedType, collection)
    {
      Publish(FilterChanged(FilterAll));
      Replay(collection);
    }

    /** `showIncomplete()`: announce the filter, then replay the incomplete records. */
    method ShowIncomplete()
      modifies this
      ensures collection == old(collection)
      ensures events == old(events) + [FilterChanged(FilterIncomplete)] +
        EventsCarrying(AddedType, IncompleteTodos(collection))
    {
      Publish(FilterChanged(FilterIncomplete));
      Replay(IncompleteTodos(collection));
    }

    /** `showCompleted()`: announce the filter, then replay the completed records. */
    method ShowCompleted()
      modifies this
      ensures collection == old(collection)
      ensures events == old(events) + [FilterChanged(FilterCompleted)] +
        EventsCarrying(AddedType, CompletedTodos(collection))
    {
      Publish(FilterChanged(FilterCompleted));
      Replay(CompletedTodos(collection));
    }

    /** The subscriber on `added` + `removed`, when its throttle lets it fire: publish the current length. */
    method PublishLengthChanged()
      modifies this
      ensures collection == old(collection)
      ensures events == old(events) + [LengthChanged(|collection|)]
    {
      Publish(LengthChanged(|collection|));
    }

    /** The subscriber on `updated` + `removed`, when its throttle lets it fire: publish the completed count. */
    method PublishCompletedCount()
      modifies this
      ensures collection == old(collection)
      ensures events == old(events) + [Completed(|CompletedTodos(collection)|)]
    {
      var completed := CompletedTodos(collection);
      Publish(Completed(|completed|));
    }

    /** The `_.each(data.collection, todos.add)` step of `load()`: add every stored record in turn. */
    method Load(stored: seq<Todo>)
      modifies this
      ensures collection == old(collection) + stored
      ensures events == old(events) + EventsCarrying(AddedType, stored)
    {
      var j := 0;
      while j < |stored|
        invariant 0 <= j <= |stored|
        invariant collection == old(collection) + stored[..j]
        invariant events == old(events) + EventsCarrying(AddedType, stored[..j])
      {
        ghost var before := events;
        Add(stored[j]);
        assert stored[..j + 1] == stored[..j] + [stored[j]];
        LogSnoc(old(events), before, AddedType, stored, j);
        j := j + 1;
      }
      assert stored[..j] == stored;
    }

    /** `initialize()`: load what storage held, if anything (`None` for a missing key). */
    method Initialize(stored: Option<seq<Todo>>)
      modifies this
      ensures stored.None? ==> collection == old(collection) && events == old(events)
      ensures stored.Some? ==> collection == old(collection) + stored.value
      ensures stored.Some? ==> events == old(events) + EventsCarrying(AddedType, stored.value)
    {
      if stored.Some? {
        Load(stored.value);
      }
    }
  }

  /** One more turn of toggleAll's loop appends the `updated` event of one more marked copy. */
  lemma UpdatedEventsSnoc(log0: seq<Event>, log: seq<Event>, ts: seq<Todo>, j: nat, completed: bool)
    requires j < |ts|
    requires log == log0 + EventsCarrying(UpdatedType, MarkAll(ts[..j], completed))
    ensures log + [Updated(Mark(ts[j], completed))] == log0 + EventsCarrying(UpdatedType, MarkAll(ts[..j + 1], completed))
  {
    assert ts[..j + 1] == ts[..j] + [ts[j]];
    MarkAllAppend(ts[..j], [ts[j]], completed);
    assert MarkAll([ts[j]], completed) == [Mark(ts[j], completed)];
    EventsCarryingAppend(UpdatedType, MarkAll(ts[..j], completed), [Mark(ts[j], completed)]);
    assert EventsCarrying(UpdatedType, [Mark(ts[j], completed)]) == [Updated(Mark(ts[j], completed))];
  }

  // ---- clients ----

  lemma IncompleteOfThree(a: Todo, b: Todo, c: Todo)
    requires !a.completed && b.completed && !c.completed
    ensures IncompleteTodos([a, b, c]) == [a, c]
  {
    assert [a, b, c][1..] == [b, c];
    assert [b, c][1..] == [c];
    assert [c][1..] == [];
    assert FindAll([c], false) == [c];
    assert FindAll([b, c], false) == [c];
  }

  /** A fresh store loaded from `stored` holds exactly `stored`, and its `added` stream replays it
      in order, one event per record, with nothing removed or updated. */
  method LoadFresh(stored: seq<Todo>) returns (store: TodoStore)
    ensures fresh(store)
    ensures store.collection == stored && |store.events| == |stored|
    ensures AddedStream(store.events) == stored
    ensures RemovedStream(store.events) == [] && UpdatedStream(store.events) == []
  {
    store := new TodoStore();
    store.Load(stored);
    assert store.events == [] + EventsCarrying(AddedType, stored);
    PublishMany([], AddedType, stored, AddedType);
    PublishMany([], AddedType, stored, RemovedType);
    PublishMany([], AddedType, stored, UpdatedType);
  }

  /** toggle(id) twice restores the collection; when the id is found, `updated` carries the flipped record
      and then the original one. */
  method ToggleTwice(store: TodoStore, id: string)
    modifies store
    ensures store.collection == old(store.collection)
    ensures var k := FindIndex(old(store.collection), id);
      store.events == old(store.events) +
        (if k == -1 then [] else [Updated(Flip(old(store.collection)[k])), Updated(old(store.collection)[k])])
  {
    var s := store.collection;
    store.Toggle(id);
    if FindIndex(s, id) != -1 {
      var k := FindIndex(s, id);
      ReplaceAtElements(s, k, Flip(s[k]));
      assert store.collection == ReplaceAt(s, k, Flip(s[k]));
      ToggleTwiceRestores(s, id);
      var s1 := store.collection;
      store.Toggle(id);
      ReplaceAtElements(s1, k, Flip(s1[k]));
      assert store.collection == ReplaceAt(s1, k, Flip(s1[k]));
    } else {
      store.Toggle(id);
    }
  }

  /** With distinct ids, remove(id) twice removes one record at most: the second call changes nothing. */
  method RemoveTwice(store: TodoStore, id: string)
    requires UniqueIds(store.collection)
    modifies store
    ensures var k := FindIndex(old(store.collection), id);
      store.collection == (if k == -1 then old(store.collection) else RemoveAt(old(store.collection), k))
    ensures var k := FindIndex(old(store.collection), id);
      store.events == old(store.events) + (if k == -1 then [] else [Removed(old(store.collection)[k])])
    ensures UniqueIds(store.collection)
  {
    ghost var s := store.collection;
    store.Remove(id);
    if FindIndex(s, id) != -1 {
      var k := FindIndex(s, id);
      RemoveAtElements(s, k);
      assert store.collection == RemoveAt(s, k);
      RemoveTwiceNoOp(s, id);
      RemoveAtKeepsUnique(s, k);
    }
    store.Remove(id);
  }

  /** create "a", create "b", toggle "a", clearCompleted: only "b" is left, the completed count
      published afterwards is 0 and the length 1. */
  method ClearCompletedScenario(idA: string, idB: string) returns (store: TodoStore)
    ensures store.collection == [Todo(idB, "b", false)]
    ensures |store.events| >= 2
    ensures store.events[|store.events| - 2..] == [Completed(0), LengthChanged(1)]
  {
    store := new TodoStore();
    store.Create(idA, "a");
    store.Create(idB, "b");
    assert store.collection == [Todo(idA, "a", false), Todo(idB, "b", false)];
    assert FindIndex(store.collection, idA) == 0;
    store.Toggle(idA);
    assert store.collection == [Todo(idA, "a", true), Todo(idB, "b", false)];
    store.ClearCompleted();
    assert FindAll([Todo(idA, "a", true), Todo(idB, "b", false)], false) == [Todo(idB, "b", false)];
    CountsAfterClear([Todo(idA, "a", true), Todo(idB, "b", false)]);
    store.PublishCompletedCount();
    store.PublishLengthChanged();
  }

  /** showIncomplete on two incomplete records and one completed one publishes the filter change and
      then the two incomplete records, in insertion order. */
  method ShowIncompleteScenario(a: Todo, b: Todo, c: Todo) returns (store: TodoStore)
    requires !a.completed && b.completed && !c.completed
    ensures store.collection == [a, b, c]
    ensures |store.events| == 6
    ensures store.events[3..] == [FilterChanged(FilterIncomplete), Added(a), Added(c)]
  {
    IncompleteOfThree(a, b, c);
    var replay := EventsCarrying(AddedType, [a, c]);
    assert replay == [Added(a), Added(c)] by {
      assert [a, c][1..] == [c];
      assert EventsCarrying(AddedType, [c]) == [Added(c)];
    }
    store := new TodoStore();
    store.Add(a);
    store.Add(b);
    store.Add(c);
    assert store.collection == [a, b, c];
    ghost var before := store.events;
    assert |before| == 3;
    store.ShowIncomplete();
    assert store.events == before + [FilterChanged(FilterIncomplete)] + replay;
  }
}
