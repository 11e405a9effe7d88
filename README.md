# Todo store of the RxJS TodoMVC application

This project models the `todos` store of the RxJS TodoMVC example
(`labs/architecture-examples/rxjs/js/app.js`, lines 27-191) and proves properties of it. The store
keeps an ordered `collection` of todo records. Each record has an `id`, a `title` and a `completed`
flag. Every change goes out on a single subject as an event with a `type` tag. The store offers
`create`, `add`, `remove`, `update`, `toggle`, `toggleAll`, `clearCompleted`, the three filter views
`showAll`, `showIncomplete` and `showCompleted`, and `initialize`, which loads the persisted records.
Streams derived from the subject pick events out by their tag (`added`, `removed`, `updated`,
`filterChanged`, `lengthChanged`, `completed`). Two internal subscriptions publish the current record
count and the current completed count.

The model has three modules:

- `Todos` (`todos.dfy`) holds the record type and the store's private helpers as pure functions
  over `seq<Todo>`: `find`, `findAll`, `create`, `update` (copy with changes), `remove` and `replace`
  (splice at `indexOf`), `incompleteTodos` and `completedTodos`. It also holds the ghost progress
  functions that describe the `toggleAll` and `clearCompleted` loops half way through, and the
  lemmas about all of these.
- `Streams` (`streams.dfy`) holds the event type and the derived streams. The subject is modelled
  as the sequence of every event published so far. A derived stream is a function of that
  sequence: `whereEqualTo('type', …)` keeps the events with one tag, and `selectProperty('todo')`
  projects their records.
- `Store` (`store.dfy`) holds the class `TodoStore`. It has two fields that its methods update in
  place: `collection` and `events` (the subject's history). Each public operation of the store is
  a method whose `ensures` gives the whole new state. `toggleAll`, `clearCompleted`, the filter
  views and `load` are `while` loops, each with its invariants, over the array the source iterates:
  a fresh `findAll` result, `data.collection`, or for `showAll` the collection itself, which nothing
  changes during that loop.

Lookups follow the source. `find` returns the first record with the id (underscore's
`findWhere`). `remove` and `replace` act at the index `indexOf` returns. The code never checks that
ids are distinct. So the contracts speak of the first match (`FindIndex`), and the facts that need
distinct ids take `UniqueIds` as a hypothesis.

## Model

| member | source | states |
|---|---|---|
| Todos.NewTodo | labs/architecture-examples/rxjs/js/app.js:44-46 | a created record has the given id and title and is not completed |
| Todos.Extend | labs/architecture-examples/rxjs/js/app.js:48-50 | the copy keeps the id; a title change keeps `completed`, a `completed` change keeps the title |
| Todos.FindIndex | labs/architecture-examples/rxjs/js/app.js:36-38 | the index is -1 exactly when no record has the id; otherwise that record has the id and no earlier one does |
| Todos.Find | labs/architecture-examples/rxjs/js/app.js:36-38 | nothing is found exactly when no record has the id; a found record has the id, is in the collection and is the first match |
| Todos.IndexOf | labs/architecture-examples/rxjs/js/app.js:56-62 | the index is -1 exactly when the record is absent; otherwise the entry there is that record and no earlier entry equals it |
| Todos.RemoveAt | labs/architecture-examples/rxjs/js/app.js:56-58 | splicing one entry out shortens the collection by one |
| Todos.RemoveAtElements | labs/architecture-examples/rxjs/js/app.js:56-58 | entries before the index stay put; entries after it move down by one |
| Todos.ReplaceAt | labs/architecture-examples/rxjs/js/app.js:60-62 | the length is kept and the new record sits at the index |
| Todos.ReplaceAtElements | labs/architecture-examples/rxjs/js/app.js:60-62 | every other entry is unchanged |
| Todos.FindAll | labs/architecture-examples/rxjs/js/app.js:40-42 | the result is no longer than the collection and each of its records has the requested `completed` value |
| Todos.FindAllMembers | labs/architecture-examples/rxjs/js/app.js:40-42 | a record is in the result exactly when it is in the collection with the requested `completed` value |
| Todos.FindAllAppend | labs/architecture-examples/rxjs/js/app.js:40-42 | filtering a concatenation is the concatenation of the filtered parts, so every match is kept as often as it occurs and in collection order |
| Todos.FindAllSingle | labs/architecture-examples/rxjs/js/app.js:40-42 | a single record is kept exactly when its `completed` value matches |
| Todos.IncompleteTodos | labs/architecture-examples/rxjs/js/app.js:64-66 | a record is listed exactly when it is in the collection and not completed; it is `findAll({completed: false})`, whose order and multiplicity `FindAllAppend` and `FindAllSingle` fix |
| Todos.CompletedTodos | labs/architecture-examples/rxjs/js/app.js:68-70 | a record is listed exactly when it is in the collection and completed; it is `findAll({completed: true})`, whose order and multiplicity `FindAllAppend` and `FindAllSingle` fix |
| Todos.MarkAll | labs/architecture-examples/rxjs/js/app.js:117-124 | the outcome of `toggleAll`: the same length, and each entry keeps its id and title and takes the target `completed` value |
| Todos.IndexOfFirstById | labs/architecture-examples/rxjs/js/app.js:94-116 | `indexOf` of the record `find` returned is that record's own index, so comparing by value acts like comparing by reference here |
| Todos.FindIndexAfterReplace | labs/architecture-examples/rxjs/js/app.js:101-116 | after replacing the first match by a record with the same id, the first match is at the same index |
| Todos.ToggleTwiceRestores | labs/architecture-examples/rxjs/js/app.js:109-116 | toggling a record flips its flag, keeps its index, and a second toggle gives back the original collection |
| Todos.RemoveTwiceNoOp | labs/architecture-examples/rxjs/js/app.js:94-100 | with distinct ids, no record has the id after it is removed, so a second `remove` finds nothing |
| Todos.SecondRemoveFindsNextMatch | labs/architecture-examples/rxjs/js/app.js:94-100 | after the first match is removed, a second lookup of the id finds the next record with that id after it, shifted down by one, or nothing if there is none |
| Todos.DuplicateIdsSecondRemove | labs/architecture-examples/rxjs/js/app.js:94-100 | without distinct ids, a second record with the id is still found after the first is removed |
| Todos.AppendFreshKeepsUnique | labs/architecture-examples/rxjs/js/app.js:52-54 | appending a record with a fresh id keeps the ids distinct |
| Todos.RemoveAtKeepsUnique | labs/architecture-examples/rxjs/js/app.js:56-58 | removing an entry keeps the ids distinct |
| Todos.ReplaceSameIdKeepsUnique | labs/architecture-examples/rxjs/js/app.js:60-62 | replacing an entry by a record with its id keeps the ids distinct |
| Todos.FindAllKeepsUnique | labs/architecture-examples/rxjs/js/app.js:40-42 | a filtered view of distinct ids has distinct ids |
| Todos.MarkAllKeepsUnique | labs/architecture-examples/rxjs/js/app.js:117-124 | `toggleAll` keeps the ids distinct |
| Todos.ReplaceAtCons | labs/architecture-examples/rxjs/js/app.js:60-62 | a splice past the head leaves the head alone |
| Todos.RemoveAtCons | labs/architecture-examples/rxjs/js/app.js:56-58 | a removal past the head leaves the head alone |
| Todos.IndexOfCons | labs/architecture-examples/rxjs/js/app.js:56-62 | past a different head, `indexOf` is one more than in the tail |
| Todos.MarkFirstStep | labs/architecture-examples/rxjs/js/app.js:118-122 | after j rounds of `toggleAll`, the j-th snapshot record is still in the collection, and replacing it where `indexOf` finds it gives the state after j+1 rounds |
| Todos.MarkFirstStepHere | labs/architecture-examples/rxjs/js/app.js:118-122 | the first round when the head is in the snapshot |
| Todos.MarkFirstStepPast | labs/architecture-examples/rxjs/js/app.js:118-122 | a later round when the head is in the snapshot |
| Todos.MarkFirstStepSkip | labs/architecture-examples/rxjs/js/app.js:118-122 | any round when the head already has the target value |
| Todos.MarkFirstNone | labs/architecture-examples/rxjs/js/app.js:118 | before the first round the collection is unchanged |
| Todos.MarkFirstAll | labs/architecture-examples/rxjs/js/app.js:118-123 | after every snapshot record has been handled, the collection is `MarkAll` |
| Todos.DropFirstStep | labs/architecture-examples/rxjs/js/app.js:126-129 | after j rounds of `clearCompleted`, the j-th snapshot record is still in the collection, and removing it where `indexOf` finds it gives the state after j+1 rounds |
| Todos.DropFirstStepHere | labs/architecture-examples/rxjs/js/app.js:126-129 | the first round when the head is completed |
| Todos.DropFirstStepPast | labs/architecture-examples/rxjs/js/app.js:126-129 | a later round when the head is completed |
| Todos.DropFirstStepSkip | labs/architecture-examples/rxjs/js/app.js:126-129 | any round when the head is not completed |
| Todos.DropFirstNone | labs/architecture-examples/rxjs/js/app.js:126 | before the first round the collection is unchanged |
| Todos.DropFirstAll | labs/architecture-examples/rxjs/js/app.js:126-130 | after every completed record has been removed, exactly the incomplete records remain, in order |
| Todos.MarkAllAppend | labs/architecture-examples/rxjs/js/app.js:117-124 | marking distributes over concatenation |
| Todos.CountsPartition | labs/architecture-examples/rxjs/js/app.js:64-70 | completed and incomplete counts add up to the collection length |
| Todos.CountsAfterClear | labs/architecture-examples/rxjs/js/app.js:125-131 | after `clearCompleted` the completed count is 0 and the length drops by the old completed count |
| Todos.CountsAfterMarkAll | labs/architecture-examples/rxjs/js/app.js:117-124 | after `toggleAll(c)` the completed count is the whole length when c holds and 0 otherwise |
| Streams.Event.Type | labs/architecture-examples/rxjs/js/app.js:73-79 | an event's tag is one of the record tags exactly when the event carries a record |
| Streams.Carrying | labs/architecture-examples/rxjs/js/app.js:88-129 | the event built for a record tag has that tag and that record |
| Streams.CarryingOfEvent | labs/architecture-examples/rxjs/js/app.js:88-129 | every event that carries a record is rebuilt from its tag and its record |
| Streams.EventsCarrying | labs/architecture-examples/rxjs/js/app.js:119-157 | one event per record, in order, each with the given tag |
| Streams.WhereType | labs/architecture-examples/rxjs/js/rx.extras.js:19-23 | the result is no longer than the log; an event is kept exactly when it is in the log with the given tag |
| Streams.SelectTodo | labs/architecture-examples/rxjs/js/rx.extras.js:37-41 | one record per event, the record of the event at the same position |
| Streams.TodoStream | labs/architecture-examples/rxjs/js/app.js:73-75 | a record is in the stream exactly when an event with that tag and that record was published |
| Streams.AddedStream | labs/architecture-examples/rxjs/js/app.js:73 | a record is in `added` exactly when an `added` event for it was published |
| Streams.RemovedStream | labs/architecture-examples/rxjs/js/app.js:74 | a record is in `removed` exactly when a `removed` event for it was published |
| Streams.UpdatedStream | labs/architecture-examples/rxjs/js/app.js:75 | a record is in `updated` exactly when an `updated` event for it was published |
| Streams.FilterChangedStream | labs/architecture-examples/rxjs/js/app.js:77 | exactly the published `filterChanged` events |
| Streams.LengthChangedStream | labs/architecture-examples/rxjs/js/app.js:78 | exactly the published `lengthChanged` events |
| Streams.CompletedStream | labs/architecture-examples/rxjs/js/app.js:79 | exactly the published `completed` events |
| Streams.WhereTypeAppend | labs/architecture-examples/rxjs/js/rx.extras.js:19-23 | filtering by tag distributes over concatenation |
| Streams.SelectTodoAppend | labs/architecture-examples/rxjs/js/rx.extras.js:37-41 | projecting records distributes over concatenation |
| Streams.TodoStreamAppend | labs/architecture-examples/rxjs/js/app.js:73-75 | a record stream distributes over concatenation |
| Streams.WhereTypeOfCarrying | labs/architecture-examples/rxjs/js/app.js:73-79 | a run of events with one tag passes whole through that tag's filter and is dropped by every other |
| Streams.SelectTodoOfCarrying | labs/architecture-examples/rxjs/js/app.js:73-75 | projecting a run of events built from records gives back those records |
| Streams.EventsCarryingAppend | labs/architecture-examples/rxjs/js/app.js:119-157 | building events distributes over concatenation |
| Streams.EventsCarryingSnoc | labs/architecture-examples/rxjs/js/app.js:119-157 | one more loop round adds one more event |
| Streams.LogSnoc | labs/architecture-examples/rxjs/js/app.js:119-157 | publishing the j-th record's event extends the log of rounds 0..j-1 to the log of rounds 0..j |
| Streams.PublishMany | labs/architecture-examples/rxjs/js/app.js:73-79 | publishing a run of one tag extends that tag's record stream by the run's records and leaves every other stream unchanged |
| Streams.PublishOne | labs/architecture-examples/rxjs/js/app.js:73-79 | publishing one record event extends its own stream by that record and leaves every other stream unchanged |
| Streams.PublishSignal | labs/architecture-examples/rxjs/js/app.js:73-79 | an event without a record leaves the record streams unchanged and extends only its own tag's stream |
| Streams.PublishFilterReplay | labs/architecture-examples/rxjs/js/app.js:132-158 | a view change adds one `filterChanged` event, adds the replayed records to `added` in order, and leaves `removed` and `updated` unchanged |
| Store.TodoStore.constructor | labs/architecture-examples/rxjs/js/app.js:28-30 | a new store has no records and no history |
| Store.TodoStore.Create | labs/architecture-examples/rxjs/js/app.js:85-89 | appends a new incomplete record and publishes `added` for it |
| Store.TodoStore.Add | labs/architecture-examples/rxjs/js/app.js:90-93 | appends the record and publishes `added` for it |
| Store.TodoStore.Remove | labs/architecture-examples/rxjs/js/app.js:94-100 | a missing id changes nothing; otherwise only the first match leaves, the others keep their order, and `removed` is published with the old record |
| Store.TodoStore.Update | labs/architecture-examples/rxjs/js/app.js:101-108 | a missing id changes nothing; otherwise the first match gets the new title at the same index, keeps its id and flag, every other entry is unchanged, and `updated` carries the new record |
| Store.TodoStore.Toggle | labs/architecture-examples/rxjs/js/app.js:109-116 | a missing id changes nothing; otherwise the first match has its flag flipped at the same index, every other entry is unchanged, and `updated` carries the new record |
| Store.TodoStore.ToggleAll | labs/architecture-examples/rxjs/js/app.js:117-124 | the collection becomes `MarkAll`, and one `updated` event goes out per record that had the other value, in collection order |
| Store.TodoStore.ClearCompleted | labs/architecture-examples/rxjs/js/app.js:125-131 | exactly the incomplete records remain, in order, and one `removed` event goes out per completed record, in order |
| Store.TodoStore.ShowAll | labs/architecture-examples/rxjs/js/app.js:132-140 | the collection is unchanged; `filterChanged(all)` goes out, then `added` for every record in order |
| Store.TodoStore.ShowIncomplete | labs/architecture-examples/rxjs/js/app.js:141-149 | the collection is unchanged; `filterChanged(incomplete)` goes out, then `added` for each incomplete record in order |
| Store.TodoStore.ShowCompleted | labs/architecture-examples/rxjs/js/app.js:150-158 | the collection is unchanged; `filterChanged(completed)` goes out, then `added` for each completed record in order |
| Store.TodoStore.PublishLengthChanged | labs/architecture-examples/rxjs/js/app.js:161-165 | the collection is unchanged, and the payload is the record count at emission time |
| Store.TodoStore.PublishCompletedCount | labs/architecture-examples/rxjs/js/app.js:167-172 | the collection is unchanged, and the payload is the completed count at emission time |
| Store.TodoStore.Load | labs/architecture-examples/rxjs/js/app.js:175-180 | the stored records are appended in order, with one `added` event each |
| Store.TodoStore.Initialize | labs/architecture-examples/rxjs/js/app.js:81-83 | nothing stored changes nothing; otherwise it acts as `Load` of the stored list |
| Store.TodoStore.Replay | labs/architecture-examples/rxjs/js/app.js:137-157 | an `added` event per record of the view, in order; the collection is unchanged |
| Store.TodoStore.MarkOne | labs/architecture-examples/rxjs/js/app.js:120-122 | one round of `toggleAll`: the state moves from round j to round j+1 and one `updated` event goes out |
| Store.TodoStore.DropOne | labs/architecture-examples/rxjs/js/app.js:128-129 | one round of `clearCompleted`: the state moves from round j to round j+1 and one `removed` event goes out |
| Store.TodoStore.Delete | labs/architecture-examples/rxjs/js/app.js:56-58 | splices out the entry at its `indexOf` and publishes nothing |
| Store.TodoStore.Replace | labs/architecture-examples/rxjs/js/app.js:60-62 | splices in the new record at the old record's `indexOf` and publishes nothing |
| Store.TodoStore.Push | labs/architecture-examples/rxjs/js/app.js:52-54 | appends and publishes nothing |
| Store.TodoStore.Publish | labs/architecture-examples/rxjs/js/app.js:88 | appends one event to the history and leaves the collection alone |
| Store.UpdatedEventsSnoc | labs/architecture-examples/rxjs/js/app.js:119-123 | one more `toggleAll` round adds the `updated` event of the next marked record |
| Store.IncompleteOfThree | labs/architecture-examples/rxjs/js/app.js:64-66 | of an incomplete, a completed and an incomplete record, only the two incomplete ones are listed, in order |
| Store.LoadFresh | labs/architecture-examples/rxjs/js/app.js:175-180 | loading into a new store gives exactly the stored records, `added` replays them in order, and nothing is removed or updated |
| Store.ToggleTwice | labs/architecture-examples/rxjs/js/app.js:109-116 | two toggles of one id restore the collection; when the id is found, `updated` carries the flipped first match and then the original record, and otherwise nothing is published |
| Store.RemoveTwice | labs/architecture-examples/rxjs/js/app.js:94-100 | with distinct ids, two removes of one id take out only the first match, publish exactly one `removed` with it (nothing when the id is missing), and the ids stay distinct |
| Store.ClearCompletedScenario | labs/architecture-examples/rxjs/js/app.js:125-172 | after creating two records, toggling the first and clearing, only the second is left, and the count payloads are 0 completed and 1 record; this holds also when both creates get the same id |
| Store.ShowIncompleteScenario | labs/architecture-examples/rxjs/js/app.js:141-149 | on three records, the middle one completed, `showIncomplete` publishes `filterChanged(incomplete)` and then `added` for the first and third |

## Left out

- The 30-millisecond throttle `throttle(30)` on `lengthChanged`, `completed` and the two count subscriptions (app.js:78-79, 161-172) is timing. The model turns the count subscriptions into two methods that publish the payload computed at the moment of emission. It does not model which emissions a throttle drops or merges.
- Rx subject semantics are not modelled: subscription, multicast to observers, synchronous re-entry from an observer, and the exact `asObservable` wrapper. The subject is the list of events published so far.
- `nextId` (app.js:32-34) reads the clock. The id is a parameter of `Create`, supplied by the caller.
- Persistence to `localStorage` is not modelled: reading the key, `JSON.parse`, and `save` on every `added`, `removed` and `updated` (app.js:176, 182-191). `Initialize` takes what was read as an `Option` of a record list. `JSON.parse` throws on malformed data; `Initialize` has no input for that case.
- `rx.debug.js` and the DOM binding and view code (app.js:196-448) are not part of this model. That includes the view that routes an edit whose trimmed text is empty to `remove`.
- `Todos.IndexOf`: JavaScript's `indexOf` compares by reference, while the model compares by value. Every call the store makes passes a record from the collection itself. That record is either the first match for its id, or the j-th snapshot entry of a loop whose earlier entries have already changed. `IndexOfFirstById`, `MarkFirstStep` and `DropFirstStep` show that the first equal value sits at that record's own index, so the two comparisons agree on those calls. Aliasing between collection entries and records held elsewhere is not modelled.
- `indexOf` returning -1 would make `splice(-1, 1)` drop the last entry. The model's `Delete` and `Replace` require the record to be present. Every call site proves that it is, so that path is never reached.
- Extra properties on stored records survive the code's `_.extend`. The `Todo` record has only `id`, `title` and `completed`, so such extra properties are not modelled.
- The code never enforces distinct ids. `create` takes a millisecond clock value, and `add` or `load` accept any id. The model therefore does not keep distinctness as a class invariant. Instead, lemmas show that each operation preserves it (the `KeepsUnique` lemmas, `RemoveTwice`). `SecondRemoveFindsNextMatch` shows what happens without it, and `DuplicateIdsSecondRemove` gives a concrete pair.
