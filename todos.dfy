/**
 * Todo records and the pure helpers of the todo store: lookup by id, the
 * `where` query on the completed flag, the record-copying update, and the two
 * array splices the store performs.
 */
module Todos {

  datatype Option<T> = None | Some(value: T)

  /** A todo record `{id, title, completed}`. */
  datatype Todo = Todo(id: string, title: string, completed: bool)

  /** The property bag handed to the record-copying helper. */
  datatype Change = SetTitle(title: string) | SetCompleted(completed: bool)

  /** Ids are pairwise distinct. The store never checks this; it is only a hypothesis of some lemmas. */
  ghost predicate UniqueIds(s: seq<Todo>) {
    forall i, j :: 0 <= i < j < |s| ==> s[i].id != s[j].id
  }

  /** The helper `create(id, title)`: a fresh, incomplete record. */
  function NewTodo(id: string, title: string): (t: Todo)
    ensures t.id == id && t.title == title && !t.completed
  {
    Todo(id, title, false)
  }

  /** The helper `update(todo, changes)`: a copy of `t` with the changed property overwritten. */
  function Extend(t: Todo, change: Change): (r: Todo)
    ensures r.id == t.id
    ensures change.SetTitle? ==> r.title == change.title && r.completed == t.completed
    ensures change.SetCompleted? ==> r.title == t.title && r.completed == change.completed
  {
    match change
    case SetTitle(title) => t.(title := title)
    case SetCompleted(completed) => t.(completed := completed)
  }

  /** The copy made by toggleAll. */
  function Mark(t: Todo, completed: bool): Todo {
    Extend(t, SetCompleted(completed))
  }

  /** The copy made by toggle. */
  function Flip(t: Todo): Todo {
    Extend(t, SetCompleted(!t.completed))
  }

  /** Position of the first record with this id, or -1: where the linear scan of `_.findWhere` stops. */
  function FindIndex(s: seq<Todo>, id: string): (k: int)
    ensures -1 <= k < |s|
    ensures k == -1 <==> forall i :: 0 <= i < |s| ==> s[i].id != id
    ensures 0 <= k ==> s[k].id == id && forall i :: 0 <= i < k ==> s[i].id != id
  {
    if s == [] then -1
    else if s[0].id == id then 0
    else
      var k := FindIndex(s[1..], id);
      if k == -1 then -1 else k + 1
  }

  /** The helper `find(id)`: the first record with this id, if any. */
  function Find(s: seq<Todo>, id: string): (r: Option<Todo>)
    ensures r.None? <==> forall i :: 0 <= i < |s| ==> s[i].id != id
    ensures r.Some? ==> r.value.id == id && r.value in s
    ensures r.Some? ==> 0 <= FindIndex(s, id) && r.value == s[FindIndex(s, id)]
  {
    if s == [] then None
    else if s[0].id == id then Some(s[0])
    else Find(s[1..], id)
  }

  /** `Array.prototype.indexOf`: position of the first element equal to `t`, or -1. */
  function IndexOf(s: seq<Todo>, t: Todo): (k: int)
    ensures -1 <= k < |s|
    ensures k == -1 <==> t !in s
    ensures 0 <= k ==> s[k] == t && forall i :: 0 <= i < k ==> s[i] != t
  {
    if s == [] then -1
    else if s[0] == t then 0
    else
      var k := IndexOf(s[1..], t);
      if k == -1 then -1 else k + 1
  }

  /** `splice(i, 1)`: delete the element at `i` and close the gap. */
  function RemoveAt(s: seq<Todo>, i: nat): (r: seq<Todo>)
    requires i < |s|
    ensures |r| == |s| - 1
  {
    s[..i] + s[i + 1..]
  }

  /** `splice(i, 1)` keeps the elements before `i` and shifts the ones after it down by one. */
  lemma RemoveAtElements(s: seq<Todo>, i: nat)
    requires i < |s|
    ensures RemoveAt(s, i)[..i] == s[..i] && RemoveAt(s, i)[i..] == s[i + 1..]
    ensures forall j :: 0 <= j < i ==> RemoveAt(s, i)[j] == s[j]
    ensures forall j :: i <= j < |s| - 1 ==> RemoveAt(s, i)[j] == s[j + 1]
  {
  }

  /** `splice(i, 1, t)`: overwrite the element at `i`. */
  function ReplaceAt(s: seq<Todo>, i: nat, t: Todo): (r: seq<Todo>)
    requires i < |s|
    ensures |r| == |s| && r[i] == t
  {
    s[..i] + [t] + s[i + 1..]
  }

  /** `splice(i, 1, t)` leaves every other element where it was. */
  lemma ReplaceAtElements(s: seq<Todo>, i: nat, t: Todo)
    requires i < |s|
    ensures forall j :: 0 <= j < |s| && j != i ==> ReplaceAt(s, i, t)[j] == s[j]
  {
  }

  /** The helper `findAll({completed: completed})`, i.e. `_.where`: the matching records in collection order. */
  function FindAll(s: seq<Todo>, completed: bool): (r: seq<Todo>)
    ensures |r| <= |s|
    ensures forall i :: 0 <= i < |r| ==> r[i].completed == completed
  {
    if s == [] then []
    else (if s[0].completed == completed then [s[0]] else []) + FindAll(s[1..], completed)
  }

  /** `findAll` keeps exactly the matching records. */
  lemma {:induction false} FindAllMembers(s: seq<Todo>, completed: bool)
    ensures forall t :: t in FindAll(s, completed) <==> t in s && t.completed == completed
  {
    if s != [] {
      FindAllMembers(s[1..], completed);
      assert s == [s[0]] + s[1..];
    }
  }

  /** `findAll` keeps order and multiplicity: filtering a concatenation filters each part. */
  lemma {:induction false} FindAllAppend(a: seq<Todo>, b: seq<Todo>, completed: bool)
    ensures FindAll(a + b, completed) == FindAll(a, completed) + FindAll(b, completed)
  {
    if a == [] {
      assert a + b == b;
    } else {
      assert (a + b)[1..] == a[1..] + b;
      FindAllAppend(a[1..], b, completed);
    }
  }

  /** `findAll` on one record keeps it exactly when it matches. */
  lemma FindAllSingle(t: Todo, completed: bool)
    ensures FindAll([t], completed) == if t.completed == completed then [t] else []
  {
    assert [t][1..] == [];
  }

  /** The helper `incompleteTodos()`. */
  function IncompleteTodos(s: seq<Todo>): (r: seq<Todo>)
    ensures forall t :: t in r <==> t in s && !t.completed
  {
    FindAllMembers(s, false);
    FindAll(s, false)
  }

  /** The helper `completedTodos()`. */
  function CompletedTodos(s: seq<Todo>): (r: seq<Todo>)
    ensures forall t :: t in r <==> t in s && t.completed
  {
    FindAllMembers(s, true);
    FindAll(s, true)
  }

  /** Every record given `completed`: the collection toggleAll leaves. */
  function MarkAll(s: seq<Todo>, completed: bool): (r: seq<Todo>)
    ensures |r| == |s|
    ensures forall i :: 0 <= i < |s| ==>
      r[i].id == s[i].id && r[i].title == s[i].title && r[i].completed == completed
  {
    if s == [] then [] else [Mark(s[0], completed)] + MarkAll(s[1..], completed)
  }

  /** The collection after toggleAll has processed the first `n` records of its snapshot. */
  ghost function MarkFirst(s: seq<Todo>, completed: bool, n: nat): seq<Todo> {
    if s == [] then []
    else if s[0].completed != completed && n > 0 then [Mark(s[0], completed)] + MarkFirst(s[1..], completed, n - 1)
    else [s[0]] + MarkFirst(s[1..], completed, n)
  }

  /** The collection after clearCompleted has removed the first `n` records of its snapshot. */
  ghost function DropFirst(s: seq<Todo>, n: nat): seq<Todo> {
    if s == [] then []
    else if s[0].completed && n > 0 then DropFirst(s[1..], n - 1)
    else [s[0]] + DropFirst(s[1..], n)
  }

  // ---- lookup ----

  /** The record found by id is also where `indexOf` finds it, so splicing at `indexOf` hits the first match. */
  lemma IndexOfFirstById(s: seq<Todo>, id: string)
    requires 0 <= FindIndex(s, id)
    ensures IndexOf(s, s[FindIndex(s, id)]) == FindIndex(s, id)
  {
    var k := FindIndex(s, id);
    var m := IndexOf(s, s[k]);
    assert s[m].id == id;
  }

  /** Records never change position under a replacement that keeps the id, so the first match stays put. */
  lemma {:induction false} FindIndexAfterReplace(s: seq<Todo>, id: string, t: Todo)
    requires 0 <= FindIndex(s, id) && t.id == id
    ensures FindIndex(ReplaceAt(s, FindIndex(s, id), t), id) == FindIndex(s, id)
  {
    var k := FindIndex(s, id);
    var r := ReplaceAt(s, k, t);
    ReplaceAtElements(s, k, t);
    assert r[k].id == id;
    assert forall i :: 0 <= i < k ==> r[i].id != id by {
      forall i | 0 <= i < k ensures r[i].id != id { assert r[i] == s[i]; }
    }
  }

  /** toggle applied twice to the first record with `id` restores the collection. */
  lemma ToggleTwiceRestores(s: seq<Todo>, id: string)
    requires 0 <= FindIndex(s, id)
    ensures var k := FindIndex(s, id);
      var s1 := ReplaceAt(s, k, Flip(s[k]));
      FindIndex(s1, id) == k && s1[k].completed == !s[k].completed &&
      ReplaceAt(s1, k, Flip(s1[k])) == s
  {
    var k := FindIndex(s, id);
    FindIndexAfterReplace(s, id, Flip(s[k]));
    var s1 := ReplaceAt(s, k, Flip(s[k]));
    var s2 := ReplaceAt(s1, k, Flip(s1[k]));
    ReplaceAtElements(s, k, Flip(s[k]));
    ReplaceAtElements(s1, k, Flip(s1[k]));
    assert s2[k] == s[k];
    assert forall j :: 0 <= j < |s| ==> s2[j] == s[j];
  }

  /** With distinct ids, once the record with `id` is removed no record with that id is left. */
  lemma RemoveTwiceNoOp(s: seq<Todo>, id: string)
    requires UniqueIds(s) && 0 <= FindIndex(s, id)
    ensures FindIndex(RemoveAt(s, FindIndex(s, id)), id) == -1
  {
    var k := FindIndex(s, id);
    var r := RemoveAt(s, k);
    RemoveAtElements(s, k);
    forall i | 0 <= i < |r| ensures r[i].id != id {
      if i < k { assert r[i] == s[i]; } else { assert r[i] == s[i + 1]; }
    }
  }

  /** After the first record with `id` is removed, a second lookup finds the next record with `id`
      after it, if there is one, now shifted down by one. */
  lemma SecondRemoveFindsNextMatch(s: seq<Todo>, id: string)
    requires 0 <= FindIndex(s, id)
    ensures var k := FindIndex(s, id);
      var m := FindIndex(s[k + 1..], id);
      FindIndex(RemoveAt(s, k), id) == if m == -1 then -1 else k + m
  {
    var k := FindIndex(s, id);
    var t := s[k + 1..];
    var m := FindIndex(t, id);
    var r := RemoveAt(s, k);
    RemoveAtElements(s, k);
    if m == -1 {
      forall i | 0 <= i < |r| ensures r[i].id != id {
        if i < k { assert r[i] == s[i]; } else { assert r[i] == t[i - k]; }
      }
    } else {
      assert r[k + m] == t[m];
      forall i | 0 <= i < k + m ensures r[i].id != id {
        if i < k { assert r[i] == s[i]; } else { assert r[i] == t[i - k]; }
      }
    }
  }

  /** An instance of `SecondRemoveFindsNextMatch`: without distinct ids a second removal finds the next duplicate. */
  lemma DuplicateIdsSecondRemove()
    ensures var a := Todo("1", "a", false);
      var b := Todo("1", "b", true);
      FindIndex(RemoveAt([a, b], FindIndex([a, b], "1")), "1") == 0
  {
    var a := Todo("1", "a", false);
    var b := Todo("1", "b", true);
    SecondRemoveFindsNextMatch([a, b], "1");
    assert [a, b][1..] == [b];
  }

  // ---- uniqueness is kept by every operation given fresh ids ----

  lemma AppendFreshKeepsUnique(s: seq<Todo>, t: Todo)
    requires UniqueIds(s) && forall i :: 0 <= i < |s| ==> s[i].id != t.id
    ensures UniqueIds(s + [t])
  {
  }

  lemma RemoveAtKeepsUnique(s: seq<Todo>, k: nat)
    requires UniqueIds(s) && k < |s|
    ensures UniqueIds(RemoveAt(s, k))
  {
    var r := RemoveAt(s, k);
    RemoveAtElements(s, k);
    forall i, j | 0 <= i < j < |r| ensures r[i].id != r[j].id {
      var i' := if i < k then i else i + 1;
      var j' := if j < k then j else j + 1;
      assert r[i] == s[i'] && r[j] == s[j'];
    }
  }

  lemma ReplaceSameIdKeepsUnique(s: seq<Todo>, k: nat, t: Todo)
    requires UniqueIds(s) && k < |s| && t.id == s[k].id
    ensures UniqueIds(ReplaceAt(s, k, t))
  {
    var r := ReplaceAt(s, k, t);
    ReplaceAtElements(s, k, t);
    assert forall i :: 0 <= i < |s| ==> r[i].id == s[i].id;
  }

  lemma {:induction false} FindAllKeepsUnique(s: seq<Todo>, completed: bool)
    requires UniqueIds(s)
    ensures UniqueIds(FindAll(s, completed))
  {
    if s != [] {
      var rest := FindAll(s[1..], completed);
      assert UniqueIds(s[1..]) by {
        forall i, j | 0 <= i < j < |s[1..]| ensures s[1..][i].id != s[1..][j].id {
          assert s[1..][i] == s[i + 1] && s[1..][j] == s[j + 1];
        }
      }
      FindAllKeepsUnique(s[1..], completed);
      FindAllMembers(s[1..], completed);
      if s[0].completed == completed {
        forall t | t in rest ensures t.id != s[0].id {
          var i :| 0 <= i < |s[1..]| && s[1..][i] == t;
          assert s[i + 1] == t;
        }
        assert FindAll(s, completed) == [s[0]] + rest;
      } else {
        assert FindAll(s, completed) == rest;
      }
    }
  }

  lemma MarkAllKeepsUnique(s: seq<Todo>, completed: bool)
    requires UniqueIds(s)
    ensures UniqueIds(MarkAll(s, completed))
  {
    var r := MarkAll(s, completed);
    assert forall i :: 0 <= i < |s| ==> r[i].id == s[i].id;
  }

  // ---- the snapshot loops of toggleAll and clearCompleted ----

  lemma {:induction false} ReplaceAtCons(x: Todo, u: seq<Todo>, i: nat, t: Todo)
    requires i < |u|
    ensures ReplaceAt([x] + u, i + 1, t) == [x] + ReplaceAt(u, i, t)
  {
  }

  lemma {:induction false} RemoveAtCons(x: Todo, u: seq<Todo>, i: nat)
    requires i < |u|
    ensures RemoveAt([x] + u, i + 1) == [x] + RemoveAt(u, i)
  {
  }

  lemma {:induction false} IndexOfCons(x: Todo, u: seq<Todo>, t: Todo)
    requires x != t && t in u
    ensures IndexOf([x] + u, t) == IndexOf(u, t) + 1
  {
    assert ([x] + u)[1..] == u;
  }

  /** One step of toggleAll: the next snapshot record is still in the collection, and replacing it
      where `indexOf` finds it marks exactly one more record of the snapshot. */
  lemma {:induction false} MarkFirstStep(s: seq<Todo>, completed: bool, j: nat)
    requires j < |FindAll(s, !completed)|
    ensures var cur := MarkFirst(s, completed, j);
      var t := FindAll(s, !completed)[j];
      t in cur && ReplaceAt(cur, IndexOf(cur, t), Mark(t, completed)) == MarkFirst(s, completed, j + 1)
    decreases |s|, 1
  {
    if s[0].completed == completed {
      MarkFirstStepSkip(s, completed, j);
    } else if j == 0 {
      MarkFirstStepHere(s, completed);
    } else {
      MarkFirstStepPast(s, completed, j);
    }
  }

  /** The snapshot's next record is the head of the collection. */
  lemma MarkFirstStepHere(s: seq<Todo>, completed: bool)
    requires s != [] && s[0].completed != completed
    ensures 0 < |FindAll(s, !completed)|
    ensures var cur := MarkFirst(s, completed, 0);
      var t := FindAll(s, !completed)[0];
      t in cur && ReplaceAt(cur, IndexOf(cur, t), Mark(t, completed)) == MarkFirst(s, completed, 1)
  {
    assert FindAll(s, !completed) == [s[0]] + FindAll(s[1..], !completed);
    var cur := MarkFirst(s, completed, 0);
    assert cur == [s[0]] + MarkFirst(s[1..], completed, 0);
    assert IndexOf(cur, s[0]) == 0;
  }

  /** The head is a snapshot record that was already marked: the step happens in the tail. */
  lemma {:induction false} MarkFirstStepPast(s: seq<Todo>, completed: bool, j: nat)
    requires s != [] && s[0].completed != completed && 0 < j
    requires j < |FindAll(s, !completed)|
    ensures var cur := MarkFirst(s, completed, j);
      var t := FindAll(s, !completed)[j];
      t in cur && ReplaceAt(cur, IndexOf(cur, t), Mark(t, completed)) == MarkFirst(s, completed, j + 1)
    decreases |s|, 0
  {
    var x, r := s[0], s[1..];
    assert FindAll(s, !completed) == [x] + FindAll(r, !completed);
    MarkFirstStep(r, completed, j - 1);
    var t := FindAll(r, !completed)[j - 1];
    assert FindAll(s, !completed)[j] == t;
    var cur := MarkFirst(r, completed, j - 1);
    var m := Mark(x, completed);
    assert MarkFirst(s, completed, j) == [m] + cur;
    assert MarkFirst(s, completed, j + 1) == [m] + MarkFirst(r, completed, j);
    assert t.completed == !completed;
    IndexOfCons(m, cur, t);
    ReplaceAtCons(m, cur, IndexOf(cur, t), Mark(t, completed));
  }

  /** The head already had the target value: the step happens in the tail. */
  lemma {:induction false} MarkFirstStepSkip(s: seq<Todo>, completed: bool, j: nat)
    requires s != [] && s[0].completed == completed
    requires j < |FindAll(s, !completed)|
    ensures var cur := MarkFirst(s, completed, j);
      var t := FindAll(s, !completed)[j];
      t in cur && ReplaceAt(cur, IndexOf(cur, t), Mark(t, completed)) == MarkFirst(s, completed, j + 1)
    decreases |s|, 0
  {
    var x, r := s[0], s[1..];
    assert FindAll(s, !completed) == FindAll(r, !completed);
    MarkFirstStep(r, completed, j);
    var t := FindAll(r, !completed)[j];
    var cur := MarkFirst(r, completed, j);
    assert MarkFirst(s, completed, j) == [x] + cur;
    assert MarkFirst(s, completed, j + 1) == [x] + MarkFirst(r, completed, j + 1);
    assert t.completed == !completed;
    IndexOfCons(x, cur, t);
    ReplaceAtCons(x, cur, IndexOf(cur, t), Mark(t, completed));
  }

  lemma {:induction false} MarkFirstNone(s: seq<Todo>, completed: bool)
    ensures MarkFirst(s, completed, 0) == s
  {
    if s != [] { MarkFirstNone(s[1..], completed); }
  }

  /** Once the whole snapshot is processed, every record is marked. */
  lemma {:induction false} MarkFirstAll(s: seq<Todo>, completed: bool, n: nat)
    requires n == |FindAll(s, !completed)|
    ensures MarkFirst(s, completed, n) == MarkAll(s, completed)
  {
    if s != [] {
      if s[0].completed != completed {
        assert FindAll(s, !completed) == [s[0]] + FindAll(s[1..], !completed);
        MarkFirstAll(s[1..], completed, n - 1);
      } else {
        assert FindAll(s, !completed) == FindAll(s[1..], !completed);
        assert Mark(s[0], completed) == s[0];
        MarkFirstAll(s[1..], completed, n);
      }
    }
  }

  /** One step of clearCompleted: the next snapshot record is still in the collection, and splicing it
      out where `indexOf` finds it removes exactly one more record of the snapshot. */
  lemma {:induction false} DropFirstStep(s: seq<Todo>, j: nat)
    requires j < |FindAll(s, true)|
    ensures var cur := DropFirst(s, j);
      var t := FindAll(s, true)[j];
      t in cur && RemoveAt(cur, IndexOf(cur, t)) == DropFirst(s, j + 1)
    decreases |s|, 1
  {
    if !s[0].completed {
      DropFirstStepSkip(s, j);
    } else if j == 0 {
      DropFirstStepHere(s);
    } else {
      DropFirstStepPast(s, j);
    }
  }

  /** The snapshot's next record is the head of the collection. */
  lemma DropFirstStepHere(s: seq<Todo>)
    requires s != [] && s[0].completed
    ensures 0 < |FindAll(s, true)|
    ensures var cur := DropFirst(s, 0);
      var t := FindAll(s, true)[0];
      t in cur && RemoveAt(cur, IndexOf(cur, t)) == DropFirst(s, 1)
  {
    assert FindAll(s, true) == [s[0]] + FindAll(s[1..], true);
    var cur := DropFirst(s, 0);
    assert cur == [s[0]] + DropFirst(s[1..], 0);
    assert IndexOf(cur, s[0]) == 0;
  }

  /** The head was a snapshot record already removed: the step happens in the tail. */
  lemma {:induction false} DropFirstStepPast(s: seq<Todo>, j: nat)
    requires s != [] && s[0].completed && 0 < j
    requires j < |FindAll(s, true)|
    ensures var cur := DropFirst(s, j);
      var t := FindAll(s, true)[j];
      t in cur && RemoveAt(cur, IndexOf(cur, t)) == DropFirst(s, j + 1)
    decreases |s|, 0
  {
    assert FindAll(s, true) == [s[0]] + FindAll(s[1..], true);
    DropFirstStep(s[1..], j - 1);
    assert FindAll(s, true)[j] == FindAll(s[1..], true)[j - 1];
    assert DropFirst(s, j) == DropFirst(s[1..], j - 1);
    assert DropFirst(s, j + 1) == DropFirst(s[1..], j);
  }

  /** The head is incomplete and stays: the step happens in the tail. */
  lemma {:induction false} DropFirstStepSkip(s: seq<Todo>, j: nat)
    requires s != [] && !s[0].completed
    requires j < |FindAll(s, true)|
    ensures var cur := DropFirst(s, j);
      var t := FindAll(s, true)[j];
      t in cur && RemoveAt(cur, IndexOf(cur, t)) == DropFirst(s, j + 1)
    decreases |s|, 0
  {
    var x, r := s[0], s[1..];
    assert FindAll(s, true) == FindAll(r, true);
    DropFirstStep(r, j);
    var t := FindAll(r, true)[j];
    var cur := DropFirst(r, j);
    assert DropFirst(s, j) == [x] + cur;
    assert DropFirst(s, j + 1) == [x] + DropFirst(r, j + 1);
    assert t.completed;
    IndexOfCons(x, cur, t);
    RemoveAtCons(x, cur, IndexOf(cur, t));
  }

  lemma {:induction false} DropFirstNone(s: seq<Todo>)
    ensures DropFirst(s, 0) == s
  {
    if s != [] { DropFirstNone(s[1..]); }
  }

  /** Once the whole snapshot is removed, exactly the incomplete records remain, in order. */
  lemma {:induction false} DropFirstAll(s: seq<Todo>, n: nat)
    requires n == |FindAll(s, true)|
    ensures DropFirst(s, n) == FindAll(s, false)
  {
    if s != [] {
      if s[0].completed {
        assert FindAll(s, true) == [s[0]] + FindAll(s[1..], true);
        DropFirstAll(s[1..], n - 1);
      } else {
        assert FindAll(s, true) == FindAll(s[1..], true);
        DropFirstAll(s[1..], n);
      }
    }
  }

  lemma {:induction false} MarkAllAppend(a: seq<Todo>, b: seq<Todo>, completed: bool)
    ensures MarkAll(a + b, completed) == MarkAll(a, completed) + MarkAll(b, completed)
  {
    if a != [] {
      assert (a + b)[1..] == a[1..] + b;
      MarkAllAppend(a[1..], b, completed);
    }
  }

  // ---- the count payloads ----

  /** Every record is counted once, as completed or as incomplete. */
  lemma {:induction false} CountsPartition(s: seq<Todo>)
    ensures |CompletedTodos(s)| + |IncompleteTodos(s)| == |s|
  {
    if s != [] { CountsPartition(s[1..]); }
  }

  /** After clearCompleted the completed count is 0 and the length is the old incomplete count. */
  lemma {:induction false} CountsAfterClear(s: seq<Todo>)
    ensures |CompletedTodos(FindAll(s, false))| == 0
    ensures |FindAll(s, false)| == |s| - |CompletedTodos(s)|
  {
    CountsPartition(s);
    if s != [] {
      CountsAfterClear(s[1..]);
      var u := FindAll(s[1..], false);
      if !s[0].completed {
        assert FindAll(s, false) == [s[0]] + u;
        assert ([s[0]] + u)[1..] == u;
        assert FindAll([s[0]] + u, true) == FindAll(u, true);
      } else {
        assert FindAll(s, false) == u;
      }
    }
  }

  /** After toggleAll the completed count is the length or 0. */
  lemma {:induction false} CountsAfterMarkAll(s: seq<Todo>, completed: bool)
    ensures |CompletedTodos(MarkAll(s, completed))| == if completed then |s| else 0
  {
    if s != [] {
      CountsAfterMarkAll(s[1..], completed);
      var m := MarkAll(s, completed);
      assert m[1..] == MarkAll(s[1..], completed);
    }
  }
}
