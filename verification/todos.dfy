/** Todo records and the two by-key list updates the client applies to its
    local copy of the list: map-replace (after an update) and filter (after a
    delete). Neither assumes that ids are unique: every entry whose id
    matches is affected. */
module Todos {

  /** The server-assigned `_id`, compared with `===`. */
  type Id = string

  /** One todo record as the server returns it. */
  datatype Todo = Todo(id: Id, text: string, completed: bool)

  /** Whether some entry of `todos` has id `id`. */
  predicate HasId(todos: seq<Todo>, id: Id) {
    exists k :: 0 <= k < |todos| && todos[k].id == id
  }

  /** No two entries share an id. The client never checks this; it holds
      only when the server's replies keep it. */
  predicate UniqueIds(todos: seq<Todo>) {
    forall i, j :: 0 <= i < j < |todos| ==> todos[i].id != todos[j].id
  }

  /** The number of entries whose id is `id`. */
  function CountId(todos: seq<Todo>, id: Id): (n: nat)
    ensures n <= |todos|
    ensures n == 0 <==> !HasId(todos, id)
  {
    if todos == [] then 0
    else
      assert HasId(todos, id) <==> todos[0].id == id || HasId(todos[1..], id) by {
        if HasId(todos, id) && todos[0].id != id {
          var k :| 0 <= k < |todos| && todos[k].id == id;
          assert todos[1..][k - 1].id == id;
        }
        if HasId(todos[1..], id) {
          var k :| 0 <= k < |todos[1..]| && todos[1..][k].id == id;
          assert todos[k + 1].id == id;
        }
      }
      (if todos[0].id == id then 1 else 0) + CountId(todos[1..], id)
  }

  /** `todos.map(t => t._id === id ? rec : t)`: every entry whose id matches
      becomes `rec`, every other entry stays where and what it was. */
  function ReplaceById(todos: seq<Todo>, id: Id, rec: Todo): (r: seq<Todo>)
    ensures |r| == |todos|
    ensures forall k :: 0 <= k < |todos| && todos[k].id == id ==> r[k] == rec
    ensures forall k :: 0 <= k < |todos| && todos[k].id != id ==> r[k] == todos[k]
  {
    if todos == [] then []
    else [if todos[0].id == id then rec else todos[0]] + ReplaceById(todos[1..], id, rec)
  }

  /** `todos.filter(t => t._id !== id)`: drops every entry whose id
      matches, keeping the others in order. */
  function RemoveById(todos: seq<Todo>, id: Id): (r: seq<Todo>)
    ensures !HasId(r, id)
  {
    if todos == [] then []
    else (if todos[0].id == id then [] else [todos[0]]) + RemoveById(todos[1..], id)
  }

  /** Removing by id shortens the list by exactly the number of matching
      entries. */
  lemma {:induction false} RemoveByIdLength(todos: seq<Todo>, id: Id)
    ensures |RemoveById(todos, id)| == |todos| - CountId(todos, id)
  {
    if todos != [] {
      RemoveByIdLength(todos[1..], id);
    }
  }

  /** Removing by id keeps exactly the records whose id differs. */
  lemma RemoveByIdMembers(todos: seq<Todo>, id: Id)
    ensures forall t :: t in RemoveById(todos, id) <==> t in todos && t.id != id
  {
  }

  /** Replacing entries that are not there changes nothing. */
  lemma ReplaceByIdAbsent(todos: seq<Todo>, id: Id, rec: Todo)
    requires !HasId(todos, id)
    ensures ReplaceById(todos, id, rec) == todos
  {
  }

  /** Replacing by id is stable under splitting the list: the entries of
      each part are rewritten in place and the parts keep their order. */
  lemma ReplaceByIdConcat(a: seq<Todo>, b: seq<Todo>, id: Id, rec: Todo)
    ensures ReplaceById(a + b, id, rec) == ReplaceById(a, id, rec) + ReplaceById(b, id, rec)
  {
  }

  /** Applying the same replacement twice is applying it once, whatever the
      id of the replacement record. */
  lemma ReplaceByIdIdempotent(todos: seq<Todo>, id: Id, rec: Todo)
    ensures ReplaceById(ReplaceById(todos, id, rec), id, rec) == ReplaceById(todos, id, rec)
  {
  }

  /** A replacement record that carries the id it replaces keeps ids
      unique, and keeps every position's id. */
  lemma ReplaceByIdKeepsIds(todos: seq<Todo>, id: Id, rec: Todo)
    requires rec.id == id
    ensures forall k :: 0 <= k < |todos| ==> ReplaceById(todos, id, rec)[k].id == todos[k].id
    ensures UniqueIds(todos) ==> UniqueIds(ReplaceById(todos, id, rec))
  {
  }

  /** Removing by id keeps every other record exactly as often as it
      occurred, and none of the matching ones. */
  lemma {:induction false} RemoveByIdCounts(todos: seq<Todo>, id: Id, t: Todo)
    ensures multiset(RemoveById(todos, id))[t] == if t.id == id then 0 else multiset(todos)[t]
  {
    if todos != [] {
      var h := if todos[0].id == id then [] else [todos[0]];
      RemoveByIdCounts(todos[1..], id, t);
      assert todos == [todos[0]] + todos[1..];
      assert multiset(RemoveById(todos, id)) == multiset(h) + multiset(RemoveById(todos[1..], id));
    }
  }

  /** Removing entries that are not there changes nothing. */
  lemma {:induction false} RemoveByIdAbsent(todos: seq<Todo>, id: Id)
    requires !HasId(todos, id)
    ensures RemoveById(todos, id) == todos
  {
    if todos != [] {
      RemoveByIdAbsent(todos[1..], id);
      assert todos == [todos[0]] + todos[1..];
    }
  }

  /** Deleting twice is deleting once. */
  lemma RemoveByIdIdempotent(todos: seq<Todo>, id: Id)
    ensures RemoveById(RemoveById(todos, id), id) == RemoveById(todos, id)
  {
    RemoveByIdAbsent(RemoveById(todos, id), id);
  }

  /** Filtering is stable under splitting the list: survivors keep their
      original relative order. */
  lemma {:induction false} RemoveByIdConcat(a: seq<Todo>, b: seq<Todo>, id: Id)
    ensures RemoveById(a + b, id) == RemoveById(a, id) + RemoveById(b, id)
  {
    if a == [] {
      assert a + b == b;
    } else {
      var h := if a[0].id == id then [] else [a[0]];
      assert (a + b)[0] == a[0] && (a + b)[1..] == a[1..] + b;
      calc {
        RemoveById(a + b, id);
        h + RemoveById(a[1..] + b, id);
        { RemoveByIdConcat(a[1..], b, id); }
        h + (RemoveById(a[1..], id) + RemoveById(b, id));
        (h + RemoveById(a[1..], id)) + RemoveById(b, id);
      }
    }
  }

  /** Removing by id keeps ids unique. */
  lemma {:induction false} RemoveByIdKeepsUnique(todos: seq<Todo>, id: Id)
    requires UniqueIds(todos)
    ensures UniqueIds(RemoveById(todos, id))
  {
    if todos != [] {
      var rest := RemoveById(todos[1..], id);
      RemoveByIdKeepsUnique(todos[1..], id);
      RemoveByIdMembers(todos[1..], id);
      if todos[0].id != id {
        forall k | 0 <= k < |rest|
          ensures rest[k].id != todos[0].id
        {
          assert rest[k] in todos[1..];
        }
      }
    }
  }

  /** Deleting after a replacement that kept the id is the same as deleting
      straight away: the replaced entries are exactly the ones deleted. */
  lemma {:induction false} RemoveAfterReplace(todos: seq<Todo>, id: Id, rec: Todo)
    requires rec.id == id
    ensures RemoveById(ReplaceById(todos, id, rec), id) == RemoveById(todos, id)
  {
    if todos != [] {
      var r := ReplaceById(todos, id, rec);
      assert r[1..] == ReplaceById(todos[1..], id, rec);
      RemoveAfterReplace(todos[1..], id, rec);
    }
  }
}
