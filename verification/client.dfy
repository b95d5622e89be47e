/** The `TodoApp` component's state machine: the list of todos and the input
    buffer, and the transitions the component applies to them once a remote
    call has settled. Each remote call is an input (`Result`) rather than an
    effect; a transition that receives `Err` is the `catch` branch, which only
    logs. */
module Client {
  import opened Wrappers
  import opened Text
  import opened Todos

  /** The component's two pieces of state. */
  datatype State = State(todos: seq<Todo>, input: string)

  /** The state the component mounts with: no todos, empty input. */
  const Initial: State := State([], "")

  /** The HTTP requests the component issues, without the base URL. */
  datatype Request =
    | ListTodos                            // GET /todos
    | CreateTodo(text: string)             // POST /todos with { text }
    | UpdateTodo(id: Id, completed: bool)  // PATCH /todos/{id} with { completed }
    | DeleteTodo(id: Id)                   // DELETE /todos/{id}

  /** One thing that happens to the component. Events that issue a remote
      call carry that call's settled outcome. */
  datatype Event =
    | Loaded(listed: Result<seq<Todo>>)
    | Typed(value: string)
    | AddPressed(created: Result<Todo>)
    | TogglePressed(id: Id, completed: bool, updated: Result<Todo>)
    | DeletePressed(id: Id, deleted: Result<()>)

  /** The request `addTodo` sends for the current input: none when the input
      trims to nothing, otherwise a create carrying the trimmed input. */
  function AddRequest(input: string): (req: Option<Request>)
    ensures req.None? <==> AllWhitespace(input)
    ensures req.Some? ==> req.value.CreateTodo? && req.value.text == Trim(input)
    ensures req.Some? ==>
      var text := req.value.text;
      && text != []
      && !IsWhitespace(text[0]) && !IsWhitespace(text[|text| - 1])
      && exists i, j :: IsTrimSplit(input, i, j) && text == input[i..j]
  {
    var text := Trim(input);
    TrimHasSplit(input);
    if text == [] then None else Some(CreateTodo(text))
  }

  /** The request `toggleTodo(id, completed)` sends: it asks the server for
      the opposite of the flag it was handed. */
  function ToggleRequest(id: Id, completed: bool): (req: Request)
    ensures req.UpdateTodo? && req.id == id
    ensures req.completed != completed
  {
    UpdateTodo(id, !completed)
  }

  /** `fetchTodos`: a successful listing replaces the list wholesale. */
  function Load(st: State, listed: Result<seq<Todo>>): (r: State)
    ensures r.input == st.input
    ensures listed.Ok? ==> r.todos == listed.value
    ensures listed.Err? ==> r == st
  {
    match listed
    case Ok(list) => st.(todos := list)
    case Err => st
  }

  /** The input's `onChange`: only the buffer changes. */
  function Edit(st: State, value: string): (r: State)
    ensures r.todos == st.todos && r.input == value
  {
    st.(input := value)
  }

  /** `addTodo`: a blank input issues no request and changes nothing; a
      created record is appended and the input cleared; a failed create
      keeps both the list and the typed text. */
  function Add(st: State, created: Result<Todo>): (r: State)
    ensures AddRequest(st.input).None? || created.Err? ==> r == st
    ensures AddRequest(st.input).Some? && created.Ok? ==>
      && |r.todos| == |st.todos| + 1
      && r.todos[..|st.todos|] == st.todos
      && r.todos[|st.todos|] == created.value
      && r.input == ""
  {
    match AddRequest(st.input)
    case None => st
    case Some(_) =>
      match created
      case Ok(rec) => State(st.todos + [rec], "")
      case Err => st
  }

  /** `toggleTodo`: the server's record takes the place of every entry with
      the toggled id; all other entries, the order and the input stay. */
  function Toggle(st: State, id: Id, updated: Result<Todo>): (r: State)
    ensures updated.Err? ==> r == st
    ensures r.input == st.input && |r.todos| == |st.todos|
    ensures updated.Ok? ==>
      forall k :: 0 <= k < |st.todos| ==>
        r.todos[k] == (if st.todos[k].id == id then updated.value else st.todos[k])
  {
    match updated
    case Ok(rec) => st.(todos := ReplaceById(st.todos, id, rec))
    case Err => st
  }

  /** `deleteTodo`: every entry with the deleted id goes, every other record
      stays as often as it occurred; the input stays. */
  function Delete(st: State, id: Id, deleted: Result<()>): (r: State)
    ensures deleted.Err? ==> r == st
    ensures r.input == st.input
    ensures deleted.Ok? ==>
      && !HasId(r.todos, id)
      && |r.todos| == |st.todos| - CountId(st.todos, id)
      && (forall t :: t in r.todos <==> t in st.todos && t.id != id)
      && forall t: Todo :: multiset(r.todos)[t] == if t.id == id then 0 else multiset(st.todos)[t]
  {
    match deleted
    case Ok(_) =>
      RemoveByIdLength(st.todos, id);
      RemoveByIdMembers(st.todos, id);
      var kept := RemoveById(st.todos, id);
      assert forall t: Todo :: (multiset(kept)[t] == if t.id == id then 0 else multiset(st.todos)[t]) by {
        forall t: Todo
          ensures multiset(kept)[t] == if t.id == id then 0 else multiset(st.todos)[t]
        {
          RemoveByIdCounts(st.todos, id, t);
        }
      }
      st.(todos := kept)
    case Err => st
  }

  /** The request an event issues, if any: typing and a blank add issue
      none; every other event issues the request of its handler. */
  function RequestOf(st: State, ev: Event): (req: Option<Request>)
    ensures req.None? <==> ev.Typed? || (ev.AddPressed? && AllWhitespace(st.input))
    ensures ev.Loaded? ==> req == Some(ListTodos)
    ensures ev.AddPressed? && req.Some? ==> req.value == CreateTodo(Trim(st.input))
    ensures ev.TogglePressed? ==>
      req.Some? && req.value.UpdateTodo? && req.value.id == ev.id && req.value.completed == !ev.completed
    ensures ev.DeletePressed? ==> req == Some(DeleteTodo(ev.id))
  {
    match ev
    case Loaded(_) => Some(ListTodos)
    case Typed(_) => None
    case AddPressed(_) => AddRequest(st.input)
    case TogglePressed(id, completed, _) => Some(ToggleRequest(id, completed))
    case DeletePressed(id, _) => Some(DeleteTodo(id))
  }

  /** Whether the event's remote call, if it had one, failed. */
  predicate Failed(ev: Event) {
    match ev
    case Loaded(listed) => listed.Err?
    case Typed(_) => false
    case AddPressed(created) => created.Err?
    case TogglePressed(_, _, updated) => updated.Err?
    case DeletePressed(_, deleted) => deleted.Err?
  }

  /** Whether the event, in state `st`, issued a remote call that
      succeeded. A blank add issues no call, so its reply is never used. */
  predicate Succeeded(st: State, ev: Event) {
    RequestOf(st, ev).Some? && !Failed(ev)
  }

  /** Whether `t` is a record the server sent back in reply to a call the
      event issued in state `st`. */
  predicate Returned(st: State, ev: Event, t: Todo) {
    RequestOf(st, ev).Some? &&
    match ev
    case Loaded(Ok(list)) => t in list
    case AddPressed(Ok(rec)) => t == rec
    case TogglePressed(_, _, Ok(rec)) => t == rec
    case _ => false
  }

  /** One transition of the component. A failed call and an add that issues
      no request leave the state exactly as it was; without a request the
      list never changes; and every entry after the step was already there or
      came from the server's reply. */
  function Step(st: State, ev: Event): (r: State)
    ensures Failed(ev) ==> r == st
    ensures RequestOf(st, ev).None? ==> r.todos == st.todos
    ensures ev.AddPressed? && RequestOf(st, ev).None? ==> r == st
    ensures forall t :: t in r.todos ==> t in st.todos || Returned(st, ev, t)
  {
    match ev
    case Loaded(listed) => Load(st, listed)
    case Typed(value) => Edit(st, value)
    case AddPressed(created) => Add(st, created)
    case TogglePressed(id, _, updated) => Toggle(st, id, updated)
    case DeletePressed(id, deleted) => Delete(st, id, deleted)
  }

  /** The state after a sequence of events, one transition at a time. */
  function Run(st: State, evs: seq<Event>): State
    decreases |evs|
  {
    if evs == [] then st else Run(Step(st, evs[0]), evs[1..])
  }

  /** Before any listing succeeds the list is empty; a failed initial fetch
      leaves the component in its initial state. */
  lemma InitialLoad(listed: Result<seq<Todo>>)
    ensures Load(Initial, listed).todos == (if listed.Ok? then listed.value else [])
    ensures Load(Initial, listed).input == ""
  {
  }

  /** Pressing add with a reply whose id was not yet listed, and then
      deleting that id, gives back the original list, whether or not the add
      issued a request. */
  lemma AddThenDelete(st: State, rec: Todo)
    requires !HasId(st.todos, rec.id)
    ensures Delete(Add(st, Ok(rec)), rec.id, Ok(())).todos == st.todos
  {
    RemoveByIdAbsent(st.todos, rec.id);
    if AddRequest(st.input).Some? {
      RemoveByIdConcat(st.todos, [rec], rec.id);
    }
  }

  /** Toggling an entry and then receiving its original record back restores
      the list, when every entry with that id is that record. */
  lemma ToggleThenToggleBack(st: State, e: Todo)
    requires forall k :: 0 <= k < |st.todos| && st.todos[k].id == e.id ==> st.todos[k] == e
    ensures
      var flipped := e.(completed := !e.completed);
      Toggle(Toggle(st, e.id, Ok(flipped)), e.id, Ok(e)) == st
  {
  }

  /** Running the first `k + 1` events is one step followed by running the
      next `k`. */
  lemma RunPrefix(st: State, evs: seq<Event>, k: nat)
    requires k < |evs|
    ensures Run(st, evs[..k + 1]) == Run(Step(st, evs[0]), evs[1..][..k])
  {
    assert evs[..k + 1][0] == evs[0];
    assert evs[..k + 1][1..] == evs[1..][..k];
  }

  /** A sequence of events none of whose issued remote calls succeeded
      leaves the list as it was: only typing happened. */
  lemma {:induction false} RunWithoutSuccess(st: State, evs: seq<Event>)
    requires forall k :: 0 <= k < |evs| ==> !Succeeded(Run(st, evs[..k]), evs[k])
    ensures Run(st, evs).todos == st.todos
    decreases |evs|
  {
    if evs != [] {
      var next := Step(st, evs[0]);
      assert !Succeeded(Run(st, evs[..0]), evs[0]) by {
        assert evs[..0] == [];
      }
      forall k | 0 <= k < |evs[1..]|
        ensures !Succeeded(Run(next, evs[1..][..k]), evs[1..][k])
      {
        RunPrefix(st, evs, k);
        assert !Succeeded(Run(st, evs[..k + 1]), evs[k + 1]);
      }
      RunWithoutSuccess(next, evs[1..]);
    }
  }

  /** Every entry on screen was either already there or was sent by the
      server in one of the replies: the list is never updated speculatively. */
  lemma {:induction false} RunShowsOnlyServerRecords(st: State, evs: seq<Event>, t: Todo)
    requires t in Run(st, evs).todos
    ensures t in st.todos || exists k :: 0 <= k < |evs| && Returned(Run(st, evs[..k]), evs[k], t)
    decreases |evs|
  {
    if evs != [] {
      var next := Step(st, evs[0]);
      RunShowsOnlyServerRecords(next, evs[1..], t);
      if t !in next.todos {
        var k :| 0 <= k < |evs[1..]| && Returned(Run(next, evs[1..][..k]), evs[1..][k], t);
        RunPrefix(st, evs, k);
        assert Returned(Run(st, evs[..k + 1]), evs[k + 1], t);
      } else if t !in st.todos {
        assert evs[..0] == [];
        assert Returned(Run(st, evs[..0]), evs[0], t);
      }
    }
  }

  /** The conditions on a reply under which the step cannot introduce a
      duplicate id: a listing without duplicates, a created record with a
      new id, an updated record with the id it was asked for. */
  predicate ReplyKeepsIdsUnique(st: State, ev: Event) {
    match ev
    case Loaded(Ok(list)) => UniqueIds(list)
    case AddPressed(Ok(rec)) => !HasId(st.todos, rec.id)
    case TogglePressed(id, _, Ok(rec)) => rec.id == id
    case _ => true
  }

  /** The client keeps ids unique only as long as the server's replies do. */
  lemma StepKeepsUniqueIds(st: State, ev: Event)
    requires UniqueIds(st.todos) && ReplyKeepsIdsUnique(st, ev)
    ensures UniqueIds(Step(st, ev).todos)
  {
    match ev
    case Loaded(_) =>
    case Typed(_) =>
    case AddPressed(created) =>
      if AddRequest(st.input).Some? && created.Ok? {
        var s := Step(st, ev).todos;
        forall i, j | 0 <= i < j < |s|
          ensures s[i].id != s[j].id
        {
          if j == |st.todos| {
            assert s[i] == st.todos[i];
          }
        }
      }
    case TogglePressed(id, _, updated) =>
      if updated.Ok? {
        ReplaceByIdKeepsIds(st.todos, id, updated.value);
      }
    case DeletePressed(id, deleted) =>
      if deleted.Ok? {
        RemoveByIdKeepsUnique(st.todos, id);
      }
  }

  /** Without the condition on the reply, a toggle can leave two entries with
      one id: the client does not check the id of the record it is sent. */
  lemma ToggleCanDuplicateIds()
    ensures
      var a := Todo("a", "x", false);
      var b := Todo("b", "y", false);
      var st := State([a, b], "");
      UniqueIds(st.todos) && !UniqueIds(Toggle(st, "a", Ok(b.(completed := true))).todos)
  {
  }
}
