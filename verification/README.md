# Todo client state machine in Dafny

This project models the client-side state of the `TodoApp` React component
(`src/App.jsx`). The component keeps two pieces of state. `todos` is an ordered
list of records `{ _id, text, completed }`. `input` is the text box's buffer.
Four remote calls change the list:

- the initial listing (`fetchTodos`);
- create (`addTodo`);
- update (`toggleTodo`);
- delete (`deleteTodo`).

Typing changes the buffer.

Each remote call is an input to a pure transition, not an effect. The call's
settled outcome is a `Result`: `Ok(body)` for the response body, or `Err` for
whatever the component's `catch` swallows. Every transition applies its change
only after the call succeeds, and a failed call leaves the state exactly as it
was.

Modules:

- `Wrappers` (`wrappers.dfy`): `Option` and `Result`.
- `Text` (`text.dfy`): `String.prototype.trim`, using the exact whitespace set of
  ECMA-262 (the WhiteSpace and LineTerminator productions). `Trim` is proved
  equal to the unique whitespace-only cut (`IsTrimSplit`; `TrimHasSplit`,
  `TrimUnique`).
- `Todos` (`todos.dfy`): the `Todo` record, plus the two by-key list updates
  (`Array.prototype.map` replace-by-id and `Array.prototype.filter`
  remove-by-id). Neither assumes that ids are unique.
- `Client` (`client.dfy`): the component state, the requests it issues, one
  transition per event, and runs of events.

### Behaviour of the code worth noting

- `toggleTodo` takes `completed` from the rendered item (src/App.jsx:91) and
  always sends the request. It does not look the flag up in the list. If no
  entry has the id, a successful reply changes nothing, because the `map`
  matches nothing.
- A failed listing leaves the state unchanged (src/App.jsx:16-18). The list is
  empty after it only because the fetch runs at mount (`InitialLoad`).
- The client does not keep ids unique. Uniqueness survives when the server's
  replies preserve it (`StepKeepsUniqueIds`). An update reply carrying another
  entry's id breaks it (`ToggleCanDuplicateIds`).
- The key field is `_id`, written `id` in the model.

## Model

| member | source | states |
|---|---|---|
| Text.IsWhitespace | src/App.jsx:25 | the characters `trim` strips all lie in the Basic Multilingual Plane; among ASCII they are exactly space, tab, line feed, carriage return, vertical tab and form feed |
| Text.TrimStartIndex | src/App.jsx:25 | the scan stops at the first non-whitespace character (or the end), having passed only whitespace |
| Text.TrimEndIndex | src/App.jsx:25 | the backward scan stops just past the last non-whitespace character (or at its lower bound), having passed only whitespace |
| Text.Trim | src/App.jsx:25-26 | trimmed text is empty exactly when the input is all whitespace; otherwise both its ends are non-whitespace |
| Text.TrimHasSplit | src/App.jsx:25-26 | the trimmed text is the input with a whitespace-only prefix and suffix cut off |
| Text.TrimUnique | src/App.jsx:25-26 | any such whitespace-only cut whose remainder has non-whitespace ends yields exactly the trimmed text |
| Text.TrimIdempotent | src/App.jsx:26 | trimming the trimmed text changes nothing |
| Todos.ReplaceById | src/App.jsx:42 | the map keeps the length; every entry with the id becomes the server record; every other entry is unchanged in place |
| Todos.RemoveById | src/App.jsx:52 | the filter leaves no entry with the id |
| Todos.RemoveByIdLength | src/App.jsx:52 | the length drops by exactly the number of entries with the id |
| Todos.RemoveByIdMembers | src/App.jsx:52 | a record survives exactly when it was in the list and has another id |
| Todos.RemoveByIdCounts | src/App.jsx:52 | each record with another id keeps its multiplicity, and records with the id occur zero times |
| Todos.RemoveByIdConcat | src/App.jsx:52 | filtering commutes with concatenation, so survivors keep their relative order |
| Todos.RemoveByIdAbsent | src/App.jsx:52 | deleting an id that no entry has leaves the list identical |
| Todos.RemoveByIdIdempotent | src/App.jsx:52 | deleting the same id twice equals deleting it once |
| Todos.RemoveByIdKeepsUnique | src/App.jsx:52 | deleting never creates a duplicate id |
| Todos.ReplaceByIdConcat | src/App.jsx:42 | replacing commutes with concatenation, so the order is kept |
| Todos.ReplaceByIdAbsent | src/App.jsx:42 | replacing an id that no entry has leaves the list identical |
| Todos.ReplaceByIdIdempotent | src/App.jsx:42 | applying the same reply twice equals applying it once |
| Todos.ReplaceByIdKeepsIds | src/App.jsx:42 | a reply carrying the requested id keeps every position's id, and so keeps ids unique |
| Todos.RemoveAfterReplace | src/App.jsx:42-52 | deleting after an update that kept the id equals deleting directly |
| Client.AddRequest | src/App.jsx:25-26 | no request iff the input is all whitespace; otherwise the create text is the trimmed input, which is non-empty, has no surrounding whitespace and is a whitespace-trimmed slice of the input |
| Client.ToggleRequest | src/App.jsx:38-40 | the update asks for the target id with the negation of the flag passed in |
| Client.Load | src/App.jsx:12-19 | a successful listing becomes the list and keeps the input; a failed one changes nothing |
| Client.Edit | src/App.jsx:69 | typing replaces the buffer and never touches the list |
| Client.Add | src/App.jsx:24-34 | blank input or a failed create is a no-op; a successful create grows the list by one, keeps the old list as a prefix, puts the server record last and clears the input |
| Client.Toggle | src/App.jsx:36-47 | a failed update is a no-op; a successful one keeps the length and the input, puts the server record at every position with the id and leaves every other position unchanged |
| Client.Delete | src/App.jsx:49-56 | a failed delete is a no-op; a successful one keeps the input, leaves no entry with the id, shortens the list by the number of such entries, and keeps every other record exactly as often as it occurred (the survivors' order is stated by `Todos.RemoveByIdConcat`) |
| Client.RequestOf | src/App.jsx:14-51 | typing and a blank add issue no request; the load lists, the add creates the trimmed input, the toggle updates the id with the negated flag, the delete deletes the id |
| Client.Step | src/App.jsx:11-56 | a failed call or a blank add leaves the state unchanged; without a request the list is unchanged; every entry afterwards was there before or came in the reply to a request the step issued |
| Client.InitialLoad | src/App.jsx:8-19 | from the initial state, the list is the listing on success and empty on failure; the input stays empty |
| Client.AddThenDelete | src/App.jsx:24-56 | pressing add with a reply whose id is new, then deleting that id, restores the list, whether or not the input was blank |
| Client.ToggleThenToggleBack | src/App.jsx:36-47 | an update and then the original record coming back restore the state, when all entries with that id equal that record |
| Client.RunWithoutSuccess | src/App.jsx:11-56 | if no issued remote call succeeds, a run of events never changes the list |
| Client.RunShowsOnlyServerRecords | src/App.jsx:11-56 | every entry after a run was there at the start or was sent in reply to a request the run actually issued |
| Client.StepKeepsUniqueIds | src/App.jsx:15-52 | a step keeps ids unique when the reply carries a duplicate-free listing, a new id on create, or the requested id on update |
| Client.ToggleCanDuplicateIds | src/App.jsx:42 | an update reply with another entry's id leaves two entries with one id |

## Left out

- Rendering (JSX markup, styling classes, icons, animations; src/App.jsx:58-122) is presentational and holds no state.
- The axios calls, URL construction and the `VITE_API_URL` setting are network I/O. Each call is its settled `Result`, and the request the client would send is a `Request` value.
- `console.error` logging is a side effect with no effect on state. `Result.Err` carries no payload for this reason.
- Concurrency is not modelled: overlapping in-flight requests, React's functional-updater timing, and edits to the input while a create is pending. One transition is applied at a time, so the list that a reply is applied to is the one the request was issued from.
- The server is not part of this model: its persistence, id generation and validation. No id-uniqueness or not-found guarantee is assumed. Only the conditions on replies that keep ids unique are stated.
- The response body's shape is not validated by the client. The model takes it to be a `Todo` or a sequence of them. Extra fields the server may send are not modelled.
- JavaScript strings are sequences of UTF-16 code units, while the model's `char` is a Unicode scalar value. The trimmed whitespace characters are all in the Basic Multilingual Plane (`Text.IsWhitespace`), so trimming agrees on every well-formed UTF-16 input. An input holding a lone surrogate cannot be written as a Dafny `string`, so the model says nothing about it.
