# cyclejs/collection — a Dafny model of its collection, card reducers and task store

This project models three small, self-contained parts of the `cyclejs/collection`
repository and proves properties of them in Dafny 4.11.

- **The persistent item collection** (`src/collection.js`). `Collection(component, sources, items)`
  is persistent under `add`. `add(moreSources)` builds one new item by calling `component` on
  `{...sources, ...moreSources}`. It returns a new collection with that item appended and leaves
  the receiver as it was. `asArray()` gives the items in insertion order. The model is the
  datatype `Collection.Collection`, generic in the source type `S` and the item type `I`.
- **The card reducers** of the board example (`src/app.js`) and their copy in the trello example
  (`examples/trello/app.js`). `toggleEditing` and `saveChanges(text)` are object-spread record
  updates. A card's state is the left fold of the emitted reducers over
  `{text: 'Double click to edit', editing: false}`. States are modelled as JavaScript records
  (`map<string, JsValue>`). This keeps "every other field is preserved" and `!undefined`
  faithful. The trello reducers are defined separately, as they are in the source, and proved
  equal to the board's. `listActions.addCard` and `actions.addList` are modelled on the collection.
- **The in-memory task store** of the task-runner server (`examples/taskrunner/server.js`).
  It is the class `TaskStore.Store`. The field `nextId` stands for `_id` and `tasks` is the task list.
  `Add`, `Remove` and `Update` reassign the fields as the source's methods do. Task ids are the
  strings `String(_id)`. The module `Decimal` models that rendering and proves that it reads back,
  so distinct counter values give distinct ids.

The store's invariant is `StoreInvariant`: every task id is `String(k)` for some `k` below the
counter (`IssuedBelow`), and no two tasks share an id. `add` and `remove` always keep it. `update` keeps it
whenever the patch does not set `id`. The only caller, the completion timer, passes
`{status: 'complete'}`. A patch that does set `id` can make two tasks share an id, and
`PatchCanDuplicateIds` exhibits such a case.

## Model

| member | source | states |
|---|---|---|
| JsValues.Spread | src/collection.js:4 | object spread: keys are the union, the second object wins on a collision, the other keys of the first pass through |
| JsValues.SpreadIdempotent | examples/taskrunner/server.js:37 | spreading the same object twice equals spreading it once |
| JsValues.SpreadEmpty | src/app.js:78 | spreading nothing (`add()` with no argument) leaves the sources unchanged |
| Collection.Create | src/collection.js:1 | a collection built without `items` has an empty `asArray()` and keeps the given component and sources |
| Collection.Collection.Add | src/collection.js:3-11 | `add` appends exactly one item after the old items, which stay in place; the item is `component(sources ⊕ moreSources)`; component and sources carry over |
| Collection.Collection.AsArray | src/collection.js:13-15 | `asArray()` returns the items, which together with the component and base sources make up the whole collection (nothing else is hidden in it) |
| Collection.AddedItemSources | src/collection.js:4 | the new item receives every key of `moreSources`, every other base source unchanged, and no other key |
| Collection.AddIsPersistent | src/collection.js:6-10 | the receiver's items are a prefix of every collection derived from it by `add`, including two branches from one receiver |
| Collection.AddTwiceOrder | src/collection.js:6-10 | `c.add(a).add(b).asArray()` is `c.asArray()` followed by the item for `a` and then the item for `b`, both built from `c`'s base sources |
| Collection.AddAllAppends | src/collection.js:6-10 | `n` successive adds append exactly `n` items in call order, the `i`-th built from the `i`-th argument, and keep the component and base sources |
| Collection.FreshAfterAdds | src/collection.js:1-10 | from a fresh collection, `n` adds give `asArray()` of length `n` whose `i`-th item is `component(sources ⊕ adds[i])` |
| App.InitialState | src/app.js:50-53 | the card's initial state has exactly `text: 'Double click to edit'` and `editing: false` |
| App.ToggleEditing | src/app.js:6-12 | `toggleEditing` sets `editing` to the negated truthiness of the old value, keeps every other field and adds no other key |
| App.SaveChanges | src/app.js:14-24 | `saveChanges(text)` sets `text` to the given string and `editing` to false whatever the state was, and keeps every other field |
| App.Apply | src/app.js:61 | one fold step `action(state)`: a toggle negates `editing` and keeps the text; a save sets the text and clears `editing`; every other field is kept |
| App.StateAfter | src/app.js:50-61 | the fold of the emitted reducers over `initialState` always yields a record with exactly a string `text` and a boolean `editing` |
| App.StateStream | src/app.js:61 | the fold emits the initial state first, then after each reducer the fold of the reducers seen so far |
| App.ToggleCardRecord | src/app.js:6-11 | on a `{text, editing}` record, toggling flips the flag and keeps the text |
| App.SaveCardRecord | src/app.js:14-23 | on a `{text, editing}` record, saving replaces the text and clears the flag |
| App.StateAfterIsReference | src/app.js:50-61 | every folded card state is exactly `{text, editing}`: the text of the last save (else the initial text), editing iff toggled an odd number of times since |
| App.ToggleFlips | src/app.js:6-11 | on a boolean `editing`, `toggleEditing(s).editing == !s.editing` |
| App.ToggleInvolution | src/app.js:6-11 | `toggleEditing(toggleEditing(s)) == s` whenever `s.editing` is a boolean |
| App.ToggleTwiceAddsField | src/app.js:6-11 | without an `editing` field the involution fails: toggling `{}` twice gives `{editing: false}` |
| App.ToggleInvolutionOnCard | src/app.js:50-61 | on every state the card's fold reaches, toggling twice is the identity |
| App.SaveIdempotent | src/app.js:14-23 | `saveChanges(t)` applied twice equals applying it once |
| App.SaveAbsorbsToggle | src/app.js:5-24 | a toggle just before a save has no effect on the saved state |
| App.AddCard | src/app.js:77-79 | `addCard(cards)` appends exactly one card, `component(sources)`, and keeps the component and sources |
| App.AddList | src/app.js:130-132 | `addList(lists)` appends exactly one list, `component(sources)`, and keeps the component and sources |
| App.AddCardClicksAppend | src/app.js:107-118 | after `k` "Add card" reducers folded over the list's collection, exactly `k` new cards, each `component(sources)`, follow the old ones |
| TrelloApp.ToggleEditing | examples/trello/app.js:6-12 | the trello `toggleEditing` equals the board's on every record |
| TrelloApp.SaveChanges | examples/trello/app.js:14-24 | the trello `saveChanges(text)` equals the board's on every record |
| TrelloApp.Reduce | examples/trello/app.js:61 | the trello fold step `reducer(state)` equals the board card's step for every reducer and state |
| TrelloApp.InitialState | examples/trello/app.js:50-53 | the trello card's seed equals the board card's `{text: 'Double click to edit', editing: false}` |
| TrelloApp.StateAfter | examples/trello/app.js:50-61 | the trello fold always yields a record with exactly a string `text` and a boolean `editing` |
| TrelloApp.StateAfterAgrees | examples/trello/app.js:50-61 | the trello card's fold from its own initial state reaches the board card's state for every reducer sequence |
| TrelloApp.StateAfterIsReference | examples/trello/app.js:50-61 | a trello card state is `{text, editing}`: the last saved text (initially 'Double click to edit'), editing iff toggled an odd number of times since |
| TrelloApp.ToggleFlips | examples/trello/app.js:6-11 | on a boolean `editing`, toggling negates it and keeps every other field |
| TrelloApp.ToggleInvolution | examples/trello/app.js:6-11 | toggling twice is the identity on records with a boolean `editing` |
| TrelloApp.SaveSetsText | examples/trello/app.js:14-23 | `saveChanges(t)` sets `text` to `t` and `editing` to false, keeps other fields, and is idempotent |
| Decimal.ParseRender | examples/taskrunner/server.js:19 | `String(n)` is a non-empty digit string that reads back as `n` |
| Decimal.RenderInjective | examples/taskrunner/server.js:19 | distinct counter values render to distinct id strings |
| TaskStore.HasId | examples/taskrunner/server.js:32 | `task.id === id` holds exactly when the task has an own `id` property that is the string `id`; a missing id or a non-string id never matches |
| TaskStore.NewTask | examples/taskrunner/server.js:20-24 | the appended task has the passed props, but `id` is the allocated id and `status` is `'running'`, whatever `props` held |
| TaskStore.Without | examples/taskrunner/server.js:32 | `remove`'s filter keeps exactly the tasks whose id differs from `id`, and never grows the list |
| TaskStore.Patched | examples/taskrunner/server.js:36-39 | `update`'s map keeps the length; tasks with another id are unchanged and matching tasks become `task ⊕ patch` |
| TaskStore.AddKeepsInvariant | examples/taskrunner/server.js:18-24 | appending a task with id `String(_id)` and bumping the counter keeps ids distinct and below the counter |
| TaskStore.FreshIdIsUnused | examples/taskrunner/server.js:19 | the id `add` allocates names no task already in the store |
| TaskStore.WithoutAppend | examples/taskrunner/server.js:32 | the filter distributes over concatenation, so it keeps the survivors' relative order |
| TaskStore.WithoutAbsent | examples/taskrunner/server.js:32 | removing an id no task has leaves `tasks` unchanged |
| TaskStore.WithoutIdempotent | examples/taskrunner/server.js:32 | removing the same id twice equals removing it once |
| TaskStore.OthersLackId | examples/taskrunner/server.js:32 | with distinct ids, no task but the one at `i` matches that task's id |
| TaskStore.WithoutOnlyMatch | examples/taskrunner/server.js:32 | when only the task at `i` matches `id`, the filter yields the list without exactly that task, others in order |
| TaskStore.WithoutDropsOne | examples/taskrunner/server.js:31-34 | with distinct ids, removing the id of the task at `i` yields the list without exactly that task |
| TaskStore.WithoutKeepsInvariant | examples/taskrunner/server.js:31-34 | `remove` keeps ids distinct and below the counter |
| TaskStore.PatchedKeepsIds | examples/taskrunner/server.js:35-41 | a patch without `id` changes no task's id |
| TaskStore.PatchedKeepsInvariant | examples/taskrunner/server.js:35-41 | `update` with a patch that does not set `id` keeps ids distinct and below the counter |
| TaskStore.PatchCanDuplicateIds | examples/taskrunner/server.js:35-41 | a patch that sets `id` can break distinctness: renaming task "1" to "0" in a valid store |
| TaskStore.PatchedIdempotent | examples/taskrunner/server.js:36-39 | applying the same update twice equals applying it once |
| TaskStore.PatchedTouchesOne | examples/taskrunner/server.js:35-41 | with distinct ids, `update` changes exactly the one task carrying the id |
| TaskStore.CompletionMarksNewTask | examples/taskrunner/server.js:25-28 | the timer's `update(id, {status: 'complete'})`, run right after `add`, completes the new task and no other |
| TaskStore.Store.constructor | examples/taskrunner/server.js:15-17 | the store starts with `_id` 0 and no tasks, which satisfies the invariant |
| TaskStore.Store.Add | examples/taskrunner/server.js:18-30 | `add` uses the old `_id` as the new id, increments `_id` by exactly one, appends exactly the new task after the unchanged old ones, returns the new list, and keeps the invariant |
| TaskStore.Store.Remove | examples/taskrunner/server.js:31-34 | `remove` sets `tasks` to the filter, leaves `_id` unchanged, returns the new list, and keeps the invariant |
| TaskStore.Store.Update | examples/taskrunner/server.js:35-41 | `update` sets `tasks` to the patched list, leaves `_id` unchanged, returns the new list, and keeps the invariant when the patch does not set `id` |

## Left out

- `Collection.pluck`, `Collection.merge`, `Collection.gather`, removal and broadcast selectors, and `action$`/`reducers` are left out. `src/collection.js` does not define them, and they are stream machinery.
- A `component` that throws is not modelled. In `src/collection.js:4` the exception propagates out of `add`, which then returns no collection. The model's `component` is a total function, so `Add` always returns a collection.
- Collection.Collection.AsArray: returns the items as a value. In `src/collection.js:13-15` `asArray()` returns the captured `items` array itself, not a copy, so a caller that pushes onto it changes every later `asArray()` and `add(...)` of that collection. The model does not capture this aliasing.
- Collection.Collection.Add: `items` and `sources` are held by value. In `src/collection.js:1`, `:4` and `:9` they are captured by reference, so a caller that still holds the original array or object can change the collection later. The model does not capture this aliasing.
- Collection.Collection.Add: `component` is a pure Dafny function, so two items built from equal sources are equal values. In the program `Card({DOM})` builds fresh stream objects on every call, so every added card is a distinct object, and `cards.remove(removedCard)` (`src/app.js:84`) relies on that identity. The model does not capture object identity of items.
- Collection removal is left out. `src/app.js:83-85` and `src/app.js:136-138` call `cards.remove(...)`, but `src/collection.js` defines no `remove`. So the list and board folds are modelled only over their add actions (`App.AddCardClicksAppend`).
- `src/app.js:101` and `src/app.js:152` pass the child-action object as `Collection`'s third argument, which becomes `items`. In JavaScript, `[...items, newItem]` on a plain object throws a `TypeError`, and `cards.action$` is undefined. The model's `AddCard`/`AddList` take a collection whose items are a sequence. They do not model that call site.
- The trello example's stream-based `Collection(Card, {DOM}, addCard$, item => item.remove$)` calls are left out (`examples/trello/app.js:98`, `examples/trello/app.js:125`). They target a stream API that `src/collection.js` does not provide.
- The 5-second `setTimeout` in `add` (`examples/taskrunner/server.js:25-28`) is a timer. Only its effect, `update(id, {status: 'complete'})`, is modelled (`TaskStore.CompletionMarksNewTask`).
- Express routes, body parsing, `app.listen` and the browserify servers are I/O and are left out.
- All DOM/view code, the `Card`/`List`/`main` stream wiring, the mouse driver, entry points and the test harness are left out as UI and process wiring.
- JavaScript numbers are modelled as unbounded integers. In the program, `_id` is a double: once it reaches 2^53, `this._id++` (`examples/taskrunner/server.js:19`) no longer changes it, because 2^53 + 1 rounds back to 2^53. From then on `String(_id)` repeats, so the distinct-id guarantee of `TaskStore.AddKeepsInvariant` and `TaskStore.FreshIdIsUnused` holds in the program only for the first 2^53 tasks added.
- `String(_id)` is modelled as plain decimal digits. JavaScript switches to exponent notation at 10^21, which lies beyond the 2^53 limit above.
- A JSON body that is an array (spread into index keys) is not modelled. The posted props are modelled as a record.
- TaskStore.Store.Update: the invariant is promised only for patches without an `id` key. `PatchCanDuplicateIds` shows that other patches can break it.
