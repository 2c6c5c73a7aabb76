// examples/trello/app.js: the card reducers and the card state fold of the trello example.
module TrelloApp {
  import opened JsValues
  import App

  /** `cardReducers.toggleEditing(state)`: `{...state, editing: !state.editing}`. */
  function ToggleEditing(state: Record): (r: Record)
    ensures r == App.ToggleEditing(state)
  {
    Spread(state, map["editing" := Bool(!Truthy(Get(state, "editing")))])
  }

  /** `cardReducers.saveChanges(text)(state)`: `{...state, text, editing: false}`. */
  function SaveChanges(text: string, state: Record): (r: Record)
    ensures r == App.SaveChanges(text, state)
  {
    Spread(state, map["text" := Str(text), "editing" := Bool(false)])
  }

  /** `reducer(state)`, the step of the card's `reducer$.fold`. */
  function Reduce(reducer: App.CardAction, state: Record): (r: Record)
    ensures r == App.Apply(reducer, state)
  {
    match reducer
    case Toggle => ToggleEditing(state)
    case Save(text) => SaveChanges(text, state)
  }

  /** `initialState`, the seed of the fold. */
  function InitialState(): (s: Record)
    ensures s == App.InitialState()
  {
    map["text" := Str("Double click to edit"), "editing" := Bool(false)]
  }

  /** The card state after `reducers`, folded left to right over `initialState`. */
  function StateAfter(reducers: seq<App.CardAction>): (s: Record)
    ensures s.Keys == {"text", "editing"}
    ensures s["text"].Str? && s["editing"].Bool?
    decreases |reducers|
  {
    if reducers == [] then InitialState()
    else Reduce(reducers[|reducers| - 1], StateAfter(reducers[..|reducers| - 1]))
  }

  /** The trello card reaches the same state as the card of src/app.js on every reducer sequence. */
  lemma {:induction false} StateAfterAgrees(reducers: seq<App.CardAction>)
    ensures StateAfter(reducers) == App.StateAfter(reducers)
    decreases |reducers|
  {
    if reducers != [] {
      StateAfterAgrees(reducers[..|reducers| - 1]);
    }
  }

  /**
   * A trello card shows the text of its last save (initially "Double click
   * to edit") and is editing exactly when toggled an odd number of times since.
   */
  lemma StateAfterIsReference(reducers: seq<App.CardAction>)
    ensures StateAfter(reducers) ==
      App.CardRecord(App.LastSavedText(reducers), App.TogglesSinceSave(reducers) % 2 == 1)
  {
    StateAfterAgrees(reducers);
    App.StateAfterIsReference(reducers);
  }

  /** `toggleEditing` flips a boolean `editing` and keeps every other field. */
  lemma ToggleFlips(state: Record)
    requires "editing" in state && state["editing"].Bool?
    ensures ToggleEditing(state)["editing"] == Bool(!state["editing"].b)
    ensures forall k :: k in state && k != "editing" ==> ToggleEditing(state)[k] == state[k]
  {
  }

  /** `toggleEditing` applied twice is the identity on a record with a boolean `editing`. */
  lemma ToggleInvolution(state: Record)
    requires "editing" in state && state["editing"].Bool?
    ensures ToggleEditing(ToggleEditing(state)) == state
  {
    App.ToggleInvolution(state);
  }

  /** `saveChanges(text)` sets the text, stops editing, keeps every other field, and is idempotent. */
  lemma SaveSetsText(text: string, state: Record)
    ensures SaveChanges(text, state)["text"] == Str(text)
    ensures SaveChanges(text, state)["editing"] == Bool(false)
    ensures forall k :: k in state && k != "text" && k != "editing" ==> SaveChanges(text, state)[k] == state[k]
    ensures SaveChanges(text, SaveChanges(text, state)) == SaveChanges(text, state)
  {
    App.SaveIdempotent(text, state);
  }
}
