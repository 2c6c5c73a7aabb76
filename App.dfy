// src/app.js: the card reducers, the card state fold, and the list/board "add" actions.
module App {
  import opened JsValues
  import Collection

  /** The text a card shows before it is first edited. */
  const InitialText: string := "Double click to edit"

  /** `initialState`: `{text: 'Double click to edit', editing: false}`. */
  function InitialState(): (s: Record)
    ensures s.Keys == {"text", "editing"}
    ensures s["text"] == Str(InitialText) && s["editing"] == Bool(false)
  {
    map["text" := Str(InitialText), "editing" := Bool(false)]
  }

  /**
   * `cardActions.toggleEditing(state)`: `{...state, editing: !state.editing}`.
   * `!` applies to whatever `state.editing` holds, `undefined` included.
   */
  function ToggleEditing(state: Record): (r: Record)
    ensures r.Keys == state.Keys + {"editing"}
    ensures r["editing"] == Bool(!Truthy(Get(state, "editing")))
    ensures forall k :: k in state && k != "editing" ==> r[k] == state[k]
  {
    Spread(state, map["editing" := Bool(!Truthy(Get(state, "editing")))])
  }

  /** `cardActions.saveChanges(text)(state)`: `{...state, text, editing: false}`. */
  function SaveChanges(text: string, state: Record): (r: Record)
    ensures r.Keys == state.Keys + {"text", "editing"}
    ensures r["text"] == Str(text) && r["editing"] == Bool(false)
    ensures forall k :: k in state && k != "text" && k != "editing" ==> r[k] == state[k]
  {
    Spread(state, map["text" := Str(text), "editing" := Bool(false)])
  }

  /** A reducer the card's `action$` emits: the double-click toggle, or a save with the typed text. */
  datatype CardAction = Toggle | Save(text: string)

  /** `action(state)`, the step of the card's fold. */
  function Apply(action: CardAction, state: Record): (r: Record)
    ensures action.Toggle? ==> r.Keys == state.Keys + {"editing"}
    ensures action.Toggle? ==> r["editing"] == Bool(!Truthy(Get(state, "editing")))
    ensures action.Save? ==> r.Keys == state.Keys + {"text", "editing"}
    ensures action.Save? ==> r["text"] == Str(action.text) && r["editing"] == Bool(false)
    ensures forall k :: k in state && k != "text" && k != "editing" ==> r[k] == state[k]
    ensures action.Toggle? && "text" in state ==> r["text"] == state["text"]
  {
    match action
    case Toggle => ToggleEditing(state)
    case Save(text) => SaveChanges(text, state)
  }

  /** The card state after the reducers `actions`, folded left to right over `initialState`. */
  function StateAfter(actions: seq<CardAction>): (s: Record)
    ensures s.Keys == {"text", "editing"}
    ensures s["text"].Str? && s["editing"].Bool?
    decreases |actions|
  {
    if actions == [] then InitialState()
    else Apply(actions[|actions| - 1], StateAfter(actions[..|actions| - 1]))
  }

  /**
   * `action$.fold(...)` as a stream: it emits the seed first, then one state
   * per reducer, each the fold of the reducers seen so far.
   */
  function StateStream(actions: seq<CardAction>): (states: seq<Record>)
    ensures |states| == |actions| + 1
    ensures states[0] == InitialState()
    ensures forall i :: 0 <= i <= |actions| ==> states[i] == StateAfter(actions[..i])
    decreases |actions|
  {
    if actions == [] then [InitialState()]
    else
      var prefix := actions[..|actions| - 1];
      var prev := StateStream(prefix);
      var states := prev + [StateAfter(actions)];
      PrefixesOfPrefix(actions);
      assert actions[..|actions|] == actions;
      assert forall i :: 0 <= i < |actions| ==> states[i] == prev[i];
      states
  }

  /** A prefix of the reducers without the last one is a prefix of the reducers. */
  lemma PrefixesOfPrefix(actions: seq<CardAction>)
    requires actions != []
    ensures forall i :: 0 <= i < |actions| ==> actions[..|actions| - 1][..i] == actions[..i]
  {
  }

  // Reference definitions of what a card shows, read off the reducers directly.

  /** The text of the last save, or the initial text when nothing was saved. */
  function LastSavedText(actions: seq<CardAction>): string
    decreases |actions|
  {
    if actions == [] then InitialText
    else match actions[|actions| - 1]
      case Save(text) => text
      case Toggle => LastSavedText(actions[..|actions| - 1])
  }

  /** The number of toggles since the last save (or since the start). */
  function TogglesSinceSave(actions: seq<CardAction>): nat
    decreases |actions|
  {
    if actions == [] then 0
    else match actions[|actions| - 1]
      case Save(_) => 0
      case Toggle => TogglesSinceSave(actions[..|actions| - 1]) + 1
  }

  /** A card record with exactly a string `text` and a boolean `editing`. */
  function CardRecord(text: string, editing: bool): Record {
    map["text" := Str(text), "editing" := Bool(editing)]
  }

  /** Toggling a card record flips its flag and keeps its text. */
  lemma ToggleCardRecord(text: string, editing: bool)
    ensures ToggleEditing(CardRecord(text, editing)) == CardRecord(text, !editing)
  {
    assert ToggleEditing(CardRecord(text, editing)).Keys == CardRecord(text, !editing).Keys;
  }

  /** Saving over a card record replaces its text and stops editing. */
  lemma SaveCardRecord(saved: string, text: string, editing: bool)
    ensures SaveChanges(saved, CardRecord(text, editing)) == CardRecord(saved, false)
  {
    assert SaveChanges(saved, CardRecord(text, editing)).Keys == CardRecord(saved, false).Keys;
  }

  /**
   * Every state the fold reaches has exactly the fields `text` and `editing`;
   * the text is the last one saved, and the card is editing exactly when it
   * was toggled an odd number of times since then.
   */
  lemma {:induction false} StateAfterIsReference(actions: seq<CardAction>)
    ensures StateAfter(actions) == CardRecord(LastSavedText(actions), TogglesSinceSave(actions) % 2 == 1)
    decreases |actions|
  {
    if actions != [] {
      var prefix := actions[..|actions| - 1];
      StateAfterIsReference(prefix);
      var text, toggles := LastSavedText(prefix), TogglesSinceSave(prefix);
      match actions[|actions| - 1]
      case Toggle =>
        ToggleCardRecord(text, toggles % 2 == 1);
      case Save(saved) =>
        SaveCardRecord(saved, text, toggles % 2 == 1);
    }
  }

  /** Toggling flips the flag of any record whose `editing` is a boolean. */
  lemma ToggleFlips(state: Record)
    requires "editing" in state && state["editing"].Bool?
    ensures ToggleEditing(state)["editing"] == Bool(!state["editing"].b)
  {
  }

  /** `toggleEditing` is an involution on records whose `editing` field is a boolean. */
  lemma ToggleInvolution(state: Record)
    requires "editing" in state && state["editing"].Bool?
    ensures ToggleEditing(ToggleEditing(state)) == state
  {
    assert ToggleEditing(ToggleEditing(state)).Keys == state.Keys;
  }

  /** Without a boolean `editing` it is not: a record lacking the field gains `editing: false`. */
  lemma ToggleTwiceAddsField()
    ensures ToggleEditing(ToggleEditing(map[])) == map["editing" := Bool(false)]
    ensures ToggleEditing(ToggleEditing(map[])) != map[]
  {
    assert "editing" in ToggleEditing(ToggleEditing(map[]));
  }

  /** Every state the card's fold reaches is one on which toggling twice changes nothing. */
  lemma ToggleInvolutionOnCard(actions: seq<CardAction>)
    ensures ToggleEditing(ToggleEditing(StateAfter(actions))) == StateAfter(actions)
  {
    StateAfterIsReference(actions);
    ToggleInvolution(StateAfter(actions));
  }

  /** `saveChanges(text)` is idempotent. */
  lemma SaveIdempotent(text: string, state: Record)
    ensures SaveChanges(text, SaveChanges(text, state)) == SaveChanges(text, state)
  {
  }

  /** A save overrides any earlier toggle: toggling and then saving is just saving. */
  lemma SaveAbsorbsToggle(text: string, state: Record)
    ensures SaveChanges(text, ToggleEditing(state)) == SaveChanges(text, state)
  {
    assert SaveChanges(text, ToggleEditing(state)).Keys == SaveChanges(text, state).Keys;
  }

  /** `listActions.addCard(cards)`: `cards.add()`; `undefined` spreads no extra sources. */
  function AddCard<S, I>(cards: Collection.Collection<S, I>): (r: Collection.Collection<S, I>)
    ensures r.component == cards.component && r.sources == cards.sources
    ensures r.AsArray() == cards.AsArray() + [cards.component(cards.sources)]
  {
    SpreadEmpty(cards.sources);
    cards.Add(map[])
  }

  /** `actions.addList(lists)`: `lists.add()`. */
  function AddList<S, I>(lists: Collection.Collection<S, I>): (r: Collection.Collection<S, I>)
    ensures r.component == lists.component && r.sources == lists.sources
    ensures r.AsArray() == lists.AsArray() + [lists.component(lists.sources)]
  {
    SpreadEmpty(lists.sources);
    lists.Add(map[])
  }

  /** The list's collection after `clicks` "Add card" clicks, each folding `addCard` over it. */
  function AfterAddCardClicks<S, I>(cards: Collection.Collection<S, I>, clicks: nat): Collection.Collection<S, I>
    decreases clicks
  {
    if clicks == 0 then cards else AddCard(AfterAddCardClicks(cards, clicks - 1))
  }

  /** Each click appends one card built from the list's own sources, after the cards already there. */
  lemma {:induction false} AddCardClicksAppend<S, I>(cards: Collection.Collection<S, I>, clicks: nat)
    ensures AfterAddCardClicks(cards, clicks).component == cards.component
    ensures AfterAddCardClicks(cards, clicks).sources == cards.sources
    ensures |AfterAddCardClicks(cards, clicks).AsArray()| == |cards.AsArray()| + clicks
    ensures AfterAddCardClicks(cards, clicks).AsArray()[..|cards.AsArray()|] == cards.AsArray()
    ensures forall i :: |cards.AsArray()| <= i < |cards.AsArray()| + clicks ==>
      AfterAddCardClicks(cards, clicks).AsArray()[i] == cards.component(cards.sources)
    decreases clicks
  {
    if clicks > 0 {
      AddCardClicksAppend(cards, clicks - 1);
    }
  }
}
