// src/collection.js: a persistent, append-only collection of component instances.
module Collection {
  import opened JsValues

  /**
   * `Collection(component, sources, items)`: the component that builds an
   * item from its sources, the base sources every item receives, and the
   * items built so far in insertion order. `S` is the type of one source
   * (a stream, in the program) and `I` the type of an item (a component's sinks).
   */
  datatype Collection<!S, I> = Collection(
    component: map<string, S> -> I,
    sources: map<string, S>,
    items: seq<I>)
  {
    /** `add(moreSources)`: a new collection with one item, built from the merged sources, appended. */
    function Add(moreSources: map<string, S>): (r: Collection<S, I>)
      ensures r.component == component && r.sources == sources
      ensures |r.AsArray()| == |AsArray()| + 1
      ensures r.AsArray()[..|AsArray()|] == AsArray()
      ensures r.AsArray()[|AsArray()|] == ItemFor(this, moreSources)
    {
      Collection(component, sources, items + [ItemFor(this, moreSources)])
    }

    /**
     * `asArray()`: the items, in the order they were added. Together with the
     * component and the base sources they are the whole collection.
     */
    function AsArray(): (r: seq<I>)
      ensures this == Collection(component, sources, r)
    {
      items
    }
  }

  /** `Collection(component, sources)` with the default `items = []`. */
  function Create<S, I>(component: map<string, S> -> I, sources: map<string, S>): (c: Collection<S, I>)
    ensures c.AsArray() == []
    ensures c.component == component && c.sources == sources
  {
    Collection(component, sources, [])
  }

  /** The collection after calling `add` with each of `adds`, left to right. */
  function AddAll<S, I>(c: Collection<S, I>, adds: seq<map<string, S>>): Collection<S, I>
    decreases |adds|
  {
    if adds == [] then c else AddAll(c.Add(adds[0]), adds[1..])
  }

  /** The item `add(more)` builds: the component applied to the merged sources. */
  function ItemFor<S, I>(c: Collection<S, I>, more: map<string, S>): I {
    c.component(Spread(c.sources, more))
  }

  /**
   * The item `add(more)` builds (`ItemFor(c, more)`) sees every base source
   * except those `more` overrides, every source in `more`, and nothing else.
   */
  lemma AddedItemSources<S, I>(c: Collection<S, I>, more: map<string, S>, k: string)
    ensures k in more ==> Spread(c.sources, more)[k] == more[k]
    ensures k in c.sources && k !in more ==> Spread(c.sources, more)[k] == c.sources[k]
    ensures k !in c.sources && k !in more ==> k !in Spread(c.sources, more)
  {
  }

  /** Adding leaves the receiver as it was: two adds from one collection share its items as a prefix. */
  lemma AddIsPersistent<S, I>(c: Collection<S, I>, a: map<string, S>, b: map<string, S>)
    ensures c.Add(a).AsArray()[..|c.AsArray()|] == c.AsArray()
    ensures c.Add(b).AsArray()[..|c.AsArray()|] == c.AsArray()
    ensures c.Add(a).Add(b).AsArray()[..|c.AsArray()|] == c.AsArray()
  {
  }

  /** Chained adds keep insertion order, and the second add still uses the original base sources. */
  lemma AddTwiceOrder<S, I>(c: Collection<S, I>, a: map<string, S>, b: map<string, S>)
    ensures c.Add(a).Add(b).AsArray() == c.AsArray() + [ItemFor(c, a), ItemFor(c, b)]
  {
  }

  /**
   * `n` successive adds append exactly `n` items, the `i`-th built from the
   * base sources merged with the `i`-th argument, and change neither the
   * component nor the base sources.
   */
  lemma {:induction false} AddAllAppends<S, I>(c: Collection<S, I>, adds: seq<map<string, S>>)
    ensures AddAll(c, adds).component == c.component
    ensures AddAll(c, adds).sources == c.sources
    ensures |AddAll(c, adds).AsArray()| == |c.AsArray()| + |adds|
    ensures AddAll(c, adds).AsArray()[..|c.AsArray()|] == c.AsArray()
    ensures forall i :: 0 <= i < |adds| ==>
      AddAll(c, adds).AsArray()[|c.AsArray()| + i] == ItemFor(c, adds[i])
    decreases |adds|
  {
    if adds != [] {
      var c' := c.Add(adds[0]);
      AddAllAppends(c', adds[1..]);
      var r := AddAll(c, adds).AsArray();
      assert r == AddAll(c', adds[1..]).AsArray();
      forall i | 0 <= i < |adds|
        ensures r[|c.AsArray()| + i] == ItemFor(c, adds[i])
      {
        if i > 0 {
          assert adds[1..][i - 1] == adds[i];
          assert r[|c'.AsArray()| + (i - 1)] == ItemFor(c', adds[1..][i - 1]);
        }
      }
    }
  }

  /** From a fresh collection, `n` adds give exactly `n` items, one per add, in order. */
  lemma FreshAfterAdds<S, I>(component: map<string, S> -> I, sources: map<string, S>, adds: seq<map<string, S>>)
    ensures |AddAll(Create(component, sources), adds).AsArray()| == |adds|
    ensures forall i :: 0 <= i < |adds| ==>
      AddAll(Create(component, sources), adds).AsArray()[i] == component(Spread(sources, adds[i]))
  {
    AddAllAppends(Create(component, sources), adds);
  }
}
