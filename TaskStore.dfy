// examples/taskrunner/server.js: the in-memory task store behind the task runner's HTTP routes.
module TaskStore {
  import opened JsValues
  import opened Decimal

  /** A task is a plain record: the posted properties plus `id` and `status`. */
  type Task = Record

  /** `task.id === id`: the task's `id` is exactly the string `id`. */
  function HasId(task: Task, id: string): (b: bool)
    ensures b <==> "id" in task && task["id"] == Str(id)
  {
    Get(task, "id") == Str(id)
  }

  /** `{...props, id, status: 'running'}`: the record `add` appends. */
  function NewTask(props: Record, id: string): (t: Task)
    ensures t.Keys == props.Keys + {"id", "status"}
    ensures t["id"] == Str(id) && t["status"] == Str("running")
    ensures forall k :: k in props && k != "id" && k != "status" ==> t[k] == props[k]
  {
    Spread(props, map["id" := Str(id), "status" := Str("running")])
  }

  /** `tasks.filter(task => task.id !== id)`. */
  function Without(tasks: seq<Task>, id: string): (r: seq<Task>)
    ensures |r| <= |tasks|
    ensures forall t :: t in r ==> t in tasks && !HasId(t, id)
    ensures forall t :: t in tasks && !HasId(t, id) ==> t in r
    decreases |tasks|
  {
    if tasks == [] then []
    else (if HasId(tasks[0], id) then [] else [tasks[0]]) + Without(tasks[1..], id)
  }

  /** `tasks.map(task => task.id === id ? {...task, ...patch} : task)`. */
  function Patched(tasks: seq<Task>, id: string, patch: Record): (r: seq<Task>)
    ensures |r| == |tasks|
    ensures forall i :: 0 <= i < |tasks| && !HasId(tasks[i], id) ==> r[i] == tasks[i]
    ensures forall i :: 0 <= i < |tasks| && HasId(tasks[i], id) ==> r[i] == Spread(tasks[i], patch)
  {
    seq(|tasks|, i requires 0 <= i < |tasks| =>
      if HasId(tasks[i], id) then Spread(tasks[i], patch) else tasks[i])
  }

  // The store's invariant: every id was issued by the counter, and no two tasks share one.

  /** The task's id is `String(k)` for some counter value `k` below `bound`. */
  predicate IssuedBelow(task: Task, bound: nat) {
    "id" in task && exists k: nat :: k < bound && task["id"] == Str(Render(k))
  }

  predicate AllIssuedBelow(tasks: seq<Task>, bound: nat) {
    forall i :: 0 <= i < |tasks| ==> IssuedBelow(tasks[i], bound)
  }

  predicate IdsDistinct(tasks: seq<Task>) {
    forall i, j :: 0 <= i < j < |tasks| ==> Get(tasks[i], "id") != Get(tasks[j], "id")
  }

  predicate StoreInvariant(tasks: seq<Task>, nextId: nat) {
    AllIssuedBelow(tasks, nextId) && IdsDistinct(tasks)
  }

  /** Appending a task with the fresh id `String(nextId)` and bumping the counter keeps the invariant. */
  lemma AddKeepsInvariant(tasks: seq<Task>, nextId: nat, props: Record)
    requires StoreInvariant(tasks, nextId)
    ensures StoreInvariant(tasks + [NewTask(props, Render(nextId))], nextId + 1)
  {
    var t := NewTask(props, Render(nextId));
    var ts := tasks + [t];
    assert IssuedBelow(t, nextId + 1);
    forall i, j | 0 <= i < j < |ts|
      ensures Get(ts[i], "id") != Get(ts[j], "id")
    {
      if j == |tasks| {
        assert IssuedBelow(tasks[i], nextId);
        var k: nat :| k < nextId && tasks[i]["id"] == Str(Render(k));
        RenderInjective(k, nextId);
      }
    }
  }

  /** The fresh id `String(nextId)` names no task already in a store that keeps the invariant. */
  lemma FreshIdIsUnused(tasks: seq<Task>, nextId: nat)
    requires AllIssuedBelow(tasks, nextId)
    ensures forall t :: t in tasks ==> !HasId(t, Render(nextId))
  {
    forall t | t in tasks
      ensures !HasId(t, Render(nextId))
    {
      var i :| 0 <= i < |tasks| && tasks[i] == t;
      assert IssuedBelow(tasks[i], nextId);
      var k: nat :| k < nextId && t["id"] == Str(Render(k));
      RenderInjective(k, nextId);
    }
  }

  /** Filtering distributes over concatenation: it keeps order and handles each task on its own. */
  lemma {:induction false} WithoutAppend(a: seq<Task>, b: seq<Task>, id: string)
    ensures Without(a + b, id) == Without(a, id) + Without(b, id)
    decreases |a|
  {
    if a != [] {
      assert (a + b)[0] == a[0];
      assert (a + b)[1..] == a[1..] + b;
      WithoutAppend(a[1..], b, id);
    } else {
      assert a + b == b;
    }
  }

  /** Removing an id no task has leaves the list as it was. */
  lemma {:induction false} WithoutAbsent(tasks: seq<Task>, id: string)
    requires forall j :: 0 <= j < |tasks| ==> !HasId(tasks[j], id)
    ensures Without(tasks, id) == tasks
    decreases |tasks|
  {
    if tasks != [] {
      WithoutAbsent(tasks[1..], id);
    }
  }

  /** Removing twice is removing once. */
  lemma WithoutIdempotent(tasks: seq<Task>, id: string)
    ensures Without(Without(tasks, id), id) == Without(tasks, id)
  {
    var r := Without(tasks, id);
    assert forall j :: 0 <= j < |r| ==> r[j] in r;
    WithoutAbsent(r, id);
  }

  /** With distinct ids, no task but the one at `i` carries that task's id. */
  lemma OthersLackId(tasks: seq<Task>, i: nat, id: string)
    requires IdsDistinct(tasks)
    requires i < |tasks| && HasId(tasks[i], id)
    ensures forall j :: 0 <= j < |tasks| && j != i ==> !HasId(tasks[j], id)
  {
    forall j | 0 <= j < |tasks| && j != i ensures !HasId(tasks[j], id) {
      if j < i {
        assert Get(tasks[j], "id") != Get(tasks[i], "id");
      } else {
        assert Get(tasks[i], "id") != Get(tasks[j], "id");
      }
    }
  }

  /** When no task of `tasks[lo..]` carries `id`, removing `id` leaves that slice as it is. */
  lemma WithoutAbsentSuffix(tasks: seq<Task>, lo: nat, id: string)
    requires lo <= |tasks|
    requires forall j :: lo <= j < |tasks| ==> !HasId(tasks[j], id)
    ensures Without(tasks[lo..], id) == tasks[lo..]
  {
    var suffix := tasks[lo..];
    forall j | 0 <= j < |suffix| ensures !HasId(suffix[j], id) {
      assert suffix[j] == tasks[lo + j];
    }
    WithoutAbsent(suffix, id);
  }

  lemma SplitAt(tasks: seq<Task>, i: nat)
    requires i < |tasks|
    ensures tasks == tasks[..i] + ([tasks[i]] + tasks[i + 1..])
  {
    assert tasks[i..] == [tasks[i]] + tasks[i + 1..];
    assert tasks == tasks[..i] + tasks[i..];
  }

  /** When only the task at `i` carries `id`, removing `id` drops exactly that task. */
  lemma WithoutOnlyMatch(tasks: seq<Task>, i: nat, id: string)
    requires i < |tasks| && HasId(tasks[i], id)
    requires forall j :: 0 <= j < |tasks| && j != i ==> !HasId(tasks[j], id)
    ensures Without(tasks, id) == tasks[..i] + tasks[i + 1..]
  {
    var before, x, after := tasks[..i], tasks[i], tasks[i + 1..];
    WithoutAbsent(before, id);
    WithoutAbsentSuffix(tasks, i + 1, id);
    assert Without([x], id) == [] by {
      assert [x][1..] == [];
    }
    var rest := [x] + after;
    WithoutAppend([x], after, id);
    assert Without(rest, id) == after;
    SplitAt(tasks, i);
    WithoutAppend(before, rest, id);
    assert Without(tasks, id) == before + after;
  }

  /** With distinct ids, removing the id of the task at `i` drops exactly that task. */
  lemma WithoutDropsOne(tasks: seq<Task>, i: nat, id: string)
    requires IdsDistinct(tasks)
    requires i < |tasks| && HasId(tasks[i], id)
    ensures Without(tasks, id) == tasks[..i] + tasks[i + 1..]
  {
    OthersLackId(tasks, i, id);
    WithoutOnlyMatch(tasks, i, id);
  }

  /** Filtering keeps every task's id below the counter and the ids distinct. */
  lemma {:induction false} WithoutKeepsInvariant(tasks: seq<Task>, nextId: nat, id: string)
    requires StoreInvariant(tasks, nextId)
    ensures StoreInvariant(Without(tasks, id), nextId)
    decreases |tasks|
  {
    if tasks != [] {
      var rest := tasks[1..];
      assert StoreInvariant(rest, nextId) by {
        forall i, j | 0 <= i < j < |rest| ensures Get(rest[i], "id") != Get(rest[j], "id") {
          assert Get(tasks[i + 1], "id") != Get(tasks[j + 1], "id");
        }
      }
      WithoutKeepsInvariant(rest, nextId, id);
      var r := Without(tasks, id);
      forall t | t in r ensures IssuedBelow(t, nextId) {
        var k :| 0 <= k < |tasks| && tasks[k] == t;
      }
      if !HasId(tasks[0], id) {
        var tail := Without(rest, id);
        assert r == [tasks[0]] + tail;
        forall j | 0 <= j < |tail| ensures Get(tasks[0], "id") != Get(tail[j], "id") {
          assert tail[j] in rest;
          var k :| 0 <= k < |rest| && rest[k] == tail[j];
          assert Get(tasks[0], "id") != Get(tasks[k + 1], "id");
        }
      }
    }
  }

  /** A patch that does not set `id` leaves every task's id where it was. */
  lemma PatchedKeepsIds(tasks: seq<Task>, id: string, patch: Record)
    requires "id" !in patch
    ensures forall i :: 0 <= i < |tasks| ==> Get(Patched(tasks, id, patch)[i], "id") == Get(tasks[i], "id")
  {
  }

  /** So it keeps the invariant. */
  lemma PatchedKeepsInvariant(tasks: seq<Task>, nextId: nat, id: string, patch: Record)
    requires StoreInvariant(tasks, nextId)
    requires "id" !in patch
    ensures StoreInvariant(Patched(tasks, id, patch), nextId)
  {
    PatchedKeepsIds(tasks, id, patch);
    var r := Patched(tasks, id, patch);
    forall i | 0 <= i < |r| ensures IssuedBelow(r[i], nextId) {
      assert IssuedBelow(tasks[i], nextId);
    }
  }

  /** A patch that sets `id` can break it: renaming task "1" to "0" gives two tasks with id "0". */
  lemma PatchCanDuplicateIds()
    ensures StoreInvariant([map["id" := Str("0")], map["id" := Str("1")]], 2)
    ensures !IdsDistinct(Patched([map["id" := Str("0")], map["id" := Str("1")]], "1", map["id" := Str("0")]))
  {
    var tasks: seq<Task> := [map["id" := Str("0")], map["id" := Str("1")]];
    assert Render(0) == "0" && Render(1) == "1";
    assert IssuedBelow(tasks[0], 2) && IssuedBelow(tasks[1], 2);
    var r := Patched(tasks, "1", map["id" := Str("0")]);
    assert Get(r[0], "id") == Get(r[1], "id");
  }

  /** Applying the same patch twice is applying it once. */
  lemma PatchedIdempotent(tasks: seq<Task>, id: string, patch: Record)
    ensures Patched(Patched(tasks, id, patch), id, patch) == Patched(tasks, id, patch)
  {
    var once := Patched(tasks, id, patch);
    var twice := Patched(once, id, patch);
    forall i | 0 <= i < |tasks| ensures twice[i] == once[i] {
      if HasId(tasks[i], id) {
        SpreadIdempotent(tasks[i], patch);
      }
    }
  }

  /** With distinct ids, `update` changes exactly the task that has the id. */
  lemma PatchedTouchesOne(tasks: seq<Task>, i: nat, id: string, patch: Record)
    requires IdsDistinct(tasks)
    requires i < |tasks| && HasId(tasks[i], id)
    ensures Patched(tasks, id, patch) == tasks[i := Spread(tasks[i], patch)]
  {
    OthersLackId(tasks, i, id);
  }

  /**
   * The timer `add` sets runs `update(id, {status: 'complete'})`; on the
   * list right after the add it completes the new task and no other.
   */
  lemma CompletionMarksNewTask(tasks: seq<Task>, nextId: nat, props: Record)
    requires StoreInvariant(tasks, nextId)
    ensures Patched(tasks + [NewTask(props, Render(nextId))], Render(nextId), map["status" := Str("complete")])
         == tasks + [Spread(NewTask(props, Render(nextId)), map["status" := Str("complete")])]
  {
    var t := NewTask(props, Render(nextId));
    AddKeepsInvariant(tasks, nextId, props);
    PatchedTouchesOne(tasks + [t], |tasks|, Render(nextId), map["status" := Str("complete")]);
  }

  /** The `state` object: the counter `_id` and the `tasks` list. */
  class Store {
    /** `_id`: the next id to hand out. */
    var nextId: nat
    var tasks: seq<Task>

    ghost predicate Valid()
      reads this
    {
      StoreInvariant(tasks, nextId)
    }

    /** `{_id: 0, tasks: []}`. */
    constructor ()
      ensures nextId == 0 && tasks == []
      ensures Valid()
    {
      nextId := 0;
      tasks := [];
    }

    /**
     * `add(props)`: takes `String(_id)` as the new id, bumps `_id` by one,
     * appends `{...props, id, status: 'running'}` and returns the new list.
     */
    method Add(props: Record) returns (r: seq<Task>)
      modifies this
      ensures nextId == old(nextId) + 1
      ensures tasks == old(tasks) + [NewTask(props, Render(old(nextId)))]
      ensures r == tasks
      ensures old(Valid()) ==> Valid()
      ensures old(Valid()) ==> forall t :: t in old(tasks) ==> !HasId(t, Render(old(nextId)))
    {
      if Valid() {
        AddKeepsInvariant(tasks, nextId, props);
        FreshIdIsUnused(tasks, nextId);
      }
      var id := Render(nextId);
      nextId := nextId + 1;
      tasks := tasks + [NewTask(props, id)];
      r := tasks;
    }

    /** `remove(id)`: keeps the tasks whose id is not `id`, in order, and returns the new list. */
    method Remove(id: string) returns (r: seq<Task>)
      modifies this
      ensures nextId == old(nextId)
      ensures tasks == Without(old(tasks), id)
      ensures r == tasks
      ensures old(Valid()) ==> Valid()
    {
      if Valid() {
        WithoutKeepsInvariant(tasks, nextId, id);
      }
      tasks := Without(tasks, id);
      r := tasks;
    }

    /** `update(id, patch)`: merges `patch` into the tasks whose id is `id` and returns the new list. */
    method Update(id: string, patch: Record) returns (r: seq<Task>)
      modifies this
      ensures nextId == old(nextId)
      ensures tasks == Patched(old(tasks), id, patch)
      ensures r == tasks
      ensures old(Valid()) && "id" !in patch ==> Valid()
    {
      if Valid() && "id" !in patch {
        PatchedKeepsInvariant(tasks, nextId, id, patch);
      }
      tasks := Patched(tasks, id, patch);
      r := tasks;
    }
  }
}
