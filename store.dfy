/** The in-memory task store: a map from task id to task that requests
    upsert into, delete from, enumerate, and that is rebuilt from the
    persisted array at startup. */
module Store {
  import opened Wrappers
  import opened Tasks
  import opened Ranking
  import opened Ordering
  import opened Selection

  datatype StoreError = InvalidTask

  /** Every stored task sits under its own id. */
  ghost predicate KeysMatchIds(m: map<string, Task>)
  {
    forall k | k in m :: m[k].id == k
  }

  /** The ids occurring in `arr`. */
  ghost function IdsOf(arr: seq<Task>): set<string>
  {
    set i | 0 <= i < |arr| :: arr[i].id
  }

  /** The map the startup load builds from a decoded array: inserted in
      array order, so a later task replaces an earlier one with its id. */
  function FromArray(arr: seq<Task>): (m: map<string, Task>)
    ensures m.Keys == IdsOf(arr)
    ensures KeysMatchIds(m)
  {
    if arr == [] then map[]
    else
      var init := arr[..|arr| - 1];
      var m := FromArray(init)[arr[|arr| - 1].id := arr[|arr| - 1]];
      assert IdsOf(arr) == IdsOf(init) + {arr[|arr| - 1].id} by {
        forall k | k in IdsOf(arr) ensures k in IdsOf(init) + {arr[|arr| - 1].id} {
          var i :| 0 <= i < |arr| && arr[i].id == k;
          if i < |arr| - 1 { assert init[i] == arr[i]; }
        }
        forall k | k in IdsOf(init) ensures k in IdsOf(arr) {
          var i :| 0 <= i < |init| && init[i].id == k;
          assert arr[i] == init[i];
        }
      }
      m
  }

  /** Each key of the rebuilt map holds the LAST array element with that id. */
  lemma {:induction false} FromArrayLastWins(arr: seq<Task>, k: string)
    requires k in FromArray(arr)
    ensures exists j | 0 <= j < |arr| ::
              && arr[j].id == k && FromArray(arr)[k] == arr[j]
              && forall j' | j < j' < |arr| :: arr[j'].id != k
  {
    var last := |arr| - 1;
    var init := arr[..last];
    if arr[last].id == k {
      assert FromArray(arr)[k] == arr[last];
    } else {
      assert k in FromArray(init);
      FromArrayLastWins(init, k);
      var j :| 0 <= j < |init| && init[j].id == k && FromArray(init)[k] == init[j]
        && forall j' | j < j' < |init| :: init[j'].id != k;
      assert arr[j] == init[j];
      forall j' | j < j' < |arr| ensures arr[j'].id != k {
        if j' < last { assert arr[j'] == init[j']; }
      }
    }
  }

  /** `arr` is a snapshot of `m`: as long as the map, every element is the
      task stored under its id, and every stored task occurs. */
  ghost predicate IsSnapshot(arr: seq<Task>, m: map<string, Task>)
  {
    && |arr| == |m|
    && (forall i | 0 <= i < |arr| :: arr[i].id in m && m[arr[i].id] == arr[i])
    && (forall k | k in m :: m[k] in arr)
  }

  /** Loading a snapshot of a well-formed store gives back the same map,
      whatever order the snapshot lists the tasks in. */
  lemma LoadOfSnapshot(m: map<string, Task>, arr: seq<Task>)
    requires KeysMatchIds(m) && IsSnapshot(arr, m)
    ensures FromArray(arr) == m
  {
    var r := FromArray(arr);
    assert r.Keys == m.Keys by {
      forall k | k in m ensures k in IdsOf(arr) {
        var i :| 0 <= i < |arr| && arr[i] == m[k];
      }
    }
    forall k | k in m ensures r[k] == m[k] {
      FromArrayLastWins(arr, k);
    }
  }

  /** Any reordering of a snapshot, the sorted listing included, is a
      snapshot too. */
  lemma PermutedSnapshot(m: map<string, Task>, arr: seq<Task>, perm: seq<Task>)
    requires IsSnapshot(arr, m) && multiset(perm) == multiset(arr)
    ensures IsSnapshot(perm, m)
  {
    assert |perm| == |multiset(perm)| == |multiset(arr)| == |arr|;
    forall i | 0 <= i < |perm| ensures perm[i].id in m && m[perm[i].id] == perm[i] {
      assert perm[i] in multiset(arr);
    }
    forall k | k in m ensures m[k] in perm {
      assert m[k] in multiset(perm);
    }
  }

  class TaskStore {
    var tasks: map<string, Task>

    ghost predicate Valid()
      reads this
    {
      KeysMatchIds(tasks)
    }

    /** The store starts empty. */
    constructor ()
      ensures Valid() && tasks == map[]
    {
      tasks := map[];
    }

    /** POST /tasks: refuse an empty id; otherwise store the task under its
        id, wholly replacing any previous one, and report the new count. */
    method Upsert(t: Task) returns (reply: Result<nat, StoreError>)
      requires Valid()
      modifies this
      ensures Valid()
      ensures t.id == "" ==> reply == Failure(InvalidTask) && tasks == old(tasks)
      ensures t.id != "" ==> tasks == old(tasks)[t.id := t] && reply == Success(|tasks|)
    {
      if t.id == "" {
        return Failure(InvalidTask);
      }
      tasks := tasks[t.id := t];
      reply := Success(|tasks|);
    }

    /** DELETE /tasks/{id}: remove the id if present and report the count;
        an absent id changes nothing. */
    method Delete(id: string) returns (count: nat)
      requires Valid()
      modifies this
      ensures Valid()
      ensures tasks == old(tasks) - {id}
      ensures id !in old(tasks) ==> tasks == old(tasks) && count == |old(tasks)|
      ensures id in old(tasks) ==> count == |old(tasks)| - 1
      ensures count == |tasks|
    {
      tasks := tasks - {id};
      count := |tasks|;
    }

    /** Startup load. `decoded` is the persisted array, or None when the
        file could not be read or decoded; then the store is left as it
        is. Otherwise the map is rebuilt from the array alone. */
    method Load(decoded: Option<seq<Task>>)
      requires Valid()
      modifies this
      ensures Valid()
      ensures decoded.None? ==> tasks == old(tasks)
      ensures decoded.Some? ==> tasks == FromArray(decoded.value)
    {
      if decoded.Some? {
        var arr := decoded.value;
        tasks := map[];
        for i := 0 to |arr|
          invariant tasks == FromArray(arr[..i])
        {
          assert arr[..i + 1][..i] == arr[..i];
          tasks := tasks[arr[i].id := arr[i]];
        }
        assert arr[..|arr|] == arr;
      }
    }

    /** Copies the stored tasks into a fresh sequence, in the map's
        (unspecified) iteration order. */
    method Snapshot() returns (arr: seq<Task>)
      requires Valid()
      ensures IsSnapshot(arr, tasks)
    {
      arr := [];
      var rest := tasks.Keys;
      while rest != {}
        invariant rest <= tasks.Keys
        invariant |arr| + |rest| == |tasks|
        invariant forall i | 0 <= i < |arr| :: arr[i].id in tasks.Keys - rest && tasks[arr[i].id] == arr[i]
        invariant forall k | k in tasks.Keys - rest :: tasks[k] in arr
        decreases rest
      {
        var k :| k in rest;
        arr := arr + [tasks[k]];
        rest := rest - {k};
      }
    }

    /** GET /order: default the query parameters, then list the snapshot
        sorted in place by the listing order. `parsedFreeMin` and
        `parsedStress` are the integers read from the query (0 when absent
        or unparseable). */
    method Order(env: Env, parsedFreeMin: int, parsedStress: int) returns (listing: seq<Task>)
      requires Valid()
      ensures IsSnapshot(listing, tasks)
      ensures Sorted(listing, env, DefaultFreeMin(parsedFreeMin), DefaultStress(parsedStress))
    {
      var freeMin := DefaultFreeMin(parsedFreeMin);
      var stress := DefaultStress(parsedStress);
      var snap := Snapshot();
      var a := new Task[|snap|](i requires 0 <= i < |snap| => snap[i]);
      assert a[..] == snap;
      SortForListing(a, env, freeMin, stress);
      listing := a[..];
      PermutedSnapshot(tasks, snap, listing);
    }

    /** GET /next: default the query parameters, then pick the first
        highest-scoring task in iteration order; None exactly when the
        store is empty. */
    method Next(env: Env, parsedFreeMin: int, parsedStress: int) returns (best: Option<Task>)
      requires Valid()
      ensures best.None? <==> tasks == map[]
      ensures best.Some? ==> best.value.id in tasks && tasks[best.value.id] == best.value
      ensures best.Some? ==> forall k | k in tasks ::
        Score(tasks[k], env, DefaultFreeMin(parsedFreeMin), DefaultStress(parsedStress))
        <= Score(best.value, env, DefaultFreeMin(parsedFreeMin), DefaultStress(parsedStress))
    {
      var freeMin := DefaultFreeMin(parsedFreeMin);
      var stress := DefaultStress(parsedStress);
      var arr := Snapshot();
      best := PickNext(arr, env, freeMin, stress);
      if best.Some? {
        ghost var i :| 0 <= i < |arr| && arr[i] == best.value
          && FirstBest(arr, i, t => Score(t, env, freeMin, stress));
        forall k | k in tasks
          ensures Score(tasks[k], env, freeMin, stress) <= Score(best.value, env, freeMin, stress)
        {
          ghost var j :| 0 <= j < |arr| && arr[j] == tasks[k];
        }
      } else {
        assert |tasks| == 0;
        assert tasks.Keys == {};
      }
    }
  }
}
