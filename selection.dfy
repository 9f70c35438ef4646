/** The `/next` endpoint's choice of a single task, and the request
    defaults shared by `/order` and `/next`. */
module Selection {
  import opened Wrappers
  import opened Tasks
  import opened Ranking

  /** `freeMin` as parsed from the query (0 also when it did not parse);
      0 means "unspecified" and becomes 30. */
  function DefaultFreeMin(parsed: int): (freeMin: int)
    ensures freeMin != 0
    ensures parsed == 0 ==> freeMin == 30
    ensures parsed != 0 ==> freeMin == parsed
  {
    if parsed == 0 then 30 else parsed
  }

  /** `stress` as parsed from the query; 0 becomes the middle level 3. */
  function DefaultStress(parsed: int): (stress: int)
    ensures stress != 0
    ensures parsed == 0 ==> stress == 3
    ensures parsed != 0 ==> stress == parsed
  {
    if parsed == 0 then 3 else parsed
  }

  /** `arr[i]` has the highest score in `arr`, and no earlier element has. */
  ghost predicate FirstBest<T>(arr: seq<T>, i: int, score: T -> real)
    requires 0 <= i < |arr|
  {
    && (forall j | 0 <= j < |arr| :: score(arr[j]) <= score(arr[i]))
    && (forall j | 0 <= j < i :: score(arr[j]) < score(arr[i]))
  }

  /** Scans `arr` in order, keeping the first element whose score is
      strictly above both the seed and everything seen before it. */
  method BestAbove<T>(arr: seq<T>, score: T -> real, seed: real) returns (best: Option<T>)
    ensures best.None? <==> forall j | 0 <= j < |arr| :: score(arr[j]) <= seed
    ensures best.Some? ==> exists i | 0 <= i < |arr| :: arr[i] == best.value && FirstBest(arr, i, score)
  {
    best := None;
    var bestScore := seed;
    ghost var at := -1;
    for i := 0 to |arr|
      invariant best.None? ==> bestScore == seed && forall j | 0 <= j < i :: score(arr[j]) <= seed
      invariant best.Some? ==> 0 <= at < i && arr[at] == best.value && bestScore == score(arr[at]) > seed
      invariant best.Some? ==> forall j | 0 <= j < i :: score(arr[j]) <= bestScore
      invariant best.Some? ==> forall j | 0 <= j < at :: score(arr[j]) < bestScore
    {
      var s := score(arr[i]);
      if s > bestScore {
        best := Some(arr[i]);
        bestScore := s;
        at := i;
      }
    }
    if best.Some? {
      assert FirstBest(arr, at, score);
    }
  }

  /** The `/next` choice over the tasks in iteration order: the first task
      of highest score, starting from the seed -1.0. Every score exceeds
      the seed, so nothing is returned exactly when there are no tasks. */
  method PickNext(arr: seq<Task>, env: Env, freeMin: int, stress: int) returns (best: Option<Task>)
    ensures best.None? <==> |arr| == 0
    ensures best.Some? ==> exists i | 0 <= i < |arr| ::
      arr[i] == best.value && FirstBest(arr, i, t => Score(t, env, freeMin, stress))
  {
    best := BestAbove(arr, t => Score(t, env, freeMin, stress), -1.0);
    if |arr| > 0 {
      var s0 := Score(arr[0], env, freeMin, stress);
      assert s0 > -1.0;
    }
  }
}
