/** The listing order of the `/order` endpoint: score descending, then
    deadline ascending (a missing or unparseable deadline sorts as 2^62
    nanoseconds), then minutes needed ascending; and the in-place sort of
    the snapshot by that order. */
module Ordering {
  import opened Wrappers
  import opened Tasks
  import opened Ranking
  import opened Sequences
  import opened Sorting

  /** Deadline key of a task without a usable deadline: 1 << 62. */
  const NO_DEADLINE_KEY: int := 0x4000_0000_0000_0000

  function DeadlineKey(t: Task, parse: string -> Option<int>): (key: int)
    ensures Deadline(t, parse).None? ==> key == NO_DEADLINE_KEY
    ensures Deadline(t, parse).Some? ==> key == Deadline(t, parse).value
  {
    match Deadline(t, parse)
    case None => NO_DEADLINE_KEY
    case Some(nanos) => nanos
  }

  /** The three comparison keys of a task, in comparison order. */
  datatype SortKey = SortKey(score: real, due: int, minutes: int)

  function KeyOf(t: Task, env: Env, freeMin: int, stress: int): (k: SortKey)
    ensures k.score == Score(t, env, freeMin, stress) && MIN_SCORE <= k.score <= MAX_SCORE
    ensures k.due == DeadlineKey(t, env.parse) && k.minutes == t.minutesNeeded
  {
    SortKey(Score(t, env, freeMin, stress), DeadlineKey(t, env.parse), t.minutesNeeded)
  }

  /** The comparator on keys: lexicographic, higher score first. */
  predicate KeyBefore(x: SortKey, y: SortKey): (b: bool)
    ensures b <==> x.score > y.score
                   || (x.score == y.score && x.due < y.due)
                   || (x.score == y.score && x.due == y.due && x.minutes < y.minutes)
    ensures b ==> x != y
  {
    if x.score != y.score then x.score > y.score
    else if x.due != y.due then x.due < y.due
    else x.minutes < y.minutes
  }

  /** The `/order` comparator: `a` is listed strictly before `b`. */
  predicate Before(env: Env, freeMin: int, stress: int, a: Task, b: Task): (r: bool)
    ensures Score(a, env, freeMin, stress) > Score(b, env, freeMin, stress) ==> r
    ensures r ==> Score(a, env, freeMin, stress) >= Score(b, env, freeMin, stress)
    ensures Score(a, env, freeMin, stress) == Score(b, env, freeMin, stress)
        ==> (r <==> DeadlineKey(a, env.parse) < DeadlineKey(b, env.parse)
                    || (DeadlineKey(a, env.parse) == DeadlineKey(b, env.parse) && a.minutesNeeded < b.minutesNeeded))
  {
    KeyBefore(KeyOf(a, env, freeMin, stress), KeyOf(b, env, freeMin, stress))
  }

  /** No later element is strictly before an earlier one. */
  ghost predicate Sorted(s: seq<Task>, env: Env, freeMin: int, stress: int)
  {
    SortedBy(s, (x, y) => Before(env, freeMin, stress, x, y))
  }

  lemma BeforeIrreflexive(env: Env, freeMin: int, stress: int, a: Task)
    ensures !Before(env, freeMin, stress, a, a)
  {
  }

  lemma BeforeTransitive(env: Env, freeMin: int, stress: int, a: Task, b: Task, c: Task)
    requires Before(env, freeMin, stress, a, b) && Before(env, freeMin, stress, b, c)
    ensures Before(env, freeMin, stress, a, c)
  {
  }

  /** Incomparability is exactly equality of the three keys, so it is
      transitive too: the comparator is a strict weak order, as the
      library sort requires. */
  lemma IncomparableIffSameKeys(env: Env, freeMin: int, stress: int, a: Task, b: Task)
    ensures !Before(env, freeMin, stress, a, b) && !Before(env, freeMin, stress, b, a)
        <==> KeyOf(a, env, freeMin, stress) == KeyOf(b, env, freeMin, stress)
  {
  }

  /** "Not after" is transitive: a <= b and b <= c give a <= c. */
  lemma NotAfterTransitive(env: Env, freeMin: int, stress: int, a: Task, b: Task, c: Task)
    requires !Before(env, freeMin, stress, b, a) && !Before(env, freeMin, stress, c, b)
    ensures !Before(env, freeMin, stress, c, a)
  {
  }

  /** a < b and b <= c give a < c. */
  lemma BeforeThenNotAfter(env: Env, freeMin: int, stress: int, a: Task, b: Task, c: Task)
    requires Before(env, freeMin, stress, a, b) && !Before(env, freeMin, stress, c, b)
    ensures Before(env, freeMin, stress, a, c)
  {
  }

  /** What a sorted listing promises about any two positions: scores never
      rise, among equal scores deadlines never move earlier, and among
      equal scores and deadlines minutes never shrink. */
  lemma SortedListingKeys(s: seq<Task>, env: Env, freeMin: int, stress: int, i: int, j: int)
    requires Sorted(s, env, freeMin, stress) && 0 <= i < j < |s|
    ensures Score(s[i], env, freeMin, stress) >= Score(s[j], env, freeMin, stress)
    ensures Score(s[i], env, freeMin, stress) == Score(s[j], env, freeMin, stress)
        ==> DeadlineKey(s[i], env.parse) <= DeadlineKey(s[j], env.parse)
    ensures Score(s[i], env, freeMin, stress) == Score(s[j], env, freeMin, stress)
        && DeadlineKey(s[i], env.parse) == DeadlineKey(s[j], env.parse)
        ==> s[i].minutesNeeded <= s[j].minutesNeeded
  {
    assert !Before(env, freeMin, stress, s[j], s[i]);
  }

  /** On equal scores, a task with a parsed deadline earlier than 2^62
      nanoseconds (about the year 2116) is listed before one without. */
  lemma DatedBeforeUndatedOnTies(env: Env, freeMin: int, stress: int, a: Task, b: Task, d: int)
    requires Score(a, env, freeMin, stress) == Score(b, env, freeMin, stress)
    requires Deadline(a, env.parse) == Some(d) && d < NO_DEADLINE_KEY
    requires Deadline(b, env.parse).None?
    ensures Before(env, freeMin, stress, a, b)
  {
  }

  /** The sentinel is an ordinary number: a parsed deadline beyond 2^62
      nanoseconds is listed after a task without a deadline. */
  lemma FarDeadlineNotBeforeUndated(env: Env, freeMin: int, stress: int, a: Task, b: Task, d: int)
    requires Score(a, env, freeMin, stress) == Score(b, env, freeMin, stress)
    requires Deadline(a, env.parse) == Some(d) && d > NO_DEADLINE_KEY
    requires Deadline(b, env.parse).None?
    ensures Before(env, freeMin, stress, b, a)
  {
  }

  /** A pleasant ten-minute task of importance 5 due in five minutes is
      listed before an aversive two-hour task of importance 1 without a
      deadline, with 30 free minutes and stress 5 — provided the time
      pressure and quick-task bonus are not negative there, as the true log
      curves are not. */
  lemma PleasantUrgentBeforeAversiveLong(env: Env, a: Task, b: Task, d: int)
    requires a.emotion == PLEASANT && a.minutesNeeded == 10 && a.importance == 5
    requires Deadline(a, env.parse) == Some(d) && env.minutesUntil(d) == 5.0
    requires b.emotion == AVERSIVE && b.minutesNeeded == 120 && b.importance == 1 && b.dueAt.None?
    requires env.curves.timePressure(5.0) >= 0.0 && env.curves.quickBonus(10) >= 0.0
    ensures Before(env, 30, 5, a, b)
  {
    assert UrgencyScore(a, env) >= 0.8;
    assert UrgencyScore(b, env) == 0.15;
    assert FitScore(a, 30, env.curves) >= 0.6;
    assert FitScore(b, 30, env.curves) == 0.075;
  }

  /** No later key is strictly before an earlier one. */
  ghost predicate KeysSorted(ks: seq<SortKey>)
  {
    SortedBy(ks, KeyBefore)
  }

  /** The head of a sorted key sequence is not after any of its keys. */
  lemma HeadIsLeast(ks: seq<SortKey>, x: SortKey)
    requires KeysSorted(ks) && |ks| > 0 && x in multiset(ks)
    ensures !KeyBefore(x, ks[0])
  {
  }

  /** Keys are totally ordered, so a multiset of keys has exactly one
      sorted arrangement. */
  lemma {:induction false} SortedKeysUnique(a: seq<SortKey>, b: seq<SortKey>)
    requires KeysSorted(a) && KeysSorted(b) && multiset(a) == multiset(b)
    ensures a == b
    decreases |a|
  {
    if a == [] {
      assert |b| == |multiset(b)| == 0;
    } else {
      assert |b| == |multiset(b)| == |multiset(a)| == |a|;
      HeadIsLeast(b, a[0]);
      HeadIsLeast(a, b[0]);
      assert a[0] == b[0];
      MultisetTail(a);
      MultisetTail(b);
      SortedKeysUnique(a[1..], b[1..]);
    }
  }

  /** Two sorted listings of the same tasks agree key by key: they can
      differ only in how tasks with equal score, deadline key and minutes
      are arranged. */
  lemma SortedListingsAgree(s: seq<Task>, t: seq<Task>, env: Env, freeMin: int, stress: int)
    requires multiset(s) == multiset(t)
    requires Sorted(s, env, freeMin, stress) && Sorted(t, env, freeMin, stress)
    ensures |s| == |t|
    ensures forall i | 0 <= i < |s| :: KeyOf(s[i], env, freeMin, stress) == KeyOf(t[i], env, freeMin, stress)
  {
    var key := x => KeyOf(x, env, freeMin, stress);
    assert |s| == |multiset(s)| == |multiset(t)| == |t|;
    MapSeqPreservesMultiset(s, t, key);
    var ks, kt := MapSeq(s, key), MapSeq(t, key);
    forall i, j | 0 <= i < j < |ks| ensures !KeyBefore(ks[j], ks[i]) {
      MapSeqAt(s, key, i);
      MapSeqAt(s, key, j);
      assert !Before(env, freeMin, stress, s[j], s[i]);
    }
    forall i, j | 0 <= i < j < |kt| ensures !KeyBefore(kt[j], kt[i]) {
      MapSeqAt(t, key, i);
      MapSeqAt(t, key, j);
      assert !Before(env, freeMin, stress, t[j], t[i]);
    }
    SortedKeysUnique(ks, kt);
    forall i | 0 <= i < |s| ensures KeyOf(s[i], env, freeMin, stress) == KeyOf(t[i], env, freeMin, stress) {
      MapSeqAt(s, key, i);
      MapSeqAt(t, key, i);
      assert ks[i] == kt[i];
    }
  }

  /** The listing comparator meets what the sort demands of it. */
  lemma BeforeIsStrictWeakOrder(env: Env, freeMin: int, stress: int)
    ensures StrictWeakOrder((x, y) => Before(env, freeMin, stress, x, y))
  {
    var less := (x, y) => Before(env, freeMin, stress, x, y);
    forall x, y | less(x, y) ensures !less(y, x) {
      BeforeIrreflexive(env, freeMin, stress, x);
    }
    forall x, y, z | !less(y, x) && !less(z, y) ensures !less(z, x) {
      NotAfterTransitive(env, freeMin, stress, x, y, z);
    }
  }

  /** The `/order` sort: the snapshot array sorted in place by `Before`. */
  method SortForListing(a: array<Task>, env: Env, freeMin: int, stress: int)
    modifies a
    ensures Sorted(a[..], env, freeMin, stress)
    ensures multiset(a[..]) == old(multiset(a[..]))
  {
    BeforeIsStrictWeakOrder(env, freeMin, stress);
    SortBy(a, (x, y) => Before(env, freeMin, stress, x, y));
  }
}
