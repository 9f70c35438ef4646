# tiny_task_scheduler — a verified model of the ranking core

tiny_task_scheduler is a small task-prioritisation service. It keeps a map
of tasks in memory, persists it to a JSON file, and answers two questions for
a caller who states how many minutes are free and how stressed they are:
"in which order should I do my tasks?" (`GET /order`) and "what should I
do next?" (`GET /next`).

This project models the core of that service in Dafny:

- `Ranking` (ranking.dfy) holds the four sub-scores (urgency, fit, emotional
  affinity, stress match) and their weighted sum. Urgency, fit and stress
  match are clamped to their ranges; the emotional bonus is a table of
  constants. The log10 subexpressions are opaque real functions (`Curves`).
  The RFC 3339 parser and the wall clock are parameters (`Env`). So the
  range bounds on each sub-score and on the score hold whatever those
  functions return. The few lemmas that need more of a curve (its sign, or
  an exact value) say so.
- `Ordering` (ordering.dfy) holds the `/order` comparator and its
  properties:
  - score descending, then deadline ascending (2^62 ns for a missing or
    unparseable deadline), then minutes needed ascending;
  - it is a strict weak order;
  - any two sorted listings of the same tasks agree key by key;
  - the in-place sort of the snapshot.
- `Sorting` (sorting.dfy) is a generic in-place insertion sort over an
  array. It is proved to return a sorted permutation for any strict weak
  order, which is all the library sort promises.
- `Selection` (selection.dfy) holds the request defaults (`freeMin` 0 → 30,
  `stress` 0 → 3) and the `/next` scan: strict `>`, seeded with -1.0, so the
  first task of highest score wins.
- `Store` (store.dfy) is the task store, a class whose `tasks` map is
  updated by upsert (an empty id is refused), delete and the startup load.
  It also has the snapshot loop that copies the map for `GET /tasks`,
  `/order` and the save. `/next` scans the map directly; the model's
  `Next` scans a snapshot instead, which visits the tasks in the same
  (map) order. The persisted array and the map are related by
  `FromArray`, and a lemma proves that loading a snapshot gives back the
  same map.
- `Wrappers`, `Tasks` and `Sequences` hold the `Option`/`Result` types,
  the task record, and generic sequence and multiset facts.

How the code behaves where one might expect otherwise (the model follows
the code in each case):

- The score envelope is [-0.015, 1.145], not [0, 1]. `Ranking.ScoreCanExceedOne`
  shows a task scoring at least 1.045 with the exact log values.
- A task with an empty id is refused by upsert but accepted by the startup
  load (main.go:124-126 stores it under the key "").
- When the data file cannot be read or decoded, the load returns early and
  leaves the map as it is (main.go:116-117, 120). At startup that map is
  empty.
- `/next` breaks ties by map iteration order: the first task to reach the
  highest score wins. It does not use the `/order` tie-breaks.
- The "no deadline" key 1<<62 is an ordinary number. On equal scores, a
  task whose deadline lies beyond 2^62 ns after the epoch (around the year
  2116) is listed after a task with no deadline
  (`Ordering.FarDeadlineNotBeforeUndated`).

## Model

| member | source | states |
|---|---|---|
| Ranking.Clamp | main.go:39-47 | the result lies in [lo, hi] whenever lo <= hi, and equals v when v already lies there |
| Ranking.ClampMonotone | main.go:39-47 | clamping preserves <= between values |
| Ranking.MinutesLeft | main.go:57-60 | a negative value (the deadline has passed) becomes 0; any other value is kept |
| Ranking.ImportanceUrgency | main.go:50-56 | the no-deadline urgency lies in [0, 0.8] whatever the importance, and is 0.15 * importance for the nominal importances 0 to 5 |
| Ranking.UrgencyScore | main.go:49-64 | urgency lies in [0, 1.5]; without a parsable deadline it is the importance-only value, at most 0.8 |
| Ranking.UrgencyMonotoneInImportance | main.go:49-64 | with the same deadline text, higher importance never lowers urgency, on either branch |
| Ranking.UrgencyPastDeadlinesTie | main.go:57-63 | once two deadlines have passed, tasks of equal importance get the same urgency, the value at zero minutes left |
| Ranking.FitScore | main.go:66-75 | fit is 0 with no free time, always lies in [0, 1], and lies strictly between 0 and 0.3 for a task longer than the free time |
| Ranking.FitPrefersTasksThatFit | main.go:70-74 | given a non-negative quick-task bonus, a task that fits the free time scores at least 0.6, above one that does not (below 0.3) |
| Ranking.FitPartialGrowsWithFreeTime | main.go:73-74 | for a task that does not fit, more free time never lowers fit |
| Ranking.EmotionScore | main.go:77-94 | the emotional bonus lies in [-0.10, 0.30]; an unknown tag contributes 0 |
| Ranking.EmotionUnderStress | main.go:77-94 | at stress 4 and up a pleasant task gains (0.30 vs 0.15) and an aversive one drops below zero (-0.10 vs 0.05); neutral stays 0.10 |
| Ranking.StressMatchScore | main.go:96-103 | the stress match lies in [0, 1], and is 0.5 at the middle stress level 3 |
| Ranking.Score | main.go:105-112 | the combined score lies in [-0.015, 1.145], hence above the /next seed -1.0 |
| Ranking.ScoreCanExceedOne | main.go:105-112 | with log10(10) = 1 and log10(1) = 0, a pleasant zero-minute urgent task of importance 5 scores at least 1.045 |
| Ranking.Deadline | main.go:50-55 | a task without deadline text, or whose text does not parse, has no deadline; a text that parses gives exactly the parsed deadline |
| Ordering.DeadlineKey | main.go:249-259 | the comparator's deadline key is 1<<62 without a usable deadline and the parsed nanoseconds otherwise |
| Ordering.KeyOf | main.go:243-263 | the three keys compared: the task's combined score (within [-0.015, 1.145]), its deadline key and its minutes needed |
| Ordering.KeyBefore | main.go:245-263 | one key is before another exactly when its score is higher, or scores tie and its deadline is earlier, or both tie and its minutes are fewer; no key is before itself |
| Ordering.Before | main.go:242-264 | a higher score is always listed first and a lower one never; on equal scores the earlier deadline key, then the smaller minutes needed, decides |
| Ordering.BeforeIrreflexive | main.go:242-264 | no task is listed strictly before itself |
| Ordering.BeforeTransitive | main.go:242-264 | the comparator is transitive |
| Ordering.IncomparableIffSameKeys | main.go:242-264 | two tasks are unordered, in both directions, exactly when score, deadline key and minutes are all equal |
| Ordering.NotAfterTransitive | main.go:242-264 | "not after" is transitive |
| Ordering.BeforeThenNotAfter | main.go:242-264 | before followed by not-after gives before |
| Ordering.BeforeIsStrictWeakOrder | main.go:242-264 | the comparator is a strict weak order, which the library sort requires |
| Ordering.SortedListingKeys | main.go:242-264 | in a sorted listing scores never rise; on equal scores deadline keys never fall; on equal scores and deadlines minutes never fall |
| Ordering.DatedBeforeUndatedOnTies | main.go:249-262 | on equal scores a task with a parsed deadline before 2^62 ns is listed before one without a deadline |
| Ordering.FarDeadlineNotBeforeUndated | main.go:249-262 | on equal scores a task without a deadline is listed before one whose deadline lies beyond 2^62 ns |
| Ordering.PleasantUrgentBeforeAversiveLong | main.go:242-247 | a 10-minute pleasant importance-5 task due in 5 minutes is listed before a 2-hour aversive importance-1 task with no deadline (30 free minutes, stress 5), given non-negative time pressure and quick-task bonus there |
| Ordering.SortedListingsAgree | main.go:242-264 | two sorted listings of the same tasks have the same key at every position, so only tasks with equal keys can trade places |
| Ordering.SortForListing | main.go:242-264 | the array ends sorted by the listing order and is a permutation of what it held |
| Sorting.SortBy | main.go:242 | for any strict weak order, the array ends sorted and is a permutation of what it held |
| Selection.DefaultFreeMin | main.go:225-228 | a free-minutes value of 0 (absent or unparsable) becomes 30, any other value is kept, and the result is never 0 |
| Selection.DefaultStress | main.go:229-232 | a stress of 0 (absent or unparsable) becomes 3, any other value is kept, and the result is never 0 |
| Selection.BestAbove | main.go:281-290 | nothing is chosen exactly when no score beats the seed; otherwise the choice has the highest score and scores strictly above every earlier element |
| Selection.PickNext | main.go:280-297 | nothing is chosen exactly when there are no tasks; otherwise the choice is the first task of highest score |
| Store.FromArray | main.go:123-126 | the loaded map's keys are exactly the ids in the array, and every task sits under its own id |
| Store.FromArrayLastWins | main.go:124-126 | every key holds the last array element with that id |
| Store.LoadOfSnapshot | main.go:114-141 | loading a saved snapshot of the store gives back the same map, whatever order the snapshot lists the tasks in |
| Store.PermutedSnapshot | main.go:236-242 | any reordering of a snapshot, the sorted listing included, is again a snapshot of the store |
| Store.TaskStore.constructor | main.go:36 | the store starts empty |
| Store.TaskStore.Upsert | main.go:195-203 | an empty id is refused with InvalidTask and nothing changes; otherwise the task replaces any task with its id and the reply is the new count |
| Store.TaskStore.Delete | main.go:215-220 | the id is removed (nothing changes when absent) and the reply is the new count |
| Store.TaskStore.Load | main.go:114-128 | a read or decode failure leaves the map as it was; otherwise the map is rebuilt from the array alone, later tasks replacing earlier ones |
| Store.TaskStore.Snapshot | main.go:182-187 | the returned sequence lists every stored task exactly once, each the task stored under its id |
| Store.TaskStore.Order | main.go:223-265 | the listing is a snapshot of the store, sorted by the listing order under the defaulted free minutes and stress |
| Store.TaskStore.Next | main.go:268-297 | nothing is returned exactly when the store is empty; otherwise a stored task whose score no other stored task exceeds |

## Left out

- The HTTP layer is not modelled: routing, CORS, status codes, `/health`, method checks and the JSON request body decoding with its 400 error (main.go:143-160, 175-213). Each endpoint is a method taking already decoded values.
- The ids taken from the `DELETE` path (`/tasks/<id>`) and the integers read from the query by `strconv.Atoi` are parameters. A parameter may be any integer. Text that is not a number arrives as 0, which `Atoi` returns on a syntax error. A number outside Go's int range arrives as the largest or smallest int, which `Atoi` returns with its range error.
- Persistence is not modelled: file reading and writing, the temporary file and the rename. Save is represented only by the snapshot it writes, and `Store.LoadOfSnapshot` states the save-then-load round trip. The decoded file content is `Load`'s parameter.
- Concurrency is not modelled: the read/write mutex, the goroutine saving every 30 seconds, and the count in the POST/DELETE replies being read after the lock is released. Each store operation is atomic.
- Floating point is modelled as exact reals. NaN and infinities are not modelled. They arise from log10 of a negative argument. With free minutes above 0, any `minutesNeeded <= -2` already makes the quick-task bonus NaN (main.go:71), and with it the whole score. Stress at 4 and up does the same for `minutesNeeded <= -6` (main.go:98), and stress at 2 and below for `minutesNeeded <= -11` (main.go:100). In Go, `s > bestScore` is then false (main.go:285), so `/next` can return nothing although the store is not empty. A NaN score also breaks the `/order` comparator's strict weak order. The model's curves return ordinary reals, so these cases are outside it.
- The log10 curves, the RFC 3339 parser and the clock are opaque parameters (`Curves`, `Env`). The model fixes one clock reading per request, whereas the Go comparator calls `time.Until` again on every comparison.
- Integer widths are not modelled: Go's `int` and the `int64` nanoseconds of `UnixNano`, which overflow for dates outside 1678-2262. All integers are unbounded.
- The iteration order of Go maps is unspecified. `Snapshot` picks keys in an arbitrary order, and every contract holds for any order.
- `sort.Slice` is an unstable pattern-defeating quicksort. It is modelled by an insertion sort, and the contracts promise only what the library does: some sorted permutation.
- Process start-up is not modelled: changing into the executable's directory and reading `PORT`.
- Ranking.UrgencyScore: with a parsed deadline only the range [0, 1.5] is stated, because the time-pressure curve is opaque.
- Ranking.StressMatchScore: for stress at or above 4 and at or below 2 only the range [0, 1] is stated, because the relief and substance curves are opaque.
- Ordering.SortForListing: the order among tasks with identical keys is not fixed, as with the unstable library sort. `Ordering.SortedListingsAgree` gives what is fixed.
- Store.TaskStore.Next: states that the result is a stored task of maximal score, not which of several equally scored tasks it is. That depends on the unspecified map order, and `Selection.PickNext` states the first-in-order rule for the snapshot it scans.
