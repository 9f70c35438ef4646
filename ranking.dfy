/** The ranking heuristics: four sub-scores and their weighted sum.
    Urgency, fit and stress match are kept in fixed ranges by clamping; the
    emotional bonus is a table of constants. Every subexpression built on
    log10 is an opaque real function supplied in `Curves`, so the range
    bounds on each sub-score and on the score hold whatever those curves
    return; only `Clamp` and the branch structure give them. Lemmas that
    need more of a curve (its sign, or an exact value) say so in their
    preconditions. */
module Ranking {
  import opened Wrappers
  import opened Tasks

  /** The log10-based subexpressions of the scoring functions. */
  datatype Curves = Curves(
    timePressure: real -> real,  // 1 / log10(10 + minutesLeft)
    quickBonus: int -> real,     // 1 / (1 + log10(1 + minutesNeeded))
    relief: int -> real,         // 1 / (1 + log10(5 + minutesNeeded))
    substance: int -> real)      // log10(10 + minutesNeeded)

  /** What scoring reads from outside: the RFC 3339 parser (Unix
      nanoseconds, or None when the text does not parse), the wall clock as
      "minutes from now until the instant d", and the log curves. */
  datatype Env = Env(
    parse: string -> Option<int>,
    minutesUntil: int -> real,
    curves: Curves)

  const URGENCY_WEIGHT: real := 0.50
  const FIT_WEIGHT: real := 0.25
  const EMOTION_WEIGHT: real := 0.15
  const STRESS_WEIGHT: real := 0.10

  /** Lowest and highest combined score the weights and clamps allow. */
  const MIN_SCORE: real := -0.015
  const MAX_SCORE: real := 1.145

  function Clamp(v: real, lo: real, hi: real): (r: real)
    ensures lo <= hi ==> lo <= r <= hi
    ensures lo <= v <= hi ==> r == v
  {
    if v < lo then lo else if v > hi then hi else v
  }

  lemma ClampMonotone(v: real, w: real, lo: real, hi: real)
    requires lo <= hi && v <= w
    ensures Clamp(v, lo, hi) <= Clamp(w, lo, hi)
  {
  }

  /** The parsed deadline: None when the task has none or its text does
      not parse (a malformed deadline counts as no deadline). */
  function Deadline(t: Task, parse: string -> Option<int>): (r: Option<int>)
    ensures t.dueAt.None? ==> r.None?
    ensures t.dueAt.Some? && parse(t.dueAt.value).None? ==> r.None?
    ensures t.dueAt.Some? && parse(t.dueAt.value).Some? ==> r == parse(t.dueAt.value)
    ensures r.Some? ==> t.dueAt.Some? && parse(t.dueAt.value) == r
  {
    match t.dueAt
    case None => None
    case Some(text) => parse(text)
  }

  /** Minutes remaining, floored at zero once the deadline has passed. */
  function MinutesLeft(raw: real): (r: real)
    ensures r >= 0.0
    ensures raw < 0.0 ==> r == 0.0
    ensures raw >= 0.0 ==> r == raw
  {
    if raw < 0.0 then 0.0 else raw
  }

  /** Urgency from importance alone, used when there is no usable deadline. */
  function ImportanceUrgency(importance: int): (r: real)
    ensures 0.0 <= r <= 0.8
    ensures 0 <= importance <= 5 ==> r == 0.15 * (importance as real)
  {
    Clamp(0.15 * (importance as real), 0.0, 0.8)
  }

  function UrgencyScore(t: Task, env: Env): (r: real)
    ensures 0.0 <= r <= 1.5
    ensures Deadline(t, env.parse).None? ==> r == ImportanceUrgency(t.importance) && r <= 0.8
  {
    match Deadline(t, env.parse)
    case None => ImportanceUrgency(t.importance)
    case Some(d) =>
      var timePressure := env.curves.timePressure(MinutesLeft(env.minutesUntil(d)));
      var importanceBoost := 0.2 * ((t.importance - 1) as real);
      Clamp(timePressure + importanceBoost, 0.0, 1.5)
  }

  /** Urgency never decreases when only the importance grows, with or
      without a deadline. */
  lemma UrgencyMonotoneInImportance(t: Task, u: Task, env: Env)
    requires t.dueAt == u.dueAt && t.importance <= u.importance
    ensures UrgencyScore(t, env) <= UrgencyScore(u, env)
  {
    match Deadline(t, env.parse)
    case None =>
      ClampMonotone(0.15 * (t.importance as real), 0.15 * (u.importance as real), 0.0, 0.8);
    case Some(d) =>
      var tp := env.curves.timePressure(MinutesLeft(env.minutesUntil(d)));
      ClampMonotone(tp + 0.2 * ((t.importance - 1) as real), tp + 0.2 * ((u.importance - 1) as real), 0.0, 1.5);
  }

  /** Once two deadlines have both passed, how long ago no longer matters:
      tasks of equal importance get the same urgency. */
  lemma UrgencyPastDeadlinesTie(t: Task, u: Task, env: Env, dt: int, du: int)
    requires Deadline(t, env.parse) == Some(dt) && env.minutesUntil(dt) <= 0.0
    requires Deadline(u, env.parse) == Some(du) && env.minutesUntil(du) <= 0.0
    requires t.importance == u.importance
    ensures UrgencyScore(t, env) == UrgencyScore(u, env)
    ensures UrgencyScore(t, env) == Clamp(env.curves.timePressure(0.0) + 0.2 * ((t.importance - 1) as real), 0.0, 1.5)
  {
    assert MinutesLeft(env.minutesUntil(dt)) == 0.0 == MinutesLeft(env.minutesUntil(du));
  }

  function FitScore(t: Task, freeMin: int, c: Curves): (r: real)
    ensures freeMin <= 0 ==> r == 0.0
    ensures 0.0 <= r <= 1.0
    ensures 0 < freeMin < t.minutesNeeded ==> 0.0 < r < 0.3
  {
    if freeMin <= 0 then 0.0
    else if t.minutesNeeded <= freeMin then Clamp(0.6 + 0.4 * c.quickBonus(t.minutesNeeded), 0.0, 1.0)
    else
      // here t.minutesNeeded > freeMin > 0, so the divisor is positive
      var ratio := (freeMin as real) / (t.minutesNeeded as real);
      assert 0.0 < ratio < 1.0 by {
        assert ratio * (t.minutesNeeded as real) == freeMin as real;
      }
      Clamp(0.3 * ratio, 0.0, 1.0)
  }

  /** A task that fits the free time scores above one that does not, as
      long as the quick-task bonus is not negative (it never is for the
      true log curve). */
  lemma FitPrefersTasksThatFit(t: Task, u: Task, freeMin: int, c: Curves)
    requires 0 < freeMin && t.minutesNeeded <= freeMin < u.minutesNeeded
    requires c.quickBonus(t.minutesNeeded) >= 0.0
    ensures FitScore(u, freeMin, c) < 0.3 < 0.6 <= FitScore(t, freeMin, c)
  {
  }

  /** For a task that does not fit, more free time means a larger share of
      it can be done, hence a score at least as large. */
  lemma FitPartialGrowsWithFreeTime(t: Task, f: int, g: int, c: Curves)
    requires 0 < f <= g < t.minutesNeeded
    ensures FitScore(t, f, c) <= FitScore(t, g, c)
  {
    DivideMonotone(f as real, g as real, t.minutesNeeded as real);
  }

  lemma DivideMonotone(a: real, b: real, m: real)
    requires 0.0 < m && a <= b
    ensures a / m <= b / m
  {
  }

  function EmotionScore(t: Task, stress: int): (r: real)
    ensures -0.10 <= r <= 0.30
    ensures t.emotion != PLEASANT && t.emotion != NEUTRAL && t.emotion != AVERSIVE ==> r == 0.0
  {
    if t.emotion == PLEASANT then (if stress >= 4 then 0.30 else 0.15)
    else if t.emotion == NEUTRAL then 0.10
    else if t.emotion == AVERSIVE then (if stress >= 4 then -0.10 else 0.05)
    else 0.0
  }

  /** How stress moves the emotional bonus: high stress (4 and up) raises
      pleasant tasks and pushes aversive ones below zero, while under low
      stress an aversive task still earns a small positive value; neutral
      tasks are unaffected. */
  lemma EmotionUnderStress(t: Task, high: int, low: int)
    requires high >= 4 > low
    ensures t.emotion == PLEASANT ==> EmotionScore(t, high) == 0.30 > EmotionScore(t, low) == 0.15
    ensures t.emotion == AVERSIVE ==> EmotionScore(t, high) == -0.10 < 0.0 < EmotionScore(t, low) == 0.05
    ensures t.emotion == NEUTRAL ==> EmotionScore(t, high) == EmotionScore(t, low) == 0.10
  {
  }

  function StressMatchScore(t: Task, stress: int, c: Curves): (r: real)
    ensures 0.0 <= r <= 1.0
    ensures stress == 3 ==> r == 0.5
  {
    if stress >= 4 then Clamp(c.relief(t.minutesNeeded), 0.0, 1.0)
    else if stress <= 2 then Clamp(c.substance(t.minutesNeeded) / 3.0, 0.0, 1.0)
    else 0.5
  }

  /** The combined ordering score. Its envelope is the weighted sum of the
      sub-scores' ranges; in particular every score is above -1.0. */
  function Score(t: Task, env: Env, freeMin: int, stress: int): (r: real)
    ensures MIN_SCORE <= r <= MAX_SCORE
    ensures r > -1.0
  {
    URGENCY_WEIGHT * UrgencyScore(t, env)
    + FIT_WEIGHT * FitScore(t, freeMin, env.curves)
    + EMOTION_WEIGHT * EmotionScore(t, stress)
    + STRESS_WEIGHT * StressMatchScore(t, stress, env.curves)
  }

  /** With the exact values log10(10) = 1 and log10(1) = 0, a pleasant
      zero-minute task of importance 5 whose deadline has passed scores
      above 1.0 under high stress: the envelope really reaches past 1.0. */
  lemma ScoreCanExceedOne(t: Task, env: Env, d: int)
    requires env.curves.timePressure(0.0) == 1.0 && env.curves.quickBonus(0) == 1.0
    requires t.emotion == PLEASANT && t.minutesNeeded == 0 && t.importance == 5
    requires Deadline(t, env.parse) == Some(d) && env.minutesUntil(d) <= 0.0
    ensures Score(t, env, 30, 5) >= 1.045 > 1.0
  {
    assert MinutesLeft(env.minutesUntil(d)) == 0.0;
    assert UrgencyScore(t, env) == 1.5;
    assert FitScore(t, 30, env.curves) == 1.0;
  }
}
