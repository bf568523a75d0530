/** The SM-2 step of internal/domain/srs. The E-factor is held in exact hundredths, where every grade's
    increment is an integer; instants are nanoseconds since the Unix epoch. */
module Srs {

  type Instant = int

  const SECOND: int := 1_000_000_000
  const DAY: int := 86_400 * SECOND

  const GRADE_WORST := 0
  const GRADE_SLOW := 3
  const GRADE_GOOD := 4
  const GRADE_PERFECT := 5

  const MIN_EFACTOR := 130
  const NEW_EFACTOR := 250

  datatype State = State(userId: int, questionId: int, efactor: int, intervalDays: int, repetitions: int,
                         dueAt: Instant, lastGrade: int, updatedAt: Instant)

  function NewState(now: Instant): State {
    State(0, 0, NEW_EFACTOR, 0, 0, now, GRADE_WORST, now)
  }

  function GradeFromResult(correct: bool, durationMs: int): (g: int)
    ensures 0 <= g <= 5
    ensures g >= GRADE_SLOW <==> correct
  {
    if !correct then GRADE_WORST
    else if durationMs < 0 then GRADE_GOOD
    else if durationMs < 5000 then GRADE_PERFECT
    else if durationMs < 15000 then GRADE_GOOD
    else GRADE_SLOW
  }

  /** math.Round of n/100: to the nearest integer, halves away from zero. */
  function RoundHundredths(n: int): (r: int)
    ensures 2 * n - 100 <= 200 * r <= 2 * n + 100
    ensures if n >= 0 then 200 * r != 2 * n - 100 else 200 * r != 2 * n + 100
  {
    if n >= 0 then (n + 50) / 100 else -((-n + 50) / 100)
  }

  /** 0.1 - (5-g) * (0.08 + (5-g) * 0.02), in hundredths. */
  function Delta(g: int): int {
    10 - (5 - g) * (8 + (5 - g) * 2)
  }

  function Next(s: State, g: int, now: Instant): State {
    var failed := g < GRADE_SLOW;
    var interval :=
      if failed || s.repetitions == 0 then 1
      else if s.repetitions == 1 then 6
      else RoundHundredths(s.intervalDays * s.efactor);
    var next := s.efactor + Delta(g);
    s.(repetitions := if failed then 0 else s.repetitions + 1,
       intervalDays := interval,
       efactor := if next > MIN_EFACTOR then next else MIN_EFACTOR,
       dueAt := now + interval * DAY,
       lastGrade := g,
       updatedAt := now)
  }

  /** One answer: its grade and when it was given. */
  datatype Review = Review(grade: int, at: Instant)

  /** The state after a sequence of reviews. */
  function Replay(s: State, rs: seq<Review>): State {
    if rs == [] then s
    else Next(Replay(s, rs[..|rs| - 1]), rs[|rs| - 1].grade, rs[|rs| - 1].at)
  }

  // ----- The E-factor is a walk reflected at 1.3 -----

  /** The sum of the increments of the first n grades. */
  function Drift(rs: seq<Review>, n: nat): int
    requires n <= |rs|
  {
    if n == 0 then 0 else Drift(rs, n - 1) + Delta(rs[n - 1].grade)
  }

  lemma {:induction false} DriftPrefix(rs: seq<Review>, m: nat, n: nat)
    requires n <= m <= |rs|
    ensures Drift(rs[..m], n) == Drift(rs, n)
  {
    if n > 0 { DriftPrefix(rs, m, n - 1); }
  }

  /** Where the walk would be had it last touched 1.3 after the k-th review. */
  function Touched(rs: seq<Review>, k: nat): int
    requires k <= |rs|
  {
    MIN_EFACTOR + Drift(rs, |rs|) - Drift(rs, k)
  }

  /** The E-factor is the largest of: the start plus all increments, and, for each review, 1.3 plus the
      increments after it. */
  lemma {:induction false} EFactorClosedForm(s: State, rs: seq<Review>)
    ensures var e := Replay(s, rs).efactor;
            && s.efactor + Drift(rs, |rs|) <= e
            && (forall k :: 1 <= k <= |rs| ==> Touched(rs, k) <= e)
            && (e == s.efactor + Drift(rs, |rs|) || exists k :: 1 <= k <= |rs| && e == Touched(rs, k))
  {
    if rs != [] {
      var n := |rs|;
      var before := rs[..n - 1];
      EFactorClosedForm(s, before);
      var delta := Delta(rs[n - 1].grade);
      DriftPrefix(rs, n - 1, n - 1);
      forall k | 1 <= k <= n - 1 ensures Touched(rs, k) == Touched(before, k) + delta {
        DriftPrefix(rs, n - 1, k);
      }
      assert Touched(rs, n) == MIN_EFACTOR;
      var e', e := Replay(s, before).efactor, Replay(s, rs).efactor;
      if e == e' + delta && e' != s.efactor + Drift(before, n - 1) {
        var k :| 1 <= k <= n - 1 && e' == Touched(before, k);
        assert e == Touched(rs, k);
      }
    }
  }

  lemma {:induction false} DriftBound(rs: seq<Review>, k: nat, n: nat)
    requires k <= n <= |rs|
    requires forall i :: 0 <= i < |rs| ==> rs[i].grade <= 5
    ensures Drift(rs, n) - Drift(rs, k) <= 10 * (n - k)
  {
    if k < n {
      DriftBound(rs, k, n - 1);
    }
  }

  /** Never below 1.3 after a review, and never above the start by more than 0.1 a review. */
  lemma {:induction false} EFactorRange(s: State, rs: seq<Review>)
    requires rs != [] && s.efactor >= MIN_EFACTOR
    requires forall i :: 0 <= i < |rs| ==> rs[i].grade <= 5
    ensures MIN_EFACTOR <= Replay(s, rs).efactor <= s.efactor + 10 * |rs|
  {
    var n, e := |rs|, Replay(s, rs).efactor;
    EFactorClosedForm(s, rs);
    assert Touched(rs, n) == MIN_EFACTOR;
    DriftBound(rs, 0, n);
    if e != s.efactor + Drift(rs, n) {
      var k :| 1 <= k <= n && e == Touched(rs, k);
      DriftBound(rs, k, n);
    }
  }

  // ----- What every reachable state satisfies -----

  predicate Sound(s: State) {
    && s.efactor >= MIN_EFACTOR && s.repetitions >= 0 && s.intervalDays >= 0
    && (s.repetitions == 1 ==> s.intervalDays == 1)
    && (s.repetitions >= 2 ==> s.intervalDays >= 6)
  }

  lemma ProductGrows(x: int, e: int, x': int, e': int)
    requires 0 <= x' <= x && 0 <= e' <= e
    ensures x' * e' <= x * e
  {
    assert x' * e' <= x * e';
    assert x * e' <= x * e;
  }

  /** From six days on, the clamped E-factor lengthens every interval. */
  lemma LongerInterval(interval: int, efactor: int)
    requires interval >= 6 && efactor >= MIN_EFACTOR
    ensures RoundHundredths(interval * efactor) > interval
    ensures 200 * RoundHundredths(interval * efactor) >= 260 * interval - 100
  {
    ProductGrows(interval, efactor, interval, MIN_EFACTOR);
  }

  lemma {:induction false} NextSound(s: State, g: int, now: Instant)
    requires Sound(s)
    ensures Sound(Next(s, g, now)) && Next(s, g, now).intervalDays >= 1
    ensures Next(s, g, now).dueAt >= now + DAY
  {
    if s.repetitions >= 2 { LongerInterval(s.intervalDays, s.efactor); }
  }

  lemma {:induction false} ReplaySound(s: State, rs: seq<Review>)
    requires Sound(s)
    ensures Sound(Replay(s, rs))
    ensures rs != [] ==> Replay(s, rs).intervalDays >= 1 && Replay(s, rs).dueAt >= rs[|rs| - 1].at + DAY
  {
    if rs != [] {
      ReplaySound(s, rs[..|rs| - 1]);
      NextSound(Replay(s, rs[..|rs| - 1]), rs[|rs| - 1].grade, rs[|rs| - 1].at);
    }
  }

  // ----- Better grades never give an earlier review -----

  ghost predicate AtLeast(a: State, b: State) {
    && a.efactor >= b.efactor && a.repetitions >= b.repetitions
    && a.intervalDays >= b.intervalDays && a.dueAt >= b.dueAt
  }

  lemma NextDominates(a: State, b: State, g: int, g': int, now: Instant)
    requires Sound(a) && Sound(b) && AtLeast(a, b) && g' <= g <= 5
    ensures AtLeast(Next(a, g, now), Next(b, g', now))
  {
    NextSound(a, g, now);
    NextSound(b, g', now);
    if a.repetitions >= 2 { LongerInterval(a.intervalDays, a.efactor); }
    if b.repetitions >= 2 { ProductGrows(a.intervalDays, a.efactor, b.intervalDays, b.efactor); }
  }

  /** From the same reachable state and at the same times, a pointwise no-worse sequence of grades keeps the
      E-factor, the streak, the interval and the due time at least as large. */
  lemma {:induction false} Dominance(start: Instant, past: seq<Review>, better: seq<Review>, worse: seq<Review>)
    requires |better| == |worse|
    requires forall i :: 0 <= i < |better| ==> better[i].at == worse[i].at && worse[i].grade <= better[i].grade <= 5
    ensures var s := Replay(NewState(start), past);
            forall n :: 0 <= n <= |better| ==> AtLeast(Replay(s, better[..n]), Replay(s, worse[..n]))
  {
    var s := Replay(NewState(start), past);
    ReplaySound(NewState(start), past);
    forall n | 0 <= n <= |better| ensures AtLeast(Replay(s, better[..n]), Replay(s, worse[..n])) {
      DominanceFrom(s, better[..n], worse[..n]);
    }
  }

  lemma {:induction false} DominanceFrom(s: State, better: seq<Review>, worse: seq<Review>)
    requires Sound(s) && |better| == |worse|
    requires forall i :: 0 <= i < |better| ==> better[i].at == worse[i].at && worse[i].grade <= better[i].grade <= 5
    ensures AtLeast(Replay(s, better), Replay(s, worse))
  {
    if better != [] {
      var n := |better| - 1;
      DominanceFrom(s, better[..n], worse[..n]);
      ReplaySound(s, better[..n]);
      ReplaySound(s, worse[..n]);
      NextDominates(Replay(s, better[..n]), Replay(s, worse[..n]), better[n].grade, worse[n].grade, better[n].at);
    }
  }

  // ----- A streak of successes grows geometrically -----

  /** 1.3 to the n. */
  function Growth(n: nat): real {
    if n == 0 then 1.0 else 1.3 * Growth(n - 1)
  }

  predicate AllPassed(rs: seq<Review>) {
    forall i :: 0 <= i < |rs| ==> rs[i].grade >= GRADE_SLOW
  }

  lemma {:induction false} StreakCounts(s: State, rs: seq<Review>)
    requires Sound(s) && s.repetitions == 0 && AllPassed(rs)
    ensures Replay(s, rs).repetitions == |rs|
  {
    if rs != [] { StreakCounts(s, rs[..|rs| - 1]); }
  }

  /** After k >= 2 successes since a reset or a new state the interval is at least
      (13/3) * 1.3^(k-2) + 5/3 days. */
  lemma {:induction false} StreakGrowth(s: State, rs: seq<Review>)
    requires Sound(s) && s.repetitions == 0 && AllPassed(rs) && |rs| >= 2
    ensures Replay(s, rs).intervalDays as real >= 13.0 / 3.0 * Growth(|rs| - 2) + 5.0 / 3.0
  {
    var before := rs[..|rs| - 1];
    var b := Replay(s, before);
    StreakCounts(s, before);
    ReplaySound(s, before);
    if |rs| > 2 {
      StreakGrowth(s, before);
      LongerInterval(b.intervalDays, b.efactor);
      assert 200.0 * Replay(s, rs).intervalDays as real >= 260.0 * b.intervalDays as real - 100.0;
    }
  }

  /** From the first success of a streak on, every further success lengthens the interval. */
  lemma StreakLengthens(s: State, rs: seq<Review>)
    requires Sound(s) && s.repetitions == 0 && AllPassed(rs) && |rs| >= 2
    ensures Replay(s, rs).intervalDays > Replay(s, rs[..|rs| - 1]).intervalDays
  {
    var b := Replay(s, rs[..|rs| - 1]);
    StreakCounts(s, rs[..|rs| - 1]);
    ReplaySound(s, rs[..|rs| - 1]);
    if |rs| > 2 { LongerInterval(b.intervalDays, b.efactor); }
  }

  /** A failed review starts a streak from nothing, whatever came before. */
  lemma {:induction false} FailureResets(start: Instant, past: seq<Review>)
    requires past != [] && past[|past| - 1].grade < GRADE_SLOW
    ensures var s := Replay(NewState(start), past);
            Sound(s) && s.repetitions == 0 && s.intervalDays == 1 && s.dueAt == past[|past| - 1].at + DAY
  {
    ReplaySound(NewState(start), past);
  }

  // ----- A replay is a left fold -----

  lemma {:induction false} ReplayAppend(s: State, rs: seq<Review>, r: Review)
    ensures Replay(s, rs + [r]) == Next(Replay(s, rs), r.grade, r.at)
  {
    assert (rs + [r])[..|rs|] == rs;
  }

  // ----- The numbers themselves -----

  /** A slower correct answer never grades higher; a full grade ends at five seconds, a good one at fifteen; a
      negative duration counts as good. */
  lemma GradeLimits(d: int, slower: int)
    requires 0 <= d <= slower
    ensures GradeFromResult(true, d) >= GradeFromResult(true, slower)
    ensures GradeFromResult(true, 0) == GradeFromResult(true, 4999) == 5
    ensures GradeFromResult(true, 5000) == GradeFromResult(true, 14999) == 4
    ensures GradeFromResult(true, 15000) == 3
    ensures GradeFromResult(true, slower) >= 3
    ensures forall e :: e < 0 ==> GradeFromResult(true, e) == 4
    ensures forall e :: GradeFromResult(false, e) == 0
  {
  }

  /** The increments of the grades 5 to 0: +0.10, 0, -0.14, -0.32, -0.54 and -0.80; that is the formula of SM-2. */
  lemma Increments(g: int)
    ensures Delta(5) == 10 && Delta(4) == 0 && Delta(3) == -14 && Delta(2) == -32 && Delta(1) == -54 && Delta(0) == -80
    ensures Delta(g) as real / 100.0 == 0.1 - (5 - g) as real * (0.08 + (5 - g) as real * 0.02)
  {
    var q := 5 - g;
    assert Delta(g) == 10 - 8 * q - 2 * (q * q);
    assert (q * q) as real == q as real * q as real;
    assert q as real * (0.08 + q as real * 0.02) == 0.08 * q as real + 0.02 * (q as real * q as real);
  }

  /** The state after one more review: its interval is a day after a failure or first success, six days after the
      second, and else the nearest whole number of days to the old interval times the old E-factor; it is due that
      many days on. */
  lemma NextExactly(s: State, rs: seq<Review>, r: Review)
    requires Sound(s)
    ensures var (b, a) := (Replay(s, rs), Replay(s, rs + [r]));
            && a.userId == s.userId && a.questionId == s.questionId
            && a.lastGrade == r.grade && a.updatedAt == r.at && a.dueAt == r.at + a.intervalDays * (24 * 3600 * SECOND)
            && (r.grade < 3 ==> a.repetitions == 0 && a.intervalDays == 1)
            && (r.grade >= 3 ==> a.repetitions == b.repetitions + 1)
            && (r.grade >= 3 && b.repetitions == 0 ==> a.intervalDays == 1)
            && (r.grade >= 3 && b.repetitions == 1 ==> a.intervalDays == 6)
            && (r.grade >= 3 && b.repetitions >= 2 ==>
                  b.intervalDays * b.efactor - 50 < 100 * a.intervalDays <= b.intervalDays * b.efactor + 50)
  {
    ReplayAppend(s, rs, r);
    ReplaySound(s, rs);
    SameQuestion(s, rs);
    if Replay(s, rs).repetitions >= 2 {
      ProductGrows(Replay(s, rs).intervalDays, Replay(s, rs).efactor, 0, 0);
    }
  }

  lemma {:induction false} SameQuestion(s: State, rs: seq<Review>)
    ensures Replay(s, rs).userId == s.userId && Replay(s, rs).questionId == s.questionId
  {
    if rs != [] { SameQuestion(s, rs[..|rs| - 1]); }
  }

  /** A new state is due at once; from there n perfect answers give an E-factor of 2.5 + 0.1 n. */
  lemma {:induction false} PerfectRun(now: Instant, rs: seq<Review>)
    requires forall i :: 0 <= i < |rs| ==> rs[i].grade == 5
    ensures NewState(now).dueAt == now && NewState(now).repetitions == 0 && NewState(now).intervalDays == 0
    ensures Replay(NewState(now), rs).efactor == 250 + 10 * |rs|
  {
    if rs != [] { PerfectRun(now, rs[..|rs| - 1]); }
  }
}
