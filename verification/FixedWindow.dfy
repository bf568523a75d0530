/** FixedWindow of ratelimit.go: per key, the start of the current window and the calls it has counted. */
module FixedWindow {
  import opened RateLog

  datatype Count = Fresh | Counting(start: real, count: int)

  type Open = s: Count | s.Counting? witness Counting(0.0, 1)
  type Table = map<Key, Open>

  /** No entry means the key starts a new window. */
  function StateOf(t: Table, key: Key): Count {
    if key in t then t[key] else Fresh
  }

  predicate Over(s: Count, window: real, now: real) {
    s.Fresh? || now - s.start >= window
  }

  /** Allow on one key's state. */
  function AllowCount(max: int, window: real, s: Count, now: real): (Open, bool) {
    if Over(s, window, now) then (Counting(now, 1), true)
    else if s.count >= max then (s, false)
    else (Counting(s.start, s.count + 1), true)
  }

  function Swept(t: Table, window: real, now: real): Table {
    Kept(t, (s: Open) => Over(s, window, now))
  }

  function Step(max: int, window: real, t: Table, op: Op): (Table, bool) {
    match op
    case Call(key, now) =>
      var (s, ok) := AllowCount(max, window, StateOf(t, key), now);
      (t[key := s], ok)
    case Reset(key) => (t - {key}, false)
    case Sweep(now, _) => (Swept(t, window, now), false)
  }

  function Window(max: int, window: real): Machine<Table> {
    (t: Table, op: Op) => Step(max, window, t, op)
  }

  class Limiter {
    var state: Table
    const max: int
    const window: real

    constructor (max: int, window: real)
      ensures this.max == max && this.window == window && state == map[]
    {
      this.max, this.window := max, window;
      state := map[];
    }

    method Allow(key: Key, now: real) returns (ok: bool)
      modifies this
      ensures (state, ok) == Step(max, window, old(state), Call(key, now))
    {
      if key !in state || now - state[key].start >= window {
        state := state[key := Counting(now, 1)];
        return true;
      }
      if state[key].count >= max {
        assert state[key := state[key]] == state;
        return false;
      }
      state := state[key := state[key].(count := state[key].count + 1)];
      return true;
    }

    method Reset(key: Key)
      modifies this
      ensures state == Step(max, window, old(state), RateLog.Reset(key)).0
      ensures forall k :: k in state <==> k in old(state) && k != key
      ensures forall k :: k in state ==> state[k] == old(state)[k]
    {
      state := state - {key};
    }

    method Sweep(now: real) returns (removed: nat)
      modifies this
      ensures state == Swept(old(state), window, now)
      ensures forall k :: k in state <==> k in old(state) && old(state)[k].start > now - window
      ensures forall k :: k in state ==> state[k] == old(state)[k]
      ensures removed == |old(state)| - |state|
    {
      var cutoff := now - window;
      ghost var before := state;
      state, removed := DeleteStale(state, (s: Open) => s.start <= cutoff);
      assert Kept(before, (s: Open) => s.start <= cutoff) == Swept(before, window, now);
    }
  }

  // ----- The accepted calls of a key determine everything -----

  /** The window open after these accepted calls, recomputed from the calls alone. */
  function Current(window: real, h: seq<real>): (s: Count)
    ensures s.Fresh? <==> h == []
  {
    if h == [] then Fresh
    else
      var before, last := Current(window, h[..|h| - 1]), h[|h| - 1];
      if Over(before, window, last) then Counting(last, 1) else Counting(before.start, before.count + 1)
  }

  function ByHistory(max: int, window: real): Rule {
    (h: seq<real>, now: real) => AllowCount(max, window, Current(window, h), now).1
  }

  /** The stored window is the recomputed one, or it was swept and is over for good. */
  ghost predicate KeyAgrees(window: real, s: Count, h: seq<real>, now: real) {
    s == Current(window, h) || (s.Fresh? && Over(Current(window, h), window, now))
  }

  lemma StepAgrees(max: int, window: real, t: Table, key: Key, h: seq<real>, now: real, op: Op)
    requires KeyAgrees(window, StateOf(t, key), h, now) && now <= Later(now, op)
    ensures IsCall(op, key) ==> Step(max, window, t, op).1 == ByHistory(max, window)(h, op.at)
    ensures KeyAgrees(window, StateOf(Step(max, window, t, op).0, key),
                      HistoryAfter(ByHistory(max, window), h, op, key), Later(now, op))
  {
    if IsCall(op, key) {
      assert (h + [op.at])[..|h|] == h;
      assert Over(StateOf(t, key), window, op.at) == Over(Current(window, h), window, op.at);
    }
  }

  ghost function Held(window: real): (Table, Key, seq<real>, real) -> bool {
    (t: Table, key: Key, h: seq<real>, now: real) => KeyAgrees(window, StateOf(t, key), h, now)
  }

  function Legal(): Op -> bool {
    (op: Op) => true
  }

  lemma FollowsHistory(max: int, window: real)
    ensures Follows(Window(max, window), ByHistory(max, window), Legal(), Held(window))
  {
    forall t: Table, key: Key, h: seq<real>, now: real, op: Op |
      Held(window)(t, key, h, now) && now <= Later(now, op)
      ensures IsCall(op, key) ==> Window(max, window)(t, op).1 == ByHistory(max, window)(h, op.at)
      ensures Held(window)(Window(max, window)(t, op).0, key,
                           HistoryAfter(ByHistory(max, window), h, op, key), Later(now, op))
    {
      StepAgrees(max, window, t, key, h, now, op);
    }
  }

  lemma IsRegular(max: int, window: real, ops: seq<Op>, start: real)
    requires Monotone(ops, start)
    ensures Regular(Window(max, window), ByHistory(max, window), Legal(), Held(window), map[], ops, start)
  {
    FollowsHistory(max, window);
  }

  /** Every answer, in every run with sweeps and resets, is a function of the calls accepted since the
      key's last reset. */
  lemma RefinesHistory(max: int, window: real, ops: seq<Op>, start: real)
    requires Monotone(ops, start)
    ensures Verdicts(Window(max, window), map[], ops) == Verdicts(LogMachine(ByHistory(max, window)), map[], ops)
  {
    IsRegular(max, window, ops, start);
    RefinesLog(Window(max, window), ByHistory(max, window), Legal(), Held(window), map[], ops, start);
  }

  /** Refused calls, other keys and sweeps can be deleted from a run without changing any other answer. */
  lemma WindowErasure(max: int, window: real, ops: seq<Op>, start: real, mask: seq<bool>, key: Key)
    requires |ops| == |mask| && Monotone(ops, start)
    requires KeepsAccepted(ops, Verdicts(Window(max, window), map[], ops), mask, key)
    ensures var kept, v := Select(ops, mask), Verdicts(Window(max, window), map[], ops);
            && |kept| == |Select(v, mask)|
            && SameAnswers(kept, Select(v, mask), Verdicts(Window(max, window), map[], kept), key)
  {
    IsRegular(max, window, ops, start);
    Erasure(Window(max, window), ByHistory(max, window), Legal(), Held(window), map[], ops, start, mask, key);
  }

  // ----- How many calls an interval can hold -----

  /** The calls accepted in [lo, hi). */
  function CountFrom(h: seq<real>, lo: real, hi: real): (n: nat) {
    if h == [] then 0
    else CountFrom(h[..|h| - 1], lo, hi) + if lo <= h[|h| - 1] < hi then 1 else 0
  }

  /** The first call of a window is never refused, so a window holds at least one. */
  function PerWindow(max: int): (m: int) {
    if max > 1 then max else 1
  }

  /** n windows end to end, and what they hold at m calls each. */
  function Span(n: nat, window: real): real {
    if n == 0 then 0.0 else Span(n - 1, window) + window
  }

  function Quota(n: nat, m: int): int {
    if n == 0 then 0 else Quota(n - 1, m) + m
  }

  lemma {:induction false} SpanQuotaProducts(n: nat, window: real, m: int)
    ensures Span(n, window) == n as real * window && Quota(n, m) == n * m
  {
    if n > 0 { SpanQuotaProducts(n - 1, window, m); }
  }

  /** The open window holds what it counts; before it lie at most j full windows that start at or after
      t and one that straddles t, when it starts before t + (j+1) * window. */
  ghost predicate Packed(m: int, s: Count, last: real, counted: int, t: real, j: nat) {
    && s.Counting? && 1 <= s.count <= m && s.start <= last
    && (s.start < t ==> counted <= s.count)
    && counted <= Quota(j + 1, m) + s.count
  }

  lemma {:induction false} WindowsBefore(max: int, window: real, h: seq<real>, t: real, hi: real, j: nat)
    requires h != [] && Sorted(h) && Obeys(ByHistory(max, window), h)
    requires window > 0.0 && Current(window, h).start < t + Span(j + 1, window)
    ensures Packed(PerWindow(max), Current(window, h), h[|h| - 1], CountFrom(h, t, hi), t, j)
  {
    var before, last := h[..|h| - 1], h[|h| - 1];
    ObeysPrefix(ByHistory(max, window), h);
    QuotaNonNegative(j, PerWindow(max));
    if before != [] {
      var s, counted := Current(window, before), CountFrom(before, t, hi);
      var i := if Over(s, window, last) && j > 0 then j - 1 else j;
      WindowsBefore(max, window, before, t, hi, i);
      if Over(s, window, last) {
        if last < t { BeforeCountsNothing(h, t, hi); }
        NextWindow(PerWindow(max), window, s, before[|before| - 1], counted, t, last, j);
      }
    }
  }

  lemma QuotaNonNegative(n: nat, m: int)
    requires m >= 0
    ensures Quota(n, m) >= 0
  {
  }

  /** A window that opens once the previous one is over. */
  lemma NextWindow(m: int, window: real, s: Count, prev: real, counted: int, t: real, last: real, j: nat)
    requires window > 0.0 && s.Counting? && last - s.start >= window
    requires last < t + Span(j + 1, window)
    requires Packed(m, s, prev, counted, t, if j > 0 then j - 1 else j)
    ensures counted + 1 <= Quota(j + 1, m) + 1
  {
    if j == 0 { assert Span(1, window) == Span(0, window) + window && Quota(1, m) == m; }
  }

  lemma {:induction false} BeforeCountsNothing(h: seq<real>, t: real, hi: real)
    requires forall i :: 0 <= i < |h| ==> h[i] < t
    ensures CountFrom(h, t, hi) == 0
  {
    if h != [] { BeforeCountsNothing(h[..|h| - 1], t, hi); }
  }

  lemma {:induction false} HistoryBound(max: int, window: real, h: seq<real>, t: real, k: nat)
    requires k >= 1 && window > 0.0 && Sorted(h) && Obeys(ByHistory(max, window), h)
    ensures CountFrom(h, t, t + Span(k, window)) <= Quota(k + 1, PerWindow(max))
  {
    var hi := t + Span(k, window);
    QuotaNonNegative(k + 1, PerWindow(max));
    if h != [] {
      if h[|h| - 1] >= hi {
        ObeysPrefix(ByHistory(max, window), h);
        HistoryBound(max, window, h[..|h| - 1], t, k);
      } else {
        CurrentStart(window, h);
        WindowsBefore(max, window, h, t, hi, k - 1);
      }
    }
  }

  lemma {:induction false} CurrentStart(window: real, h: seq<real>)
    requires h != [] && Sorted(h)
    ensures Current(window, h).start <= h[|h| - 1]
  {
    if |h| > 1 { CurrentStart(window, h[..|h| - 1]); }
  }

  /** Without a reset of the key, any interval [t, t + k*window) of any run holds at most (k+1)*max of its
      accepted calls; a max below one counts as one. */
  lemma IntervalBound(max: int, window: real, ops: seq<Op>, start: real, key: Key, t: real, k: nat)
    requires Monotone(ops, start) && NeverReset(ops, key)
    requires k >= 1
    ensures CountFrom(AcceptedTimes(ops, Verdicts(Window(max, window), map[], ops), key), t, t + k as real * window)
         <= (k + 1) * PerWindow(max)
  {
    IsRegular(max, window, ops, start);
    GrantedHistory(Window(max, window), ByHistory(max, window), Legal(), Held(window), map[], ops, start, key);
    var h := AcceptedTimes(ops, Verdicts(Window(max, window), map[], ops), key);
    SpanQuotaProducts(k, window, 0);
    SpanQuotaProducts(k + 1, window, PerWindow(max));
    if window > 0.0 {
      HistoryBound(max, window, h, t, k);
    } else {
      EmptyInterval(h, t, t + Span(k, window));
      QuotaNonNegative(k + 1, PerWindow(max));
    }
  }

  lemma {:induction false} EmptyInterval(h: seq<real>, t: real, hi: real)
    requires hi <= t
    ensures CountFrom(h, t, hi) == 0
  {
    if h != [] { EmptyInterval(h[..|h| - 1], t, hi); }
  }

  // ----- Nobody is refused without reason -----

  /** What the open window counts was accepted since its start. */
  ghost predicate Counted(s: Count, h: seq<real>, now: real) {
    s.Counting? ==> s.start <= now && forall lo :: lo < s.start ==> s.count <= CountIn(h, lo, now)
  }

  ghost function CountedFor(key: Key): (Table, seq<real>, real) -> bool {
    (t: Table, h: seq<real>, now: real) => Counted(StateOf(t, key), h, now)
  }

  lemma CountedCall(max: int, window: real, s: Count, h: seq<real>, now: real, at: real)
    requires Counted(s, h, now) && now <= at
    ensures AllowCount(max, window, s, at).1 ==> Counted(AllowCount(max, window, s, at).0, h + [at], at)
    ensures !AllowCount(max, window, s, at).1 ==> Counted(AllowCount(max, window, s, at).0, h, at)
  {
    var s' := AllowCount(max, window, s, at).0;
    if AllowCount(max, window, s, at).1 {
      forall lo: real | lo < s'.start ensures s'.count <= CountIn(h + [at], lo, at) {
        CountOneMore(h, at, lo, at);
        CountGrows(h, lo, now, at);
      }
    } else {
      CountedLater(s, h, now, at);
    }
  }

  lemma CountedLater(s: Count, h: seq<real>, now: real, at: real)
    requires Counted(s, h, now) && now <= at
    ensures Counted(s, h, at)
  {
    if s.Counting? {
      forall lo | lo < s.start ensures s.count <= CountIn(h, lo, at) { CountGrows(h, lo, now, at); }
    }
  }

  lemma KeepsCounted(max: int, window: real, key: Key)
    ensures Keeps(Window(max, window), key, CountedFor(key))
  {
    forall t: Table, h: seq<real>, now: real, op: Op | CountedFor(key)(t, h, now) && now <= Later(now, op)
      ensures CountedFor(key)(Window(max, window)(t, op).0, WithGrant(Window(max, window), t, op, key, h),
                              Later(now, op))
    {
      if IsCall(op, key) {
        CountedCall(max, window, StateOf(t, key), h, now, op.at);
      } else {
        CountedLater(StateOf(t, key), h, now, Later(now, op));
      }
    }
  }

  /** A call is refused only if max calls of its key were accepted in (now - window, now], whatever was reset or
      swept in between. */
  lemma RefusedOnlyWhenFull(max: int, window: real, ops: seq<Op>, start: real, i: nat)
    requires Monotone(ops, start) && i < |ops| && ops[i].Call?
    ensures var v := Verdicts(Window(max, window), map[], ops);
            !v[i] ==> CountIn(AcceptedTimes(ops[..i], v[..i], ops[i].key), ops[i].at - window, ops[i].at) >= max
  {
    var key, at := ops[i].key, ops[i].at;
    var v := Verdicts(Window(max, window), map[], ops);
    KeepsCounted(max, window, key);
    var s, last := AtStep(Window(max, window), key, CountedFor(key), map[], [], start, ops, i);
    var h := AcceptedTimes(ops[..i], v[..i], key);
    assert [] + h == h;
    if !v[i] { CountGrows(h, at - window, last, at); }
  }

  /** While a window that h[j] opened lasts, it is the open one and counts every call. */
  lemma {:induction false} StillOpen(max: int, window: real, h: seq<real>, j: nat)
    requires Sorted(h) && Obeys(ByHistory(max, window), h) && j < |h| && window > 0.0
    requires Over(Current(window, h[..j]), window, h[j]) && h[|h| - 1] < h[j] + window
    ensures Current(window, h) == Counting(h[j], |h| - j) && |h| - j <= PerWindow(max)
    decreases |h|
  {
    var before := h[..|h| - 1];
    ObeysPrefix(ByHistory(max, window), h);
    if j < |before| {
      assert before[..j] == h[..j];
      StillOpen(max, window, before, j);
    } else {
      assert before == h[..j];
    }
  }

  lemma OpenHolds(max: int, window: real, h: seq<real>, j: nat)
    requires Sorted(h) && Obeys(ByHistory(max, window), h) && j < |h| && window > 0.0
    requires j > 0 ==> h[j - 1] <= h[j] - window
    requires h[|h| - 1] < h[j] + window
    ensures CountFrom(h, h[j], h[j] + window) <= PerWindow(max)
  {
    if j > 0 {
      CurrentStart(window, h[..j]);
      assert h[..j][j - 1] == h[j - 1];
    }
    StillOpen(max, window, h, j);
    CountFromRest(h, h[j], h[j] + window, j);
  }

  /** A call that finds nothing accepted for a whole window opens a window of full length: from it on, no more than
      max calls are accepted before that length has passed. */
  lemma {:induction false} QuietThenMax(max: int, window: real, h: seq<real>, j: nat)
    requires Sorted(h) && Obeys(ByHistory(max, window), h) && j < |h| && window > 0.0
    requires j > 0 ==> h[j - 1] <= h[j] - window
    ensures CountFrom(h, h[j], h[j] + window) <= PerWindow(max)
    decreases |h|
  {
    if h[|h| - 1] < h[j] + window {
      OpenHolds(max, window, h, j);
    } else {
      var before := h[..|h| - 1];
      ObeysPrefix(ByHistory(max, window), h);
      assert before[j] == h[j] && (j > 0 ==> before[j - 1] == h[j - 1]);
      QuietThenMax(max, window, before, j);
    }
  }

  lemma {:induction false} CountFromRest(h: seq<real>, lo: real, hi: real, j: nat)
    requires j <= |h| && forall i :: 0 <= i < j ==> h[i] < lo
    ensures CountFrom(h, lo, hi) <= |h| - j
  {
    if |h| > j { CountFromRest(h[..|h| - 1], lo, hi, j); } else { BeforeCountsNothing(h, lo, hi); }
  }

  /** The same of runs. */
  lemma FullWindowAfterQuiet(max: int, window: real, ops: seq<Op>, start: real, key: Key, j: nat)
    requires Monotone(ops, start) && NeverReset(ops, key) && window > 0.0
    requires var h := AcceptedTimes(ops, Verdicts(Window(max, window), map[], ops), key);
             j < |h| && (j > 0 ==> h[j - 1] <= h[j] - window)
    ensures var h := AcceptedTimes(ops, Verdicts(Window(max, window), map[], ops), key);
            CountFrom(h, h[j], h[j] + window) <= PerWindow(max)
  {
    IsRegular(max, window, ops, start);
    GrantedHistory(Window(max, window), ByHistory(max, window), Legal(), Held(window), map[], ops, start, key);
    QuietThenMax(max, window, AcceptedTimes(ops, Verdicts(Window(max, window), map[], ops), key), j);
  }

  // ----- Below one -----

  /** The calls of a key accepted in [t, t + k*window) of a run. */
  function Granted(max: int, window: real, ops: seq<Op>, key: Key, t: real, k: nat): nat {
    CountFrom(AcceptedTimes(ops, Verdicts(Window(max, window), map[], ops), key), t, t + k as real * window)
  }

  /** The bound as promised, with max itself, in every run without a reset of the key. */
  ghost predicate BoundHolds(max: int, window: real, key: Key) {
    forall ops: seq<Op>, start: real, t: real, k: nat :: Monotone(ops, start) && NeverReset(ops, key) && k >= 1 ==>
      Granted(max, window, ops, key, t, k) <= Quota(k + 1, max)
  }

  lemma OneCallGranted(max: int, window: real, key: Key)
    requires window > 0.0
    ensures Monotone([Call(key, 0.0)], 0.0) && NeverReset([Call(key, 0.0)], key)
    ensures Granted(max, window, [Call(key, 0.0)], key, 0.0, 1) == 1
  {
    var ops := [Call(key, 0.0)];
    assert ops[1..] == [];
    assert AcceptedTimes(ops, Verdicts(Window(max, window), map[], ops), key) == [0.0];
    assert CountFrom([], 0.0, window) == 0;
  }

  lemma NothingGranted(max: int, window: real, ops: seq<Op>, key: Key, t: real, k: nat)
    requires window <= 0.0
    ensures Granted(max, window, ops, key, t, k) == 0
  {
    SpanQuotaProducts(k, window, 0);
    EmptyInterval(AcceptedTimes(ops, Verdicts(Window(max, window), map[], ops), key), t, t + Span(k, window));
  }

  lemma BoundOfRun(max: int, window: real, ops: seq<Op>, start: real, key: Key, t: real, k: nat)
    requires max >= 1 || (max == 0 && window <= 0.0)
    requires Monotone(ops, start) && NeverReset(ops, key) && k >= 1
    ensures Granted(max, window, ops, key, t, k) <= Quota(k + 1, max)
  {
    SpanQuotaProducts(k + 1, window, max);
    if max >= 1 {
      IntervalBound(max, window, ops, start, key, t, k);
    } else {
      NothingGranted(max, window, ops, key, t, k);
    }
  }

  /** The first call of a key is accepted whatever max is, so the promised bound of (k+1)*max holds exactly when
      max is at least one; a window of no length has only empty intervals, and there zero will do. */
  lemma BoundExact(max: int, window: real, key: Key)
    ensures BoundHolds(max, window, key) <==> max >= 1 || (max == 0 && window <= 0.0)
  {
    assert Quota(2, max) == Quota(1, max) + max == Quota(0, max) + max + max;
    if max >= 1 || (max == 0 && window <= 0.0) {
      forall ops: seq<Op>, start: real, t: real, k: nat | Monotone(ops, start) && NeverReset(ops, key) && k >= 1
        ensures Granted(max, window, ops, key, t, k) <= Quota(k + 1, max)
      {
        BoundOfRun(max, window, ops, start, key, t, k);
      }
    } else if window > 0.0 {
      OneCallGranted(max, window, key);
      assert Granted(max, window, [Call(key, 0.0)], key, 0.0, 1) > Quota(1 + 1, max);
    } else {
      NothingGranted(max, window, [], key, 0.0, 1);
      assert Monotone([], 0.0) && NeverReset([], key);
      assert Granted(max, window, [], key, 0.0, 1) > Quota(1 + 1, max);
    }
  }
}
