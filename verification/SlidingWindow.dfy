/** SlidingWindow of ratelimit.go: per key, the times of the accepted calls still inside the window. */
module SlidingWindow {
  import opened RateLog

  type Table = map<Key, seq<real>>

  function Times(t: Table, key: Key): seq<real> {
    if key in t then t[key] else []
  }

  /** The times strictly after the cutoff, in order. */
  function After(h: seq<real>, cutoff: real): (r: seq<real>)
    ensures |r| <= |h|
  {
    if h == [] then []
    else
      var rest := After(h[..|h| - 1], cutoff);
      if h[|h| - 1] > cutoff then rest + [h[|h| - 1]] else rest
  }

  predicate Stale(h: seq<real>, cutoff: real) {
    h == [] || h[|h| - 1] <= cutoff
  }

  /** Allow on one key's list. */
  function AllowTimes(max: int, window: real, h: seq<real>, now: real): (seq<real>, bool) {
    var pruned := After(h, now - window);
    if |pruned| >= max then (pruned, false) else (pruned + [now], true)
  }

  function Swept(t: Table, cutoff: real): Table {
    Kept(t, (h: seq<real>) => Stale(h, cutoff))
  }

  function Step(max: int, window: real, t: Table, op: Op): (Table, bool) {
    match op
    case Call(key, now) =>
      var (h, ok) := AllowTimes(max, window, Times(t, key), now);
      (t[key := h], ok)
    case Sweep(now, _) => (Swept(t, now - window), false)
    case Reset(_) => (t, false)
  }

  function Window(max: int, window: real): Machine<Table> {
    (t: Table, op: Op) => Step(max, window, t, op)
  }

  /** The answer of a window that never prunes: it looks back over the complete list. */
  function FullLog(max: int, window: real): Rule {
    (h: seq<real>, now: real) => |After(h, now - window)| < max
  }

  // ----- The in-place window -----

  class Limiter {
    var events: Table
    const max: int
    const window: real

    constructor (max: int, window: real)
      ensures this.max == max && this.window == window && events == map[]
    {
      this.max, this.window := max, window;
      events := map[];
    }

    method Allow(key: Key, now: real) returns (ok: bool)
      modifies this
      ensures (events, ok) == Step(max, window, old(events), Call(key, now))
    {
      var kept := Times(events, key);
      kept := Prune(kept, now - window);
      ok := |kept| < max;
      if ok {
        kept := kept + [now];
      }
      events := events[key := kept];
    }

    method Sweep(now: real) returns (removed: nat)
      modifies this
      ensures events == Swept(old(events), now - window)
      ensures forall k :: k in events <==>
                k in old(events) && old(events)[k] != [] && old(events)[k][|old(events)[k]| - 1] > now - window
      ensures forall k :: k in events ==> events[k] == old(events)[k]
      ensures removed == |old(events)| - |events|
    {
      var cutoff := now - window;
      events, removed := DeleteStale(events, (h: seq<real>) => Stale(h, cutoff));
    }
  }

  method Prune(h: seq<real>, cutoff: real) returns (kept: seq<real>)
    ensures kept == After(h, cutoff)
  {
    kept := [];
    for i := 0 to |h|
      invariant kept == After(h[..i], cutoff)
    {
      assert h[..i + 1][..i] == h[..i];
      if h[i] > cutoff {
        kept := kept + [h[i]];
      }
    }
    assert h[..|h|] == h;
  }

  /** The pruning as the source runs it, `pruned := events[:0]`: reader and writer share one backing
      array, and the writer never overtakes the reader. */
  method PruneInPlace(a: array<real>, n: nat, cutoff: real) returns (kept: nat)
    requires n <= a.Length
    modifies a
    ensures kept <= n && a[..kept] == After(old(a[..n]), cutoff)
    ensures a[n..] == old(a[n..])
  {
    kept := 0;
    ghost var before := a[..n];
    for i := 0 to n
      invariant kept <= i
      invariant a[..kept] == After(before[..i], cutoff)
      invariant forall j :: i <= j < n ==> a[j] == before[j]
      invariant a[n..] == old(a[n..])
    {
      assert before[..i + 1][..i] == before[..i];
      var t := a[i];
      if t > cutoff {
        ghost var done := a[..kept];
        a[kept] := t;
        kept := kept + 1;
        assert a[..kept] == done + [t];
      }
    }
    assert before[..n] == before;
  }

  // ----- Pruning and sweeping lose nothing that matters -----

  lemma {:induction false} AfterAfter(h: seq<real>, early: real, late: real)
    requires early <= late
    ensures After(After(h, early), late) == After(h, late)
  {
    if h != [] {
      AfterAfter(h[..|h| - 1], early, late);
    }
  }

  lemma {:induction false} AfterSubset(h: seq<real>, cutoff: real)
    requires Sorted(h)
    ensures Sorted(After(h, cutoff))
    ensures forall i :: 0 <= i < |After(h, cutoff)| ==> After(h, cutoff)[i] in h
  {
    if h != [] { AfterSubset(h[..|h| - 1], cutoff); }
  }

  lemma {:induction false} StaleIsEmpty(h: seq<real>, cutoff: real)
    requires Sorted(h) && Stale(h, cutoff)
    ensures After(h, cutoff) == []
  {
    if h != [] { StaleIsEmpty(h[..|h| - 1], cutoff); }
  }

  /** Looking back no further than `from`, the two lists show the same times. */
  ghost predicate SameFrom(h: seq<real>, full: seq<real>, from: real) {
    forall cutoff :: from <= cutoff ==> After(h, cutoff) == After(full, cutoff)
  }

  ghost predicate Ordered(h: seq<real>, now: real) {
    Sorted(h) && forall i :: 0 <= i < |h| ==> h[i] <= now
  }

  /** Nothing a call from `now` on can still see differs between the kept and the complete list. */
  ghost predicate KeyAgrees(window: real, h: seq<real>, full: seq<real>, now: real) {
    Ordered(h, now) && SameFrom(h, full, now - window)
  }

  lemma SameFromCall(h: seq<real>, full: seq<real>, from: real, early: real, at: real)
    requires from <= early && SameFrom(h, full, from)
    ensures SameFrom(After(h, early), full, early)
    ensures SameFrom(After(h, early) + [at], full + [at], early)
  {
    forall cutoff | early <= cutoff
      ensures After(After(h, early), cutoff) == After(full, cutoff)
      ensures After(After(h, early) + [at], cutoff) == After(full + [at], cutoff)
    {
      AfterAfter(h, early, cutoff);
    }
  }

  lemma KeyCall(max: int, window: real, h: seq<real>, full: seq<real>, now: real, at: real)
    requires KeyAgrees(window, h, full, now) && now <= at
    ensures AllowTimes(max, window, h, at).1 == FullLog(max, window)(full, at)
    ensures KeyAgrees(window, AllowTimes(max, window, h, at).0,
                      if FullLog(max, window)(full, at) then full + [at] else full, at)
  {
    var early := at - window;
    assert After(h, early) == After(full, early);
    OrderedCall(h, early, now, at);
    SameFromCall(h, full, now - window, early, at);
  }

  lemma OrderedCall(h: seq<real>, early: real, now: real, at: real)
    requires Ordered(h, now) && now <= at
    ensures Ordered(After(h, early), at) && Ordered(After(h, early) + [at], at)
  {
    AfterSubset(h, early);
  }

  lemma KeySwept(window: real, h: seq<real>, full: seq<real>, now: real, at: real)
    requires KeyAgrees(window, h, full, now) && now <= at
    requires Stale(h, at - window)
    ensures KeyAgrees(window, [], full, at)
  {
    forall cutoff | at - window <= cutoff
      ensures After(full, cutoff) == []
    {
      assert After(h, cutoff) == After(full, cutoff);
      StaleIsEmpty(h, cutoff);
    }
  }

  lemma KeyAgreesLater(window: real, h: seq<real>, full: seq<real>, now: real, at: real)
    requires KeyAgrees(window, h, full, now) && now <= at
    ensures KeyAgrees(window, h, full, at)
  {
  }

  ghost function Held(window: real): (Table, Key, seq<real>, real) -> bool {
    (t: Table, key: Key, full: seq<real>, now: real) => KeyAgrees(window, Times(t, key), full, now)
  }

  /** There is no Reset on a sliding window. */
  function Legal(): Op -> bool {
    (op: Op) => !op.Reset?
  }

  lemma StepAgrees(max: int, window: real, t: Table, key: Key, full: seq<real>, now: real, op: Op)
    requires KeyAgrees(window, Times(t, key), full, now)
    requires !op.Reset? && now <= op.at
    ensures IsCall(op, key) ==> Step(max, window, t, op).1 == FullLog(max, window)(full, op.at)
    ensures KeyAgrees(window, Times(Step(max, window, t, op).0, key),
                      HistoryAfter(FullLog(max, window), full, op, key), op.at)
  {
    var h, h' := Times(t, key), Times(Step(max, window, t, op).0, key);
    if IsCall(op, key) {
      KeyCall(max, window, h, full, now, op.at);
    } else if h' != h {
      assert op.Sweep? && h' == [];
      KeySwept(window, h, full, now, op.at);
    } else {
      KeyAgreesLater(window, h, full, now, op.at);
    }
  }

  lemma FollowsFullLog(max: int, window: real)
    ensures Follows(Window(max, window), FullLog(max, window), Legal(), Held(window))
  {
    forall t: Table, key: Key, full: seq<real>, now: real, op: Op |
      Held(window)(t, key, full, now) && Legal()(op) && now <= Later(now, op)
      ensures IsCall(op, key) ==> Window(max, window)(t, op).1 == FullLog(max, window)(full, op.at)
      ensures Held(window)(Window(max, window)(t, op).0, key,
                           HistoryAfter(FullLog(max, window), full, op, key), Later(now, op))
    {
      StepAgrees(max, window, t, key, full, now, op);
    }
  }

  ghost predicate RegularRun(max: int, window: real, ops: seq<Op>, start: real) {
    Regular(Window(max, window), FullLog(max, window), Legal(), Held(window), map[], ops, start)
  }

  lemma IsRegular(max: int, window: real, ops: seq<Op>, start: real)
    requires HasNoReset(ops) && Monotone(ops, start)
    ensures RegularRun(max, window, ops, start)
  {
    FollowsFullLog(max, window);
  }

  /** The pruned, swept window answers every call of every run as the complete log does. */
  lemma RefinesFullLog(max: int, window: real, ops: seq<Op>, start: real)
    requires HasNoReset(ops) && Monotone(ops, start)
    ensures Verdicts(Window(max, window), map[], ops) == Verdicts(LogMachine(FullLog(max, window)), map[], ops)
  {
    IsRegular(max, window, ops, start);
    RefinesLog(Window(max, window), FullLog(max, window), Legal(), Held(window), map[], ops, start);
  }

  lemma {:induction false} AfterCounts(h: seq<real>, lo: real, hi: real)
    requires forall i :: 0 <= i < |h| ==> h[i] <= hi
    ensures |After(h, lo)| == CountIn(h, lo, hi)
  {
    if h != [] { AfterCounts(h[..|h| - 1], lo, hi); }
  }

  /** A call is allowed exactly when fewer than max calls of its key were accepted in (now - window, now]. */
  lemma AllowedIffFewerThanMax(max: int, window: real, ops: seq<Op>, start: real, i: nat)
    requires HasNoReset(ops) && Monotone(ops, start) && i < |ops| && ops[i].Call?
    ensures var v := Verdicts(Window(max, window), map[], ops);
            v[i] <==> CountIn(AcceptedTimes(ops[..i], v[..i], ops[i].key), ops[i].at - window, ops[i].at) < max
  {
    var v := Verdicts(Window(max, window), map[], ops);
    var h := AcceptedTimes(ops[..i], v[..i], ops[i].key);
    IsRegular(max, window, ops, start);
    AnswerIsRule(Window(max, window), FullLog(max, window), Legal(), Held(window), map[], ops, start, i);
    MonotonePrefix(ops, start, i);
    AfterCounts(h, ops[i].at - window, ops[i].at);
  }

  lemma {:induction false} BoundedHistory(max: int, window: real, h: seq<real>, t: real)
    requires Sorted(h) && Obeys(FullLog(max, window), h)
    ensures CountIn(h, t - window, t) <= if max > 0 then max else 0
  {
    if h != [] {
      var before, last := h[..|h| - 1], h[|h| - 1];
      ObeysPrefix(FullLog(max, window), h);
      BoundedHistory(max, window, before, t);
      if t - window < last <= t {
        AfterCounts(before, last - window, last);
        CountWiden(before, t - window, last - window, t, last);
      }
    }
  }

  /** No element beyond hi' and lo' <= lo: the wider interval counts at least as much. */
  lemma {:induction false} CountWiden(h: seq<real>, lo: real, lo': real, hi: real, hi': real)
    requires lo' <= lo && forall i :: 0 <= i < |h| ==> h[i] <= hi'
    ensures CountIn(h, lo, hi) <= CountIn(h, lo', hi')
  {
    if h != [] { CountWiden(h[..|h| - 1], lo, lo', hi, hi'); }
  }

  /** Every window (t - window, t] of every run holds at most max acceptances of a key. */
  lemma WindowBound(max: int, window: real, ops: seq<Op>, start: real, key: Key, t: real)
    requires HasNoReset(ops) && Monotone(ops, start)
    ensures CountIn(AcceptedTimes(ops, Verdicts(Window(max, window), map[], ops), key), t - window, t)
         <= if max > 0 then max else 0
  {
    IsRegular(max, window, ops, start);
    GrantedHistory(Window(max, window), FullLog(max, window), Legal(), Held(window), map[], ops, start, key);
    BoundedHistory(max, window, AcceptedTimes(ops, Verdicts(Window(max, window), map[], ops), key), t);
  }

  /** Refused calls, other keys and sweeps can be deleted from a run without changing any other answer. */
  lemma WindowErasure(max: int, window: real, ops: seq<Op>, start: real, mask: seq<bool>, key: Key)
    requires |ops| == |mask| && HasNoReset(ops) && Monotone(ops, start)
    requires KeepsAccepted(ops, Verdicts(Window(max, window), map[], ops), mask, key)
    ensures var kept, v := Select(ops, mask), Verdicts(Window(max, window), map[], ops);
            && |kept| == |Select(v, mask)|
            && SameAnswers(kept, Select(v, mask), Verdicts(Window(max, window), map[], kept), key)
  {
    IsRegular(max, window, ops, start);
    Erasure(Window(max, window), FullLog(max, window), Legal(), Held(window), map[], ops, start, mask, key);
  }

  // ----- Counting refused calls too -----

  /** The limiter the comment on Allow describes: every call is recorded, accepted or not. */
  function RecordingStep(rule: Rule, log: Log, op: Op): (Log, bool) {
    match op
    case Call(key, at) => (log[key := LogOf(log, key) + [at]], rule(LogOf(log, key), at))
    case _ => (log, false)
  }

  function Recording(rule: Rule): Machine<Log> {
    (log: Log, op: Op) => RecordingStep(rule, log, op)
  }

  /** The code answers every run as its comment says. */
  ghost predicate CommentHolds(max: int, window: real) {
    forall ops: seq<Op>, start: real :: HasNoReset(ops) && Monotone(ops, start) ==>
      Verdicts(Window(max, window), map[], ops) == Verdicts(Recording(FullLog(max, window)), map[], ops)
  }

  predicate AtMost(h: seq<real>, bound: real) {
    forall i :: 0 <= i < |h| ==> h[i] <= bound
  }

  ghost predicate NoneLater(log: Log, now: real) {
    forall key: Key :: AtMost(LogOf(log, key), now)
  }

  lemma {:induction false} AfterNone(h: seq<real>, cutoff: real)
    requires AtMost(h, cutoff)
    ensures After(h, cutoff) == []
  {
    if h != [] { AfterNone(h[..|h| - 1], cutoff); }
  }

  /** With no room or no window the answer is the same whatever was recorded. */
  lemma BlindRule(max: int, window: real, h: seq<real>, at: real)
    requires max <= 0 || window <= 0.0
    requires AtMost(h, at)
    ensures FullLog(max, window)(h, at) <==> max > 0
  {
    if max > 0 { AfterNone(h, at - window); }
  }

  lemma StepsStayPast(rule: Rule, log: Log, now: real, op: Op)
    requires NoneLater(log, now) && !op.Reset? && now <= op.at
    ensures NoneLater(LogStep(rule, log, op).0, op.at) && NoneLater(RecordingStep(rule, log, op).0, op.at)
  {
    forall key: Key
      ensures AtMost(LogOf(LogStep(rule, log, op).0, key), op.at)
      ensures AtMost(LogOf(RecordingStep(rule, log, op).0, key), op.at)
    {
      assert AtMost(LogOf(log, key), now);
      LogStepKey(rule, log, op, key);
    }
  }

  lemma {:induction false} BlindRuns(max: int, window: real, log: Log, recorded: Log, now: real, ops: seq<Op>)
    requires max <= 0 || window <= 0.0
    requires NoneLater(log, now) && NoneLater(recorded, now) && HasNoReset(ops) && Monotone(ops, now)
    ensures Verdicts(LogMachine(FullLog(max, window)), log, ops)
         == Verdicts(Recording(FullLog(max, window)), recorded, ops)
    decreases |ops|
  {
    if ops != [] {
      var op, rule := ops[0], FullLog(max, window);
      assert !op.Reset? && HasNoReset(ops[1..]);
      StepsStayPast(rule, log, now, op);
      StepsStayPast(rule, recorded, now, op);
      if op.Call? {
        BlindRule(max, window, LogOf(log, op.key), op.at);
        BlindRule(max, window, LogOf(recorded, op.key), op.at);
      }
      BlindRuns(max, window, LogStep(rule, log, op).0, RecordingStep(rule, recorded, op).0, op.at, ops[1..]);
    }
  }

  /** Calls of one key at these times. */
  function CallsAt(key: Key, times: seq<real>): (ops: seq<Op>)
    ensures |ops| == |times| && forall i :: 0 <= i < |ops| ==> ops[i] == Call(key, times[i])
  {
    if times == [] then [] else [Call(key, times[0])] + CallsAt(key, times[1..])
  }

  lemma {:induction false} CallsAtMonotone(key: Key, times: seq<real>, now: real)
    requires Sorted(times) && (times != [] ==> now <= times[0])
    ensures Monotone(CallsAt(key, times), now)
    decreases |times|
  {
    if times != [] {
      assert CallsAt(key, times)[1..] == CallsAt(key, times[1..]);
      CallsAtMonotone(key, times[1..], times[0]);
    }
  }

  ghost predicate Records(m: Machine<Log>, rule: Rule) {
    forall log: Log, key: Key, at: real ::
      m(log, Call(key, at)) == (log[key := LogOf(log, key) + [at]], rule(LogOf(log, key), at))
  }

  lemma MoveFirst(h: seq<real>, times: seq<real>, i: nat)
    requires 0 < i < |times|
    ensures (h + [times[0]]) + times[1..][..i - 1] == h + times[..i]
  {
  }

  lemma {:induction false} RecordingVerdict(m: Machine<Log>, rule: Rule, log: Log, key: Key, times: seq<real>, i: nat)
    requires Records(m, rule) && i < |times|
    ensures Verdicts(m, log, CallsAt(key, times))[i] == rule(LogOf(log, key) + times[..i], times[i])
    decreases |times|
  {
    var (log', ok) := m(log, Call(key, times[0]));
    assert CallsAt(key, times)[1..] == CallsAt(key, times[1..]);
    assert LogOf(log', key) == LogOf(log, key) + [times[0]];
    if i == 0 {
      assert LogOf(log, key) + times[..0] == LogOf(log, key);
    } else {
      RecordingVerdict(m, rule, log', key, times[1..], i - 1);
      MoveFirst(LogOf(log, key), times, i);
    }
  }

  lemma {:induction false} AfterAtLeast(h: seq<real>, cutoff: real, from: nat)
    requires from <= |h| && forall i :: from <= i < |h| ==> h[i] > cutoff
    ensures |After(h, cutoff)| >= |h| - from
  {
    if from < |h| { AfterAtLeast(h[..|h| - 1], cutoff, from); }
  }

  lemma {:induction false} CountNone(h: seq<real>, lo: real, hi: real)
    requires forall i :: 0 <= i < |h| ==> h[i] <= lo
    ensures CountIn(h, lo, hi) == 0
  {
    if h != [] { CountNone(h[..|h| - 1], lo, hi); }
  }

  lemma {:induction false} AcceptedAtMost(ops: seq<Op>, verdicts: seq<bool>, key: Key, bound: real)
    requires |ops| == |verdicts|
    requires forall i :: 0 <= i < |ops| && IsCall(ops[i], key) && verdicts[i] ==> ops[i].at <= bound
    ensures forall i :: 0 <= i < |AcceptedTimes(ops, verdicts, key)| ==> AcceptedTimes(ops, verdicts, key)[i] <= bound
    decreases |ops|
  {
    if ops != [] { AcceptedAtMost(ops[1..], verdicts[1..], key, bound); }
  }

  /** max calls at once, as many again half a window later, and one when the first ones are out of sight. */
  function Impatient(max: nat, window: real): (times: seq<real>)
    ensures |times| == 2 * max + 1
  {
    seq(2 * max + 1, i => if i < max then 0.0 else if i < 2 * max then window / 2.0 else window)
  }

  lemma SecondAreSeen(max: nat, window: real, i: nat)
    requires max >= 1 && window > 0.0 && max <= i <= 2 * max
    ensures var times := Impatient(max, window); |After(times[..i], times[i] - window)| >= max
  {
    var times := Impatient(max, window);
    AfterAtLeast(times[..i], times[i] - window, if i < 2 * max then 0 else max);
  }

  lemma RecordingRefusesSecond(max: nat, window: real, key: Key, i: nat)
    requires max >= 1 && window > 0.0 && max <= i <= 2 * max
    ensures !Verdicts(Recording(FullLog(max, window)), map[], CallsAt(key, Impatient(max, window)))[i]
  {
    var times := Impatient(max, window);
    RecordingVerdict(Recording(FullLog(max, window)), FullLog(max, window), map[], key, times, i);
    assert LogOf(map[], key) + times[..i] == times[..i];
    SecondAreSeen(max, window, i);
  }

  lemma ImpatientRun(max: nat, window: real, key: Key)
    requires window > 0.0
    ensures var ops := CallsAt(key, Impatient(max, window)); HasNoReset(ops) && Monotone(ops, 0.0)
  {
    CallsAtMonotone(key, Impatient(max, window), 0.0);
  }

  /** Had the code refused the calls half a window later, it would have room for the last one. */
  lemma RoomForLast(max: nat, window: real, key: Key, v: seq<bool>)
    requires max >= 1 && window > 0.0 && |v| == 2 * max + 1
    requires v == Verdicts(Window(max, window), map[], CallsAt(key, Impatient(max, window)))
    requires forall i :: max <= i < 2 * max ==> !v[i]
    ensures v[2 * max]
  {
    var ops, last := CallsAt(key, Impatient(max, window)), 2 * max;
    ImpatientRun(max, window, key);
    AllowedIffFewerThanMax(max, window, ops, 0.0, last);
    AcceptedAtMost(ops[..last], v[..last], key, 0.0);
    CountNone(AcceptedTimes(ops[..last], v[..last], key), window - window, window);
  }

  /** The calls half a window later were refused, so the code has room again where the comment has none. */
  lemma ImpatientDiffers(max: int, window: real, key: Key)
    requires max >= 1 && window > 0.0
    ensures var ops := CallsAt(key, Impatient(max, window));
            Verdicts(Window(max, window), map[], ops) != Verdicts(Recording(FullLog(max, window)), map[], ops)
  {
    var ops := CallsAt(key, Impatient(max, window));
    var v, w := Verdicts(Window(max, window), map[], ops), Verdicts(Recording(FullLog(max, window)), map[], ops);
    forall i | max <= i <= 2 * max ensures !w[i] {
      RecordingRefusesSecond(max, window, key, i);
    }
    if v == w { RoomForLast(max, window, key, v); }
  }

  /** Code and comment agree on every run exactly when there is no room or no window. */
  lemma CommentExact(max: int, window: real, key: Key)
    ensures CommentHolds(max, window) <==> max <= 0 || window <= 0.0
  {
    if max <= 0 || window <= 0.0 {
      forall ops: seq<Op>, start: real | HasNoReset(ops) && Monotone(ops, start)
        ensures Verdicts(Window(max, window), map[], ops) == Verdicts(Recording(FullLog(max, window)), map[], ops)
      {
        RefinesFullLog(max, window, ops, start);
        BlindRuns(max, window, map[], map[], start, ops);
      }
    } else {
      ImpatientRun(max, window, key);
      ImpatientDiffers(max, window, key);
    }
  }
}
