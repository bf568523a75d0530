/** Vocabulary shared by the three limiters of ratelimit.go: what a run is, and the reference
    limiter every one of them is compared with. The reference limiter keeps, for each key, the
    complete list of the times it ever accepted and decides by a rule on that list alone; it has
    nothing to prune, refill or sweep. */
module RateLog {

  /** A limiter key: a client address, a login name, a user id. Keys are only ever compared. */
  type Key(==, !new)

  /** One call under the mutex. Only the fixed window has a Reset; only the bucket reads ttl. */
  datatype Op =
    | Call(key: Key, at: real)
    | Reset(key: Key)
    | Sweep(at: real, ttl: real)

  /** Decides a call at the given time from the times accepted so far. */
  type Rule = (seq<real>, real) -> bool

  type Log = map<Key, seq<real>>

  /** The clock read by each operation is never earlier than `now` or than the one before. */
  predicate Monotone(ops: seq<Op>, now: real)
    decreases |ops|
  {
    ops != [] ==>
      if ops[0].Reset? then Monotone(ops[1..], now)
      else now <= ops[0].at && Monotone(ops[1..], ops[0].at)
  }

  predicate IsCall(op: Op, key: Key) {
    op.Call? && op.key == key
  }

  predicate IsReset(op: Op, key: Key) {
    op.Reset? && op.key == key
  }

  predicate NeverReset(ops: seq<Op>, key: Key) {
    forall i :: 0 <= i < |ops| ==> !IsReset(ops[i], key)
  }

  predicate HasNoReset(ops: seq<Op>) {
    forall i :: 0 <= i < |ops| ==> !ops[i].Reset?
  }

  function LogOf(log: Log, key: Key): seq<real> {
    if key in log then log[key] else []
  }

  /** A limiter as a state machine: one operation, its effect and its answer. */
  type Machine<!T> = (T, Op) -> (T, bool)

  /** The answers along a run. */
  function Verdicts<T>(m: Machine<T>, t: T, ops: seq<Op>): (v: seq<bool>)
    ensures |v| == |ops|
    decreases |ops|
  {
    if ops == [] then []
    else
      var (t', ok) := m(t, ops[0]);
      [ok] + Verdicts(m, t', ops[1..])
  }

  /** What one operation does to the accepted times of a key. */
  function HistoryAfter(rule: Rule, h: seq<real>, op: Op, key: Key): seq<real> {
    if IsCall(op, key) && rule(h, op.at) then h + [op.at]
    else if IsReset(op, key) then []
    else h
  }

  function LogStep(rule: Rule, log: Log, op: Op): (Log, bool) {
    match op
    case Call(key, at) => (log[key := HistoryAfter(rule, LogOf(log, key), op, key)], rule(LogOf(log, key), at))
    case Reset(key) => (log[key := []], false)
    case Sweep(_, _) => (log, false)
  }

  /** The reference limiter. */
  function LogMachine(rule: Rule): Machine<Log> {
    (log: Log, op: Op) => LogStep(rule, log, op)
  }

  /** The times at which calls of `key` were accepted, in order. */
  function AcceptedTimes(ops: seq<Op>, verdicts: seq<bool>, key: Key): (h: seq<real>)
    requires |ops| == |verdicts|
    decreases |ops|
  {
    if ops == [] then []
    else
      var later := AcceptedTimes(ops[1..], verdicts[1..], key);
      if IsCall(ops[0], key) && verdicts[0] then [ops[0].at] + later else later
  }

  predicate Sorted(h: seq<real>) {
    forall i, j :: 0 <= i < j < |h| ==> h[i] <= h[j]
  }

  /** How many of the times lie in (lo, hi]. */
  function CountIn(h: seq<real>, lo: real, hi: real): (n: nat)
    ensures n <= |h|
  {
    if h == [] then 0
    else CountIn(h[..|h| - 1], lo, hi) + if lo < h[|h| - 1] <= hi then 1 else 0
  }

  /** The elements of s at the positions the mask marks. */
  function Select<T>(s: seq<T>, mask: seq<bool>): (r: seq<T>)
    requires |s| == |mask|
    decreases |s|
  {
    if s == [] then []
    else if mask[0] then [s[0]] + Select(s[1..], mask[1..])
    else Select(s[1..], mask[1..])
  }

  lemma {:induction false} SelectSameLength<S, T>(s: seq<S>, t: seq<T>, mask: seq<bool>)
    requires |s| == |t| == |mask|
    ensures |Select(s, mask)| == |Select(t, mask)|
    decreases |s|
  {
    if s != [] { SelectSameLength(s[1..], t[1..], mask[1..]); }
  }

  /** A mask a run may be thinned with, seen from one key: accepted calls and resets of the key stay;
      refused calls, other keys' operations and sweeps may each stay or go. */
  predicate KeepsAccepted(ops: seq<Op>, verdicts: seq<bool>, mask: seq<bool>, key: Key)
    requires |ops| == |verdicts| == |mask|
  {
    forall i :: 0 <= i < |ops| && ((IsCall(ops[i], key) && verdicts[i]) || IsReset(ops[i], key)) ==> mask[i]
  }

  /** Every call of `key` answers in the thinned run what it answered in the full one. */
  predicate SameAnswers(kept: seq<Op>, before: seq<bool>, after: seq<bool>, key: Key)
    requires |kept| == |before| == |after|
  {
    forall i :: 0 <= i < |kept| && IsCall(kept[i], key) ==> before[i] == after[i]
  }

  lemma LogStepKey(rule: Rule, log: Log, op: Op, key: Key)
    ensures LogOf(LogStep(rule, log, op).0, key) == HistoryAfter(rule, LogOf(log, key), op, key)
    ensures LogStep(rule, log, op).1 == (op.Call? && rule(LogOf(log, op.key), op.at))
  {
  }

  /** The reference limiter forgets nothing but resets and learns nothing but acceptances, so thinning
      a run changes no answer. */
  lemma {:induction false} LogErasure(rule: Rule, log: Log, thin: Log, ops: seq<Op>, mask: seq<bool>, key: Key)
    requires |ops| == |mask|
    requires LogOf(log, key) == LogOf(thin, key)
    requires KeepsAccepted(ops, Verdicts(LogMachine(rule), log, ops), mask, key)
    ensures |Select(ops, mask)| == |Select(Verdicts(LogMachine(rule), log, ops), mask)|
    ensures SameAnswers(Select(ops, mask), Select(Verdicts(LogMachine(rule), log, ops), mask),
                        Verdicts(LogMachine(rule), thin, Select(ops, mask)), key)
    decreases |ops|
  {
    var m := LogMachine(rule);
    var v := Verdicts(m, log, ops);
    SelectSameLength(ops, v, mask);
    if ops != [] {
      var (log', ok) := m(log, ops[0]);
      LogStepKey(rule, log, ops[0], key);
      LogStepKey(rule, thin, ops[0], key);
      assert v[1..] == Verdicts(m, log', ops[1..]);
      if mask[0] {
        LogErasure(rule, log', m(thin, ops[0]).0, ops[1..], mask[1..], key);
      } else {
        assert !(IsCall(ops[0], key) && v[0]) && !IsReset(ops[0], key);
        LogErasure(rule, log', thin, ops[1..], mask[1..], key);
      }
    }
  }

  /** A mask that keeps every accepted call of a key keeps its history. */
  lemma {:induction false} KeptHistory(ops: seq<Op>, verdicts: seq<bool>, mask: seq<bool>, key: Key)
    requires |ops| == |verdicts| == |mask| && KeepsAccepted(ops, verdicts, mask, key)
    ensures |Select(ops, mask)| == |Select(verdicts, mask)|
    ensures AcceptedTimes(Select(ops, mask), Select(verdicts, mask), key) == AcceptedTimes(ops, verdicts, key)
    decreases |ops|
  {
    SelectSameLength(ops, verdicts, mask);
    if ops != [] {
      KeptHistory(ops[1..], verdicts[1..], mask[1..], key);
      if mask[0] {
        assert Select(ops, mask)[1..] == Select(ops[1..], mask[1..]);
        assert Select(verdicts, mask)[1..] == Select(verdicts[1..], mask[1..]);
      } else {
        assert !(IsCall(ops[0], key) && verdicts[0]);
      }
    }
  }

  /** The same answers make the same history. */
  lemma {:induction false} SameHistory(kept: seq<Op>, before: seq<bool>, after: seq<bool>, key: Key)
    requires |kept| == |before| == |after| && SameAnswers(kept, before, after, key)
    ensures AcceptedTimes(kept, before, key) == AcceptedTimes(kept, after, key)
    decreases |kept|
  {
    if kept != [] {
      forall i | 0 <= i < |kept| - 1 && IsCall(kept[1..][i], key) ensures before[1..][i] == after[1..][i] {
        assert IsCall(kept[i + 1], key);
      }
      SameHistory(kept[1..], before[1..], after[1..], key);
    }
  }

  lemma {:induction false} SelectMonotone(ops: seq<Op>, mask: seq<bool>, now: real)
    requires |ops| == |mask| && Monotone(ops, now)
    ensures Monotone(Select(ops, mask), now)
    decreases |ops|
  {
    if ops != [] {
      var now' := if ops[0].Reset? then now else ops[0].at;
      SelectMonotone(ops[1..], mask[1..], now');
      var rest := Select(ops[1..], mask[1..]);
      if mask[0] {
        assert Select(ops, mask)[1..] == rest;
      } else {
        MonotoneEarlier(rest, now, now');
      }
    }
  }

  lemma {:induction false} MonotoneEarlier(ops: seq<Op>, now: real, later: real)
    requires now <= later && Monotone(ops, later)
    ensures Monotone(ops, now)
    decreases |ops|
  {
    if ops != [] && ops[0].Reset? { MonotoneEarlier(ops[1..], now, later); }
  }

  lemma {:induction false} SelectSubset<T>(s: seq<T>, mask: seq<bool>)
    requires |s| == |mask|
    ensures forall i :: 0 <= i < |Select(s, mask)| ==> Select(s, mask)[i] in s
    decreases |s|
  {
    if s != [] { SelectSubset(s[1..], mask[1..]); }
  }

  /** Each answer of the reference limiter is its rule applied to what was accepted before. */
  lemma {:induction false} VerdictIsRule(rule: Rule, log: Log, ops: seq<Op>, i: nat)
    requires i < |ops| && ops[i].Call?
    requires NeverReset(ops, ops[i].key)
    ensures var v := Verdicts(LogMachine(rule), log, ops);
            v[i] == rule(LogOf(log, ops[i].key) + AcceptedTimes(ops[..i], v[..i], ops[i].key), ops[i].at)
    decreases |ops|
  {
    var v := Verdicts(LogMachine(rule), log, ops);
    var key := ops[i].key;
    var h := LogOf(log, key);
    LogStepKey(rule, log, ops[0], key);
    if i == 0 {
      assert h + AcceptedTimes(ops[..0], v[..0], key) == h;
    } else {
      var (log', ok) := LogStep(rule, log, ops[0]);
      VerdictIsRule(rule, log', ops[1..], i - 1);
      assert v[1..] == Verdicts(LogMachine(rule), log', ops[1..]);
      assert !IsReset(ops[0], key);
      assert ops[..i][1..] == ops[1..][..i - 1] && v[..i][1..] == v[1..][..i - 1];
      var later := AcceptedTimes(ops[1..][..i - 1], v[1..][..i - 1], key);
      assert ops[0].Call? ==> h + ([ops[0].at] + later) == (h + [ops[0].at]) + later;
    }
  }

  /** A sequence of times the rule admitted one after the other. */
  predicate Obeys(rule: Rule, h: seq<real>) {
    forall i :: 0 <= i < |h| ==> rule(h[..i], h[i])
  }

  lemma ObeysAppend(rule: Rule, h: seq<real>, at: real)
    requires Obeys(rule, h) && rule(h, at)
    ensures Obeys(rule, h + [at])
  {
    forall i | 0 <= i < |h| + 1 ensures rule((h + [at])[..i], (h + [at])[i]) {
      assert (h + [at])[..i] == h[..i];
    }
  }

  lemma ObeysPrefix(rule: Rule, h: seq<real>)
    requires h != [] && Obeys(rule, h)
    ensures Obeys(rule, h[..|h| - 1]) && rule(h[..|h| - 1], h[|h| - 1])
  {
    var before := h[..|h| - 1];
    forall i | 0 <= i < |before| ensures rule(before[..i], before[i]) {
      assert before[..i] == h[..i];
    }
  }

  /** What a key was granted obeys the rule, whatever the other keys did. */
  lemma {:induction false} AcceptedObeysRule(rule: Rule, log: Log, ops: seq<Op>, key: Key)
    requires NeverReset(ops, key)
    requires Obeys(rule, LogOf(log, key))
    ensures Obeys(rule, LogOf(log, key) + AcceptedTimes(ops, Verdicts(LogMachine(rule), log, ops), key))
    decreases |ops|
  {
    var v := Verdicts(LogMachine(rule), log, ops);
    var h := LogOf(log, key);
    if ops == [] {
      assert h + AcceptedTimes(ops, v, key) == h;
    } else {
      var (log', ok) := LogStep(rule, log, ops[0]);
      LogStepKey(rule, log, ops[0], key);
      assert !IsReset(ops[0], key);
      assert v[1..] == Verdicts(LogMachine(rule), log', ops[1..]);
      var later := AcceptedTimes(ops[1..], v[1..], key);
      if IsCall(ops[0], key) && ok {
        ObeysAppend(rule, h, ops[0].at);
        assert h + ([ops[0].at] + later) == (h + [ops[0].at]) + later;
      }
      AcceptedObeysRule(rule, log', ops[1..], key);
    }
  }

  lemma {:induction false} AcceptedTimesSorted(ops: seq<Op>, verdicts: seq<bool>, key: Key, now: real)
    requires |ops| == |verdicts| && Monotone(ops, now)
    ensures Sorted(AcceptedTimes(ops, verdicts, key))
    ensures forall i :: 0 <= i < |AcceptedTimes(ops, verdicts, key)| ==> now <= AcceptedTimes(ops, verdicts, key)[i]
    decreases |ops|
  {
    if ops != [] {
      AcceptedTimesSorted(ops[1..], verdicts[1..], key, if ops[0].Reset? then now else ops[0].at);
    }
  }

  lemma {:induction false} MonotonePrefix(ops: seq<Op>, now: real, i: nat)
    requires i < |ops| && Monotone(ops, now) && ops[i].Call?
    ensures Monotone(ops[..i], now) && now <= ops[i].at
    ensures forall v: seq<bool>, j :: |v| == i && 0 <= j < |AcceptedTimes(ops[..i], v, ops[i].key)|
              ==> AcceptedTimes(ops[..i], v, ops[i].key)[j] <= ops[i].at
    decreases |ops|
  {
    if i > 0 {
      MonotonePrefix(ops[1..], if ops[0].Reset? then now else ops[0].at, i - 1);
      assert ops[..i][1..] == ops[1..][..i - 1];
      forall v: seq<bool>, j | |v| == i && 0 <= j < |AcceptedTimes(ops[..i], v, ops[i].key)|
        ensures AcceptedTimes(ops[..i], v, ops[i].key)[j] <= ops[i].at
      {
        var rest := AcceptedTimes(ops[1..][..i - 1], v[1..], ops[i].key);
        var all := AcceptedTimes(ops[..i], v, ops[i].key);
        assert ops[1..][i - 1] == ops[i];
        assert all == rest || (all == [ops[0].at] + rest);
      }
    }
  }

  // ----- Refinement of the reference limiter -----

  function Later(now: real, op: Op): real {
    if op.Reset? then now else op.at
  }

  /** Step by step, the machine answers calls of each key as the rule does on the key's accepted times;
      rel(t, key, h, now) says what the state t holds for a key with history h. */
  ghost predicate Follows<T(!new)>(m: Machine<T>, rule: Rule, legal: Op -> bool,
      rel: (T, Key, seq<real>, real) -> bool) {
    && (forall t: T, op: Op :: !op.Call? ==> !m(t, op).1)
    && forall t: T, key: Key, h: seq<real>, now: real, op: Op ::
      rel(t, key, h, now) && legal(op) && now <= Later(now, op) ==>
      && (IsCall(op, key) ==> m(t, op).1 == rule(h, op.at))
      && rel(m(t, op).0, key, HistoryAfter(rule, h, op, key), Later(now, op))
  }

  ghost predicate AllLegal(legal: Op -> bool, ops: seq<Op>) {
    forall i :: 0 <= i < |ops| ==> legal(ops[i])
  }

  lemma {:induction false} FollowsLog<T(!new)>(m: Machine<T>, rule: Rule, legal: Op -> bool,
      rel: (T, Key, seq<real>, real) -> bool, t: T, log: Log, now: real, ops: seq<Op>)
    requires Follows(m, rule, legal, rel) && AllLegal(legal, ops) && Monotone(ops, now)
    requires forall key :: rel(t, key, LogOf(log, key), now)
    ensures Verdicts(m, t, ops) == Verdicts(LogMachine(rule), log, ops)
    decreases |ops|
  {
    if ops != [] {
      var op := ops[0];
      var (t', ok) := m(t, op);
      var (log', ok') := LogStep(rule, log, op);
      assert legal(op);
      forall key ensures rel(t', key, LogOf(log', key), Later(now, op)) {
        LogStepKey(rule, log, op, key);
        assert rel(t, key, LogOf(log, key), now);
      }
      assert op.Call? ==> rel(t, op.key, LogOf(log, op.key), now);
      FollowsLog(m, rule, legal, rel, t', log', Later(now, op), ops[1..]);
    }
  }

  /** The entries a sweep leaves. */
  function Kept<V>(t: map<Key, V>, stale: V -> bool): map<Key, V> {
    map k | k in t && !stale(t[k]) :: t[k]
  }

  /** The loop of every Sweep: deletes while ranging over the keys, and counts. */
  method DeleteStale<V>(t: map<Key, V>, stale: V -> bool) returns (live: map<Key, V>, removed: nat)
    ensures live == Kept(t, stale)
    ensures removed == |t| - |live|
  {
    var todo := t.Keys;
    live, removed := t, 0;
    while todo != {}
      invariant todo <= live.Keys
      invariant forall k :: k in live ==> k in t && live[k] == t[k]
      invariant forall k :: k in t && k !in todo ==> (k in live <==> !stale(t[k]))
      invariant removed + |live| == |t|
      decreases todo
    {
      var k :| k in todo;
      todo := todo - {k};
      if stale(t[k]) {
        live := live - {k};
        removed := removed + 1;
      }
    }
  }

  /** A run from the state t0 that the limiter accounts for: legal operations, a clock that never runs
      backwards, and nothing known of any key. */
  ghost predicate Regular<T(!new)>(m: Machine<T>, rule: Rule, legal: Op -> bool, rel: (T, Key, seq<real>, real) -> bool,
      t0: T, ops: seq<Op>, start: real)
  {
    && Follows(m, rule, legal, rel)
    && AllLegal(legal, ops) && Monotone(ops, start)
    && forall key :: rel(t0, key, [], start)
  }

  lemma RefinesLog<T(!new)>(m: Machine<T>, rule: Rule, legal: Op -> bool, rel: (T, Key, seq<real>, real) -> bool,
      t0: T, ops: seq<Op>, start: real)
    requires Regular(m, rule, legal, rel, t0, ops, start)
    ensures Verdicts(m, t0, ops) == Verdicts(LogMachine(rule), map[], ops)
  {
    FollowsLog(m, rule, legal, rel, t0, map[], start, ops);
  }

  /** Erasure for every limiter that refines a rule on accepted times. */
  lemma Erasure<T(!new)>(m: Machine<T>, rule: Rule, legal: Op -> bool, rel: (T, Key, seq<real>, real) -> bool,
      t0: T, ops: seq<Op>, start: real, mask: seq<bool>, key: Key)
    requires Regular(m, rule, legal, rel, t0, ops, start) && |ops| == |mask|
    requires KeepsAccepted(ops, Verdicts(m, t0, ops), mask, key)
    ensures |Select(ops, mask)| == |Select(Verdicts(m, t0, ops), mask)|
    ensures SameAnswers(Select(ops, mask), Select(Verdicts(m, t0, ops), mask), Verdicts(m, t0, Select(ops, mask)), key)
  {
    RefinesLog(m, rule, legal, rel, t0, ops, start);
    LogErasure(rule, map[], map[], ops, mask, key);
    SelectMonotone(ops, mask, start);
    SelectSubset(ops, mask);
    RefinesLog(m, rule, legal, rel, t0, Select(ops, mask), start);
  }

  /** What a key is granted is a sorted history that obeys the rule. */
  lemma GrantedHistory<T(!new)>(m: Machine<T>, rule: Rule, legal: Op -> bool, rel: (T, Key, seq<real>, real) -> bool,
      t0: T, ops: seq<Op>, start: real, key: Key)
    requires Regular(m, rule, legal, rel, t0, ops, start) && NeverReset(ops, key)
    ensures Sorted(AcceptedTimes(ops, Verdicts(m, t0, ops), key))
    ensures Obeys(rule, AcceptedTimes(ops, Verdicts(m, t0, ops), key))
  {
    RefinesLog(m, rule, legal, rel, t0, ops, start);
    var h := AcceptedTimes(ops, Verdicts(m, t0, ops), key);
    AcceptedTimesSorted(ops, Verdicts(m, t0, ops), key, start);
    AcceptedObeysRule(rule, map[], ops, key);
    assert LogOf(map[], key) + h == h;
  }

  /** Each answer is the rule applied to the times accepted before the call. */
  lemma AnswerIsRule<T(!new)>(m: Machine<T>, rule: Rule, legal: Op -> bool, rel: (T, Key, seq<real>, real) -> bool,
      t0: T, ops: seq<Op>, start: real, i: nat)
    requires Regular(m, rule, legal, rel, t0, ops, start)
    requires i < |ops| && ops[i].Call? && NeverReset(ops, ops[i].key)
    ensures var v := Verdicts(m, t0, ops);
            v[i] == rule(AcceptedTimes(ops[..i], v[..i], ops[i].key), ops[i].at)
  {
    RefinesLog(m, rule, legal, rel, t0, ops, start);
    VerdictIsRule(rule, map[], ops, i);
    var v := Verdicts(m, t0, ops);
    var h := AcceptedTimes(ops[..i], v[..i], ops[i].key);
    assert LogOf(map[], ops[i].key) + h == h;
  }

  // ----- Any invariant between a limiter's state and what a key was granted -----

  /** The times accepted for a key, after one more operation. */
  function WithGrant<T>(m: Machine<T>, t: T, op: Op, key: Key, h: seq<real>): seq<real> {
    if IsCall(op, key) && m(t, op).1 then h + [op.at] else h
  }

  /** Every operation keeps inv, which ties the state to the times accepted so far, those before a reset included. */
  ghost predicate Keeps<T(!new)>(m: Machine<T>, key: Key, inv: (T, seq<real>, real) -> bool) {
    forall t: T, h: seq<real>, now: real, op: Op :: inv(t, h, now) && now <= Later(now, op) ==>
      inv(m(t, op).0, WithGrant(m, t, op, key, h), Later(now, op))
  }

  /** The state in which the i-th operation finds the limiter. */
  lemma {:induction false} AtStep<T(!new)>(m: Machine<T>, key: Key, inv: (T, seq<real>, real) -> bool, t: T,
      h: seq<real>, now: real, ops: seq<Op>, i: nat) returns (s: T, last: real)
    requires Keeps(m, key, inv) && inv(t, h, now) && Monotone(ops, now) && i < |ops|
    ensures var v := Verdicts(m, t, ops);
            && inv(s, h + AcceptedTimes(ops[..i], v[..i], key), last) && last <= Later(last, ops[i])
            && v[i] == m(s, ops[i]).1
    decreases |ops|
  {
    var v := Verdicts(m, t, ops);
    if i == 0 {
      s, last := t, now;
      assert h + AcceptedTimes(ops[..0], v[..0], key) == h;
    } else {
      var (t', ok) := m(t, ops[0]);
      s, last := AtStep(m, key, inv, t', WithGrant(m, t, ops[0], key, h), Later(now, ops[0]), ops[1..], i - 1);
      assert v[1..] == Verdicts(m, t', ops[1..]);
      AcceptedTail(ops, v, key, i, h);
    }
  }

  lemma AcceptedTail(ops: seq<Op>, v: seq<bool>, key: Key, i: nat, h: seq<real>)
    requires |ops| == |v| && 0 < i < |ops|
    ensures (if IsCall(ops[0], key) && v[0] then h + [ops[0].at] else h)
          + AcceptedTimes(ops[1..][..i - 1], v[1..][..i - 1], key)
         == h + AcceptedTimes(ops[..i], v[..i], key)
  {
    assert ops[..i][1..] == ops[1..][..i - 1] && v[..i][1..] == v[1..][..i - 1];
    var later := AcceptedTimes(ops[1..][..i - 1], v[1..][..i - 1], key);
    if IsCall(ops[0], key) && v[0] { assert h + ([ops[0].at] + later) == (h + [ops[0].at]) + later; }
  }

  lemma {:induction false} VerdictsPrefix<T>(m: Machine<T>, t: T, ops: seq<Op>, i: nat)
    requires i <= |ops|
    ensures Verdicts(m, t, ops[..i]) == Verdicts(m, t, ops)[..i]
    decreases i
  {
    if i > 0 {
      VerdictsPrefix(m, m(t, ops[0]).0, ops[1..], i - 1);
      assert ops[..i][1..] == ops[1..][..i - 1];
    }
  }

  lemma {:induction false} CountGrows(h: seq<real>, lo: real, hi: real, hi': real)
    requires hi <= hi'
    ensures CountIn(h, lo, hi) <= CountIn(h, lo, hi')
  {
    if h != [] { CountGrows(h[..|h| - 1], lo, hi, hi'); }
  }

  lemma CountOneMore(h: seq<real>, x: real, lo: real, hi: real)
    ensures CountIn(h + [x], lo, hi) == CountIn(h, lo, hi) + if lo < x <= hi then 1 else 0
  {
    assert (h + [x])[..|h|] == h;
  }
}
