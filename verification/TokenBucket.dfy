/** TokenBucket of ratelimit.go: per key, a level refilled lazily at each call. Tokens and seconds are exact
    reals. */
module TokenBucket {
  import opened RateLog

  datatype Bucket = NoBucket | Tokens(tokens: real, lastFill: real)

  type Filled = b: Bucket | b.Tokens? witness Tokens(0.0, 0.0)
  type Table = map<Key, Filled>

  function BucketOf(t: Table, key: Key): Bucket {
    if key in t then t[key] else NoBucket
  }

  function Min(x: real, y: real): real {
    if x < y then x else y
  }

  /** The tokens credited between two times. */
  type Earning = (real, real) -> real

  function AtRate(rate: real): Earning {
    (from: real, to: real) => (to - from) * rate
  }

  /** The level once the time since lastFill has been credited. */
  function Refill(capacity: real, earn: Earning, b: Filled, now: real): real {
    Min(capacity, b.tokens + earn(b.lastFill, now))
  }

  /** Allow on one key's bucket. */
  function AllowBucket(capacity: real, earn: Earning, b: Bucket, now: real): (Filled, bool) {
    if b.NoBucket? then (Tokens(capacity - 1.0, now), true)
    else
      var level := Refill(capacity, earn, b, now);
      if level < 1.0 then (Tokens(level, now), false) else (Tokens(level - 1.0, now), true)
  }

  function Swept(t: Table, now: real, ttl: real): Table {
    Kept(t, (b: Filled) => b.lastFill <= now - ttl)
  }

  function Step(capacity: real, earn: Earning, t: Table, op: Op): (Table, bool) {
    match op
    case Call(key, now) =>
      var (b, ok) := AllowBucket(capacity, earn, BucketOf(t, key), now);
      (t[key := b], ok)
    case Sweep(now, ttl) => (Swept(t, now, ttl), false)
    case Reset(_) => (t, false)
  }

  function Buckets(capacity: real, earn: Earning): Machine<Table> {
    (t: Table, op: Op) => Step(capacity, earn, t, op)
  }

  class Limiter {
    var buckets: Table
    const capacity: real
    const refillRate: real

    constructor (capacity: real, refillRate: real)
      ensures this.capacity == capacity && this.refillRate == refillRate && buckets == map[]
    {
      this.capacity, this.refillRate := capacity, refillRate;
      buckets := map[];
    }

    method Allow(key: Key, now: real) returns (ok: bool)
      modifies this
      ensures (buckets, ok) == Step(capacity, AtRate(refillRate), old(buckets), Call(key, now))
    {
      if key !in buckets {
        buckets := buckets[key := Tokens(capacity - 1.0, now)];
        return true;
      }
      var level := buckets[key].tokens;
      var elapsed := now - buckets[key].lastFill;
      assert AtRate(refillRate)(buckets[key].lastFill, now) == elapsed * refillRate;
      level := level + elapsed * refillRate;
      if level > capacity {
        level := capacity;
      }
      ok := !(level < 1.0);
      if ok {
        level := level - 1.0;
      }
      buckets := buckets[key := Tokens(level, now)];
    }

    method Sweep(now: real, ttl: real) returns (removed: nat)
      modifies this
      ensures buckets == Swept(old(buckets), now, ttl)
      ensures forall k :: k in buckets <==> k in old(buckets) && old(buckets)[k].lastFill > now - ttl
      ensures forall k :: k in buckets ==> buckets[k] == old(buckets)[k]
      ensures removed == |old(buckets)| - |buckets|
    {
      var cutoff := now - ttl;
      buckets, removed := DeleteStale(buckets, (b: Filled) => b.lastFill <= cutoff);
    }
  }

  // ----- Lazy refill -----

  /** Crediting adds up over adjacent intervals and never takes tokens away. */
  ghost predicate Steady(earn: Earning) {
    && (forall a, b, c :: earn(a, b) + earn(b, c) == earn(a, c))
    && (forall a, b :: a <= b ==> earn(a, b) >= 0.0)
  }

  lemma AtRateIsSteady(rate: real)
    requires rate >= 0.0
    ensures Steady(AtRate(rate))
  {
    forall a, b, c: real ensures AtRate(rate)(a, b) + AtRate(rate)(b, c) == AtRate(rate)(a, c) {
      assert (b - a) * rate + (c - b) * rate == (c - a) * rate;
    }
  }

  /** Refilling at an intermediate time, as a refused call does, loses and adds nothing. */
  lemma RefillCompose(capacity: real, earn: Earning, b: Filled, mid: real, now: real)
    requires Steady(earn) && b.lastFill <= mid <= now
    ensures Refill(capacity, earn, Tokens(Refill(capacity, earn, b, mid), mid), now) == Refill(capacity, earn, b, now)
    ensures Refill(capacity, earn, b, mid) <= Refill(capacity, earn, b, now)
  {
    assert earn(b.lastFill, mid) + earn(mid, now) == earn(b.lastFill, now);
  }

  // ----- The accepted calls of a key determine everything -----

  /** The bucket after these accepted calls, recomputed from the calls alone. */
  function Level(capacity: real, earn: Earning, h: seq<real>): (b: Bucket)
    ensures b.NoBucket? <==> h == []
  {
    if h == [] then NoBucket
    else AllowBucket(capacity, earn, Level(capacity, earn, h[..|h| - 1]), h[|h| - 1]).0
  }

  function ByHistory(capacity: real, earn: Earning): Rule {
    (h: seq<real>, now: real) => AllowBucket(capacity, earn, Level(capacity, earn, h), now).1
  }

  /** There is no Reset on a bucket, and a bucket idle long enough to be swept is full again. */
  function Legal(capacity: real, earn: Earning): Op -> bool {
    (op: Op) => !op.Reset? && (op.Sweep? ==> earn(op.at - op.ttl, op.at) >= capacity)
  }

  /** b, stored at some earlier time, is the history's bucket `l` refilled up to then; or it was swept, and
      `l` would be full by now. */
  ghost predicate KeyAgrees(capacity: real, earn: Earning, b: Bucket, l: Bucket, now: real) {
    && (l.Tokens? ==> 0.0 <= l.tokens <= capacity - 1.0 && l.lastFill <= now)
    && (b.Tokens? ==> l.Tokens? && l.lastFill <= b.lastFill <= now && b.tokens == Refill(capacity, earn, l, b.lastFill))
    && (b.NoBucket? && l.Tokens? ==> Refill(capacity, earn, l, now) == capacity)
  }

  lemma KeyCall(capacity: real, earn: Earning, b: Bucket, l: Bucket, now: real, at: real)
    requires capacity >= 1.0 && Steady(earn) && now <= at && KeyAgrees(capacity, earn, b, l, now)
    ensures AllowBucket(capacity, earn, b, at).1 == AllowBucket(capacity, earn, l, at).1
    ensures KeyAgrees(capacity, earn, AllowBucket(capacity, earn, b, at).0,
                      if AllowBucket(capacity, earn, l, at).1 then AllowBucket(capacity, earn, l, at).0 else l, at)
  {
    assert earn(at, at) + earn(at, at) == earn(at, at);
    if b.Tokens? {
      RefillCompose(capacity, earn, l, b.lastFill, at);
      assert Refill(capacity, earn, b, at) == Refill(capacity, earn, l, at);
    } else if l.Tokens? {
      RefillCompose(capacity, earn, l, now, at);
    }
  }

  lemma KeyLater(capacity: real, earn: Earning, b: Bucket, l: Bucket, now: real, at: real)
    requires Steady(earn) && now <= at && KeyAgrees(capacity, earn, b, l, now)
    ensures KeyAgrees(capacity, earn, b, l, at)
  {
    if b.NoBucket? && l.Tokens? { RefillCompose(capacity, earn, l, now, at); }
  }

  lemma StepAgrees(capacity: real, earn: Earning, t: Table, key: Key, h: seq<real>, now: real, op: Op)
    requires capacity >= 1.0 && Steady(earn)
    requires KeyAgrees(capacity, earn, BucketOf(t, key), Level(capacity, earn, h), now)
    requires Legal(capacity, earn)(op) && now <= op.at
    ensures IsCall(op, key) ==> Step(capacity, earn, t, op).1 == ByHistory(capacity, earn)(h, op.at)
    ensures KeyAgrees(capacity, earn, BucketOf(Step(capacity, earn, t, op).0, key),
                      Level(capacity, earn, HistoryAfter(ByHistory(capacity, earn), h, op, key)), op.at)
  {
    var b, l := BucketOf(t, key), Level(capacity, earn, h);
    var b' := BucketOf(Step(capacity, earn, t, op).0, key);
    if IsCall(op, key) {
      assert (h + [op.at])[..|h|] == h;
      KeyCall(capacity, earn, b, l, now, op.at);
    } else if b' != b {
    } else {
      KeyLater(capacity, earn, b, l, now, op.at);
    }
  }

  ghost function Held(capacity: real, earn: Earning): (Table, Key, seq<real>, real) -> bool {
    (t: Table, key: Key, h: seq<real>, now: real) =>
      KeyAgrees(capacity, earn, BucketOf(t, key), Level(capacity, earn, h), now)
  }

  lemma FollowsHistory(capacity: real, earn: Earning)
    requires capacity >= 1.0 && Steady(earn)
    ensures Follows(Buckets(capacity, earn), ByHistory(capacity, earn), Legal(capacity, earn), Held(capacity, earn))
  {
    forall t: Table, key: Key, h: seq<real>, now: real, op: Op |
      Held(capacity, earn)(t, key, h, now) && Legal(capacity, earn)(op) && now <= Later(now, op)
      ensures IsCall(op, key) ==> Buckets(capacity, earn)(t, op).1 == ByHistory(capacity, earn)(h, op.at)
      ensures Held(capacity, earn)(Buckets(capacity, earn)(t, op).0, key,
                                   HistoryAfter(ByHistory(capacity, earn), h, op, key), Later(now, op))
    {
      StepAgrees(capacity, earn, t, key, h, now, op);
    }
  }

  ghost predicate RegularRun(capacity: real, earn: Earning, ops: seq<Op>, start: real) {
    Regular(Buckets(capacity, earn), ByHistory(capacity, earn), Legal(capacity, earn), Held(capacity, earn),
            map[], ops, start)
  }

  /** Every sweep leaves an idle bucket the time to fill up. */
  ghost predicate PatientSweeps(capacity: real, rate: real, ops: seq<Op>) {
    forall i :: 0 <= i < |ops| && ops[i].Sweep? ==> rate * ops[i].ttl >= capacity
  }

  lemma IsRegular(capacity: real, rate: real, ops: seq<Op>, start: real)
    requires capacity >= 1.0 && rate >= 0.0
    requires HasNoReset(ops) && Monotone(ops, start) && PatientSweeps(capacity, rate, ops)
    ensures RegularRun(capacity, AtRate(rate), ops, start)
  {
    AtRateIsSteady(rate);
    FollowsHistory(capacity, AtRate(rate));
    PatientIsLegal(capacity, rate, ops);
  }

  lemma PatientIsLegal(capacity: real, rate: real, ops: seq<Op>)
    requires HasNoReset(ops) && PatientSweeps(capacity, rate, ops)
    ensures AllLegal(Legal(capacity, AtRate(rate)), ops)
  {
    forall i | 0 <= i < |ops| ensures Legal(capacity, AtRate(rate))(ops[i]) {
      if ops[i].Sweep? { assert ops[i].at - (ops[i].at - ops[i].ttl) == ops[i].ttl; }
    }
  }

  /** With patient sweeps, every answer of every run is a function of the calls of the key accepted before. */
  lemma RefinesHistory(capacity: real, rate: real, ops: seq<Op>, start: real)
    requires capacity >= 1.0 && rate >= 0.0
    requires HasNoReset(ops) && Monotone(ops, start) && PatientSweeps(capacity, rate, ops)
    ensures Verdicts(Buckets(capacity, AtRate(rate)), map[], ops)
         == Verdicts(LogMachine(ByHistory(capacity, AtRate(rate))), map[], ops)
  {
    var earn := AtRate(rate);
    IsRegular(capacity, rate, ops, start);
    RefinesLog(Buckets(capacity, earn), ByHistory(capacity, earn), Legal(capacity, earn), Held(capacity, earn),
               map[], ops, start);
  }

  /** Refused calls, other keys and patient sweeps can be deleted from a run without changing any other
      answer. */
  lemma BucketErasure(capacity: real, rate: real, ops: seq<Op>, start: real, mask: seq<bool>, key: Key)
    requires capacity >= 1.0 && rate >= 0.0 && |ops| == |mask|
    requires HasNoReset(ops) && Monotone(ops, start) && PatientSweeps(capacity, rate, ops)
    requires KeepsAccepted(ops, Verdicts(Buckets(capacity, AtRate(rate)), map[], ops), mask, key)
    ensures var kept, v := Select(ops, mask), Verdicts(Buckets(capacity, AtRate(rate)), map[], ops);
            && |kept| == |Select(v, mask)|
            && SameAnswers(kept, Select(v, mask), Verdicts(Buckets(capacity, AtRate(rate)), map[], kept), key)
  {
    var earn := AtRate(rate);
    IsRegular(capacity, rate, ops, start);
    Erasure(Buckets(capacity, earn), ByHistory(capacity, earn), Legal(capacity, earn), Held(capacity, earn),
            map[], ops, start, mask, key);
  }

  // ----- At most capacity + rate * (hi - lo) calls in [lo, hi] -----

  /** The times in [lo, hi]. */
  function CountBetween(h: seq<real>, lo: real, hi: real): (n: nat)
    ensures n <= |h|
  {
    if h == [] then 0
    else CountBetween(h[..|h| - 1], lo, hi) + if lo <= h[|h| - 1] <= hi then 1 else 0
  }

  /** The level left after the last call pays for every call accepted since lo. */
  ghost predicate Paid(capacity: real, earn: Earning, l: Bucket, counted: nat, last: real, lo: real) {
    && l.Tokens? && l.lastFill == last && 0.0 <= l.tokens <= capacity - 1.0
    && (lo <= last ==> l.tokens <= capacity + earn(lo, last) - counted as real)
    && (last < lo ==> counted == 0)
  }

  lemma {:induction false} LevelPays(capacity: real, earn: Earning, h: seq<real>, lo: real, hi: real)
    requires capacity >= 1.0 && Steady(earn)
    requires h != [] && Sorted(h) && Obeys(ByHistory(capacity, earn), h) && h[|h| - 1] <= hi
    ensures Paid(capacity, earn, Level(capacity, earn, h), CountBetween(h, lo, hi), h[|h| - 1], lo)
  {
    var before := h[..|h| - 1];
    ObeysPrefix(ByHistory(capacity, earn), h);
    if before == [] {
      assert CountBetween(before, lo, hi) == 0;
    } else {
      LevelPays(capacity, earn, before, lo, hi);
    }
  }

  lemma {:induction false} HistoryBound(capacity: real, earn: Earning, h: seq<real>, lo: real, hi: real)
    requires capacity >= 1.0 && Steady(earn) && lo <= hi
    requires Sorted(h) && Obeys(ByHistory(capacity, earn), h)
    ensures CountBetween(h, lo, hi) as real <= capacity + earn(lo, hi)
  {
    if h != [] {
      var last := h[|h| - 1];
      if last > hi {
        ObeysPrefix(ByHistory(capacity, earn), h);
        HistoryBound(capacity, earn, h[..|h| - 1], lo, hi);
      } else {
        LevelPays(capacity, earn, h, lo, hi);
        assert earn(lo, last) + earn(last, hi) == earn(lo, hi);
      }
    }
  }

  lemma GrantedBound(capacity: real, earn: Earning, ops: seq<Op>, start: real, key: Key, lo: real, hi: real)
    requires capacity >= 1.0 && Steady(earn) && lo <= hi && RegularRun(capacity, earn, ops, start)
    requires NeverReset(ops, key)
    ensures CountBetween(AcceptedTimes(ops, Verdicts(Buckets(capacity, earn), map[], ops), key), lo, hi) as real
         <= capacity + earn(lo, hi)
  {
    GrantedHistory(Buckets(capacity, earn), ByHistory(capacity, earn), Legal(capacity, earn), Held(capacity, earn),
                   map[], ops, start, key);
    HistoryBound(capacity, earn, AcceptedTimes(ops, Verdicts(Buckets(capacity, earn), map[], ops), key), lo, hi);
  }

  /** With patient sweeps, [lo, hi] holds at most capacity + rate * (hi - lo) accepted calls of a key. */
  lemma IntervalBound(capacity: real, rate: real, ops: seq<Op>, start: real, key: Key, lo: real, hi: real)
    requires capacity >= 1.0 && rate >= 0.0 && lo <= hi
    requires HasNoReset(ops) && Monotone(ops, start) && PatientSweeps(capacity, rate, ops)
    ensures CountBetween(AcceptedTimes(ops, Verdicts(Buckets(capacity, AtRate(rate)), map[], ops), key), lo, hi) as real
         <= capacity + (hi - lo) * rate
  {
    IsRegular(capacity, rate, ops, start);
    AtRateIsSteady(rate);
    GrantedBound(capacity, AtRate(rate), ops, start, key, lo, hi);
    assert AtRate(rate)(lo, hi) == (hi - lo) * rate;
  }

  // ----- Nobody is refused while the bound has room -----

  /** What the bound leaves of an interval that ends now. */
  function Room(capacity: real, earn: Earning, h: seq<real>, lo: real, now: real): real {
    capacity + earn(lo, now) - CountBetween(h, lo, now) as real
  }

  /** The level at a time after the last accepted call. */
  function LevelAt(capacity: real, earn: Earning, h: seq<real>, now: real): real {
    var b := Level(capacity, earn, h);
    if b.NoBucket? then capacity else Refill(capacity, earn, b, now)
  }

  lemma {:induction false} CountLater(h: seq<real>, lo: real, hi: real, hi': real)
    requires hi <= hi' && forall i :: 0 <= i < |h| ==> h[i] <= hi
    ensures CountBetween(h, lo, hi) == CountBetween(h, lo, hi')
  {
    if h != [] { CountLater(h[..|h| - 1], lo, hi, hi'); }
  }

  /** Waiting adds to the room what it adds to an unclamped level. */
  lemma RoomLater(capacity: real, earn: Earning, h: seq<real>, lo: real, last: real, now: real)
    requires Steady(earn) && last <= now && forall i :: 0 <= i < |h| ==> h[i] <= last
    ensures Room(capacity, earn, h, lo, now) == Room(capacity, earn, h, lo, last) + earn(last, now)
  {
    CountLater(h, lo, last, now);
    assert earn(lo, last) + earn(last, now) == earn(lo, now);
  }

  /** The level is the full capacity or the room of some interval that ends now. */
  lemma {:induction false} LevelIsRoom(capacity: real, earn: Earning, h: seq<real>, now: real) returns (lo: real)
    requires capacity >= 1.0 && Steady(earn)
    requires Sorted(h) && Obeys(ByHistory(capacity, earn), h) && (h != [] ==> h[|h| - 1] <= now)
    ensures LevelAt(capacity, earn, h, now) == capacity ||
            (lo <= now && LevelAt(capacity, earn, h, now) == Room(capacity, earn, h, lo, now))
    decreases |h|
  {
    lo := now;
    if h != [] {
      var before, last := h[..|h| - 1], h[|h| - 1];
      ObeysPrefix(ByHistory(capacity, earn), h);
      lo := LevelIsRoom(capacity, earn, before, last);
      lo := LevelAfterCall(capacity, earn, before, last, lo);
      assert h == before + [last];
      RoomLater(capacity, earn, h, lo, last, now);
    }
  }

  lemma LevelAfterCall(capacity: real, earn: Earning, before: seq<real>, last: real, lo: real) returns (lo': real)
    requires capacity >= 1.0 && Steady(earn) && Sorted(before + [last])
    requires Obeys(ByHistory(capacity, earn), before) && ByHistory(capacity, earn)(before, last)
    requires LevelAt(capacity, earn, before, last) == capacity ||
             (lo <= last && LevelAt(capacity, earn, before, last) == Room(capacity, earn, before, lo, last))
    ensures lo' <= last
    ensures Level(capacity, earn, before + [last]).Tokens? && Level(capacity, earn, before + [last]).lastFill == last
    ensures Level(capacity, earn, before + [last]).tokens == Room(capacity, earn, before + [last], lo', last)
  {
    assert (before + [last])[..|before|] == before;
    assert earn(last, last) + earn(last, last) == earn(last, last);
    if LevelAt(capacity, earn, before, last) == capacity {
      lo' := last;
      FullIsQuiet(capacity, earn, before, last);
    } else {
      lo' := lo;
    }
  }

  /** A full bucket was not drawn on at this very time. */
  lemma FullIsQuiet(capacity: real, earn: Earning, h: seq<real>, now: real)
    requires capacity >= 1.0 && Steady(earn) && Sorted(h + [now]) && Obeys(ByHistory(capacity, earn), h)
    requires LevelAt(capacity, earn, h, now) == capacity
    ensures CountBetween(h, now, now) == 0
  {
    if h != [] {
      var last := h[|h| - 1];
      assert (h + [now])[|h| - 1] == last && (h + [now])[|h|] == now;
      assert Sorted(h) by { assert forall i :: 0 <= i < |h| ==> (h + [now])[i] == h[i]; }
      LevelPays(capacity, earn, h, last, last);
      assert earn(last, last) + earn(last, last) == earn(last, last);
      assert last < now;
      CountsNothingAfter(h, now);
    }
  }

  lemma {:induction false} CountsNothingAfter(h: seq<real>, now: real)
    requires forall i :: 0 <= i < |h| ==> h[i] < now
    ensures CountBetween(h, now, now) == 0
  {
    if h != [] { CountsNothingAfter(h[..|h| - 1], now); }
  }

  lemma {:induction false} CountsNothingSince(h: seq<real>, lo: real, hi: real)
    requires forall i :: 0 <= i < |h| ==> h[i] < lo
    ensures CountBetween(h, lo, hi) == 0
  {
    if h != [] { CountsNothingSince(h[..|h| - 1], lo, hi); }
  }

  /** The level never exceeds the room of an interval that ends now. */
  lemma LevelWithinRoom(capacity: real, earn: Earning, h: seq<real>, lo: real, now: real)
    requires capacity >= 1.0 && Steady(earn) && lo <= now
    requires Sorted(h) && Obeys(ByHistory(capacity, earn), h) && (h != [] ==> h[|h| - 1] <= now)
    ensures LevelAt(capacity, earn, h, now) <= Room(capacity, earn, h, lo, now)
  {
    if h != [] {
      var last := h[|h| - 1];
      LevelPays(capacity, earn, h, lo, now);
      if lo <= last {
        assert earn(lo, last) + earn(last, now) == earn(lo, now);
      } else {
        CountsNothingSince(h, lo, now);
      }
    }
  }

  /** The rule of the bucket, without a bucket: one more call fits exactly when it keeps the bound of every interval
      that ends with it. */
  lemma RuleIsBound(capacity: real, earn: Earning, h: seq<real>, at: real)
    requires capacity >= 1.0 && Steady(earn)
    requires Sorted(h) && Obeys(ByHistory(capacity, earn), h) && (h != [] ==> h[|h| - 1] <= at)
    ensures ByHistory(capacity, earn)(h, at) <==> forall lo :: lo <= at ==> Room(capacity, earn, h, lo, at) >= 1.0
  {
    assert ByHistory(capacity, earn)(h, at) <==> LevelAt(capacity, earn, h, at) >= 1.0;
    if LevelAt(capacity, earn, h, at) >= 1.0 {
      forall lo | lo <= at ensures Room(capacity, earn, h, lo, at) >= 1.0 {
        LevelWithinRoom(capacity, earn, h, lo, at);
      }
    } else {
      var lo := LevelIsRoom(capacity, earn, h, at);
      assert Room(capacity, earn, h, lo, at) < 1.0;
    }
  }

  lemma PrefixIsRegular(capacity: real, rate: real, ops: seq<Op>, start: real, i: nat)
    requires capacity >= 1.0 && rate >= 0.0 && i < |ops| && ops[i].Call?
    requires HasNoReset(ops) && Monotone(ops, start) && PatientSweeps(capacity, rate, ops)
    ensures HasNoReset(ops[..i]) && Monotone(ops[..i], start) && PatientSweeps(capacity, rate, ops[..i])
  {
    MonotonePrefix(ops, start, i);
  }

  /** With patient sweeps, a call is accepted exactly when together with it every interval that ends now keeps the
      bound of capacity + rate * length. */
  lemma AcceptedIffBoundAllows(capacity: real, rate: real, ops: seq<Op>, start: real, i: nat)
    requires capacity >= 1.0 && rate >= 0.0 && i < |ops| && ops[i].Call?
    requires HasNoReset(ops) && Monotone(ops, start) && PatientSweeps(capacity, rate, ops)
    ensures var v := Verdicts(Buckets(capacity, AtRate(rate)), map[], ops);
            var h := AcceptedTimes(ops[..i], v[..i], ops[i].key);
            v[i] <==> forall lo :: lo <= ops[i].at ==> Room(capacity, AtRate(rate), h, lo, ops[i].at) >= 1.0
  {
    var earn, key := AtRate(rate), ops[i].key;
    var m := Buckets(capacity, earn);
    var v := Verdicts(m, map[], ops);
    AtRateIsSteady(rate);
    IsRegular(capacity, rate, ops, start);
    AnswerIsRule(m, ByHistory(capacity, earn), Legal(capacity, earn), Held(capacity, earn), map[], ops, start, i);
    PrefixIsRegular(capacity, rate, ops, start, i);
    IsRegular(capacity, rate, ops[..i], start);
    VerdictsPrefix(m, map[], ops, i);
    GrantedHistory(m, ByHistory(capacity, earn), Legal(capacity, earn), Held(capacity, earn), map[], ops[..i], start,
      key);
    MonotonePrefix(ops, start, i);
    RuleIsBound(capacity, earn, AcceptedTimes(ops[..i], v[..i], key), ops[i].at);
  }

  // ----- Well-spaced callers -----

  ghost predicate Spaced(ops: seq<Op>, key: Key, earn: Earning) {
    forall i, j :: 0 <= i < j < |ops| && IsCall(ops[i], key) && IsCall(ops[j], key)
      ==> earn(ops[i].at, ops[j].at) >= 1.0
  }

  /** Each coming call of the key finds at least one token credited since b was filled. */
  ghost predicate Earned(b: Bucket, ops: seq<Op>, key: Key, earn: Earning) {
    b.Tokens? ==>
      && b.tokens >= 0.0
      && forall i :: 0 <= i < |ops| && IsCall(ops[i], key) ==> earn(b.lastFill, ops[i].at) >= 1.0
  }

  lemma {:induction false} SpacedFromState(capacity: real, earn: Earning, t: Table, ops: seq<Op>, key: Key, i: nat)
    requires capacity >= 1.0
    requires Spaced(ops, key, earn) && Earned(BucketOf(t, key), ops, key, earn)
    requires i < |ops| && IsCall(ops[i], key)
    ensures Verdicts(Buckets(capacity, earn), t, ops)[i]
    decreases |ops|
  {
    if i > 0 {
      SpacedFromState(capacity, earn, Step(capacity, earn, t, ops[0]).0, ops[1..], key, i - 1);
    }
  }

  /** Calls of a key spaced at least 1/rate apart are never refused, whatever happens in between. */
  lemma SpacedCallsNeverRefused(capacity: real, rate: real, ops: seq<Op>, key: Key, i: nat)
    requires capacity >= 1.0 && rate > 0.0
    requires forall i, j :: 0 <= i < j < |ops| && IsCall(ops[i], key) && IsCall(ops[j], key)
               ==> ops[j].at - ops[i].at >= 1.0 / rate
    requires i < |ops| && IsCall(ops[i], key)
    ensures Verdicts(Buckets(capacity, AtRate(rate)), map[], ops)[i]
  {
    forall i, j | 0 <= i < j < |ops| && IsCall(ops[i], key) && IsCall(ops[j], key)
      ensures AtRate(rate)(ops[i].at, ops[j].at) >= 1.0
    {
    }
    SpacedFromState(capacity, AtRate(rate), map[], ops, key, i);
  }

  ghost predicate SpacedApart(ops: seq<Op>, key: Key, gap: real) {
    forall i, j :: 0 <= i < j < |ops| && IsCall(ops[i], key) && IsCall(ops[j], key) ==> ops[j].at - ops[i].at >= gap
  }

  /** That every caller so spaced is served in every run is the same as that a token fits into the bucket. */
  lemma SpacedCallsExact(capacity: real, rate: real, key: Key)
    requires rate > 0.0
    ensures (forall ops: seq<Op>, i: nat :: SpacedApart(ops, key, 1.0 / rate) && i < |ops| && IsCall(ops[i], key) ==>
              Verdicts(Buckets(capacity, AtRate(rate)), map[], ops)[i]) <==> capacity >= 1.0
  {
    if capacity >= 1.0 {
      forall ops: seq<Op>, i: nat | SpacedApart(ops, key, 1.0 / rate) && i < |ops| && IsCall(ops[i], key)
        ensures Verdicts(Buckets(capacity, AtRate(rate)), map[], ops)[i]
      {
        SpacedCallsNeverRefused(capacity, rate, ops, key, i);
      }
    } else {
      var wait := 1.0 / rate;
      AgainAnswers(capacity, AtRate(rate), key, wait, 0.0);
      var ops := [Call(key, 0.0), Call(key, wait)];
      assert SpacedApart(ops, key, wait) && IsCall(ops[1], key);
      assert !Verdicts(Buckets(capacity, AtRate(rate)), map[], ops)[1];
    }
  }

  // ----- The bound needs patient sweeps: sweeping a bucket before it is full again gives tokens away -----

  /** j calls at one instant. */
  function Burst(key: Key, j: nat, at: real): seq<Op> {
    if j == 0 then [] else [Call(key, at)] + Burst(key, j - 1, at)
  }

  /** Rounds of m calls, the first ahead of the others by `gap`, each round swept away after `wait`. */
  function Rounds(key: Key, n: nat, m: nat, at: real, gap: real, wait: real, ttl: real): seq<Op>
    requires m >= 1
    decreases n
  {
    if n == 0 then []
    else
      [Call(key, at)] + (Burst(key, m - 1, at + gap) + ([Sweep(at + gap + wait, ttl)]
      + Rounds(key, n - 1, m, at + gap + wait, gap, wait, ttl)))
  }

  function Total(n: nat, m: nat): nat {
    if n == 0 then 0 else m + Total(n - 1, m)
  }

  /** The level a new bucket reaches `gap` after its first call. */
  function RefillAfterFirst(capacity: real, earn: Earning, from: real, gap: real): real {
    Refill(capacity, earn, Tokens(capacity - 1.0, from), from + gap)
  }

  function Granted(capacity: real, earn: Earning, t: Table, ops: seq<Op>, key: Key): nat {
    |AcceptedTimes(ops, Verdicts(Buckets(capacity, earn), t, ops), key)|
  }

  lemma {:induction false} BurstGranted(capacity: real, earn: Earning, t: Table, key: Key, j: nat, at: real,
      rest: seq<Op>)
    returns (t': Table)
    requires Steady(earn)
    requires key in t && t[key].lastFill <= at && Refill(capacity, earn, t[key], at) >= j as real
    ensures key in t' && t'[key].lastFill <= at
    ensures Granted(capacity, earn, t, Burst(key, j, at) + rest, key) == j + Granted(capacity, earn, t', rest, key)
  {
    if j == 0 {
      assert Burst(key, 0, at) + rest == rest;
      t' := t;
    } else {
      var tail := Burst(key, j - 1, at) + rest;
      assert Burst(key, j, at) + rest == [Call(key, at)] + tail;
      assert earn(at, at) + earn(at, at) == earn(at, at);
      t' := BurstGranted(capacity, earn, Step(capacity, earn, t, Call(key, at)).0, key, j - 1, at, rest);
    }
  }

  /** From an empty bucket table, every call of every round is accepted. */
  lemma {:induction false} RoundsGranted(capacity: real, earn: Earning, t: Table, key: Key,
      n: nat, m: nat, at: real, gap: real, wait: real, ttl: real)
    requires Steady(earn) && key !in t && m >= 1 && gap >= 0.0 && wait >= ttl
    requires forall from: real :: RefillAfterFirst(capacity, earn, from, gap) >= (m - 1) as real
    ensures Granted(capacity, earn, t, Rounds(key, n, m, at, gap, wait, ttl), key) == Total(n, m)
    decreases n
  {
    if n > 0 {
      var later := Rounds(key, n - 1, m, at + gap + wait, gap, wait, ttl);
      var sweep := Sweep(at + gap + wait, ttl);
      var t1 := Step(capacity, earn, t, Call(key, at)).0;
      assert RefillAfterFirst(capacity, earn, at, gap) >= (m - 1) as real;
      var t2 := BurstGranted(capacity, earn, t1, key, m - 1, at + gap, [sweep] + later);
      RoundsGranted(capacity, earn, Step(capacity, earn, t2, sweep).0, key, n - 1, m, at + gap + wait, gap, wait, ttl);
    }
  }

  /** A run whose sweeps all use the same ttl and which is over by `end`. */
  ghost predicate SweptRun(ops: seq<Op>, start: real, ttl: real, end: real) {
    && HasNoReset(ops) && Monotone(ops, start)
    && (forall i :: 0 <= i < |ops| && ops[i].Sweep? ==> ops[i].ttl == ttl)
    && (forall i :: 0 <= i < |ops| && !ops[i].Reset? ==> ops[i].at <= end)
  }

  lemma SweptRunCons(op: Op, rest: seq<Op>, start: real, ttl: real, end: real)
    requires !op.Reset? && start <= op.at <= end && (op.Sweep? ==> op.ttl == ttl)
    requires SweptRun(rest, op.at, ttl, end)
    ensures SweptRun([op] + rest, start, ttl, end)
  {
    assert ([op] + rest)[1..] == rest;
  }

  lemma {:induction false} BurstIsSweptRun(key: Key, j: nat, at: real, rest: seq<Op>, start: real, ttl: real, end: real)
    requires start <= at <= end && SweptRun(rest, at, ttl, end)
    ensures SweptRun(Burst(key, j, at) + rest, start, ttl, end)
  {
    if j == 0 {
      assert Burst(key, 0, at) + rest == rest;
      MonotoneEarlier(rest, start, at);
    } else {
      BurstIsSweptRun(key, j - 1, at, rest, at, ttl, end);
      assert Burst(key, j, at) + rest == [Call(key, at)] + (Burst(key, j - 1, at) + rest);
      SweptRunCons(Call(key, at), Burst(key, j - 1, at) + rest, start, ttl, end);
    }
  }

  function RoundsEnd(n: nat, at: real, round: real): real {
    if n == 0 then at else RoundsEnd(n - 1, at + round, round)
  }

  lemma {:induction false} RoundsEndLater(n: nat, at: real, round: real)
    requires round >= 0.0
    ensures RoundsEnd(n, at, round) >= at
  {
    if n > 0 { RoundsEndLater(n - 1, at + round, round); }
  }

  lemma {:induction false} RoundsAreSweptRun(key: Key, n: nat, m: nat, at: real, gap: real, wait: real, ttl: real)
    requires m >= 1 && gap >= 0.0 && wait >= 0.0
    ensures SweptRun(Rounds(key, n, m, at, gap, wait, ttl), at, ttl, RoundsEnd(n, at, gap + wait))
    decreases n
  {
    if n > 0 {
      var end := RoundsEnd(n, at, gap + wait);
      var next := at + gap + wait;
      assert next == at + (gap + wait);
      RoundsEndLater(n - 1, next, gap + wait);
      var later := Rounds(key, n - 1, m, next, gap, wait, ttl);
      RoundsAreSweptRun(key, n - 1, m, next, gap, wait, ttl);
      SweptRunCons(Sweep(next, ttl), later, at + gap, ttl, end);
      BurstIsSweptRun(key, m - 1, at + gap, [Sweep(next, ttl)] + later, at, ttl, end);
      SweptRunCons(Call(key, at), Burst(key, m - 1, at + gap) + ([Sweep(next, ttl)] + later), at, ttl, end);
    }
  }

  lemma {:induction false} AcceptedBefore(ops: seq<Op>, verdicts: seq<bool>, key: Key, end: real)
    requires |ops| == |verdicts|
    requires forall i :: 0 <= i < |ops| && !ops[i].Reset? ==> ops[i].at <= end
    ensures forall i :: 0 <= i < |AcceptedTimes(ops, verdicts, key)| ==> AcceptedTimes(ops, verdicts, key)[i] <= end
    decreases |ops|
  {
    if ops != [] { AcceptedBefore(ops[1..], verdicts[1..], key, end); }
  }

  lemma {:induction false} CountsAll(h: seq<real>, lo: real, hi: real)
    requires forall i :: 0 <= i < |h| ==> lo <= h[i] <= hi
    ensures CountBetween(h, lo, hi) == |h|
  {
    if h != [] { CountsAll(h[..|h| - 1], lo, hi); }
  }

  /** The whole of a finished run lies between its start and its end. */
  lemma GrantedIsCounted(capacity: real, earn: Earning, ops: seq<Op>, start: real, ttl: real, end: real, key: Key)
    requires SweptRun(ops, start, ttl, end)
    ensures CountBetween(AcceptedTimes(ops, Verdicts(Buckets(capacity, earn), map[], ops), key), start, end)
         == Granted(capacity, earn, map[], ops, key)
  {
    var v := Verdicts(Buckets(capacity, earn), map[], ops);
    AcceptedTimesSorted(ops, v, key, start);
    AcceptedBefore(ops, v, key, end);
    CountsAll(AcceptedTimes(ops, v, key), start, end);
  }

  lemma RoundsCounted(capacity: real, earn: Earning, key: Key, n: nat, m: nat, gap: real, wait: real, ttl: real)
    requires Steady(earn) && m >= 1 && gap >= 0.0 && wait >= 0.0 && wait >= ttl
    requires forall from: real :: RefillAfterFirst(capacity, earn, from, gap) >= (m - 1) as real
    ensures var ops, end := Rounds(key, n, m, 0.0, gap, wait, ttl), RoundsEnd(n, 0.0, gap + wait);
            && SweptRun(ops, 0.0, ttl, end) && 0.0 <= end
            && CountBetween(AcceptedTimes(ops, Verdicts(Buckets(capacity, earn), map[], ops), key), 0.0, end)
               == Total(n, m)
  {
    var ops, end := Rounds(key, n, m, 0.0, gap, wait, ttl), RoundsEnd(n, 0.0, gap + wait);
    RoundsAreSweptRun(key, n, m, 0.0, gap, wait, ttl);
    RoundsEndLater(n, 0.0, gap + wait);
    RoundsGranted(capacity, earn, map[], key, n, m, 0.0, gap, wait, ttl);
    GrantedIsCounted(capacity, earn, ops, 0.0, ttl, end, key);
  }

  /** The promised bound, for every run that sweeps with this ttl. */
  ghost predicate BoundHolds(capacity: real, earn: Earning, ttl: real, key: Key) {
    forall ops: seq<Op>, start: real, end: real, lo: real, hi: real :: SweptRun(ops, start, ttl, end) && lo <= hi ==>
      CountBetween(AcceptedTimes(ops, Verdicts(Buckets(capacity, earn), map[], ops), key), lo, hi) as real
      <= capacity + earn(lo, hi)
  }

  lemma RoundsBreakBound(capacity: real, earn: Earning, key: Key, n: nat, m: nat, gap: real, wait: real, ttl: real)
    requires Steady(earn) && m >= 1 && gap >= 0.0 && wait >= 0.0 && wait >= ttl
    requires forall from: real :: RefillAfterFirst(capacity, earn, from, gap) >= (m - 1) as real
    requires Total(n, m) as real > capacity + earn(0.0, RoundsEnd(n, 0.0, gap + wait))
    ensures !BoundHolds(capacity, earn, ttl, key)
  {
    RoundsCounted(capacity, earn, key, n, m, gap, wait, ttl);
  }

  /** A number of calls and a gap that spend more per round than the bound allows for its length. */
  lemma ChooseRound(capacity: real, rate: real, ttl: real) returns (m: nat, gap: real, wait: real)
    requires capacity >= 1.0 && rate >= 0.0 && rate * ttl < capacity
    ensures m >= 1 && gap >= 0.0 && wait >= 0.0 && wait >= ttl
    ensures capacity >= (m - 1) as real && capacity - 1.0 + gap * rate >= (m - 1) as real
    ensures (gap + wait) * rate < m as real
  {
    wait := if ttl >= 0.0 then ttl else 0.0;
    assert wait * rate < capacity;
    var f := capacity.Floor;
    if rate == 0.0 || f as real == capacity {
      m, gap := f, 0.0;
    } else {
      m, gap := f + 1, ((f + 1) as real - capacity) / rate;
      assert gap * rate == (f + 1) as real - capacity;
      assert (gap + wait) * rate == gap * rate + wait * rate;
    }
  }

  lemma Outgrows(capacity: real, gain: real) returns (n: nat)
    requires capacity > 0.0 && gain > 0.0
    ensures n as real * gain > capacity
  {
    n := (capacity / gain).Floor + 1;
    assert (n as real - capacity / gain) * gain > 0.0;
    assert (capacity / gain) * gain == capacity;
  }

  /** Each round earns round * rate and spends m. */
  lemma {:induction false} SpentLessEarned(rate: real, n: nat, m: nat, at: real, round: real)
    ensures Total(n, m) as real - AtRate(rate)(at, RoundsEnd(n, at, round)) == n as real * (m as real - round * rate)
  {
    if n == 0 {
      assert (at - at) * rate == 0.0;
    } else {
      var end := RoundsEnd(n, at, round);
      SpentLessEarned(rate, n - 1, m, at + round, round);
      assert (end - at) * rate == (end - (at + round)) * rate + round * rate;
    }
  }

  /** Rounds that spend more than the bound allows, with a pause that lets sweeps at this ttl reset the bucket. */
  lemma ChooseRounds(capacity: real, rate: real, ttl: real) returns (n: nat, m: nat, gap: real, wait: real)
    requires capacity >= 1.0 && rate >= 0.0 && rate * ttl < capacity
    ensures m >= 1 && gap >= 0.0 && wait >= 0.0 && wait >= ttl
    ensures capacity >= (m - 1) as real && capacity - 1.0 + gap * rate >= (m - 1) as real
    ensures Total(n, m) as real > capacity + AtRate(rate)(0.0, RoundsEnd(n, 0.0, gap + wait))
  {
    m, gap, wait := ChooseRound(capacity, rate, ttl);
    n := Outgrows(capacity, m as real - (gap + wait) * rate);
    SpentLessEarned(rate, n, m, 0.0, gap + wait);
  }

  lemma ImpatientSweepsBreakBound(capacity: real, rate: real, ttl: real, key: Key)
    requires capacity >= 1.0 && rate >= 0.0 && rate * ttl < capacity
    ensures !BoundHolds(capacity, AtRate(rate), ttl, key)
  {
    var n, m, gap, wait := ChooseRounds(capacity, rate, ttl);
    AtRateIsSteady(rate);
    RefilledAfterFirst(capacity, rate, m, gap);
    RoundsBreakBound(capacity, AtRate(rate), key, n, m, gap, wait, ttl);
  }

  lemma RefilledAfterFirst(capacity: real, rate: real, m: nat, gap: real)
    requires capacity >= (m - 1) as real && capacity - 1.0 + gap * rate >= (m - 1) as real
    ensures forall from: real :: RefillAfterFirst(capacity, AtRate(rate), from, gap) >= (m - 1) as real
  {
    forall from: real ensures RefillAfterFirst(capacity, AtRate(rate), from, gap) >= (m - 1) as real {
      assert from + gap - from == gap;
    }
  }

  lemma PatientSweepsKeepBound(capacity: real, rate: real, ttl: real, key: Key)
    requires capacity >= 1.0 && rate >= 0.0 && rate * ttl >= capacity
    ensures BoundHolds(capacity, AtRate(rate), ttl, key)
  {
    forall ops: seq<Op>, start: real, end: real, lo: real, hi: real | SweptRun(ops, start, ttl, end) && lo <= hi
      ensures CountBetween(AcceptedTimes(ops, Verdicts(Buckets(capacity, AtRate(rate)), map[], ops), key), lo, hi)
                as real <= capacity + AtRate(rate)(lo, hi)
    {
      IntervalBound(capacity, rate, ops, start, key, lo, hi);
    }
  }

  /** The first call of a new bucket is accepted whatever the capacity. */
  lemma SmallBucketBreaksBound(capacity: real, rate: real, ttl: real, key: Key)
    requires capacity < 1.0
    ensures !BoundHolds(capacity, AtRate(rate), ttl, key)
  {
    var ops := Burst(key, 1, 0.0);
    assert ops == [Call(key, 0.0)] && ops[1..] == [];
    assert SweptRun(ops, 0.0, ttl, 0.0);
    assert AcceptedTimes(ops, Verdicts(Buckets(capacity, AtRate(rate)), map[], ops), key) == [0.0];
    assert CountBetween([0.0], 0.0, 0.0) == 1;
    assert AtRate(rate)(0.0, 0.0) == (0.0 - 0.0) * rate == 0.0;
  }

  /** The bound holds in every run that sweeps with a given ttl exactly when a token fits into the bucket and
      rate * ttl >= capacity. */
  lemma SweepTtlExact(capacity: real, rate: real, ttl: real, key: Key)
    requires rate >= 0.0
    ensures BoundHolds(capacity, AtRate(rate), ttl, key) <==> capacity >= 1.0 && rate * ttl >= capacity
  {
    if capacity < 1.0 {
      SmallBucketBreaksBound(capacity, rate, ttl, key);
    } else if rate * ttl >= capacity {
      PatientSweepsKeepBound(capacity, rate, ttl, key);
    } else {
      ImpatientSweepsBreakBound(capacity, rate, ttl, key);
    }
  }

  // ----- Erasure needs patient sweeps too -----

  ghost predicate ErasesTo(capacity: real, earn: Earning, ops: seq<Op>, mask: seq<bool>, key: Key)
    requires |ops| == |mask|
  {
    var kept, v := Select(ops, mask), Select(Verdicts(Buckets(capacity, earn), map[], ops), mask);
    |kept| == |v| && SameAnswers(kept, v, Verdicts(Buckets(capacity, earn), map[], kept), key)
  }

  ghost predicate Thins(capacity: real, earn: Earning, ops: seq<Op>, mask: seq<bool>, key: Key) {
    |ops| == |mask| && KeepsAccepted(ops, Verdicts(Buckets(capacity, earn), map[], ops), mask, key)
  }

  /** Erasure, for every run that sweeps with this ttl and every way to thin it. */
  ghost predicate ErasureHolds(capacity: real, earn: Earning, ttl: real, key: Key) {
    forall ops: seq<Op>, start: real, end: real, mask: seq<bool> ::
      SweptRun(ops, start, ttl, end) && Thins(capacity, earn, ops, mask, key) ==>
      ErasesTo(capacity, earn, ops, mask, key)
  }

  /** Everything but the sweeps. */
  function NoSweeps(ops: seq<Op>): (mask: seq<bool>)
    ensures |mask| == |ops|
    ensures forall i :: 0 <= i < |ops| ==> (mask[i] <==> !ops[i].Sweep?)
  {
    if ops == [] then [] else [!ops[0].Sweep?] + NoSweeps(ops[1..])
  }

  lemma {:induction false} NoSweepIsLeft(ops: seq<Op>, mask: seq<bool>)
    requires |ops| == |mask| && forall i :: 0 <= i < |ops| ==> (mask[i] <==> !ops[i].Sweep?)
    ensures forall i :: 0 <= i < |Select(ops, mask)| ==> !Select(ops, mask)[i].Sweep?
    decreases |ops|
  {
    if ops != [] { NoSweepIsLeft(ops[1..], mask[1..]); }
  }

  lemma UnsweptRun(ops: seq<Op>, start: real, capacity: real, rate: real)
    requires HasNoReset(ops) && Monotone(ops, start)
    ensures var kept := Select(ops, NoSweeps(ops));
            HasNoReset(kept) && Monotone(kept, start) && PatientSweeps(capacity, rate, kept)
  {
    SelectSubset(ops, NoSweeps(ops));
    SelectMonotone(ops, NoSweeps(ops), start);
    NoSweepIsLeft(ops, NoSweeps(ops));
  }

  lemma ErasedHistory(capacity: real, earn: Earning, ops: seq<Op>, mask: seq<bool>, key: Key)
    requires Thins(capacity, earn, ops, mask, key) && ErasesTo(capacity, earn, ops, mask, key)
    ensures var kept := Select(ops, mask);
            AcceptedTimes(kept, Verdicts(Buckets(capacity, earn), map[], kept), key)
            == AcceptedTimes(ops, Verdicts(Buckets(capacity, earn), map[], ops), key)
  {
    var kept, v := Select(ops, mask), Verdicts(Buckets(capacity, earn), map[], ops);
    KeptHistory(ops, v, mask, key);
    SameHistory(kept, Select(v, mask), Verdicts(Buckets(capacity, earn), map[], kept), key);
  }

  lemma NoSweepsThins(capacity: real, earn: Earning, ops: seq<Op>, key: Key)
    requires HasNoReset(ops)
    ensures Thins(capacity, earn, ops, NoSweeps(ops), key)
  {
  }

  /** The bound of the unswept run is the bound of the swept one. */
  lemma ErasedBound(capacity: real, rate: real, ops: seq<Op>, start: real, key: Key, lo: real, hi: real)
    requires capacity >= 1.0 && rate >= 0.0 && lo <= hi && HasNoReset(ops) && Monotone(ops, start)
    requires Thins(capacity, AtRate(rate), ops, NoSweeps(ops), key)
    requires ErasesTo(capacity, AtRate(rate), ops, NoSweeps(ops), key)
    ensures CountBetween(AcceptedTimes(ops, Verdicts(Buckets(capacity, AtRate(rate)), map[], ops), key), lo, hi) as real
         <= capacity + (hi - lo) * rate
  {
    UnsweptRun(ops, start, capacity, rate);
    ErasedHistory(capacity, AtRate(rate), ops, NoSweeps(ops), key);
    IntervalBound(capacity, rate, Select(ops, NoSweeps(ops)), start, key, lo, hi);
  }

  lemma ErasureGivesBound(capacity: real, rate: real, ttl: real, key: Key)
    requires capacity >= 1.0 && rate >= 0.0 && ErasureHolds(capacity, AtRate(rate), ttl, key)
    ensures BoundHolds(capacity, AtRate(rate), ttl, key)
  {
    forall ops: seq<Op>, start: real, end: real, lo: real, hi: real | SweptRun(ops, start, ttl, end) && lo <= hi
      ensures CountBetween(AcceptedTimes(ops, Verdicts(Buckets(capacity, AtRate(rate)), map[], ops), key), lo, hi)
                as real <= capacity + AtRate(rate)(lo, hi)
    {
      NoSweepsThins(capacity, AtRate(rate), ops, key);
      ErasedBound(capacity, rate, ops, start, key, lo, hi);
    }
  }

  lemma PatientSweepsErase(capacity: real, rate: real, ttl: real, key: Key)
    requires capacity >= 1.0 && rate >= 0.0 && rate * ttl >= capacity
    ensures ErasureHolds(capacity, AtRate(rate), ttl, key)
  {
    forall ops: seq<Op>, start: real, end: real, mask: seq<bool> |
        SweptRun(ops, start, ttl, end) && Thins(capacity, AtRate(rate), ops, mask, key)
      ensures ErasesTo(capacity, AtRate(rate), ops, mask, key)
    {
      BucketErasure(capacity, rate, ops, start, mask, key);
    }
  }

  /** A call, a sweep that finds its bucket idle, and a call again. */
  function Again(key: Key, wait: real, ttl: real): seq<Op> {
    [Call(key, 0.0), Sweep(wait, ttl), Call(key, wait)]
  }

  lemma AgainAnswers(capacity: real, earn: Earning, key: Key, wait: real, ttl: real)
    requires capacity < 1.0 && wait >= 0.0 && wait >= ttl
    ensures Verdicts(Buckets(capacity, earn), map[], Again(key, wait, ttl)) == [true, false, true]
    ensures Verdicts(Buckets(capacity, earn), map[], [Call(key, 0.0), Call(key, wait)]) == [true, false]
  {
    var m := Buckets(capacity, earn);
    var t := m(map[], Call(key, 0.0)).0;
    var first, rest, last := Call(key, 0.0), [Sweep(wait, ttl), Call(key, wait)], [Call(key, wait)];
    assert Again(key, wait, ttl)[1..] == rest && rest[1..] == last && last[1..] == [] && [first, last[0]][1..] == last;
    assert key !in m(t, rest[0]).0;
    assert Verdicts(m, m(t, rest[0]).0, last) == [true];
    assert Verdicts(m, t, last) == [false];
    assert Verdicts(m, t, rest) == [false, true];
  }

  /** Without room for a token a swept bucket accepts a call that a kept one refuses. */
  lemma SmallBucketDoesNotErase(capacity: real, earn: Earning, ttl: real, key: Key)
    requires capacity < 1.0
    ensures !ErasureHolds(capacity, earn, ttl, key)
  {
    var wait := if ttl >= 0.0 then ttl else 0.0;
    var ops, mask := Again(key, wait, ttl), [true, false, true];
    AgainAnswers(capacity, earn, key, wait, ttl);
    SweptRunOfAgain(key, wait, ttl);
    SelectAgain(ops[0], ops[1], ops[2]);
    SelectAgain(true, false, true);
    assert Thins(capacity, earn, ops, mask, key);
    assert Select(ops, mask)[1] == Call(key, wait);
    assert !ErasesTo(capacity, earn, ops, mask, key);
  }

  lemma SweptRunOfAgain(key: Key, wait: real, ttl: real)
    requires wait >= 0.0
    ensures SweptRun(Again(key, wait, ttl), 0.0, ttl, wait)
  {
    assert Monotone([], wait);
    SweptRunCons(Call(key, wait), [], wait, ttl, wait);
    SweptRunCons(Sweep(wait, ttl), [Call(key, wait)], 0.0, ttl, wait);
    SweptRunCons(Call(key, 0.0), [Sweep(wait, ttl), Call(key, wait)], 0.0, ttl, wait);
    assert [Call(key, wait)] + [] == [Call(key, wait)];
    assert [Sweep(wait, ttl)] + [Call(key, wait)] == [Sweep(wait, ttl), Call(key, wait)];
    assert [Call(key, 0.0)] + [Sweep(wait, ttl), Call(key, wait)] == Again(key, wait, ttl);
  }

  lemma SelectAgain<T>(x: T, y: T, z: T)
    ensures Select([x, y, z], [true, false, true]) == [x, z]
  {
    assert [true, false, true][1..] == [false, true] && [false, true][1..] == [true] && [true][1..] == [];
    assert [x, y, z][1..] == [y, z] && [y, z][1..] == [z] && [z][1..] == [];
    assert Select([z], [true]) == [z];
    assert Select([y, z], [false, true]) == [z];
  }

  /** Refused calls, other keys and sweeps with a given ttl can be erased from every run exactly when a token fits
      into the bucket and rate * ttl >= capacity. */
  lemma ErasureTtlExact(capacity: real, rate: real, ttl: real, key: Key)
    requires rate >= 0.0
    ensures ErasureHolds(capacity, AtRate(rate), ttl, key) <==> capacity >= 1.0 && rate * ttl >= capacity
  {
    if capacity < 1.0 {
      SmallBucketDoesNotErase(capacity, AtRate(rate), ttl, key);
    } else if rate * ttl >= capacity {
      PatientSweepsErase(capacity, rate, ttl, key);
    } else {
      ImpatientSweepsBreakBound(capacity, rate, ttl, key);
      if ErasureHolds(capacity, AtRate(rate), ttl, key) { ErasureGivesBound(capacity, rate, ttl, key); }
    }
  }
}
