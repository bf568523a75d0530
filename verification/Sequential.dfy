/** Sequential mode of internal/service/quiz_service.go: the question after the one last answered in the set,
    around the end of the list and back to its start. */
module Sequential {
  import opened Srs
  import opened QuizTables
  import opened QuizService
  import opened Wrappers
  import Grading

  // ----- ListBySet -----

  /** ORDER BY m.ord ASC, q.id ASC. */
  predicate Precedes(a: Member, b: Member) {
    a.ord < b.ord || (a.ord == b.ord && a.questionId <= b.questionId)
  }

  function InsertMember(ms: seq<Member>, m: Member): seq<Member> {
    if ms == [] || Precedes(m, ms[0]) then [m] + ms else [ms[0]] + InsertMember(ms[1..], m)
  }

  /** The members of a set whose question exists, in list order. */
  function Listing(c: Catalog, ms: seq<Member>, setId: int): seq<Member> {
    if ms == [] then []
    else
      var rest := Listing(c, ms[1..], setId);
      if ms[0].setId == setId && ms[0].questionId in c.questions then InsertMember(rest, ms[0]) else rest
  }

  /** The ids ListBySet returns. */
  function ListBySet(c: Catalog, code: string): seq<int> {
    if code !in c.setIds then []
    else
      var ms := Listing(c, c.members, c.setIds[code]);
      seq(|ms|, i requires 0 <= i < |ms| => ms[i].questionId)
  }

  /** PRIMARY KEY(set_id, question_id), and rows keyed by their own id. */
  ghost predicate WellKeyed(c: Catalog) {
    && DistinctKeys(c.members)
    && forall id :: id in c.questions ==> c.questions[id].id == id
  }

  ghost predicate DistinctKeys(ms: seq<Member>) {
    forall i, j :: 0 <= i < j < |ms| ==> (ms[i].setId, ms[i].questionId) != (ms[j].setId, ms[j].questionId)
  }

  ghost predicate Ordered(ms: seq<Member>) {
    forall i, j :: 0 <= i < j < |ms| ==> Precedes(ms[i], ms[j])
  }

  lemma {:induction false} InsertMemberCounts(ms: seq<Member>, m: Member)
    ensures multiset(InsertMember(ms, m)) == multiset(ms) + multiset{m}
  {
    if ms != [] && !Precedes(m, ms[0]) {
      InsertMemberCounts(ms[1..], m);
      assert ms == [ms[0]] + ms[1..];
    }
  }

  lemma {:induction false} InsertMemberSorts(ms: seq<Member>, m: Member)
    requires Ordered(ms)
    ensures Ordered(InsertMember(ms, m))
  {
    if ms != [] && !Precedes(m, ms[0]) {
      InsertMemberSorts(ms[1..], m);
      InsertMemberMembers(ms[1..], m);
      FirstPrecedes(ms, m);
    }
  }

  lemma FirstPrecedes(ms: seq<Member>, m: Member)
    requires Ordered(ms) && ms != [] && !Precedes(m, ms[0])
    ensures forall x :: x in ms[1..] || x == m ==> Precedes(ms[0], x)
  {
  }

  lemma {:induction false} InsertMemberMembers(ms: seq<Member>, m: Member)
    ensures forall x :: x in InsertMember(ms, m) <==> x in ms || x == m
  {
    if ms != [] && !Precedes(m, ms[0]) {
      InsertMemberMembers(ms[1..], m);
      assert ms == [ms[0]] + ms[1..];
    }
  }

  lemma {:induction false} ListingIs(c: Catalog, ms: seq<Member>, setId: int)
    ensures Ordered(Listing(c, ms, setId))
    ensures forall m :: m in Listing(c, ms, setId) <==> m in ms && m.setId == setId && m.questionId in c.questions
    ensures multiset(Listing(c, ms, setId)) <= multiset(ms)
  {
    if ms != [] {
      var rest := Listing(c, ms[1..], setId);
      ListingIs(c, ms[1..], setId);
      InsertMemberSorts(rest, ms[0]);
      InsertMemberCounts(rest, ms[0]);
      InsertMemberMembers(rest, ms[0]);
      assert ms == [ms[0]] + ms[1..];
    }
  }

  ghost predicate Distinct(ids: seq<int>) {
    forall i, j :: 0 <= i < j < |ids| ==> ids[i] != ids[j]
  }

  lemma ListedOnce(c: Catalog, setId: int, i: nat, j: nat)
    requires DistinctKeys(c.members) && i < j < |Listing(c, c.members, setId)|
    ensures Listing(c, c.members, setId)[i].questionId != Listing(c, c.members, setId)[j].questionId
  {
    var ms := Listing(c, c.members, setId);
    ListingIs(c, c.members, setId);
    if ms[i].questionId == ms[j].questionId {
      assert ms[i] in ms && ms[j] in ms;
      TwiceInMultiset(ms, i, j);
      OnceInMultiset(c.members, ms[i]);
    }
  }

  lemma ListedQuestions(c: Catalog, code: string, q: int)
    requires code in c.setIds
    ensures q in ListBySet(c, code) <==>
            q in c.questions && exists m :: m in c.members && m.setId == c.setIds[code] && m.questionId == q
  {
    var setId := c.setIds[code];
    var ms, ids := Listing(c, c.members, setId), ListBySet(c, code);
    ListingIs(c, c.members, setId);
    if q in ids {
      var i :| 0 <= i < |ids| && ids[i] == q;
      assert ms[i] in ms;
    }
    if q in c.questions && exists m :: m in c.members && m.setId == setId && m.questionId == q {
      var m :| m in c.members && m.setId == setId && m.questionId == q;
      var i :| 0 <= i < |ms| && ms[i] == m;
      assert ids[i] == q;
    }
  }

  /** A set lists each of its questions once. */
  lemma ListBySetDistinct(c: Catalog, code: string)
    requires WellKeyed(c)
    ensures Distinct(ListBySet(c, code))
    ensures forall q :: q in ListBySet(c, code) <==>
              code in c.setIds && q in c.questions &&
              exists m :: m in c.members && m.setId == c.setIds[code] && m.questionId == q
  {
    if code in c.setIds {
      forall i, j | 0 <= i < j < |ListBySet(c, code)| ensures ListBySet(c, code)[i] != ListBySet(c, code)[j] {
        ListedOnce(c, c.setIds[code], i, j);
      }
      forall q
        ensures q in ListBySet(c, code) <==>
                q in c.questions && exists m :: m in c.members && m.setId == c.setIds[code] && m.questionId == q
      {
        ListedQuestions(c, code, q);
      }
    }
  }

  lemma TwiceInMultiset(ms: seq<Member>, i: nat, j: nat)
    requires i < j < |ms| && ms[i] == ms[j]
    ensures multiset(ms)[ms[i]] >= 2
  {
    assert ms == ms[..j] + [ms[j]] + ms[j + 1..];
    assert ms[..j][i] in multiset(ms[..j]);
  }

  lemma {:induction false} OnceInMultiset(ms: seq<Member>, m: Member)
    requires DistinctKeys(ms)
    ensures multiset(ms)[m] <= 1
  {
    if ms != [] {
      assert ms == [ms[0]] + ms[1..];
      OnceInMultiset(ms[1..], m);
      if m == ms[0] {
        forall i | 0 <= i < |ms| - 1 ensures ms[1..][i] != m { assert ms[1..][i] == ms[i + 1]; }
        assert m !in multiset(ms[1..]);
      }
    }
  }

  // ----- pickSequential -----

  /** The position of an id in the list, or the length of the list. */
  function IndexOf(ids: seq<int>, id: int): (i: nat)
    ensures i <= |ids|
    ensures i < |ids| ==> ids[i] == id
    ensures i == |ids| <==> id !in ids
  {
    if ids == [] then 0 else if ids[0] == id then 0 else 1 + IndexOf(ids[1..], id)
  }

  function NextIndex(ids: seq<int>, last: Option<int>): (i: nat)
    requires ids != []
    ensures i < |ids|
  {
    if last.None? || last.value !in ids || IndexOf(ids, last.value) + 1 == |ids| then 0
    else IndexOf(ids, last.value) + 1
  }

  method PickSequential(all: seq<int>, last: Option<int>) returns (id: int)
    requires all != []
    ensures id == all[NextIndex(all, last)]
  {
    if last.None? {
      return all[0];
    }
    for i := 0 to |all|
      invariant last.value !in all[..i]
    {
      if all[i] == last.value {
        IndexIsFirst(all, i);
        Wrap(i, |all|);
        return all[(i + 1) % |all|];
      }
    }
    return all[0];
  }

  lemma Wrap(i: nat, n: nat)
    requires i < n
    ensures (i + 1) % n == if i + 1 == n then 0 else i + 1
  {
  }

  lemma {:induction false} IndexIsFirst(ids: seq<int>, i: nat)
    requires i < |ids| && ids[i] !in ids[..i]
    ensures IndexOf(ids, ids[i]) == i
  {
    if i > 0 {
      assert ids[0] in ids[..i];
      assert forall x :: x in ids[1..][..i - 1] ==> x in ids[..i] by {
        assert ids[1..][..i - 1] == ids[..i][1..];
      }
      IndexIsFirst(ids[1..], i - 1);
    }
  }

  /** The next question by the list alone: the first without an answer in the set, or when the question last
      answered has left it; else the one behind it, and the first again behind the last. */
  lemma NextIndexIs(ids: seq<int>, last: Option<int>, j: nat)
    requires ids != [] && Distinct(ids)
    ensures last.None? || last.value !in ids ==> NextIndex(ids, last) == 0
    ensures last.Some? && j < |ids| && ids[j] == last.value ==> NextIndex(ids, last) == (j + 1) % |ids|
  {
    if last.Some? && j < |ids| && ids[j] == last.value {
      IndexIsFirst(ids, j);
      Wrap(j, |ids|);
    }
  }

  /** The list is in the order of ord, and of the question's id where that is the same. */
  lemma ListBySetOrder(c: Catalog, code: string)
    requires code in c.setIds
    ensures var ms, ids := Listing(c, c.members, c.setIds[code]), ListBySet(c, code);
            && |ids| == |ms|
            && (forall i :: 0 <= i < |ms| ==>
                  ms[i] in c.members && ms[i].setId == c.setIds[code] && ids[i] == ms[i].questionId)
            && (forall i, j :: 0 <= i < j < |ms| ==>
                  ms[i].ord < ms[j].ord || (ms[i].ord == ms[j].ord && ids[i] <= ids[j]))
  {
    var ms := Listing(c, c.members, c.setIds[code]);
    ListingIs(c, c.members, c.setIds[code]);
    assert forall i :: 0 <= i < |ms| ==> ms[i] in ms;
    forall i, j | 0 <= i < j < |ms| ensures Precedes(ms[i], ms[j]) {}
  }

  // ----- A learner working through one set while everybody else does anything -----

  /** Round: the learner asks for the next question of the set and answers what is shown. */
  datatype Activity =
    | Round(answer: Grading.Payload, durationMs: int, now: Instant, fault: Fault)
    | Other(cmd: Command)

  /** The answer reaches attempts under the set, whatever happens to the SRS row afterwards. */
  predicate Recorded(fault: Fault) {
    !fault.GetQuestion? && !fault.SetLookup? && !fault.CreateAttempt?
  }

  /** Somebody else's doing, or the learner's in another set. */
  predicate Foreign(env: Env, cmd: Command, user: int, setId: int) {
    cmd.user != user || (cmd.Submit? && SetIdFor(env, cmd.input.setCode, cmd.fault) != Some(setId))
  }

  /** A learner and the set being worked through: its code, its id and its list of questions. */
  datatype Course = Course(user: int, code: string, setId: int, ids: seq<int>)

  /** The set is there, lists each question once, and every question in it can be graded. */
  ghost predicate Playable(env: Env, c: Course) {
    && c.code != "" && c.code in env.catalog.setIds && env.catalog.setIds[c.code] == c.setId
    && c.ids != [] && Distinct(c.ids)
    && forall q :: q in c.ids ==> q in env.catalog.questions && env.catalog.questions[q].answer.Some?
  }

  predicate Fits(env: Env, act: Activity, c: Course, now: Instant) {
    match act
    case Round(_, _, at, fault) => Recorded(fault) && now <= at
    case Other(cmd) => Foreign(env, cmd, c.user, c.setId) && (cmd.Submit? ==> now <= cmd.now)
  }

  function ClockAfter(now: Instant, act: Activity): Instant {
    match act
    case Round(_, _, at, _) => at
    case Other(cmd) => if cmd.Submit? then cmd.now else now
  }

  /** The learner's position: where in the list the next question is. */
  function Position(c: Course, st: Store): nat {
    if c.ids == [] then 0 else NextIndex(c.ids, LastQuestionIdInSet(st.attempts, c.user, c.setId))
  }

  /** An empty set shows nothing to answer. */
  function After(env: Env, c: Course, st: Store, act: Activity): Store {
    match act
    case Round(answer, durationMs, now, fault) =>
      if c.ids == [] then st
      else SubmitStep(env, st, c.user, SubmitInput(c.ids[Position(c, st)], c.code, answer, durationMs), now, fault).0
    case Other(cmd) => Apply(env, st, cmd)
  }

  /** The positions asked for along a run, for any notion of position and of state. */
  function Visited<S>(pos: S -> nat, next: (S, Activity) -> S, s: S, acts: seq<Activity>): seq<nat>
    decreases |acts|
  {
    if acts == [] then []
    else
      var later := Visited(pos, next, next(s, acts[0]), acts[1..]);
      if acts[0].Round? then [pos(s)] + later else later
  }

  predicate AllFit(fits: (Activity, Instant) -> bool, acts: seq<Activity>, now: Instant)
    decreases |acts|
  {
    acts != [] ==> fits(acts[0], now) && AllFit(fits, acts[1..], ClockAfter(now, acts[0]))
  }

  function PositionOf(c: Course): Store -> nat {
    (st: Store) => Position(c, st)
  }

  function Steps(env: Env, c: Course): (Store, Activity) -> Store {
    (st: Store, act: Activity) => After(env, c, st, act)
  }

  function FitsIn(env: Env, c: Course): (Activity, Instant) -> bool {
    (act: Activity, now: Instant) => Fits(env, act, c, now)
  }

  /** Ids ascend and nothing was answered in the future. */
  ghost predicate Past(st: Store, now: Instant) {
    InIdOrder(st.attempts) && forall a :: a in st.attempts ==> a.answeredAt <= Unix(now)
  }

  // ----- What each activity does to the learner's position -----

  lemma {:induction false} WhereInIdOrder(rows: seq<Attempt>, p: Attempt -> bool)
    requires InIdOrder(rows)
    ensures InIdOrder(Where(rows, p))
  {
    if rows != [] {
      var before, last := rows[..|rows| - 1], rows[|rows| - 1];
      WhereInIdOrder(before, p);
      assert forall a :: a in before ==> a.id < last.id;
      assert forall i :: 0 <= i < |Where(before, p)| ==> Where(before, p)[i] in before;
    }
  }

  lemma ForeignKeepsPosition(env: Env, st: Store, user: int, setId: int, cmd: Command)
    requires Foreign(env, cmd, user, setId)
    ensures LastQuestionIdInSet(Apply(env, st, cmd).attempts, user, setId)
         == LastQuestionIdInSet(st.attempts, user, setId)
  {
    var rows, rows' := st.attempts, Apply(env, st, cmd).attempts;
    if rows' != rows {
      if cmd.Submit? {
        WhereAppend(rows, rows'[|rows|], InSet(user, setId));
      } else {
        SameFilter(rows, cmd.user);
        WhereCommutes(rows, InSet(user, setId), (a: Attempt) => a.userId != cmd.user);
      }
    }
  }

  lemma CommandKeepsPast(env: Env, st: Store, cmd: Command, now: Instant)
    requires Past(st, now) && (cmd.Submit? ==> now <= cmd.now)
    ensures Past(Apply(env, st, cmd), if cmd.Submit? then cmd.now else now)
  {
    if cmd.Submit? {
      SubmitKeepsPast(env, st, cmd.user, cmd.input, now, cmd.now, cmd.fault);
    } else if !cmd.fault.DeleteAttempts? {
      SameFilter(st.attempts, cmd.user);
      WhereInIdOrder(st.attempts, (a: Attempt) => a.userId != cmd.user);
    }
  }

  lemma SubmitKeepsPast(env: Env, st: Store, user: int, input: SubmitInput, before: Instant, now: Instant, fault: Fault)
    requires Past(st, before) && before <= now
    ensures Past(SubmitStep(env, st, user, input, now, fault).0, now)
  {
    assert Unix(before) <= Unix(now);
  }

  lemma RoundAdvances(env: Env, c: Course, st: Store, act: Activity, now: Instant)
    requires Playable(env, c) && Past(st, now)
    requires act.Round? && Fits(env, act, c, now)
    ensures Past(After(env, c, st, act), act.now)
    ensures LastQuestionIdInSet(After(env, c, st, act).attempts, c.user, c.setId) == Some(c.ids[Position(c, st)])
  {
    var q := c.ids[Position(c, st)];
    var input := SubmitInput(q, c.code, act.answer, act.durationMs);
    var rows, st' := st.attempts, After(env, c, st, act);
    SubmitKeepsPast(env, st, c.user, input, now, act.now, act.fault);
    var a := st'.attempts[|rows|];
    assert st'.attempts == rows + [a] && a.questionId == q && InSet(c.user, c.setId)(a);
    WhereAppend(rows, a, InSet(c.user, c.setId));
    assert Unix(now) <= Unix(act.now);
    LatestIsLast(Where(rows, InSet(c.user, c.setId)), a);
  }

  /** j steps around a circle of n from position p. */
  function Around(n: nat, p: nat, j: nat): (i: nat)
    requires p < n
    ensures i < n
    decreases j
  {
    if j == 0 then p else Around(n, if p + 1 == n then 0 else p + 1, j - 1)
  }

  lemma {:induction false} AroundTwice(n: nat, p: nat, j: nat, k: nat)
    requires p < n
    ensures Around(n, p, j + k) == Around(n, Around(n, p, j), k)
    decreases j
  {
    if j > 0 { AroundTwice(n, if p + 1 == n then 0 else p + 1, j - 1, k); }
  }

  lemma {:induction false} AroundOnce(n: nat, p: nat, j: nat)
    requires p < n && j < n
    ensures Around(n, p, j) == if p + j < n then p + j else p + j - n
    decreases j
  {
    if j > 0 { AroundOnce(n, if p + 1 == n then 0 else p + 1, j - 1); }
  }

  lemma NextIndexAfter(ids: seq<int>, p: nat)
    requires Distinct(ids) && p < |ids|
    ensures NextIndex(ids, Some(ids[p])) == Around(|ids|, p, 1)
  {
    IndexIsFirst(ids, p);
  }

  lemma PositionAfter(env: Env, c: Course, st: Store, act: Activity, now: Instant)
    requires Playable(env, c) && Past(st, now) && Fits(env, act, c, now)
    ensures Position(c, After(env, c, st, act))
         == if act.Other? then Position(c, st) else Around(|c.ids|, Position(c, st), 1)
    ensures Past(After(env, c, st, act), ClockAfter(now, act))
  {
    if act.Round? {
      RoundAdvances(env, c, st, act, now);
      NextIndexAfter(c.ids, Position(c, st));
    } else {
      ForeignKeepsPosition(env, st, c.user, c.setId, act.cmd);
      CommandKeepsPast(env, st, act.cmd, now);
    }
  }

  /** Rounds move the position one step around, everything else leaves it; inv is what a run keeps. */
  ghost predicate StepWalks<S>(pos: S -> nat, next: (S, Activity) -> S, fits: (Activity, Instant) -> bool,
      inv: (S, Instant) -> bool, n: nat, s: S, act: Activity, now: Instant)
  {
    inv(s, now) && fits(act, now) ==>
      && pos(s) < n && pos(next(s, act)) == (if act.Other? then pos(s) else Around(n, pos(s), 1))
      && inv(next(s, act), ClockAfter(now, act))
  }

  ghost predicate Walks<S(!new)>(pos: S -> nat, next: (S, Activity) -> S, fits: (Activity, Instant) -> bool,
      inv: (S, Instant) -> bool, n: nat)
  {
    forall s: S, act: Activity, now: Instant :: StepWalks(pos, next, fits, inv, n, s, act, now)
  }

  /** The j-th position asked for is j steps around from the first. */
  lemma {:induction false} VisitedInOrder<S(!new)>(pos: S -> nat, next: (S, Activity) -> S,
      fits: (Activity, Instant) -> bool, inv: (S, Instant) -> bool, n: nat,
      s: S, acts: seq<Activity>, now: Instant, j: nat)
    requires Walks(pos, next, fits, inv, n) && inv(s, now) && AllFit(fits, acts, now)
    requires j < |Visited(pos, next, s, acts)|
    ensures pos(s) < n && Visited(pos, next, s, acts)[j] == Around(n, pos(s), j)
    decreases |acts|
  {
    var s', now' := next(s, acts[0]), ClockAfter(now, acts[0]);
    assert StepWalks(pos, next, fits, inv, n, s, acts[0], now);
    if acts[0].Other? {
      VisitedInOrder(pos, next, fits, inv, n, s', acts[1..], now', j);
    } else if j > 0 {
      VisitedInOrder(pos, next, fits, inv, n, s', acts[1..], now', j - 1);
    }
  }

  ghost function Reached(): (Store, Instant) -> bool {
    (st: Store, now: Instant) => Past(st, now)
  }

  lemma CourseWalks(env: Env, c: Course)
    requires Playable(env, c)
    ensures Walks(PositionOf(c), Steps(env, c), FitsIn(env, c), Reached(), |c.ids|)
  {
    forall st: Store, act: Activity, now: Instant
      ensures StepWalks(PositionOf(c), Steps(env, c), FitsIn(env, c), Reached(), |c.ids|, st, act, now)
    {
      CourseStep(env, c, st, act, now);
    }
  }

  lemma CourseStep(env: Env, c: Course, st: Store, act: Activity, now: Instant)
    requires Playable(env, c)
    ensures StepWalks(PositionOf(c), Steps(env, c), FitsIn(env, c), Reached(), |c.ids|, st, act, now)
  {
    if Past(st, now) && Fits(env, act, c, now) { PositionAfter(env, c, st, act, now); }
  }

  /** What is shown to the learner along a run. */
  function Shown(env: Env, c: Course, st: Store, acts: seq<Activity>): seq<nat> {
    Visited(PositionOf(c), Steps(env, c), st, acts)
  }

  /** The questions at these positions of the list; a learner's position is always inside it. */
  function QuestionsAt(ids: seq<int>, ps: seq<nat>): (r: seq<int>)
    ensures |r| == |ps|
  {
    seq(|ps|, i requires 0 <= i < |ps| => if ps[i] < |ids| then ids[ps[i]] else 0)
  }

  ghost predicate RotatedBy(ids: seq<int>, qs: seq<int>, r: nat) {
    r < |ids| && qs == ids[r..] + ids[..r]
  }

  /** The whole list, in order from some point on and around. */
  ghost predicate IsRotation(ids: seq<int>, qs: seq<int>) {
    exists r: nat :: RotatedBy(ids, qs, r)
  }

  /** A rotation has every question of the list as often as the list has it. */
  lemma RotationPermutes(ids: seq<int>, qs: seq<int>)
    requires IsRotation(ids, qs)
    ensures multiset(qs) == multiset(ids)
  {
    var r: nat :| RotatedBy(ids, qs, r);
    assert ids == ids[..r] + ids[r..];
  }

  lemma RotationFrom(ids: seq<int>, shown: seq<nat>, w: nat, r: nat)
    requires r < |ids| && w + |ids| <= |shown|
    requires forall j :: w <= j < w + |ids| ==>
               shown[j] == if r + (j - w) < |ids| then r + (j - w) else r + (j - w) - |ids|
    ensures RotatedBy(ids, QuestionsAt(ids, shown[w..w + |ids|]), r)
  {
    var ps := shown[w..w + |ids|];
    assert forall i :: 0 <= i < |ids| ==> ps[i] == shown[w + i];
    assert QuestionsAt(ids, ps) == ids[r..] + ids[..r];
  }

  lemma VisitedRotates<S(!new)>(pos: S -> nat, next: (S, Activity) -> S, fits: (Activity, Instant) -> bool,
      inv: (S, Instant) -> bool, ids: seq<int>, s: S, acts: seq<Activity>, now: Instant, w: nat, shown: seq<nat>)
    returns (r: nat)
    requires Walks(pos, next, fits, inv, |ids|) && inv(s, now) && AllFit(fits, acts, now)
    requires shown == Visited(pos, next, s, acts)
    requires ids != [] && w + |ids| <= |shown|
    ensures RotatedBy(ids, QuestionsAt(ids, shown[w..w + |ids|]), r)
  {
    var n := |ids|;
    VisitedInOrder(pos, next, fits, inv, n, s, acts, now, w);
    r := Around(n, pos(s), w);
    forall j | w <= j < w + n ensures shown[j] == if r + (j - w) < n then r + (j - w) else r + (j - w) - n {
      VisitedInOrder(pos, next, fits, inv, n, s, acts, now, j);
      AroundTwice(n, pos(s), w, j - w);
      AroundOnce(n, r, j - w);
    }
    RotationFrom(ids, shown, w, r);
  }

  /** The course a set code stands for. */
  function CourseOf(env: Env, user: int, code: string): Course
    requires code in env.catalog.setIds
  {
    Course(user, code, env.catalog.setIds[code], ListBySet(env.catalog, code))
  }

  lemma CourseIsPlayable(env: Env, user: int, code: string)
    requires WellKeyed(env.catalog) && code != "" && code in env.catalog.setIds && ListBySet(env.catalog, code) != []
    requires forall q :: q in env.catalog.questions ==> env.catalog.questions[q].answer.Some?
    ensures Playable(env, CourseOf(env, user, code))
  {
    ListBySetDistinct(env.catalog, code);
  }

  /** Any n consecutive questions shown of a set of n are its whole list, each question once, in list order
      from some point on and around; whatever others do, and whatever the learner does in other sets. */
  lemma CyclicCoverage(env: Env, c: Course, st: Store, acts: seq<Activity>, now: Instant, w: nat)
    requires Playable(env, c) && Past(st, now) && AllFit(FitsIn(env, c), acts, now)
    requires w + |c.ids| <= |Shown(env, c, st, acts)|
    ensures IsRotation(c.ids, QuestionsAt(c.ids, Shown(env, c, st, acts)[w..w + |c.ids|]))
  {
    var shown := Shown(env, c, st, acts);
    CourseWalks(env, c);
    var r := VisitedRotates(PositionOf(c), Steps(env, c), FitsIn(env, c), Reached(), c.ids, st, acts, now, w, shown);
    assert RotatedBy(c.ids, QuestionsAt(c.ids, shown[w..w + |c.ids|]), r);
  }
}
