/** The SRS pickers of internal/service/quiz_service.go. The random source is any sequence of draws, and every
    contract holds for all of them; each repository read may fail. */
module PickSrs {
  import opened Srs
  import opened QuizTables
  import opened QuizService
  import opened Wrappers

  const DUE_LIMIT := 50

  class Rand {
    const draws: nat -> nat
    const fractions: nat -> real
    var used: nat

    constructor (draws: nat -> nat, fractions: nat -> real)
      ensures this.draws == draws && this.fractions == fractions && used == 0
    {
      this.draws, this.fractions, used := draws, fractions, 0;
    }

    method IntN(n: nat) returns (i: nat)
      requires n > 0
      modifies this
      ensures i == draws(old(used)) % n && used == old(used) + 1
    {
      i := draws(used) % n;
      used := used + 1;
    }

    /** r.Float64() < p */
    method Below(p: real) returns (b: bool)
      modifies this
      ensures b <==> fractions(old(used)) < p
      ensures used == old(used) + 1
    {
      b := fractions(used) < p;
      used := used + 1;
    }
  }

  /** What the repositories answer while one question is picked; None is an error. */
  datatype Reads = Reads(
    due: Option<seq<State>>,          // DueForUser
    recent: Option<Option<Attempt>>,  // the first row of ListByUser, if there is one
    weak: Option<seq<int>>,           // WeakTopicIDs
    attempted: Option<set<int>>,      // AttemptedQuestionIDs
    byId: (int, nat) -> Option<Question>)  // GetByID, at its n-th call

  /** The reads that succeed are of one snapshot of the user's rows. */
  ghost predicate Snapshot(got: Reads, st: Store, user: int, now: Instant) {
    && (got.due.Some? ==> IsDuePage(st.srs, user, now, DUE_LIMIT, got.due.value))
    && (got.recent.Some? ==> got.recent.value == MostRecent(st.attempts, user))
    && (got.attempted.Some? ==> got.attempted.value == AttemptedQuestionIds(st.attempts, user))
    && ReadsById(got.byId)
  }

  /** lastQID: zero when there is no attempt or the read failed. */
  function LastId(got: Reads): int {
    if got.recent.Some? && got.recent.value.Some? then got.recent.value.value.questionId else 0
  }

  /** Without an earlier answer to look back to, no question is the last one: ids start at one. */
  lemma NoHistoryNoLast(got: Reads, q: Question)
    requires (got.recent.None? || got.recent.value.None?) && q.id >= 1
    ensures q.id != LastId(got)
  {
  }

  /** The elements that satisfy the condition, in order. */
  function Filtered(all: seq<Question>, cond: Question -> bool): (cands: seq<Question>)
    ensures forall x :: x in cands <==> x in all && cond(x)
  {
    if all == [] then []
    else
      var before, x := Filtered(all[..|all| - 1], cond), all[|all| - 1];
      assert all == all[..|all| - 1] + [x];
      if cond(x) then before + [x] else before
  }

  /** The candidate the next draw picks. */
  function CandidateAt(all: seq<Question>, cond: Question -> bool, draws: nat -> nat, used: nat): Option<Question> {
    var cands := Filtered(all, cond);
    if cands == [] then None else Some(cands[draws(used) % |cands|])
  }

  method PickCandidate(all: seq<Question>, cond: Question -> bool, r: Rand) returns (q: Option<Question>)
    modifies r
    ensures q == CandidateAt(all, cond, r.draws, old(r.used))
    ensures r.used == old(r.used) + if q.Some? then 1 else 0
    ensures q.None? <==> forall x :: x in all ==> !cond(x)
    ensures q.Some? ==> q.value in all && cond(q.value)
  {
    var cands := [];
    for i := 0 to |all|
      invariant cands == Filtered(all[..i], cond)
    {
      assert all[..i + 1][..i] == all[..i];
      if cond(all[i]) {
        cands := cands + [all[i]];
      }
    }
    assert all[..|all|] == all;
    if cands == [] {
      assert forall x :: x in all && cond(x) ==> x in cands;
      return None;
    }
    var i := r.IntN(|cands|);
    assert cands[i] in cands;
    return Some(cands[i]);
  }

  function Always(i: nat): nat -> nat {
    (n: nat) => i
  }

  lemma SmallRemainder(i: nat, n: nat)
    requires i < n
    ensures i % n == i
  {
  }

  /** Every candidate is picked by some draw. */
  lemma EveryCandidateCanBeDrawn(all: seq<Question>, cond: Question -> bool, x: Question, used: nat)
    requires x in all && cond(x)
    ensures exists i: nat :: CandidateAt(all, cond, Always(i), used) == Some(x)
  {
    var cands := Filtered(all, cond);
    assert x in cands;
    var i :| 0 <= i < |cands| && cands[i] == x;
    SmallRemainder(i, |cands|);
    assert CandidateAt(all, cond, Always(i), used) == Some(x);
  }

  function NotLast(last: int): Question -> bool {
    (x: Question) => x.id != last
  }

  function Unattempted(attempted: set<int>): Question -> bool {
    (x: Question) => x.id !in attempted
  }

  function OfWeakTopic(weak: seq<int>, last: int): Question -> bool {
    (x: Question) => x.topicId in weak && x.id != last
  }

  function RandomAvoidAt(all: seq<Question>, last: int, draws: nat -> nat, used: nat): Question
    requires all != []
  {
    var c := CandidateAt(all, NotLast(last), draws, used);
    if c.Some? then c.value else all[draws(used) % |all|]
  }

  method PickRandomAvoid(all: seq<Question>, last: int, r: Rand) returns (q: Question)
    requires all != []
    modifies r
    ensures q == RandomAvoidAt(all, last, r.draws, old(r.used))
    ensures q in all
    ensures q.id == last ==> forall x :: x in all ==> x.id == last
  {
    var c := PickCandidate(all, NotLast(last), r);
    if c.Some? {
      return c.value;
    }
    assert forall x :: x in all ==> !NotLast(last)(x);
    var i := r.IntN(|all|);
    return all[i];
  }

  function UnattemptedAt(all: seq<Question>, attempted: Option<set<int>>, draws: nat -> nat,
      used: nat): Option<Question>
  {
    if attempted.None? then None else CandidateAt(all, Unattempted(attempted.value), draws, used)
  }

  method PickUnattempted(all: seq<Question>, attempted: Option<set<int>>, r: Rand) returns (q: Option<Question>)
    modifies r
    ensures q == UnattemptedAt(all, attempted, r.draws, old(r.used))
    ensures r.used == old(r.used) + if q.Some? then 1 else 0
    ensures q.None? <==> attempted.None? || forall x :: x in all ==> x.id in attempted.value
    ensures q.Some? ==> q.value in all && q.value.id !in attempted.value
  {
    if attempted.None? {
      return None;
    }
    q := PickCandidate(all, Unattempted(attempted.value), r);
    if q.None? { assert forall x :: x in all ==> !Unattempted(attempted.value)(x); }
  }

  function WeakAt(all: seq<Question>, weak: Option<seq<int>>, last: int, draws: nat -> nat,
      used: nat): Option<Question>
  {
    if weak.None? || weak.value == [] then None else CandidateAt(all, OfWeakTopic(weak.value, last), draws, used)
  }

  method PickWeakTopicAvoid(all: seq<Question>, weak: Option<seq<int>>, last: int, r: Rand)
    returns (q: Option<Question>)
    modifies r
    ensures q == WeakAt(all, weak, last, r.draws, old(r.used))
    ensures r.used == old(r.used) + if q.Some? then 1 else 0
    ensures q.None? <==> weak.None? || forall x :: x in all ==> !(x.topicId in weak.value && x.id != last)
    ensures q.Some? ==> q.value in all && q.value.topicId in weak.value && q.value.id != last
  {
    if weak.None? || weak.value == [] {
      return None;
    }
    q := PickCandidate(all, OfWeakTopic(weak.value, last), r);
    if q.None? { assert forall x :: x in all ==> !OfWeakTopic(weak.value, last)(x); }
  }

  predicate InPage(page: seq<State>, id: int) {
    exists s :: s in page && s.questionId == id
  }

  function OtherThan(due: seq<State>, last: int): (cands: seq<State>)
    ensures forall s :: s in cands <==> s in due && s.questionId != last
  {
    if due == [] then []
    else
      var before, s := OtherThan(due[..|due| - 1], last), due[|due| - 1];
      assert due == due[..|due| - 1] + [s];
      if s.questionId != last then before + [s] else before
  }

  /** The due rows to draw from: those of other questions, or all of them when there is no other. */
  function Candidates(due: seq<State>, last: int): seq<State> {
    if OtherThan(due, last) == [] then due else OtherThan(due, last)
  }

  /** The draws from the n-th on, with replacement, as many in all as there are candidates. */
  function Redraw(cands: seq<State>, byId: (int, nat) -> Option<Question>, draws: nat -> nat, used: nat,
      n: nat): Option<Question>
    decreases |cands| - n
  {
    if n >= |cands| then None
    else
      var q := byId(cands[draws(used) % |cands|].questionId, n);
      if q.Some? then q else Redraw(cands, byId, draws, used + 1, n + 1)
  }

  /** GetByID gives the question asked for. */
  ghost predicate ReadsById(byId: (int, nat) -> Option<Question>) {
    forall id, n :: byId(id, n).Some? ==> byId(id, n).value.id == id
  }

  lemma {:induction false} RedrawnIsCandidate(cands: seq<State>, byId: (int, nat) -> Option<Question>,
      draws: nat -> nat, used: nat, n: nat)
    requires ReadsById(byId) && Redraw(cands, byId, draws, used, n).Some?
    ensures InPage(cands, Redraw(cands, byId, draws, used, n).value.id)
    decreases |cands| - n
  {
    var s := cands[draws(used) % |cands|];
    assert s in cands;
    if byId(s.questionId, n).None? { RedrawnIsCandidate(cands, byId, draws, used + 1, n + 1); }
  }

  /** What the due branch shows is due, and it is the question last answered only if nothing else is due. */
  lemma DueIsShown(due: seq<State>, last: int, byId: (int, nat) -> Option<Question>, draws: nat -> nat, used: nat)
    requires ReadsById(byId) && Redraw(Candidates(due, last), byId, draws, used, 0).Some?
    ensures var q := Redraw(Candidates(due, last), byId, draws, used, 0).value;
            InPage(due, q.id) && (q.id == last ==> forall s :: s in due ==> s.questionId == last)
  {
    RedrawnIsCandidate(Candidates(due, last), byId, draws, used, 0);
  }

  method ListOthers(due: seq<State>, last: int) returns (cands: seq<State>)
    ensures cands == OtherThan(due, last)
  {
    cands := [];
    for i := 0 to |due|
      invariant cands == OtherThan(due[..i], last)
    {
      assert due[..i + 1][..i] == due[..i];
      if due[i].questionId != last {
        cands := cands + [due[i]];
      }
    }
    assert due[..|due|] == due;
  }

  method DrawReadable(cands: seq<State>, byId: (int, nat) -> Option<Question>, r: Rand) returns (q: Option<Question>)
    modifies r
    ensures q == Redraw(cands, byId, r.draws, old(r.used), 0)
    ensures q.None? ==> r.used == old(r.used) + |cands|
  {
    for n := 0 to |cands|
      invariant Redraw(cands, byId, r.draws, old(r.used), 0) == Redraw(cands, byId, r.draws, r.used, n)
      invariant r.used == old(r.used) + n
    {
      var i := r.IntN(|cands|);
      q := byId(cands[i].questionId, n);
      if q.Some? {
        return;
      }
    }
    return None;
  }

  /** Every read may fail. */
  method PickDueAvoid(due: seq<State>, last: int, byId: (int, nat) -> Option<Question>, r: Rand)
    returns (q: Option<Question>)
    modifies r
    ensures q == Redraw(Candidates(due, last), byId, r.draws, old(r.used), 0)
    ensures q.None? ==> r.used == old(r.used) + |Candidates(due, last)|
    ensures q.Some? && ReadsById(byId) ==>
              InPage(due, q.value.id) && (q.value.id == last ==> forall s :: s in due ==> s.questionId == last)
    ensures due != [] && (forall id, n :: byId(id, n).Some?) ==> q.Some?
  {
    ghost var used := r.used;
    var cands := ListOthers(due, last);
    if cands == [] {
      cands := due;
    }
    q := DrawReadable(cands, byId, r);
    if q.Some? && ReadsById(byId) { DueIsShown(due, last, byId, r.draws, used); }
  }

  // ----- When redrawing finds a question -----

  /** Reads that do not change while a question is picked. */
  function Unchanging(read: int -> Option<Question>): (int, nat) -> Option<Question> {
    (id: int, n: nat) => read(id)
  }

  lemma {:induction false} AlwaysUnreadable(cands: seq<State>, read: int -> Option<Question>, i: nat, used: nat, n: nat)
    requires i < |cands| && read(cands[i].questionId).None?
    ensures Redraw(cands, Unchanging(read), Always(i), used, n).None?
    decreases |cands| - n
  {
    SmallRemainder(i, |cands|);
    if n < |cands| { AlwaysUnreadable(cands, read, i, used + 1, n + 1); }
  }

  lemma {:induction false} NothingReadable(cands: seq<State>, read: int -> Option<Question>, draws: nat -> nat,
      used: nat, n: nat)
    requires forall s :: s in cands ==> read(s.questionId).None?
    ensures Redraw(cands, Unchanging(read), draws, used, n).None?
    decreases |cands| - n
  {
    if n < |cands| {
      assert cands[draws(used) % |cands|] in cands;
      NothingReadable(cands, read, draws, used + 1, n + 1);
    }
  }

  ghost predicate Finds(cands: seq<State>, read: int -> Option<Question>, draws: nat -> nat, used: nat) {
    Redraw(cands, Unchanging(read), draws, used, 0).Some?
  }

  predicate Readable(cands: seq<State>, read: int -> Option<Question>, i: nat)
    requires i < |cands|
  {
    read(cands[i].questionId).Some?
  }

  lemma FirstDrawFinds(cands: seq<State>, read: int -> Option<Question>, draws: nat -> nat, used: nat)
    requires cands != [] && Readable(cands, read, draws(used) % |cands|)
    ensures Finds(cands, read, draws, used)
  {
  }

  /** Every sequence of draws finds a question exactly when every candidate can be read. */
  lemma EveryDrawFinds(cands: seq<State>, read: int -> Option<Question>, used: nat)
    requires cands != []
    ensures (forall draws: nat -> nat :: Finds(cands, read, draws, used)) <==>
            forall i :: 0 <= i < |cands| ==> Readable(cands, read, i)
  {
    if i: nat :| i < |cands| && !Readable(cands, read, i) {
      AlwaysUnreadable(cands, read, i, used, 0);
      assert !Finds(cands, read, Always(i), used);
    } else {
      forall draws: nat -> nat ensures Finds(cands, read, draws, used) {
        FirstDrawFinds(cands, read, draws, used);
      }
    }
  }

  /** Some sequence does exactly when some candidate can be read; so with some readable and some not, nothing may
      be found although there is something to find. */
  lemma SomeDrawFinds(cands: seq<State>, read: int -> Option<Question>, used: nat)
    requires cands != []
    ensures (exists draws: nat -> nat :: Finds(cands, read, draws, used)) <==>
            exists i :: 0 <= i < |cands| && Readable(cands, read, i)
  {
    if i: nat :| i < |cands| && Readable(cands, read, i) {
      SmallRemainder(i, |cands|);
      FirstDrawFinds(cands, read, Always(i), used);
    } else {
      forall s | s in cands ensures read(s.questionId).None? {
        var i :| 0 <= i < |cands| && cands[i] == s;
        assert !Readable(cands, read, i);
      }
      forall draws: nat -> nat ensures !Finds(cands, read, draws, used) {
        NothingReadable(cands, read, draws, used, 0);
      }
    }
  }

  ghost predicate ShowsOnly(cands: seq<State>, read: int -> Option<Question>, draws: nat -> nat, used: nat,
      all: seq<Question>)
  {
    var q := Redraw(cands, Unchanging(read), draws, used, 0);
    q.None? || q.value in all
  }

  lemma {:induction false} RedrawnWasRead(cands: seq<State>, read: int -> Option<Question>, draws: nat -> nat,
      used: nat, n: nat) returns (i: nat)
    requires Redraw(cands, Unchanging(read), draws, used, n).Some?
    ensures i < |cands| && Readable(cands, read, i)
    ensures Redraw(cands, Unchanging(read), draws, used, n) == read(cands[i].questionId)
    decreases |cands| - n
  {
    i := draws(used) % |cands|;
    if !Readable(cands, read, i) { i := RedrawnWasRead(cands, read, draws, used + 1, n + 1); }
  }

  /** The due branch stays inside the chosen set, for all draws, exactly when every due question that can be read
      belongs to it. */
  lemma StaysInSetExact(cands: seq<State>, read: int -> Option<Question>, used: nat, all: seq<Question>)
    requires cands != []
    ensures (forall draws: nat -> nat :: ShowsOnly(cands, read, draws, used, all)) <==>
            forall i :: 0 <= i < |cands| && Readable(cands, read, i) ==> read(cands[i].questionId).value in all
  {
    if i: nat :| i < |cands| && Readable(cands, read, i) && read(cands[i].questionId).value !in all {
      SmallRemainder(i, |cands|);
      assert !ShowsOnly(cands, read, Always(i), used, all);
    } else {
      forall draws: nat -> nat ensures ShowsOnly(cands, read, draws, used, all) {
        if Redraw(cands, Unchanging(read), draws, used, 0).Some? {
          var i := RedrawnWasRead(cands, read, draws, used, 0);
        }
      }
    }
  }

  lemma {:induction false} NoOther(due: seq<State>, last: int)
    requires forall s :: s in due ==> s.questionId == last
    ensures OtherThan(due, last) == []
  {
    if due != [] {
      assert due == due[..|due| - 1] + [due[|due| - 1]];
      NoOther(due[..|due| - 1], last);
    }
  }

  /** Some draws repeat the question last answered exactly when it is all that is due and it can be read. */
  lemma RepeatsExact(due: seq<State>, last: int, read: int -> Option<Question>, used: nat)
    requires due != [] && ReadsById(Unchanging(read))
    ensures (exists draws: nat -> nat :: Finds(Candidates(due, last), read, draws, used) &&
              Redraw(Candidates(due, last), Unchanging(read), draws, used, 0).value.id == last)
            <==> (forall s :: s in due ==> s.questionId == last) && read(last).Some?
  {
    var cands := Candidates(due, last);
    if (forall s :: s in due ==> s.questionId == last) && read(last).Some? {
      NoOther(due, last);
      assert cands[0] in due;
      SmallRemainder(0, |cands|);
      FirstDrawFinds(cands, read, Always(0), used);
      assert Unchanging(read)(last, 0).value.id == last;
    } else {
      forall draws: nat -> nat | Finds(cands, read, draws, used)
        ensures Redraw(cands, Unchanging(read), draws, used, 0).value.id != last
      {
        var i := RedrawnWasRead(cands, read, draws, used, 0);
        assert Unchanging(read)(cands[i].questionId, 0).value.id == cands[i].questionId;
        assert cands[i] in cands;
        DueIsShown(due, last, Unchanging(read), draws, used);
      }
    }
  }

  // ----- The order of the branches -----

  /** What the due branch shows, if it is entered and finds something. */
  function DueAt(due: seq<State>, last: int, byId: (int, nat) -> Option<Question>, draws: nat -> nat,
      fractions: nat -> real, used: nat): Option<Question>
  {
    if due != [] && fractions(used) < 0.7 then Redraw(Candidates(due, last), byId, draws, used + 1, 0) else None
  }

  /** How much randomness is used up when it shows nothing. */
  function AfterDue(due: seq<State>, last: int, fractions: nat -> real, used: nat): nat {
    if due == [] then used
    else if fractions(used) < 0.7 then used + 1 + |Candidates(due, last)|
    else used + 1
  }

  /** What is shown from the list otherwise. */
  function FallbackAt(all: seq<Question>, got: Reads, draws: nat -> nat, fractions: nat -> real, used: nat): Question
    requires all != []
  {
    var last := LastId(got);
    var weak := if fractions(used) < 2.0 / 3.0 then WeakAt(all, got.weak, last, draws, used + 1) else None;
    if weak.Some? then weak.value
    else
      var unseen := UnattemptedAt(all, got.attempted, draws, used + 1);
      if unseen.Some? then unseen.value else RandomAvoidAt(all, last, draws, used + 1)
  }

  /** The question shown, as a function of the randomness. */
  function SrsPick(all: seq<Question>, got: Reads, draws: nat -> nat, fractions: nat -> real, used: nat): Question
    requires all != [] && got.due.Some?
  {
    var due := DueAt(got.due.value, LastId(got), got.byId, draws, fractions, used);
    if due.Some? then due.value
    else FallbackAt(all, got, draws, fractions, AfterDue(got.due.value, LastId(got), fractions, used))
  }

  lemma CandidateIs(all: seq<Question>, cond: Question -> bool, draws: nat -> nat, used: nat)
    ensures var c := CandidateAt(all, cond, draws, used);
            && (c.Some? ==> c.value in all && cond(c.value))
            && (c.None? <==> forall x :: x in all ==> !cond(x))
  {
    var cands := Filtered(all, cond);
    if cands != [] {
      assert cands[draws(used) % |cands|] in cands;
    } else {
      assert forall x :: x in all && cond(x) ==> x in cands;
    }
  }

  /** A due question that the draws find is shown whenever anything is due and the first fraction is below 0.7. */
  lemma DueComesFirst(all: seq<Question>, got: Reads, draws: nat -> nat, fractions: nat -> real, used: nat)
    requires all != [] && got.due.Some? && ReadsById(got.byId)
    requires got.due.value != [] && fractions(used) < 0.7
    requires Redraw(Candidates(got.due.value, LastId(got)), got.byId, draws, used + 1, 0).Some?
    ensures InPage(got.due.value, SrsPick(all, got, draws, fractions, used).id)
    ensures Some(SrsPick(all, got, draws, fractions, used))
         == Redraw(Candidates(got.due.value, LastId(got)), got.byId, draws, used + 1, 0)
  {
    DueIsShown(got.due.value, LastId(got), got.byId, draws, used + 1);
  }

  /** Otherwise a question of a weak topic other than the last is shown, if the next fraction is below 2/3 and there
      is one; otherwise one never attempted, if that is known and there is one; and only otherwise any, which is the
      last only if the list holds nothing else. */
  lemma FallbackOrder(all: seq<Question>, got: Reads, draws: nat -> nat, fractions: nat -> real, used: nat)
    requires all != [] && got.due.Some?
    requires DueAt(got.due.value, LastId(got), got.byId, draws, fractions, used).None?
    ensures var q, last := SrsPick(all, got, draws, fractions, used), LastId(got);
            q in all &&
            if fractions(AfterDue(got.due.value, last, fractions, used)) < 2.0 / 3.0 && got.weak.Some? &&
               exists x :: x in all && x.topicId in got.weak.value && x.id != last
            then q.topicId in got.weak.value && q.id != last
            else if got.attempted.Some? && exists x :: x in all && x.id !in got.attempted.value
            then q.id !in got.attempted.value
            else q.id == last ==> forall x :: x in all ==> x.id == last
  {
    var last, u := LastId(got), AfterDue(got.due.value, LastId(got), fractions, used) + 1;
    WeakIs(all, got.weak, last, draws, u);
    UnattemptedIs(all, got.attempted, draws, u);
    RandomAvoidIs(all, last, draws, u);
  }

  lemma WeakIs(all: seq<Question>, weak: Option<seq<int>>, last: int, draws: nat -> nat, used: nat)
    ensures var c := WeakAt(all, weak, last, draws, used);
            && (c.Some? <==> weak.Some? && exists x :: x in all && x.topicId in weak.value && x.id != last)
            && (c.Some? ==> c.value in all && c.value.topicId in weak.value && c.value.id != last)
  {
    if weak.Some? {
      CandidateIs(all, OfWeakTopic(weak.value, last), draws, used);
      if x :| x in all && x.topicId in weak.value && x.id != last { assert OfWeakTopic(weak.value, last)(x); }
    }
  }

  lemma UnattemptedIs(all: seq<Question>, attempted: Option<set<int>>, draws: nat -> nat, used: nat)
    ensures var c := UnattemptedAt(all, attempted, draws, used);
            && (c.Some? <==> attempted.Some? && exists x :: x in all && x.id !in attempted.value)
            && (c.Some? ==> c.value in all && c.value.id !in attempted.value)
  {
    if attempted.Some? {
      CandidateIs(all, Unattempted(attempted.value), draws, used);
      if x :| x in all && x.id !in attempted.value { assert Unattempted(attempted.value)(x); }
    }
  }

  lemma RandomAvoidIs(all: seq<Question>, last: int, draws: nat -> nat, used: nat)
    requires all != []
    ensures var q := RandomAvoidAt(all, last, draws, used);
            q in all && (q.id == last ==> forall x :: x in all ==> x.id == last)
  {
    CandidateIs(all, NotLast(last), draws, used);
    forall x | x in all && CandidateAt(all, NotLast(last), draws, used).None? ensures x.id == last {
      assert !NotLast(last)(x);
    }
  }

  /** Nothing that is due and can be read is out of reach: some draws show it. */
  lemma EveryDueCanBeShown(all: seq<Question>, got: Reads, read: int -> Option<Question>, used: nat, i: nat)
    requires all != [] && got.due.Some? && got.byId == Unchanging(read)
    requires i < |Candidates(got.due.value, LastId(got))|
    requires Readable(Candidates(got.due.value, LastId(got)), read, i)
    ensures Some(SrsPick(all, got, Always(i), (n: nat) => 0.0, used))
         == read(Candidates(got.due.value, LastId(got))[i].questionId)
  {
    SmallRemainder(i, |Candidates(got.due.value, LastId(got))|);
  }

  /** The branches in the order of the source. */
  method Choose(all: seq<Question>, got: Reads, r: Rand) returns (q: Result<Question, Error>)
    requires all != []
    modifies r
    ensures q.Err? <==> got.due.None?
    ensures q.Ok? ==> q.value == SrsPick(all, got, r.draws, r.fractions, old(r.used))
  {
    if got.due.None? {
      return Err(StorageError);
    }
    var due := got.due.value;
    var last := LastId(got);
    if due != [] {
      var takeDue := r.Below(0.7);
      if takeDue {
        var c := PickDueAvoid(due, last, got.byId, r);
        if c.Some? {
          return Ok(c.value);
        }
      }
    }
    assert r.used == AfterDue(due, last, r.fractions, old(r.used));
    var x := ChooseFromList(all, got, last, r);
    return Ok(x);
  }

  method ChooseFromList(all: seq<Question>, got: Reads, last: int, r: Rand) returns (q: Question)
    requires all != [] && last == LastId(got)
    modifies r
    ensures q == FallbackAt(all, got, r.draws, r.fractions, old(r.used))
  {
    var takeWeak := r.Below(2.0 / 3.0);
    if takeWeak {
      var c := PickWeakTopicAvoid(all, got.weak, last, r);
      if c.Some? {
        return c.value;
      }
    }
    var c := PickUnattempted(all, got.attempted, r);
    if c.Some? {
      return c.value;
    }
    q := PickRandomAvoid(all, last, r);
  }

  lemma DueRepeats(all: seq<Question>, got: Reads, draws: nat -> nat, fractions: nat -> real, used: nat,
      st: Store, user: int, now: Instant)
    requires all != [] && got.due.Some? && Snapshot(got, st, user, now)
    requires DueAt(got.due.value, LastId(got), got.byId, draws, fractions, used).Some?
    ensures var q := SrsPick(all, got, draws, fractions, used);
            InPage(got.due.value, q.id) &&
            (q.id == LastId(got) ==> |got.due.value| == 1 && got.due.value[0].questionId == LastId(got))
  {
    DueIsShown(got.due.value, LastId(got), got.byId, draws, used + 1);
    if SrsPick(all, got, draws, fractions, used).id == LastId(got) {
      OneRowPerQuestion(st.srs, user, now, got.due.value, LastId(got));
    }
  }

  lemma FallbackRepeats(all: seq<Question>, got: Reads, draws: nat -> nat, fractions: nat -> real, used: nat,
      st: Store, user: int, now: Instant)
    requires all != [] && got.due.Some? && Snapshot(got, st, user, now)
    requires DueAt(got.due.value, LastId(got), got.byId, draws, fractions, used).None?
    ensures var q := SrsPick(all, got, draws, fractions, used);
            q in all && (got.recent.Some? && got.recent.value.Some? && q.id == LastId(got) ==>
                           forall x :: x in all ==> x.id == LastId(got))
  {
    FallbackOrder(all, got, draws, fractions, used);
    if got.recent.Some? && got.recent.value.Some? { LastIsAttempted(st.attempts, user); }
  }

  /** A question is always chosen, from the list or from the due rows. It repeats the question last answered
      only if the due rows are exactly that question, or the list holds nothing else. */
  method PickSrs(all: seq<Question>, got: Reads, r: Rand, ghost st: Store, ghost user: int, ghost now: Instant)
    returns (q: Result<Question, Error>)
    requires all != [] && Snapshot(got, st, user, now)
    modifies r
    ensures q.Err? <==> got.due.None?
    ensures q.Ok? ==> q.value == SrsPick(all, got, r.draws, r.fractions, old(r.used))
    ensures q.Ok? ==> q.value in all || InPage(got.due.value, q.value.id)
    ensures q.Ok? && got.recent.Some? && got.recent.value.Some? && q.value.id == LastId(got) ==>
              || (|got.due.value| == 1 && got.due.value[0].questionId == LastId(got))
              || (forall x :: x in all ==> x.id == LastId(got))
  {
    ghost var used := r.used;
    q := Choose(all, got, r);
    if q.Ok? {
      if DueAt(got.due.value, LastId(got), got.byId, r.draws, r.fractions, used).Some? {
        DueRepeats(all, got, r.draws, r.fractions, used, st, user, now);
      } else {
        FallbackRepeats(all, got, r.draws, r.fractions, used, st, user, now);
      }
    }
  }

  lemma RowsDiffer(table: SrsTable, user: int, now: Instant, page: seq<State>)
    requires IsDuePage(table, user, now, DUE_LIMIT, page)
    ensures |page| > 1 ==> page[0].questionId != page[1].questionId
  {
  }

  lemma OneRowPerQuestion(table: SrsTable, user: int, now: Instant, page: seq<State>, id: int)
    requires IsDuePage(table, user, now, DUE_LIMIT, page) && page != []
    requires forall s :: s in page ==> s.questionId == id
    ensures |page| == 1 && page[0].questionId == id
  {
    forall i | 0 <= i < |page| ensures page[i].questionId == id { assert page[i] in page; }
    RowsDiffer(table, user, now, page);
  }

  lemma LastIsAttempted(rows: seq<Attempt>, user: int)
    requires MostRecent(rows, user).Some?
    ensures MostRecent(rows, user).value.questionId in AttemptedQuestionIds(rows, user)
  {
    var a := MostRecent(rows, user).value;
    assert a in Where(rows, OfUser(user));
  }

  // ----- When the question last answered can be due again -----

  ghost predicate TimesAscend(rows: seq<Attempt>) {
    forall i, j :: 0 <= i < j < |rows| ==> rows[i].answeredAt <= rows[j].answeredAt
  }

  lemma {:induction false} LastReviewIsLatest(rows: seq<Attempt>, a: Attempt)
    requires TimesAscend(rows) && a in rows
    ensures var rs := Reviews(rows, a.userId, a.questionId);
            rs != [] && FromUnix(a.answeredAt) <= rs[|rs| - 1].at
  {
    var before, last := rows[..|rows| - 1], rows[|rows| - 1];
    var i :| 0 <= i < |rows| && rows[i] == a;
    if !(last.userId == a.userId && last.questionId == a.questionId) {
      assert before[i] == a;
      LastReviewIsLatest(before, a);
    }
  }

  /** In a store reached by submits and full deletes, nothing answered is due again before 86400 whole seconds
      have been counted. */
  lemma NotDueWithinADay(st: Store, a: Attempt, now: Instant)
    requires Agrees(st) && TimesAscend(st.attempts) && a in st.attempts
    requires Unix(now) < a.answeredAt + 86_400
    ensures !IsDue(st.srs, a.userId, a.questionId, now)
  {
    var rs := Reviews(st.attempts, a.userId, a.questionId);
    assert AgreesFor(st, a.userId, a.questionId);
    LastReviewIsLatest(st.attempts, a);
    var s := Replay(NewState(0), rs);
    ReplaySound(NewState(0), rs);
    AddSeconds(0, a.answeredAt);
    UnixAfterDays(FromUnix(a.answeredAt), 1);
    UnixMonotone(FromUnix(a.answeredAt) + 1 * DAY, s.dueAt);
  }

  lemma UnixMonotone(t: Instant, t': Instant)
    requires t <= t'
    ensures Unix(t) <= Unix(t')
  {
  }

  /** So within a day of the last answer PickSrs repeats it only when the list holds nothing else. */
  lemma DuePageOmitsLast(st: Store, user: int, now: Instant, page: seq<State>)
    requires Agrees(st) && TimesAscend(st.attempts) && IsDuePage(st.srs, user, now, DUE_LIMIT, page)
    requires MostRecent(st.attempts, user).Some?
    requires Unix(now) < MostRecent(st.attempts, user).value.answeredAt + 86_400
    ensures !InPage(page, MostRecent(st.attempts, user).value.questionId)
  {
    var a := MostRecent(st.attempts, user).value;
    assert a in Where(st.attempts, OfUser(user));
    NotDueWithinADay(st, a, now);
    forall s | s in page ensures s.questionId != a.questionId {
      assert IsDueState(st.srs, user, now, s);
    }
  }

  /** Where the tables agree, an answered question is due exactly when the days of its interval have been counted,
      in whole seconds, since its last answer. */
  lemma DueExactly(st: Store, user: int, question: int, now: Instant)
    requires AgreesFor(st, user, question)
    ensures var rs := Reviews(st.attempts, user, question);
            IsDue(st.srs, user, question, now) <==>
            rs != [] && Unix(now) >= Unix(rs[|rs| - 1].at) + st.srs[(user, question)].intervalDays * 86_400
  {
    var rs := Reviews(st.attempts, user, question);
    if rs != [] { UnixAfterDays(rs[|rs| - 1].at, Implied(rs).intervalDays); }
  }

  /** After a wrong answer the question is due again when 86400 seconds have been counted. */
  lemma WrongAnswerDue(env: Env, st: Store, user: int, input: SubmitInput, at: Instant, now: Instant)
    requires input.questionId in env.catalog.questions && env.catalog.questions[input.questionId].answer.Some?
    requires !Passes(env, input)
    ensures IsDue(SubmitStep(env, st, user, input, at, NoFault).0.srs, user, input.questionId, now) <==>
            Unix(now) >= Unix(at) + 86_400
  {
    UnixAfterDays(at, 1);
  }

  lemma WholeSecondDay(elapsed: int)
    requires elapsed >= 0
    ensures (forall t: Instant :: Unix(t + elapsed) < Unix(t) + 86_400) <==> elapsed <= DAY - SECOND
  {
    if elapsed <= DAY - SECOND {
      forall t: Instant ensures Unix(t + elapsed) < Unix(t) + 86_400 {
        AddSeconds(t, 86_399);
        UnixMonotone(t + elapsed, t + 86_399 * SECOND);
      }
    } else {
      var t := SECOND - 1;
      assert Unix(t) == 0;
      UnixMonotone(DAY, t + elapsed);
      assert Unix(DAY) == 86_400;
      assert !(Unix(t + elapsed) < Unix(t) + 86_400);
    }
  }

  ghost predicate NotDueAfter(env: Env, st: Store, user: int, input: SubmitInput, at: Instant, elapsed: int) {
    !IsDue(SubmitStep(env, st, user, input, at, NoFault).0.srs, user, input.questionId, at + elapsed)
  }

  /** Both times are cut to whole seconds, so a question answered wrongly stays away for some time, whenever it was
      answered, exactly up to one second short of 24 hours. */
  lemma SafeDayExact(env: Env, st: Store, user: int, input: SubmitInput, elapsed: int)
    requires input.questionId in env.catalog.questions && env.catalog.questions[input.questionId].answer.Some?
    requires !Passes(env, input) && elapsed >= 0
    ensures (forall at: Instant :: NotDueAfter(env, st, user, input, at, elapsed)) <==> elapsed <= DAY - SECOND
  {
    WholeSecondDay(elapsed);
    forall at: Instant
      ensures NotDueAfter(env, st, user, input, at, elapsed) <==> Unix(at + elapsed) < Unix(at) + 86_400
    {
      WrongAnswerDue(env, st, user, input, at, at + elapsed);
    }
    if at: Instant :| !(Unix(at + elapsed) < Unix(at) + 86_400) {
      assert !NotDueAfter(env, st, user, input, at, elapsed);
    }
  }

  // ----- Stores reached from an empty database -----

  predicate ClockAscends(cmds: seq<Command>, now: Instant)
    decreases |cmds|
  {
    cmds != [] ==>
      if cmds[0].Submit? then now <= cmds[0].now && ClockAscends(cmds[1..], cmds[0].now)
      else ClockAscends(cmds[1..], now)
  }

  ghost predicate Answered(rows: seq<Attempt>, now: Instant) {
    TimesAscend(rows) && forall a :: a in rows ==> a.answeredAt <= Unix(now)
  }

  lemma {:induction false} WhereAscends(rows: seq<Attempt>, p: Attempt -> bool)
    requires TimesAscend(rows)
    ensures TimesAscend(Where(rows, p))
  {
    if rows != [] {
      var before, last := rows[..|rows| - 1], rows[|rows| - 1];
      WhereAscends(before, p);
      assert forall a :: a in before ==> a.answeredAt <= last.answeredAt;
      assert forall i :: 0 <= i < |Where(before, p)| ==> Where(before, p)[i] in before;
    }
  }

  lemma ApplyAscends(env: Env, st: Store, cmd: Command, now: Instant)
    requires Answered(st.attempts, now) && (cmd.Submit? ==> now <= cmd.now)
    ensures Answered(Apply(env, st, cmd).attempts, if cmd.Submit? then cmd.now else now)
  {
    if cmd.Submit? {
      UnixMonotone(now, cmd.now);
    } else {
      WhereAscends(st.attempts, (a: Attempt) => a.userId != cmd.user);
      SameFilter(st.attempts, cmd.user);
    }
  }

  lemma {:induction false} RunAscends(env: Env, st: Store, cmds: seq<Command>, now: Instant)
    requires Answered(st.attempts, now) && ClockAscends(cmds, now)
    ensures TimesAscend(Run(env, st, cmds).attempts)
    decreases |cmds|
  {
    if cmds != [] {
      ApplyAscends(env, st, cmds[0], now);
      RunAscends(env, Apply(env, st, cmds[0]), cmds[1..], if cmds[0].Submit? then cmds[0].now else now);
    }
  }

  /** What every store reached from an empty one satisfies. */
  ghost predicate Orderly(st: Store) {
    Agrees(st) && TimesAscend(st.attempts)
  }

  lemma ReachedIsOrderly(env: Env, cmds: seq<Command>, start: Instant)
    requires ClockAscends(cmds, start) && forall i :: 0 <= i < |cmds| ==> Clean(cmds[i].fault)
    ensures Orderly(Run(env, Store([], map[]), cmds))
  {
    var empty := Store([], map[]);
    assert Agrees(empty);
    RunKeepsAgreement(env, empty, cmds);
    RunAscends(env, empty, cmds, start);
  }

  /** The user has answered, and 86400 whole seconds have not been counted since. */
  predicate WithinADay(st: Store, user: int, now: Instant) {
    var a := MostRecent(st.attempts, user);
    a.Some? && Unix(now) < a.value.answeredAt + 86_400
  }

  /** In every store reached from an empty one, the due page of a user omits the question last answered until
      86400 whole seconds have been counted. */
  lemma ReachedPageOmitsLast(env: Env, cmds: seq<Command>, start: Instant, user: int, now: Instant, page: seq<State>)
    requires ClockAscends(cmds, start) && forall i :: 0 <= i < |cmds| ==> Clean(cmds[i].fault)
    requires var st := Run(env, Store([], map[]), cmds);
             IsDuePage(st.srs, user, now, DUE_LIMIT, page) && WithinADay(st, user, now)
    ensures !InPage(page, MostRecent(Run(env, Store([], map[]), cmds).attempts, user).value.questionId)
  {
    ReachedIsOrderly(env, cmds, start);
    DuePageOmitsLast(Run(env, Store([], map[]), cmds), user, now, page);
  }
}
