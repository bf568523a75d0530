/** Submit and the deletes of internal/service/quiz_service.go. srs_states is an index over attempts that
    nothing in the database ties to it; the theorems say when it agrees with what the attempts imply. */
module QuizService {
  import opened Srs
  import opened QuizTables
  import opened Wrappers
  import Accounts
  import Grading

  /** What Submit reads but never writes. */
  datatype Env = Env(catalog: Catalog, aliases: Accounts.Table, fold: char -> char)

  datatype Store = Store(attempts: seq<Attempt>, srs: SrsTable)

  datatype SubmitInput = SubmitInput(questionId: int, setCode: string, answer: Grading.Payload, durationMs: int)

  /** Where the storage fails. */
  datatype Fault = NoFault | GetQuestion | SetLookup | CreateAttempt | GetSrs | UpsertSrs | DeleteAttempts | DeleteSrs

  datatype Error = NotFound | BadAnswerJson | StorageError

  /** What Submit returns: the attempt as stored, with its exact instant beside it. */
  datatype Graded = Graded(attempt: Attempt, answeredAt: Instant, explanation: string, nextDueAt: Instant)

  // ----- One answer -----

  function SetIdFor(env: Env, code: string, fault: Fault): Option<int> {
    if code != "" && code in env.catalog.setIds && !fault.SetLookup? then Some(env.catalog.setIds[code]) else None
  }

  /** The row Submit adds to attempts. */
  function NewAttempt(env: Env, rows: seq<Attempt>, user: int, input: SubmitInput, want: Grading.Payload,
      now: Instant, fault: Fault): Attempt
  {
    Attempt(NextId(rows), user, input.questionId, SetIdFor(env, input.setCode, fault),
            Grading.Correct(env.aliases, env.fold, want, input.answer), input.durationMs, input.answer, Unix(now))
  }

  /** The state Submit starts from: the stored row, or a new state. */
  function StartState(srs: SrsTable, user: int, question: int, now: Instant): State {
    if (user, question) in srs then StateOf(user, question, srs[(user, question)])
    else NewState(now).(userId := user, questionId := question)
  }

  function SubmitStep(env: Env, st: Store, user: int, input: SubmitInput, now: Instant,
      fault: Fault): (Store, Result<Graded, Error>)
  {
    if fault.GetQuestion? then (st, Err(StorageError))
    else if input.questionId !in env.catalog.questions then (st, Err(NotFound))
    else
      var q := env.catalog.questions[input.questionId];
      if q.answer.None? then (st, Err(BadAnswerJson))
      else if fault.CreateAttempt? then (st, Err(StorageError))
      else
        var att := NewAttempt(env, st.attempts, user, input, q.answer.value, now, fault);
        var attempts := st.attempts + [att];
        if fault.GetSrs? || fault.UpsertSrs? then (Store(attempts, st.srs), Err(StorageError))
        else
          var next := Next(StartState(st.srs, user, input.questionId, now),
                           GradeFromResult(att.isCorrect, input.durationMs), now);
          (Store(attempts, st.srs[(user, input.questionId) := RowOf(next)]),
           Ok(Graded(att, now, q.explanation, next.dueAt)))
  }

  function OthersAttempts(rows: seq<Attempt>, user: int): seq<Attempt> {
    Where(rows, (a: Attempt) => a.userId != user)
  }

  function OthersSrs(srs: SrsTable, user: int): SrsTable {
    map k | k in srs && k.0 != user :: srs[k]
  }

  function DeleteAllStep(st: Store, user: int, fault: Fault): (Store, bool) {
    if fault.DeleteAttempts? then (st, false)
    else if fault.DeleteSrs? then (Store(OthersAttempts(st.attempts, user), st.srs), false)
    else (Store(OthersAttempts(st.attempts, user), OthersSrs(st.srs, user)), true)
  }

  class Service {
    const env: Env
    const attempts: AttemptRepo
    const srs: SrsRepo

    constructor (env: Env, attempts: AttemptRepo, srs: SrsRepo)
      ensures this.env == env && this.attempts == attempts && this.srs == srs
    {
      this.env, this.attempts, this.srs := env, attempts, srs;
    }

    function Tables(): Store
      reads this, attempts, srs
    {
      Store(attempts.rows, srs.rows)
    }

    method Submit(user: int, input: SubmitInput, now: Instant, fault: Fault) returns (r: Result<Graded, Error>)
      modifies attempts, srs
      ensures (Tables(), r) == SubmitStep(env, old(Tables()), user, input, now, fault)
    {
      if fault.GetQuestion? {
        return Err(StorageError);
      }
      if input.questionId !in env.catalog.questions {
        return Err(NotFound);
      }
      var q := env.catalog.questions[input.questionId];
      if q.answer.None? {
        return Err(BadAnswerJson);
      }
      var correct := Grading.IsCorrect(env.aliases, env.fold, q.answer.value, input.answer);
      if fault.CreateAttempt? {
        return Err(StorageError);
      }
      var att := attempts.Create(Attempt(0, user, input.questionId, SetIdFor(env, input.setCode, fault), correct,
                                         input.durationMs, input.answer, Unix(now)));
      if fault.GetSrs? {
        return Err(StorageError);
      }
      var found := srs.Get(user, input.questionId);
      var state := if found.Some? then found.value else NewState(now).(userId := user, questionId := input.questionId);
      var next := Next(state, GradeFromResult(correct, input.durationMs), now);
      if fault.UpsertSrs? {
        return Err(StorageError);
      }
      srs.Upsert(next);
      return Ok(Graded(att, now, q.explanation, next.dueAt));
    }

    method DeleteAllForUser(user: int, fault: Fault) returns (ok: bool)
      modifies attempts, srs
      ensures (Tables(), ok) == DeleteAllStep(old(Tables()), user, fault)
    {
      if fault.DeleteAttempts? {
        return false;
      }
      attempts.DeleteAllForUser(user);
      SameFilter(old(attempts.rows), user);
      if fault.DeleteSrs? {
        return false;
      }
      srs.DeleteAllForUser(user);
      return true;
    }
  }

  lemma {:induction false} SameFilter(rows: seq<Attempt>, user: int)
    ensures Where(rows, (a: Attempt) => a.userId != user) == OthersAttempts(rows, user)
  {
  }

  // ----- What one call does -----

  /** Whether the answer would be graded correct. */
  predicate Passes(env: Env, input: SubmitInput)
    requires Gradable(env, input.questionId)
  {
    Grading.Correct(env.aliases, env.fold, env.catalog.questions[input.questionId].answer.value, input.answer)
  }

  predicate Gradable(env: Env, question: int) {
    question in env.catalog.questions && env.catalog.questions[question].answer.Some?
  }

  /** Which error a submit reports, and when none. */
  lemma SubmitErrors(env: Env, st: Store, user: int, input: SubmitInput, now: Instant, fault: Fault)
    ensures var r := SubmitStep(env, st, user, input, now, fault).1;
            && (r == Err(NotFound) <==> fault != GetQuestion && input.questionId !in env.catalog.questions)
            && (r == Err(BadAnswerJson) <==> fault != GetQuestion && input.questionId in env.catalog.questions &&
                                             !Gradable(env, input.questionId))
            && (r.Ok? <==> Gradable(env, input.questionId) && fault in {NoFault, SetLookup, DeleteAttempts, DeleteSrs})
  {
  }

  /** The row a submit records: once the question was read and the insert went through, one row is added at the
      end, and it says who answered what, when, how fast and whether correctly. */
  lemma SubmitRecords(env: Env, st: Store, user: int, input: SubmitInput, now: Instant, fault: Fault)
    ensures var st' := SubmitStep(env, st, user, input, now, fault).0;
            var n := |st.attempts|;
            if !Gradable(env, input.questionId) || fault in {GetQuestion, CreateAttempt} then st' == st
            else
              && |st'.attempts| == n + 1 && st'.attempts[..n] == st.attempts
              && var a := st'.attempts[n];
              && a.userId == user && a.questionId == input.questionId
              && a.submitted == input.answer && a.durationMs == input.durationMs
              && a.answeredAt == Unix(now)
              && (a.isCorrect <==> Passes(env, input))
              && (a.setId == if input.setCode in env.catalog.setIds && input.setCode != "" && fault != SetLookup
                             then Some(env.catalog.setIds[input.setCode]) else None)
  {
  }

  /** What a successful submit returns: the recorded row, its exact instant, the question's explanation, and the
      instant at which the question is due again, which is the stored one but for the fraction of a second. */
  lemma SubmitReturns(env: Env, st: Store, user: int, input: SubmitInput, now: Instant, fault: Fault)
    requires SubmitStep(env, st, user, input, now, fault).1.Ok?
    ensures var (st', r) := SubmitStep(env, st, user, input, now, fault);
            && r.value.attempt == st'.attempts[|st.attempts|]
            && r.value.answeredAt == now
            && r.value.explanation == env.catalog.questions[input.questionId].explanation
            && (user, input.questionId) in st'.srs
            && var row := st'.srs[(user, input.questionId)];
            r.value.nextDueAt == now + row.intervalDays * DAY && row.dueAt == Unix(r.value.nextDueAt)
  {
  }

  /** A full delete succeeds exactly without a storage failure, and then nothing of the user is left and everything
      of the others is, their attempts in order; if the second delete fails, only the attempts are gone. */
  lemma DeleteAllExact(st: Store, user: int, fault: Fault)
    ensures var (st', ok) := DeleteAllStep(st, user, fault);
            && (ok <==> fault != DeleteAttempts && fault != DeleteSrs)
            && (fault == DeleteAttempts ==> st' == st)
            && (fault != DeleteAttempts ==> forall a :: a in st'.attempts ==> a.userId != user)
            && (forall u :: u != user ==> Where(st'.attempts, OfUser(u)) == Where(st.attempts, OfUser(u)))
            && (fault == DeleteSrs ==> st'.srs == st.srs)
            && (ok ==> forall q :: (user, q) !in st'.srs)
            && (forall k :: k in st.srs && k.0 != user ==> k in st'.srs && st'.srs[k] == st.srs[k])
            && (forall k :: k in st'.srs ==> k in st.srs)
  {
    forall u | u != user
      ensures Where(OthersAttempts(st.attempts, user), OfUser(u)) == Where(st.attempts, OfUser(u))
    {
      SameFilter(st.attempts, user);
      WhereCommutes(st.attempts, OfUser(u), (a: Attempt) => a.userId != user);
    }
  }

  // ----- What the attempts imply -----

  /** An attempt, as the review it was; its stored second stands for the instant of the answer. */
  function ReviewOf(a: Attempt): Review {
    Review(GradeFromResult(a.isCorrect, a.durationMs), FromUnix(a.answeredAt))
  }

  /** The reviews of one user on one question, oldest first. */
  function Reviews(rows: seq<Attempt>, user: int, question: int): seq<Review> {
    if rows == [] then []
    else
      var before, last := Reviews(rows[..|rows| - 1], user, question), rows[|rows| - 1];
      if last.userId == user && last.questionId == question then before + [ReviewOf(last)] else before
  }

  /** The row those reviews lead to. */
  function Implied(rs: seq<Review>): SrsRow {
    RowOf(Replay(NewState(0), rs))
  }

  ghost predicate AgreesFor(st: Store, user: int, question: int) {
    var rs := Reviews(st.attempts, user, question);
    && ((user, question) in st.srs <==> rs != [])
    && (rs != [] ==> st.srs[(user, question)] == Implied(rs))
  }

  /** srs_states is exactly what attempts implies. */
  ghost predicate Agrees(st: Store) {
    forall user, question :: AgreesFor(st, user, question)
  }

  // ----- Storing a state in whole seconds loses nothing that the next review needs -----

  lemma StoredStateIsEnough(s: State, s': State, g: int, now: Instant)
    requires s.efactor == s'.efactor && s.intervalDays == s'.intervalDays && s.repetitions == s'.repetitions
    ensures RowOf(Next(s, g, now)) == RowOf(Next(s', g, FromUnix(Unix(now))))
  {
    UnixAfterDays(now, Next(s, g, now).intervalDays);
    AddSeconds(0, Unix(now));
  }

  lemma {:induction false} ImpliedIgnoresStart(t: Instant, rs: seq<Review>)
    ensures Replay(NewState(t), rs).efactor == Replay(NewState(0), rs).efactor
    ensures Replay(NewState(t), rs).intervalDays == Replay(NewState(0), rs).intervalDays
    ensures Replay(NewState(t), rs).repetitions == Replay(NewState(0), rs).repetitions
    ensures rs != [] ==> RowOf(Replay(NewState(t), rs)) == Implied(rs)
  {
    if rs != [] { ImpliedIgnoresStart(t, rs[..|rs| - 1]); }
  }

  lemma ImpliedNext(rs: seq<Review>, s: State, g: int, now: Instant)
    requires s.efactor == Replay(NewState(0), rs).efactor
    requires s.intervalDays == Replay(NewState(0), rs).intervalDays
    requires s.repetitions == Replay(NewState(0), rs).repetitions
    ensures RowOf(Next(s, g, now)) == Implied(rs + [Review(g, FromUnix(Unix(now)))])
  {
    ReplayAppend(NewState(0), rs, Review(g, FromUnix(Unix(now))));
    StoredStateIsEnough(s, Replay(NewState(0), rs), g, now);
  }

  lemma ReviewsAppend(rows: seq<Attempt>, a: Attempt, user: int, question: int)
    ensures Reviews(rows + [a], user, question) ==
            if a.userId == user && a.questionId == question then Reviews(rows, user, question) + [ReviewOf(a)]
            else Reviews(rows, user, question)
  {
    assert (rows + [a])[..|rows|] == rows;
  }

  // ----- Every submit keeps the index exact -----

  /** The fault leaves either both tables or neither written. */
  predicate Clean(fault: Fault) {
    fault.NoFault? || fault.GetQuestion? || fault.SetLookup? || fault.CreateAttempt? || fault.DeleteAttempts?
  }

  lemma PairStep(st: Store, st': Store, att: Attempt, now: Instant)
    requires AgreesFor(st, att.userId, att.questionId) && att.answeredAt == Unix(now)
    requires st'.attempts == st.attempts + [att]
    requires var next := Next(StartState(st.srs, att.userId, att.questionId, now),
                              GradeFromResult(att.isCorrect, att.durationMs), now);
             st'.srs == st.srs[(att.userId, att.questionId) := RowOf(next)]
    ensures AgreesFor(st', att.userId, att.questionId)
  {
    var rs := Reviews(st.attempts, att.userId, att.questionId);
    ReviewsAppend(st.attempts, att, att.userId, att.questionId);
    ImpliedIgnoresStart(now, []);
    var s := StartState(st.srs, att.userId, att.questionId, now);
    ImpliedNext(rs, s, GradeFromResult(att.isCorrect, att.durationMs), now);
  }

  lemma SubmitKeepsPair(env: Env, st: Store, user: int, input: SubmitInput, now: Instant, fault: Fault)
    requires AgreesFor(st, user, input.questionId) && Clean(fault)
    ensures AgreesFor(SubmitStep(env, st, user, input, now, fault).0, user, input.questionId)
  {
    var (st', r) := SubmitStep(env, st, user, input, now, fault);
    if r.Ok? { PairStep(st, st', r.value.attempt, now); }
  }

  lemma SubmitKeepsAgreement(env: Env, st: Store, user: int, input: SubmitInput, now: Instant, fault: Fault)
    requires Agrees(st) && Clean(fault)
    ensures Agrees(SubmitStep(env, st, user, input, now, fault).0)
  {
    var st' := SubmitStep(env, st, user, input, now, fault).0;
    forall u, q ensures AgreesFor(st', u, q) {
      assert AgreesFor(st, u, q);
      if (u, q) == (user, input.questionId) {
        SubmitKeepsPair(env, st, user, input, now, fault);
      }
    }
  }

  lemma {:induction false} ReviewsOfOthers(rows: seq<Attempt>, user: int, u: int, q: int)
    ensures Reviews(OthersAttempts(rows, user), u, q) == if u == user then [] else Reviews(rows, u, q)
  {
    if rows != [] {
      var before, last := rows[..|rows| - 1], rows[|rows| - 1];
      ReviewsOfOthers(before, user, u, q);
      if last.userId != user { ReviewsAppend(OthersAttempts(before, user), last, u, q); }
    }
  }

  lemma DeleteAllKeepsAgreement(st: Store, user: int, fault: Fault)
    requires Agrees(st) && !fault.DeleteSrs?
    ensures Agrees(DeleteAllStep(st, user, fault).0)
  {
    var st' := DeleteAllStep(st, user, fault).0;
    forall u, q ensures AgreesFor(st', u, q) {
      assert AgreesFor(st, u, q);
      ReviewsOfOthers(st.attempts, user, u, q);
    }
  }

  // ----- Whole runs -----

  datatype Command =
    | Submit(user: int, input: SubmitInput, now: Instant, fault: Fault)
    | DeleteAll(user: int, fault: Fault)

  function Apply(env: Env, st: Store, cmd: Command): Store {
    match cmd
    case Submit(user, input, now, fault) => SubmitStep(env, st, user, input, now, fault).0
    case DeleteAll(user, fault) => DeleteAllStep(st, user, fault).0
  }

  function Run(env: Env, st: Store, cmds: seq<Command>): Store
    decreases |cmds|
  {
    if cmds == [] then st else Run(env, Apply(env, st, cmds[0]), cmds[1..])
  }

  /** After any interleaving of submits and full deletes by any users, srs_states is what the attempts
      imply: a row for exactly the answered pairs, equal to the replay of that pair's attempts in order. */
  lemma {:induction false} RunKeepsAgreement(env: Env, st: Store, cmds: seq<Command>)
    requires Agrees(st) && forall i :: 0 <= i < |cmds| ==> Clean(cmds[i].fault)
    ensures Agrees(Run(env, st, cmds))
    decreases |cmds|
  {
    if cmds != [] {
      match cmds[0] {
        case Submit(user, input, now, fault) => SubmitKeepsAgreement(env, st, user, input, now, fault);
        case DeleteAll(user, fault) => DeleteAllKeepsAgreement(st, user, fault);
      }
      RunKeepsAgreement(env, Apply(env, st, cmds[0]), cmds[1..]);
    }
  }

  /** So the index can be thrown away and recomputed: attempts alone determine it. */
  lemma IndexDetermined(st: Store, st': Store)
    requires Agrees(st) && Agrees(st') && st.attempts == st'.attempts
    ensures st.srs == st'.srs
  {
    forall k ensures (k in st.srs <==> k in st'.srs) && (k in st.srs ==> st.srs[k] == st'.srs[k]) {
      assert AgreesFor(st, k.0, k.1) && AgreesFor(st', k.0, k.1);
    }
  }

  // ----- What breaks it -----

  predicate GradesFromResults(rs: seq<Review>) {
    forall i :: 0 <= i < |rs| ==> rs[i].grade == GRADE_WORST || rs[i].grade >= GRADE_SLOW
  }

  lemma {:induction false} ReviewsAreGraded(rows: seq<Attempt>, user: int, question: int)
    ensures GradesFromResults(Reviews(rows, user, question))
  {
    if rows != [] { ReviewsAreGraded(rows[..|rows| - 1], user, question); }
  }

  /** A streak of length zero means that the last review failed, and then the row shows nothing else of the past
      but the E-factor. */
  lemma AfterFailure(rs: seq<Review>)
    requires rs != [] && GradesFromResults(rs)
    ensures var s, last := Replay(NewState(0), rs), rs[|rs| - 1];
            && s.efactor >= MIN_EFACTOR && s.repetitions >= 0
            && (s.repetitions == 0 <==> last.grade == GRADE_WORST)
            && (s.repetitions == 0 ==> s.intervalDays == 1 && s.lastGrade == GRADE_WORST)
            && s.dueAt == last.at + s.intervalDays * DAY && s.updatedAt == last.at
  {
    ReplaySound(NewState(0), rs);
    ReplaySound(NewState(0), rs[..|rs| - 1]);
  }

  /** A wrong answer, and a row that already shows a failure of this very second at the lowest E-factor. */
  predicate Idle(row: SrsRow, correct: bool, second: int) {
    !correct && row.repetitions == 0 && row.efactor == MIN_EFACTOR && row.updatedAt == second
  }

  lemma FailedAgain(rs: seq<Review>, s: State, durationMs: int, now: Instant)
    requires rs != [] && GradesFromResults(rs) && s.repetitions == 0 && s.efactor == MIN_EFACTOR
    requires Idle(Implied(rs), false, Unix(now))
    ensures RowOf(Next(s, GradeFromResult(false, durationMs), now)) == Implied(rs)
  {
    AfterFailure(rs);
    UnixAfterDays(now, 1);
    UnixAfterDays(rs[|rs| - 1].at, 1);
  }

  /** Another review leaves the row as it is exactly when it fails and the row already shows a failure of the same
      second at the lowest E-factor. */
  lemma ReviewChangesNothing(rs: seq<Review>, s: State, correct: bool, durationMs: int, now: Instant)
    requires rs != [] && GradesFromResults(rs)
    requires s.efactor == Implied(rs).efactor && s.repetitions == Implied(rs).repetitions
    ensures RowOf(Next(s, GradeFromResult(correct, durationMs), now)) == Implied(rs) <==>
            Idle(Implied(rs), correct, Unix(now))
  {
    AfterFailure(rs);
    if Idle(Implied(rs), correct, Unix(now)) { FailedAgain(rs, s, durationMs, now); }
  }

  lemma TornIsWholeWhenUnchanged(env: Env, st: Store, user: int, input: SubmitInput, now: Instant, fault: Fault)
    requires Agrees(st) && (fault.GetSrs? || fault.UpsertSrs?)
    requires input.questionId in env.catalog.questions && env.catalog.questions[input.questionId].answer.Some?
    ensures var torn := SubmitStep(env, st, user, input, now, fault).0;
            var whole := SubmitStep(env, st, user, input, now, NoFault).0;
            Agrees(torn) <==> torn.srs == whole.srs
  {
    var torn := SubmitStep(env, st, user, input, now, fault).0;
    var whole := SubmitStep(env, st, user, input, now, NoFault).0;
    SubmitKeepsAgreement(env, st, user, input, now, NoFault);
    assert torn.attempts == whole.attempts;
    if Agrees(torn) { IndexDetermined(torn, whole); }
    if torn.srs == whole.srs { assert torn == whole; }
  }

  /** The code writes the two tables without a transaction. When the second write fails they still agree exactly
      when the answer is wrong and the row already shows a wrong answer of the same second at the lowest
      E-factor. */
  lemma TornSubmit(env: Env, st: Store, user: int, input: SubmitInput, now: Instant, fault: Fault)
    requires Agrees(st) && (fault.GetSrs? || fault.UpsertSrs?)
    requires input.questionId in env.catalog.questions && env.catalog.questions[input.questionId].answer.Some?
    ensures Agrees(SubmitStep(env, st, user, input, now, fault).0) <==>
            (user, input.questionId) in st.srs &&
            Idle(st.srs[(user, input.questionId)], Passes(env, input), Unix(now))
  {
    var key := (user, input.questionId);
    var s := StartState(st.srs, user, input.questionId, now);
    var row := RowOf(Next(s, GradeFromResult(Passes(env, input), input.durationMs), now));
    TornIsWholeWhenUnchanged(env, st, user, input, now, fault);
    assert SubmitStep(env, st, user, input, now, NoFault).0.srs == st.srs[key := row];
    assert AgreesFor(st, user, input.questionId);
    if key in st.srs {
      var rs := Reviews(st.attempts, user, input.questionId);
      ReviewsAreGraded(st.attempts, user, input.questionId);
      ReviewChangesNothing(rs, s, Passes(env, input), input.durationMs, now);
    }
  }

  /** On a question's first answer they never do. */
  lemma TornFirstSubmit(env: Env, st: Store, user: int, input: SubmitInput, now: Instant, fault: Fault)
    requires Agrees(st) && (fault.GetSrs? || fault.UpsertSrs?)
    requires input.questionId in env.catalog.questions && env.catalog.questions[input.questionId].answer.Some?
    requires (user, input.questionId) !in st.srs
    ensures !Agrees(SubmitStep(env, st, user, input, now, fault).0)
  {
    TornSubmit(env, st, user, input, now, fault);
  }

  /** A full delete that fails between its two writes is harmless exactly for a user without any SRS row. */
  lemma TornDeleteAll(st: Store, user: int)
    requires Agrees(st)
    ensures Agrees(DeleteAllStep(st, user, DeleteSrs).0) <==> forall q :: (user, q) !in st.srs
  {
    var torn := DeleteAllStep(st, user, DeleteSrs).0;
    forall u, q ensures AgreesFor(torn, u, q) <==> (u == user ==> (user, q) !in st.srs) {
      assert AgreesFor(st, u, q);
      ReviewsOfOthers(st.attempts, user, u, q);
    }
    if Agrees(torn) {
      forall q ensures (user, q) !in st.srs { assert AgreesFor(torn, user, q); }
    }
  }

  /** A row for exactly the answered pairs. */
  ghost predicate Covers(st: Store) {
    forall user, question :: (user, question) in st.srs <==> Reviews(st.attempts, user, question) != []
  }

  /** The attempts left by DeleteAttempt, which does not touch srs_states. */
  function WithoutAttempt(rows: seq<Attempt>, user: int, id: int): seq<Attempt> {
    Where(rows, (a: Attempt) => !(a.id == id && a.userId == user))
  }

  lemma {:induction false} ReviewsExist(rows: seq<Attempt>, user: int, question: int)
    ensures Reviews(rows, user, question) != [] <==>
            exists a :: a in rows && a.userId == user && a.questionId == question
  {
    if rows != [] {
      ReviewsExist(rows[..|rows| - 1], user, question);
      assert rows == rows[..|rows| - 1] + [rows[|rows| - 1]];
    }
  }

  /** Deleting one attempt keeps rows and answered pairs in step exactly when it was not the only attempt of
      its pair. */
  lemma DeleteAttemptCovers(st: Store, user: int, gone: Attempt)
    requires Agrees(st) && InIdOrder(st.attempts)
    requires gone in st.attempts && gone.userId == user
    ensures Covers(Store(WithoutAttempt(st.attempts, user, gone.id), st.srs)) <==>
            exists a :: a in st.attempts && a != gone && a.userId == user && a.questionId == gone.questionId
  {
    var left := WithoutAttempt(st.attempts, user, gone.id);
    forall u, q
      ensures ((u, q) in st.srs <==> Reviews(left, u, q) != []) <==>
              ((u, q) != (user, gone.questionId) || exists a :: a in left && a.userId == u && a.questionId == q)
    {
      assert AgreesFor(st, u, q);
      ReviewsExist(st.attempts, u, q);
      ReviewsExist(left, u, q);
    }
  }

  lemma {:induction false} OtherPairsKept(rows: seq<Attempt>, user: int, gone: Attempt, u: int, q: int)
    requires forall a :: a in rows && a.id == gone.id ==> a == gone
    requires gone.userId == user && (u, q) != (user, gone.questionId)
    ensures Reviews(WithoutAttempt(rows, user, gone.id), u, q) == Reviews(rows, u, q)
  {
    if rows != [] {
      var before, last := rows[..|rows| - 1], rows[|rows| - 1];
      assert rows == before + [last];
      OtherPairsKept(before, user, gone, u, q);
      ReviewsAppend(before, last, u, q);
      ReviewsAppend(WithoutAttempt(before, user, gone.id), last, u, q);
    }
  }

  /** As to the values: the tables agree after deleting one attempt exactly when the pair's other reviews, replayed
      without it, lead to the row that is there. */
  lemma DeleteAttemptExact(st: Store, user: int, gone: Attempt)
    requires Agrees(st) && InIdOrder(st.attempts)
    requires gone in st.attempts && gone.userId == user
    ensures var left := WithoutAttempt(st.attempts, user, gone.id);
            var rs := Reviews(left, user, gone.questionId);
            var key := (user, gone.questionId);
            Agrees(Store(left, st.srs)) <==> rs != [] && key in st.srs && st.srs[key] == Implied(rs)
  {
    var left := WithoutAttempt(st.attempts, user, gone.id);
    assert forall a :: a in st.attempts && a.id == gone.id ==> a == gone;
    assert AgreesFor(st, user, gone.questionId);
    ReviewsExist(st.attempts, user, gone.questionId);
    assert Agrees(Store(left, st.srs)) ==> AgreesFor(Store(left, st.srs), user, gone.questionId);
    forall u, q | (u, q) != (user, gone.questionId) ensures AgreesFor(Store(left, st.srs), u, q) {
      assert AgreesFor(st, u, q);
      OtherPairsKept(st.attempts, user, gone, u, q);
    }
  }

  lemma {:induction false} NothingDeleted(rows: seq<Attempt>, user: int, id: int)
    requires forall a :: a in rows ==> a.id != id
    ensures WithoutAttempt(rows, user, id) == rows
  {
    if rows != [] {
      assert rows == rows[..|rows| - 1] + [rows[|rows| - 1]];
      NothingDeleted(rows[..|rows| - 1], user, id);
    }
  }

  lemma {:induction false} NewestIsLastReview(rows: seq<Attempt>, user: int, gone: Attempt)
    requires InIdOrder(rows) && gone in rows && gone.userId == user
    requires forall a :: a in rows && a.userId == user && a.questionId == gone.questionId ==> a.id <= gone.id
    ensures Reviews(rows, user, gone.questionId)
         == Reviews(WithoutAttempt(rows, user, gone.id), user, gone.questionId) + [ReviewOf(gone)]
  {
    var before, last := rows[..|rows| - 1], rows[|rows| - 1];
    assert rows == before + [last];
    if last == gone {
      NothingDeleted(before, user, gone.id);
    } else {
      assert gone in before;
      assert last.id > gone.id;
      NewestIsLastReview(before, user, gone);
      ReviewsAppend(WithoutAttempt(before, user, gone.id), last, user, gone.questionId);
    }
  }

  /** For the newest attempt of its pair that is exactly a wrong answer, after an earlier wrong one in the same
      second that had already brought the E-factor to its lowest. */
  lemma DeleteNewestExact(st: Store, user: int, gone: Attempt)
    requires Agrees(st) && InIdOrder(st.attempts)
    requires gone in st.attempts && gone.userId == user
    requires forall a :: a in st.attempts && a.userId == user && a.questionId == gone.questionId ==> a.id <= gone.id
    ensures var left := WithoutAttempt(st.attempts, user, gone.id);
            var rs := Reviews(left, user, gone.questionId);
            Agrees(Store(left, st.srs)) <==> rs != [] && Idle(Implied(rs), gone.isCorrect, gone.answeredAt)
  {
    var left := WithoutAttempt(st.attempts, user, gone.id);
    var rs := Reviews(left, user, gone.questionId);
    DeleteAttemptExact(st, user, gone);
    NewestIsLastReview(st.attempts, user, gone);
    assert AgreesFor(st, user, gone.questionId);
    ReplayAppend(NewState(0), rs, ReviewOf(gone));
    if rs != [] {
      ReviewsAreGraded(left, user, gone.questionId);
      AddSeconds(0, gone.answeredAt);
      ReviewChangesNothing(rs, Replay(NewState(0), rs), gone.isCorrect, gone.durationMs, FromUnix(gone.answeredAt));
    }
  }
}
