/** The tables behind the quiz service, with the keys of 0001_init.sql, and the repository operations on them.
    Columns of instants hold whole Unix seconds. */
module QuizTables {
  import opened Srs
  import opened Wrappers
  import Grading

  datatype Question = Question(id: int, topicId: int, answer: Option<Grading.Payload>, explanation: string)

  datatype Member = Member(setId: int, questionId: int, ord: int)

  /** Questions by id, set ids by code, and the rows of question_set_members. Answering changes none of them. */
  datatype Catalog = Catalog(questions: map<int, Question>, setIds: map<string, int>, members: seq<Member>)

  datatype Attempt = Attempt(id: int, userId: int, questionId: int, setId: Option<int>, isCorrect: bool,
                             durationMs: int, submitted: Grading.Payload, answeredAt: int)

  datatype SrsRow = SrsRow(efactor: int, intervalDays: int, repetitions: int, dueAt: int, lastGrade: int,
                           updatedAt: int)

  type SrsTable = map<(int, int), SrsRow>

  /** time.Unix: whole seconds, rounded down. */
  function Unix(t: Instant): int {
    t / SECOND
  }

  /** What a column of seconds reads back as. */
  function FromUnix(seconds: int): Instant {
    seconds * SECOND
  }

  /** Waiting whole days commutes with dropping the fraction of a second. */
  lemma UnixAfterDays(t: Instant, days: int)
    ensures Unix(t + days * DAY) == Unix(t) + days * 86_400
    ensures Unix(FromUnix(Unix(t)) + days * DAY) == Unix(t) + days * 86_400
  {
    assert days * DAY == (days * 86_400) * SECOND;
    AddSeconds(t, days * 86_400);
    AddSeconds(FromUnix(Unix(t)), days * 86_400);
  }

  lemma AddSeconds(t: Instant, n: int)
    ensures Unix(t + n * SECOND) == Unix(t) + n
    ensures Unix(FromUnix(n)) == n
  {
  }

  // ----- attempts -----

  /** The table is kept in id order; a new id is one above the largest in use. */
  function NextId(rows: seq<Attempt>): int {
    if rows == [] then 1 else rows[|rows| - 1].id + 1
  }

  predicate InIdOrder(rows: seq<Attempt>) {
    forall i, j :: 0 <= i < j < |rows| ==> rows[i].id < rows[j].id
  }

  /** ORDER BY answered_at DESC, id DESC. */
  predicate Newer(a: Attempt, b: Attempt) {
    a.answeredAt > b.answeredAt || (a.answeredAt == b.answeredAt && a.id > b.id)
  }

  function Where(rows: seq<Attempt>, p: Attempt -> bool): (r: seq<Attempt>)
    ensures forall a :: a in r <==> a in rows && p(a)
  {
    if rows == [] then []
    else
      var before := Where(rows[..|rows| - 1], p);
      assert rows == rows[..|rows| - 1] + [rows[|rows| - 1]];
      if p(rows[|rows| - 1]) then before + [rows[|rows| - 1]] else before
  }

  lemma WhereAppend(rows: seq<Attempt>, a: Attempt, p: Attempt -> bool)
    ensures Where(rows + [a], p) == if p(a) then Where(rows, p) + [a] else Where(rows, p)
  {
    assert (rows + [a])[..|rows|] == rows;
  }

  lemma {:induction false} WhereCommutes(rows: seq<Attempt>, p: Attempt -> bool, keep: Attempt -> bool)
    requires forall a :: p(a) ==> keep(a)
    ensures Where(Where(rows, keep), p) == Where(rows, p)
  {
    if rows != [] {
      var before, last := rows[..|rows| - 1], rows[|rows| - 1];
      WhereCommutes(before, p, keep);
      if keep(last) { WhereAppend(Where(before, keep), last, p); }
    }
  }

  /** The row the ordering puts first. */
  function Latest(rows: seq<Attempt>): (r: Option<Attempt>)
    ensures r.None? <==> rows == []
    ensures r.Some? ==> r.value in rows && forall a :: a in rows ==> !Newer(a, r.value)
  {
    if rows == [] then None
    else
      var before, last := Latest(rows[..|rows| - 1]), rows[|rows| - 1];
      assert rows == rows[..|rows| - 1] + [last];
      if before.None? || Newer(last, before.value) then Some(last) else before
  }

  function OfUser(user: int): Attempt -> bool {
    (a: Attempt) => a.userId == user
  }

  function InSet(user: int, setId: int): Attempt -> bool {
    (a: Attempt) => a.userId == user && a.setId == Some(setId)
  }

  /** The first row of ListByUser. */
  function MostRecent(rows: seq<Attempt>, user: int): Option<Attempt> {
    Latest(Where(rows, OfUser(user)))
  }

  function LastQuestionIdInSet(rows: seq<Attempt>, user: int, setId: int): Option<int> {
    var last := Latest(Where(rows, InSet(user, setId)));
    if last.None? then None else Some(last.value.questionId)
  }

  function AttemptedQuestionIds(rows: seq<Attempt>, user: int): set<int> {
    set a | a in rows && a.userId == user :: a.questionId
  }

  /** Exactly the questions the user has answered at least once, in any set, rightly or wrongly. */
  lemma AttemptedExactly(rows: seq<Attempt>, user: int, question: int)
    ensures question in AttemptedQuestionIds(rows, user) <==>
            exists i :: 0 <= i < |rows| && rows[i].userId == user && rows[i].questionId == question
  {
    if question in AttemptedQuestionIds(rows, user) {
      var a :| a in rows && a.userId == user && a.questionId == question;
      var i :| 0 <= i < |rows| && rows[i] == a;
    }
    if i :| 0 <= i < |rows| && rows[i].userId == user && rows[i].questionId == question {
      assert rows[i] in rows;
    }
  }

  class AttemptRepo {
    var rows: seq<Attempt>

    constructor ()
      ensures rows == []
    {
      rows := [];
    }

    /** The id of `a` is assigned here. */
    method Create(a: Attempt) returns (stored: Attempt)
      modifies this
      ensures stored == a.(id := NextId(old(rows)))
      ensures rows == old(rows) + [stored]
      ensures old(InIdOrder(rows)) ==> InIdOrder(rows)
    {
      stored := a.(id := NextId(rows));
      rows := rows + [stored];
    }

    method DeleteById(user: int, id: int) returns (found: bool)
      modifies this
      ensures rows == Where(old(rows), (a: Attempt) => !(a.id == id && a.userId == user))
      ensures found <==> exists a :: a in old(rows) && a.id == id && a.userId == user
    {
      var doomed := Where(rows, (a: Attempt) => a.id == id && a.userId == user);
      found := doomed != [];
      assert found ==> doomed[0] in rows;
      rows := Where(rows, (a: Attempt) => !(a.id == id && a.userId == user));
    }

    method DeleteAllForUser(user: int)
      modifies this
      ensures rows == Where(old(rows), (a: Attempt) => a.userId != user)
    {
      rows := Where(rows, (a: Attempt) => a.userId != user);
    }
  }

  /** With the largest id and no earlier time, the row inserted last is the latest. */
  lemma LatestIsLast(rows: seq<Attempt>, a: Attempt)
    requires forall b :: b in rows ==> b.answeredAt <= a.answeredAt && b.id < a.id
    ensures Latest(rows + [a]) == Some(a)
  {
    assert (rows + [a])[..|rows|] == rows;
  }

  // ----- srs_states -----

  function RowOf(s: State): SrsRow {
    SrsRow(s.efactor, s.intervalDays, s.repetitions, Unix(s.dueAt), s.lastGrade, Unix(s.updatedAt))
  }

  function StateOf(user: int, question: int, r: SrsRow): State {
    State(user, question, r.efactor, r.intervalDays, r.repetitions, FromUnix(r.dueAt), r.lastGrade,
          FromUnix(r.updatedAt))
  }

  /** What is read back is what was stored, with its instants cut to the second. */
  lemma StoredAndRead(s: State)
    ensures var r := StateOf(s.userId, s.questionId, RowOf(s));
            && r == s.(dueAt := r.dueAt, updatedAt := r.updatedAt)
            && s.dueAt - SECOND < r.dueAt <= s.dueAt && s.updatedAt - SECOND < r.updatedAt <= s.updatedAt
  {
  }

  predicate IsDue(table: SrsTable, user: int, question: int, now: Instant) {
    (user, question) in table && table[(user, question)].dueAt <= Unix(now)
  }

  ghost predicate IsDueState(table: SrsTable, user: int, now: Instant, s: State) {
    IsDue(table, user, s.questionId, now) && s == StateOf(user, s.questionId, table[(user, s.questionId)])
  }

  /** Earliest first, no question twice. */
  ghost predicate IsQueue(page: seq<State>) {
    forall i, j :: 0 <= i < j < |page| ==> page[i].questionId != page[j].questionId && page[i].dueAt <= page[j].dueAt
  }

  /** A result of DueForUser: due rows of the user, earliest first, cut off at limit. Ties may come in any order. */
  ghost predicate IsDuePage(table: SrsTable, user: int, now: Instant, limit: nat, page: seq<State>) {
    && (forall s :: s in page ==> IsDueState(table, user, now, s))
    && IsQueue(page)
    && |page| <= limit
    && (forall q :: IsDue(table, user, q, now) && (forall s :: s in page ==> s.questionId != q) ==>
          |page| == limit && forall s :: s in page ==> s.dueAt <= FromUnix(table[(user, q)].dueAt))
  }

  class SrsRepo {
    var rows: SrsTable

    constructor ()
      ensures rows == map[]
    {
      rows := map[];
    }

    method Upsert(s: State)
      modifies this
      ensures rows == old(rows)[(s.userId, s.questionId) := RowOf(s)]
    {
      rows := rows[(s.userId, s.questionId) := RowOf(s)];
    }

    method Get(user: int, question: int) returns (r: Option<State>)
      ensures r.Some? <==> (user, question) in rows
      ensures r.Some? ==> r.value == StateOf(user, question, rows[(user, question)])
    {
      if (user, question) !in rows {
        return None;
      }
      return Some(StateOf(user, question, rows[(user, question)]));
    }

    method DeleteAllForUser(user: int)
      modifies this
      ensures rows == map k | k in old(rows) && k.0 != user :: old(rows)[k]
    {
      rows := map k | k in rows && k.0 != user :: rows[k];
    }
  }
}
