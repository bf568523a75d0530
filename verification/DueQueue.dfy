/** The queries on srs_states: which reviews are due, and how many. */
module DueQueue {
  import opened Srs
  import opened QuizTables

  const DEFAULT_LIMIT: nat := 50

  function PageLimit(limit: int): nat {
    if limit <= 0 then DEFAULT_LIMIT else limit
  }

  predicate Has(page: seq<State>, question: int) {
    exists s :: s in page && s.questionId == question
  }

  method InsertByDue(page: seq<State>, s: State) returns (r: seq<State>)
    requires IsQueue(page) && !Has(page, s.questionId)
    ensures IsQueue(r)
    ensures forall x :: x in r <==> x in page || x == s
  {
    var n := 0;
    while n < |page| && page[n].dueAt <= s.dueAt
      invariant n <= |page|
      invariant forall i :: 0 <= i < n ==> page[i].dueAt <= s.dueAt
    {
      n := n + 1;
    }
    r := page[..n] + [s] + page[n..];
    InsertedContents(page, s, n);
  }

  lemma InsertedContents<T>(page: seq<T>, x: T, n: nat)
    requires n <= |page|
    ensures forall y :: y in page[..n] + [x] + page[n..] <==> y in page || y == x
  {
    assert page == page[..n] + page[n..];
  }

  method DueForUser(rows: SrsTable, user: int, now: Instant, limit: int) returns (page: seq<State>)
    ensures IsDuePage(rows, user, now, if limit <= 0 then 50 else limit, page)
  {
    page := [];
    var todo := rows.Keys;
    while todo != {}
      invariant todo <= rows.Keys && IsQueue(page)
      invariant forall s :: s in page ==> IsDueState(rows, user, now, s) && (user, s.questionId) !in todo
      invariant forall q :: IsDue(rows, user, q, now) && (user, q) !in todo ==> Has(page, q)
      decreases todo
    {
      var k :| k in todo;
      todo := todo - {k};
      if k.0 == user && rows[k].dueAt <= Unix(now) {
        assert IsDue(rows, user, k.1, now);
        var s := StateOf(user, k.1, rows[k]);
        ghost var before := page;
        page := InsertByDue(page, s);
        forall q | IsDue(rows, user, q, now) && (user, q) !in todo ensures Has(page, q) {
          if q == k.1 {
            assert s in page;
          } else {
            assert Has(before, q);
          }
        }
      }
    }
    page := FirstRows(rows, user, now, page, PageLimit(limit));
  }

  method FirstRows(rows: SrsTable, user: int, now: Instant, all: seq<State>, limit: nat) returns (page: seq<State>)
    requires IsQueue(all) && forall s :: s in all ==> IsDueState(rows, user, now, s)
    requires forall q :: IsDue(rows, user, q, now) ==> Has(all, q)
    ensures IsDuePage(rows, user, now, limit, page)
  {
    page := if |all| <= limit then all else all[..limit];
    forall q | IsDue(rows, user, q, now) && (forall s :: s in page ==> s.questionId != q)
      ensures |page| == limit && forall s :: s in page ==> s.dueAt <= FromUnix(rows[(user, q)].dueAt)
    {
      assert forall i :: 0 <= i < |page| ==> page[i] in page;
      var t :| t in all && t.questionId == q;
      var j :| 0 <= j < |all| && all[j] == t;
      assert IsDueState(rows, user, now, t);
    }
  }

  function DueIds(rows: SrsTable, user: int, now: Instant): set<int> {
    set k | k in rows && k.0 == user && rows[k].dueAt <= Unix(now) :: k.1
  }

  method CountDueForUser(rows: SrsTable, user: int, now: Instant) returns (n: nat)
    ensures n == |DueIds(rows, user, now)|
  {
    n := 0;
    var todo := rows.Keys;
    while todo != {}
      invariant todo <= rows.Keys
      invariant n == |DueIds(rows, user, now) - IdsIn(todo, user)|
      decreases todo
    {
      var k :| k in todo;
      OneLess(rows, user, now, todo, k);
      todo := todo - {k};
      if k.0 == user && rows[k].dueAt <= Unix(now) {
        n := n + 1;
      }
    }
    assert DueIds(rows, user, now) - IdsIn({}, user) == DueIds(rows, user, now);
  }

  function IdsIn(keys: set<(int, int)>, user: int): set<int> {
    set k | k in keys && k.0 == user :: k.1
  }

  lemma OneLess(rows: SrsTable, user: int, now: Instant, todo: set<(int, int)>, k: (int, int))
    requires todo <= rows.Keys && k in todo
    ensures |DueIds(rows, user, now) - IdsIn(todo - {k}, user)|
         == |DueIds(rows, user, now) - IdsIn(todo, user)| + if k.0 == user && rows[k].dueAt <= Unix(now) then 1 else 0
  {
    var due, before, after := DueIds(rows, user, now), IdsIn(todo, user), IdsIn(todo - {k}, user);
    if k.0 == user {
      assert before == after + {k.1};
      assert k.1 !in after;
      if rows[k].dueAt <= Unix(now) {
        assert k.1 in due;
        assert due - after == (due - before) + {k.1};
      } else {
        assert k.1 !in due;
        assert due - after == due - before;
      }
    } else {
      assert before == after;
    }
  }

  function IdsOf(page: seq<State>): set<int> {
    set s | s in page :: s.questionId
  }

  lemma {:induction false} DistinctIds(page: seq<State>)
    requires IsQueue(page)
    ensures |IdsOf(page)| == |page|
  {
    if page != [] {
      var before, last := page[..|page| - 1], page[|page| - 1];
      DistinctIds(before);
      assert page == before + [last];
      assert IdsOf(page) == IdsOf(before) + {last.questionId};
      forall s | s in before ensures s.questionId != last.questionId {
        var i :| 0 <= i < |before| && before[i] == s;
        assert page[i] == s;
      }
    }
  }

  /** The page and the count agree: the page is as long as the count, up to its limit. */
  lemma PageLengthIsCount(rows: SrsTable, user: int, now: Instant, limit: nat, page: seq<State>)
    requires IsDuePage(rows, user, now, limit, page)
    ensures |page| == if |DueIds(rows, user, now)| <= limit then |DueIds(rows, user, now)| else limit
  {
    var due, shown := DueIds(rows, user, now), IdsOf(page);
    DistinctIds(page);
    forall q | q in shown ensures q in due {
      var s :| s in page && s.questionId == q;
      assert IsDueState(rows, user, now, s);
      assert (user, q) in rows;
    }
    Subset(shown, due);
    if |page| < limit {
      forall q | q in due ensures q in shown {
        assert IsDue(rows, user, q, now);
      }
      assert shown == due;
    }
  }

  lemma {:induction false} Subset(a: set<int>, b: set<int>)
    requires a <= b
    ensures |a| <= |b|
  {
    assert b == a + (b - a);
  }
}
