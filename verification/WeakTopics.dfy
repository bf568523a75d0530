/** WeakTopicIDs: the topics a user has answered worst since some time. */
module WeakTopics {
  import opened Srs
  import opened QuizTables
  import opened DueQueue

  function TopicLimit(limit: int): nat {
    if limit <= 0 then 3 else limit
  }

  // ----- A ranking of topics by their rate -----

  /** Higher rate first, then lower topic id. */
  predicate Ahead(rate: int -> real, t: int, u: int) {
    rate(t) > rate(u) || (rate(t) == rate(u) && t < u)
  }

  ghost predicate Ranked(rate: int -> real, page: seq<int>) {
    forall i, j :: 0 <= i < j < |page| ==> Ahead(rate, page[i], page[j])
  }

  /** The first `limit` of the topics, in order. */
  ghost predicate IsTop(rate: int -> real, topics: set<int>, limit: nat, page: seq<int>) {
    && Ranked(rate, page) && |page| <= limit
    && (forall t :: t in page ==> t in topics)
    && (forall t :: t in topics && t !in page ==> |page| == limit && forall u :: u in page ==> Ahead(rate, u, t))
  }

  method InsertTopic(rate: int -> real, page: seq<int>, t: int) returns (r: seq<int>)
    requires Ranked(rate, page) && t !in page
    ensures Ranked(rate, r)
    ensures forall x :: x in r <==> x in page || x == t
  {
    var n := 0;
    while n < |page| && Ahead(rate, page[n], t)
      invariant n <= |page|
      invariant forall i :: 0 <= i < n ==> Ahead(rate, page[i], t)
    {
      n := n + 1;
    }
    r := page[..n] + [t] + page[n..];
    InsertedContents(page, t, n);
  }

  lemma Inhabited(s: set<int>)
    ensures s == {} || exists x :: x in s
  {
    if forall x :: x !in s { assert s == {}; }
  }

  method Top(rate: int -> real, topics: set<int>, limit: nat) returns (page: seq<int>)
    ensures IsTop(rate, topics, limit, page)
  {
    page := [];
    var todo := topics;
    while todo != {}
      invariant todo <= topics && Ranked(rate, page)
      invariant forall t :: t in page <==> t in topics && t !in todo
      decreases todo
    {
      Inhabited(todo);
      var t :| t in todo;
      todo := todo - {t};
      page := InsertTopic(rate, page, t);
    }
    page := FirstTopics(rate, topics, limit, page);
  }

  method FirstTopics(rate: int -> real, topics: set<int>, limit: nat, all: seq<int>) returns (page: seq<int>)
    requires Ranked(rate, all) && forall t :: t in all <==> t in topics
    ensures IsTop(rate, topics, limit, page)
  {
    page := if |all| <= limit then all else all[..limit];
    forall t | t in topics && t !in page
      ensures |page| == limit && forall u :: u in page ==> Ahead(rate, u, t)
    {
      assert forall i :: 0 <= i < |page| ==> page[i] in page;
      var j :| 0 <= j < |all| && all[j] == t;
    }
  }

  lemma SameAt(rate: int -> real, topics: set<int>, limit: nat, p: seq<int>, q: seq<int>, i: nat)
    requires IsTop(rate, topics, limit, p) && IsTop(rate, topics, limit, q)
    requires i < |p| && i < |q| && p[..i] == q[..i]
    ensures !Ahead(rate, p[i], q[i])
  {
    assert p[i] in p && q[i] in q;
    assert forall k :: 0 <= k < i ==> p[k] == p[..i][k] && q[k] == q[..i][k];
    assert forall k :: 0 <= k < i ==> Ahead(rate, p[k], p[i]);
    if p[i] in q {
      var j :| 0 <= j < |q| && q[j] == p[i];
    }
  }

  lemma {:induction false} SamePrefix(rate: int -> real, topics: set<int>, limit: nat, p: seq<int>, q: seq<int>, n: nat)
    requires IsTop(rate, topics, limit, p) && IsTop(rate, topics, limit, q)
    requires n <= |p| && n <= |q|
    ensures p[..n] == q[..n]
    decreases n
  {
    if n > 0 {
      SamePrefix(rate, topics, limit, p, q, n - 1);
      SameAt(rate, topics, limit, p, q, n - 1);
      SameAt(rate, topics, limit, q, p, n - 1);
      assert p[..n] == p[..n - 1] + [p[n - 1]] && q[..n] == q[..n - 1] + [q[n - 1]];
    }
  }

  lemma NotLonger(rate: int -> real, topics: set<int>, limit: nat, p: seq<int>, q: seq<int>)
    requires IsTop(rate, topics, limit, p) && IsTop(rate, topics, limit, q)
    ensures |q| <= |p|
  {
    if |p| < |q| {
      SamePrefix(rate, topics, limit, p, q, |p|);
      var t := q[|p|];
      assert t in q;
      forall i | 0 <= i < |p| ensures p[i] != t {
        assert p[..|p|][i] == q[..|p|][i];
        assert Ahead(rate, q[i], t);
      }
    }
  }

  /** The answer is determined: ties are broken, and nothing weaker is left out. */
  lemma TopUnique(rate: int -> real, topics: set<int>, limit: nat, p: seq<int>, q: seq<int>)
    requires IsTop(rate, topics, limit, p) && IsTop(rate, topics, limit, q)
    ensures p == q
  {
    NotLonger(rate, topics, limit, p, q);
    NotLonger(rate, topics, limit, q, p);
    SamePrefix(rate, topics, limit, p, q, |p|);
    assert p[..|p|] == p && q[..|p|] == q;
  }

  // ----- The ranking by wrong answers -----

  predicate CountsFor(c: Catalog, a: Attempt, user: int, since: Instant, topic: int) {
    && a.userId == user && a.answeredAt >= Unix(since)
    && a.questionId in c.questions && c.questions[a.questionId].topicId == topic
  }

  function Answers(c: Catalog, rows: seq<Attempt>, user: int, since: Instant, topic: int): nat {
    if rows == [] then 0
    else Answers(c, rows[..|rows| - 1], user, since, topic) +
         if CountsFor(c, rows[|rows| - 1], user, since, topic) then 1 else 0
  }

  function Wrong(c: Catalog, rows: seq<Attempt>, user: int, since: Instant, topic: int): (n: nat)
    ensures n <= Answers(c, rows, user, since, topic)
  {
    if rows == [] then 0
    else Wrong(c, rows[..|rows| - 1], user, since, topic) +
         if CountsFor(c, rows[|rows| - 1], user, since, topic) && !rows[|rows| - 1].isCorrect then 1 else 0
  }

  function Rate(c: Catalog, rows: seq<Attempt>, user: int, since: Instant): int -> real {
    (topic: int) =>
      var n := Answers(c, rows, user, since, topic);
      if n == 0 then 0.0 else Wrong(c, rows, user, since, topic) as real / n as real
  }

  /** The topics with a wrong answer. */
  function Missed(c: Catalog, rows: seq<Attempt>, user: int, since: Instant): set<int> {
    set a | a in rows && !a.isCorrect && a.questionId in c.questions && a.userId == user && a.answeredAt >= Unix(since)
      :: c.questions[a.questionId].topicId
  }

  lemma {:induction false} MissedHaveWrong(c: Catalog, rows: seq<Attempt>, user: int, since: Instant, topic: int)
    ensures topic in Missed(c, rows, user, since) <==> Wrong(c, rows, user, since, topic) > 0
  {
    if rows != [] {
      var before, last := rows[..|rows| - 1], rows[|rows| - 1];
      MissedHaveWrong(c, before, user, since, topic);
      assert rows == before + [last];
      if topic in Missed(c, before, user, since) {
        var a :| a in before && !a.isCorrect && CountsFor(c, a, user, since, topic);
        assert a in rows;
      }
      if CountsFor(c, last, user, since, topic) && !last.isCorrect { assert last in rows; }
    }
  }

  method WeakTopicIds(c: Catalog, rows: seq<Attempt>, user: int, since: Instant, limit: int) returns (page: seq<int>)
    ensures IsTop(Rate(c, rows, user, since), Missed(c, rows, user, since),
                  if limit <= 0 then 3 else limit, page)
    ensures forall t :: t in page ==> Wrong(c, rows, user, since, t) > 0
  {
    page := Top(Rate(c, rows, user, since), Missed(c, rows, user, since), TopicLimit(limit));
    forall t | t in page ensures Wrong(c, rows, user, since, t) > 0 {
      MissedHaveWrong(c, rows, user, since, t);
    }
  }

  // ----- What the rate is -----

  predicate WrongFor(c: Catalog, a: Attempt, user: int, since: Instant, topic: int) {
    CountsFor(c, a, user, since, topic) && !a.isCorrect
  }

  /** The rate of a topic is the number of its wrong answers over the number of its answers. */
  lemma {:induction false} RateCounts(c: Catalog, rows: seq<Attempt>, user: int, since: Instant, topic: int)
    ensures Answers(c, rows, user, since, topic)
         == |Where(rows, (a: Attempt) => CountsFor(c, a, user, since, topic))|
    ensures Wrong(c, rows, user, since, topic) == |Where(rows, (a: Attempt) => WrongFor(c, a, user, since, topic))|
  {
    if rows != [] {
      var before, last := rows[..|rows| - 1], rows[|rows| - 1];
      assert rows == before + [last];
      RateCounts(c, before, user, since, topic);
      WhereAppend(before, last, (a: Attempt) => CountsFor(c, a, user, since, topic));
      WhereAppend(before, last, (a: Attempt) => WrongFor(c, a, user, since, topic));
    }
  }

  /** Of two topics with answers the one with the larger share of wrong ones is ahead; on ties the smaller id. */
  lemma AheadIs(c: Catalog, rows: seq<Attempt>, user: int, since: Instant, t: int, u: int)
    requires Answers(c, rows, user, since, t) > 0 && Answers(c, rows, user, since, u) > 0
    ensures var (m, n) := (Wrong(c, rows, user, since, t) * Answers(c, rows, user, since, u),
                           Wrong(c, rows, user, since, u) * Answers(c, rows, user, since, t));
            Ahead(Rate(c, rows, user, since), t, u) <==> m > n || (m == n && t < u)
  {
    CompareShares(Wrong(c, rows, user, since, t), Answers(c, rows, user, since, t),
                  Wrong(c, rows, user, since, u), Answers(c, rows, user, since, u));
  }

  lemma CompareShares(a: nat, b: nat, x: nat, y: nat)
    requires b > 0 && y > 0
    ensures a as real / b as real > x as real / y as real <==> a * y > x * b
    ensures a as real / b as real == x as real / y as real <==> a * y == x * b
  {
    var r, s := a as real / b as real, x as real / y as real;
    assert r * b as real == a as real && s * y as real == x as real;
    var k := b as real * y as real;
    assert (a * y) as real == a as real * y as real == r * k;
    assert (x * b) as real == x as real * b as real == s * k;
  }
}
