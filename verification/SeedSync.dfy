/** seed.Sync: brings the question tables to the bank compiled into the program. Tables are maps keyed by their
    UNIQUE code; the id column is what other tables refer to. */
module SeedSync {
  import opened QuizTables
  import QuizService
  import opened Wrappers

  datatype Row<+V> = Row(id: int, value: V)

  type Table<V> = map<string, Row<V>>

  datatype TopicInfo = TopicInfo(name: string, ord: int)
  datatype SetInfo = SetInfo(name: string, description: string, targetSize: int)

  /** content stands for all the columns the upsert overwrites besides the topic. */
  datatype QuestionInfo = QuestionInfo(topicId: int, content: string, createdAt: int)

  datatype Db = Db(topics: Table<TopicInfo>, sets: Table<SetInfo>, questions: Table<QuestionInfo>,
                   members: map<(int, int), int>, srs: SrsTable, attempts: seq<Attempt>)

  datatype Seed<+V> = Seed(code: string, value: V)

  datatype QuestionSeed = QuestionSeed(code: string, topicCode: string, content: string, sets: seq<string>)

  datatype Bank = Bank(topics: seq<Seed<TopicInfo>>, sets: seq<Seed<SetInfo>>, questions: seq<QuestionSeed>)

  /** How the storage chooses the id of a new row from the ids in use. */
  type Allocator = set<int> -> int

  ghost predicate Fresh(alloc: Allocator) {
    forall ids :: alloc(ids) !in ids
  }

  function IdsOf<V>(t: Table<V>): set<int> {
    set code | code in t :: t[code].id
  }

  function IdFor<V>(alloc: Allocator, t: Table<V>, code: string): int {
    if code in t then t[code].id else alloc(IdsOf(t))
  }

  // ----- Upserts -----

  /** INSERT ... ON CONFLICT(code) DO UPDATE: an existing row keeps its id. */
  function Upsert<V>(alloc: Allocator, t: Table<V>, s: Seed<V>): Table<V> {
    t[s.code := Row(IdFor(alloc, t, s.code), s.value)]
  }

  function UpsertAll<V>(alloc: Allocator, t: Table<V>, seeds: seq<Seed<V>>): Table<V> {
    if seeds == [] then t else Upsert(alloc, UpsertAll(alloc, t, seeds[..|seeds| - 1]), seeds[|seeds| - 1])
  }

  /** The created_at of an existing question survives. */
  function UpsertQuestionRow(alloc: Allocator, db: Db, q: QuestionSeed, now: int): Table<QuestionInfo>
    requires q.topicCode in db.topics
  {
    var created := if q.code in db.questions then db.questions[q.code].value.createdAt else now;
    Upsert(alloc, db.questions, Seed(q.code, QuestionInfo(db.topics[q.topicCode].id, q.content, created)))
  }

  /** INSERT ... ON CONFLICT DO NOTHING for each set of the question. */
  function AddMembers(sets: Table<SetInfo>, members: map<(int, int), int>, codes: seq<string>, id: int): map<(int,
      int), int>
    requires forall i :: 0 <= i < |codes| ==> codes[i] in sets
  {
    if codes == [] then members
    else
      var before := AddMembers(sets, members, codes[..|codes| - 1], id);
      var key := (sets[codes[|codes| - 1]].id, id);
      if key in before then before else before[key := 0]
  }

  predicate Resolves(db: Db, q: QuestionSeed) {
    q.topicCode in db.topics && forall i :: 0 <= i < |q.sets| ==> q.sets[i] in db.sets
  }

  function UpsertQuestion(alloc: Allocator, db: Db, q: QuestionSeed, now: int): Db
    requires Resolves(db, q)
  {
    var questions := UpsertQuestionRow(alloc, db, q, now);
    db.(questions := questions, members := AddMembers(db.sets, db.members, q.sets, questions[q.code].id))
  }

  /** None when a question names a topic or a set that does not exist. */
  function UpsertQuestions(alloc: Allocator, db: Db, qs: seq<QuestionSeed>, now: int): (r: Option<Db>)
    ensures r.Some? ==> r.value.topics == db.topics && r.value.sets == db.sets
    ensures r.Some? ==> r.value.srs == db.srs && r.value.attempts == db.attempts
  {
    if qs == [] then Some(db)
    else
      var before := UpsertQuestions(alloc, db, qs[..|qs| - 1], now);
      if before.None? || !Resolves(before.value, qs[|qs| - 1]) then None
      else Some(UpsertQuestion(alloc, before.value, qs[|qs| - 1], now))
  }

  predicate InBank(qs: seq<QuestionSeed>, code: string) {
    exists i :: 0 <= i < |qs| && qs[i].code == code
  }

  function StaleIds(db: Db, qs: seq<QuestionSeed>): set<int> {
    set code | code in db.questions && !InBank(qs, code) :: db.questions[code].id
  }

  /** Takes questions that left the bank out of their sets and drops their SRS rows. */
  function Retire(db: Db, qs: seq<QuestionSeed>): Db {
    var stale := StaleIds(db, qs);
    db.(members := map k | k in db.members && k.1 !in stale :: db.members[k],
        srs := map k | k in db.srs && k.1 !in stale :: db.srs[k])
  }

  function WithTopicsAndSets(alloc: Allocator, db: Db, bank: Bank): Db {
    db.(topics := UpsertAll(alloc, db.topics, bank.topics), sets := UpsertAll(alloc, db.sets, bank.sets))
  }

  /** What a Sync without storage errors leaves, or None when it refuses. */
  function Synced(alloc: Allocator, db: Db, bank: Bank, now: int): Option<Db> {
    var r := UpsertQuestions(alloc, WithTopicsAndSets(alloc, db, bank), bank.questions, now);
    if r.None? then None else Some(Retire(r.value, bank.questions))
  }

  // ----- The procedure, in one transaction -----

  class Database {
    var db: Db
    var budget: Option<nat>  // statements the storage still accepts; None when it never fails

    constructor (db: Db, budget: Option<nat>)
      ensures this.db == db && this.budget == budget
    {
      this.db, this.budget := db, budget;
    }

    /** One statement reaching the storage. */
    method Exec() returns (ok: bool)
      modifies this`budget
      ensures old(budget).None? ==> ok && budget.None?
    {
      if budget.None? {
        return true;
      }
      if budget.value == 0 {
        return false;
      }
      budget := Some(budget.value - 1);
      return true;
    }

    /** Any error rolls the transaction back. */
    method Sync(alloc: Allocator, bank: Bank, now: int) returns (ok: bool)
      modifies this
      ensures ok ==> Synced(alloc, old(db), bank, now) == Some(db)
      ensures !ok ==> db == old(db)
      ensures old(budget).None? ==> (ok <==> Synced(alloc, old(db), bank, now).Some?)
    {
      ok := Exec();
      if !ok {
        return;
      }
      var saved := db;
      ok := Body(alloc, bank, now);
      if ok {
        ok := Exec();
      }
      if !ok {
        db := saved;
      }
    }

    method Body(alloc: Allocator, bank: Bank, now: int) returns (ok: bool)
      modifies this
      ensures ok ==> Synced(alloc, old(db), bank, now) == Some(db)
      ensures old(budget).None? ==> budget.None? && (ok <==> Synced(alloc, old(db), bank, now).Some?)
    {
      ok := UpsertTopicsTx(alloc, bank.topics);
      if !ok {
        return;
      }
      ok := UpsertSetsTx(alloc, bank.sets);
      if !ok {
        return;
      }
      ok := UpsertQuestionsTx(alloc, bank.questions, now);
      if !ok {
        return;
      }
      ok := RetireStaleQuestionsTx(bank.questions);
    }

    method UpsertTopicsTx(alloc: Allocator, topics: seq<Seed<TopicInfo>>) returns (ok: bool)
      modifies this
      ensures ok ==> db == old(db).(topics := UpsertAll(alloc, old(db).topics, topics))
      ensures old(budget).None? ==> ok && budget.None?
    {
      for i := 0 to |topics|
        invariant db == old(db).(topics := UpsertAll(alloc, old(db).topics, topics[..i]))
        invariant old(budget).None? ==> budget.None?
      {
        assert topics[..i + 1][..i] == topics[..i];
        ok := Exec();
        if !ok {
          return;
        }
        db := db.(topics := Upsert(alloc, db.topics, topics[i]));
      }
      assert topics[..|topics|] == topics;
      return true;
    }

    method UpsertSetsTx(alloc: Allocator, sets: seq<Seed<SetInfo>>) returns (ok: bool)
      modifies this
      ensures ok ==> db == old(db).(sets := UpsertAll(alloc, old(db).sets, sets))
      ensures old(budget).None? ==> ok && budget.None?
    {
      for i := 0 to |sets|
        invariant db == old(db).(sets := UpsertAll(alloc, old(db).sets, sets[..i]))
        invariant old(budget).None? ==> budget.None?
      {
        assert sets[..i + 1][..i] == sets[..i];
        ok := Exec();
        if !ok {
          return;
        }
        db := db.(sets := Upsert(alloc, db.sets, sets[i]));
      }
      assert sets[..|sets|] == sets;
      return true;
    }

    method UpsertQuestionsTx(alloc: Allocator, qs: seq<QuestionSeed>, now: int) returns (ok: bool)
      modifies this
      ensures ok ==> UpsertQuestions(alloc, old(db), qs, now) == Some(db)
      ensures old(budget).None? ==> budget.None? && (ok <==> UpsertQuestions(alloc, old(db), qs, now).Some?)
    {
      for i := 0 to |qs|
        invariant UpsertQuestions(alloc, old(db), qs[..i], now) == Some(db)
        invariant old(budget).None? ==> budget.None?
      {
        assert qs[..i + 1][..i] == qs[..i];
        if !Resolves(db, qs[i]) { PrefixFails(alloc, old(db), qs, i + 1, now); }
        ok := UpsertOneTx(alloc, qs[i], now);
        if !ok {
          return;
        }
      }
      assert qs[..|qs|] == qs;
      return true;
    }

    /** Looks the topic up, upserts the row, reads its id, looks each set up and adds the membership. */
    method UpsertOneTx(alloc: Allocator, q: QuestionSeed, now: int) returns (ok: bool)
      modifies this
      ensures ok ==> Resolves(old(db), q) && db == UpsertQuestion(alloc, old(db), q, now)
      ensures old(budget).None? ==> budget.None? && (ok <==> Resolves(old(db), q))
    {
      ok := Exec();
      if !ok || q.topicCode !in db.topics {
        return false;
      }
      ok := Exec();
      if !ok {
        return;
      }
      db := db.(questions := UpsertQuestionRow(alloc, db, q, now));
      ok := Exec();
      if !ok {
        return;
      }
      var id := db.questions[q.code].id;
      for i := 0 to |q.sets|
        invariant forall j :: 0 <= j < i ==> q.sets[j] in old(db).sets
        invariant db == old(db).(questions := UpsertQuestionRow(alloc, old(db), q, now),
                                 members := AddMembers(old(db).sets, old(db).members, q.sets[..i], id))
        invariant old(budget).None? ==> budget.None?
      {
        assert q.sets[..i + 1][..i] == q.sets[..i];
        ok := Exec();
        if !ok || q.sets[i] !in db.sets {
          return false;
        }
        ok := Exec();
        if !ok {
          return;
        }
        var key := (db.sets[q.sets[i]].id, id);
        if key !in db.members {
          db := db.(members := db.members[key := 0]);
        }
      }
      assert q.sets[..|q.sets|] == q.sets;
      return true;
    }

    method RetireStaleQuestionsTx(qs: seq<QuestionSeed>) returns (ok: bool)
      modifies this
      ensures ok ==> db == Retire(old(db), qs)
      ensures old(budget).None? ==> ok && budget.None?
    {
      var stale := StaleIds(db, qs);
      ok := Exec();
      if !ok {
        return;
      }
      db := db.(members := map k | k in db.members && k.1 !in stale :: db.members[k]);
      ok := Exec();
      if !ok {
        return;
      }
      db := db.(srs := map k | k in db.srs && k.1 !in stale :: db.srs[k]);
    }
  }

  lemma {:induction false} PrefixFails(alloc: Allocator, db: Db, qs: seq<QuestionSeed>, n: nat, now: int)
    requires n <= |qs| && UpsertQuestions(alloc, db, qs[..n], now).None?
    ensures UpsertQuestions(alloc, db, qs, now).None?
    decreases |qs|
  {
    if n == |qs| {
      assert qs[..n] == qs;
    } else {
      assert qs[..|qs| - 1][..n] == qs[..n];
      PrefixFails(alloc, db, qs[..|qs| - 1], n, now);
    }
  }

  // ----- One table -----

  ghost predicate UniqueIds<V>(t: Table<V>) {
    forall c, c' :: c in t && c' in t && c != c' ==> t[c].id != t[c'].id
  }

  ghost predicate DistinctCodes<V>(seeds: seq<Seed<V>>) {
    forall i, j :: 0 <= i < j < |seeds| ==> seeds[i].code != seeds[j].code
  }

  ghost predicate Matches<V>(t: Table<V>, seeds: seq<Seed<V>>) {
    forall i :: 0 <= i < |seeds| ==> seeds[i].code in t && t[seeds[i].code].value == seeds[i].value
  }

  predicate Seeded<V>(seeds: seq<Seed<V>>, code: string) {
    exists i :: 0 <= i < |seeds| && seeds[i].code == code
  }

  lemma UpsertKeepsUnique<V>(alloc: Allocator, t: Table<V>, s: Seed<V>)
    requires Fresh(alloc) && UniqueIds(t)
    ensures UniqueIds(Upsert(alloc, t, s))
  {
    forall c | c in t ensures t[c].id in IdsOf(t) {}
  }

  /** Rows the seeds do not name are untouched, ids survive, and with distinct codes every seed is in place. */
  lemma {:induction false} UpsertAllResult<V>(alloc: Allocator, t: Table<V>, seeds: seq<Seed<V>>)
    requires Fresh(alloc) && UniqueIds(t)
    ensures var t' := UpsertAll(alloc, t, seeds);
            && UniqueIds(t')
            && (forall c :: c in t' <==> c in t || Seeded(seeds, c))
            && (forall c :: c in t ==> t'[c].id == t[c].id)
            && (forall c :: c in t && !Seeded(seeds, c) ==> t'[c] == t[c])
    ensures DistinctCodes(seeds) ==> Matches(UpsertAll(alloc, t, seeds), seeds)
  {
    if seeds != [] {
      var before, last := seeds[..|seeds| - 1], seeds[|seeds| - 1];
      UpsertAllResult(alloc, t, before);
      UpsertKeepsUnique(alloc, UpsertAll(alloc, t, before), last);
      SeededSnoc(before, last);
      assert seeds == before + [last];
      if DistinctCodes(seeds) { MatchesSnoc(alloc, UpsertAll(alloc, t, before), before, last); }
    }
  }

  lemma SeededSnoc<V>(before: seq<Seed<V>>, last: Seed<V>)
    ensures forall c :: Seeded(before + [last], c) <==> Seeded(before, c) || c == last.code
  {
    forall c ensures Seeded(before + [last], c) <==> Seeded(before, c) || c == last.code {
      if Seeded(before, c) {
        var i :| 0 <= i < |before| && before[i].code == c;
        assert (before + [last])[i].code == c;
      }
      if c == last.code { assert (before + [last])[|before|].code == c; }
    }
  }

  lemma MatchesSnoc<V>(alloc: Allocator, t: Table<V>, before: seq<Seed<V>>, last: Seed<V>)
    requires DistinctCodes(before + [last]) && (DistinctCodes(before) ==> Matches(t, before))
    ensures Matches(Upsert(alloc, t, last), before + [last])
  {
    var all := before + [last];
    assert DistinctCodes(before) by {
      forall i, j | 0 <= i < j < |before| ensures before[i].code != before[j].code {
        assert all[i].code != all[j].code;
      }
    }
    forall i | 0 <= i < |before| ensures before[i].code != last.code {
      assert all[i].code != all[|before|].code;
    }
  }

  lemma {:induction false} UpsertAllNothing<V>(alloc: Allocator, t: Table<V>, seeds: seq<Seed<V>>)
    requires Matches(t, seeds)
    ensures UpsertAll(alloc, t, seeds) == t
  {
    if seeds != [] {
      var before, last := seeds[..|seeds| - 1], seeds[|seeds| - 1];
      assert Matches(t, before);
      UpsertAllNothing(alloc, t, before);
      assert last.code in t && t[last.code].value == last.value;
      assert t[last.code := t[last.code]] == t;
    }
  }

  // ----- The question rows -----

  ghost predicate DistinctQuestions(qs: seq<QuestionSeed>) {
    forall i, j :: 0 <= i < j < |qs| ==> qs[i].code != qs[j].code
  }

  /** The row of q is as the bank has it. */
  predicate InPlace(topics: Table<TopicInfo>, questions: Table<QuestionInfo>, q: QuestionSeed) {
    && q.topicCode in topics && q.code in questions
    && questions[q.code].value.topicId == topics[q.topicCode].id && questions[q.code].value.content == q.content
  }

  /** Rows outside the bank are untouched; ids and creation times survive everywhere. */
  ghost predicate RowsKept(old_: Table<QuestionInfo>, new_: Table<QuestionInfo>, qs: seq<QuestionSeed>) {
    && (forall c :: c in new_ <==> c in old_ || InBank(qs, c))
    && (forall c :: c in old_ ==> new_[c].id == old_[c].id && new_[c].value.createdAt == old_[c].value.createdAt)
    && (forall c :: c in old_ && !InBank(qs, c) ==> new_[c] == old_[c])
  }

  lemma InBankSnoc(before: seq<QuestionSeed>, last: QuestionSeed)
    ensures forall c :: InBank(before + [last], c) <==> InBank(before, c) || c == last.code
  {
    forall c ensures InBank(before + [last], c) <==> InBank(before, c) || c == last.code {
      if InBank(before, c) {
        var i :| 0 <= i < |before| && before[i].code == c;
        assert (before + [last])[i].code == c;
      }
      if c == last.code { assert (before + [last])[|before|].code == c; }
    }
  }

  lemma {:induction false} QuestionRows(alloc: Allocator, db: Db, qs: seq<QuestionSeed>, now: int)
    requires Fresh(alloc) && UniqueIds(db.questions)
    requires UpsertQuestions(alloc, db, qs, now).Some?
    ensures var r := UpsertQuestions(alloc, db, qs, now).value;
            UniqueIds(r.questions) && RowsKept(db.questions, r.questions, qs)
  {
    if qs != [] {
      var before, last := qs[..|qs| - 1], qs[|qs| - 1];
      QuestionRows(alloc, db, before, now);
      var b := UpsertQuestions(alloc, db, before, now).value;
      assert qs == before + [last];
      InBankSnoc(before, last);
      var created := if last.code in b.questions then b.questions[last.code].value.createdAt else now;
      var info := QuestionInfo(b.topics[last.topicCode].id, last.content, created);
      UpsertKeepsUnique(alloc, b.questions, Seed(last.code, info));
    }
  }

  lemma {:induction false} QuestionsInPlace(alloc: Allocator, db: Db, qs: seq<QuestionSeed>, now: int)
    requires DistinctQuestions(qs) && UpsertQuestions(alloc, db, qs, now).Some?
    ensures forall i :: 0 <= i < |qs| ==> InPlace(db.topics, UpsertQuestions(alloc, db, qs, now).value.questions, qs[i])
  {
    if qs != [] {
      QuestionsInPlace(alloc, db, qs[..|qs| - 1], now);
      var b := UpsertQuestions(alloc, db, qs[..|qs| - 1], now).value;
      forall i | 0 <= i < |qs| - 1 ensures InPlace(db.topics, b.questions, qs[i]) {
        assert qs[..|qs| - 1][i] == qs[i];
      }
    }
  }

  lemma {:induction false} ResolvesExactly(alloc: Allocator, db: Db, qs: seq<QuestionSeed>, now: int)
    ensures UpsertQuestions(alloc, db, qs, now).Some? <==> forall i :: 0 <= i < |qs| ==> Resolves(db, qs[i])
  {
    if qs != [] {
      var before := qs[..|qs| - 1];
      ResolvesExactly(alloc, db, before, now);
      assert forall i :: 0 <= i < |before| ==> before[i] == qs[i];
    }
  }

  // ----- The memberships -----

  /** The bank puts the key's question into the key's set. */
  ghost predicate Belongs(sets: Table<SetInfo>, questions: Table<QuestionInfo>, qs: seq<QuestionSeed>,
      key: (int, int)) {
    exists i :: 0 <= i < |qs| && BelongsBy(sets, questions, qs[i], key)
  }

  ghost predicate BelongsBy(sets: Table<SetInfo>, questions: Table<QuestionInfo>, q: QuestionSeed, key: (int, int)) {
    q.code in questions && key.1 == questions[q.code].id && OneOfSets(sets, q.sets, key.0)
  }

  ghost predicate OneOfSets(sets: Table<SetInfo>, codes: seq<string>, id: int) {
    exists j :: 0 <= j < |codes| && codes[j] in sets && sets[codes[j]].id == id
  }

  lemma {:induction false} AddMembersResult(sets: Table<SetInfo>, members: map<(int, int), int>, codes: seq<string>,
      id: int, key: (int, int))
    requires forall i :: 0 <= i < |codes| ==> codes[i] in sets
    ensures var m := AddMembers(sets, members, codes, id);
            && (key in m <==> key in members || (key.1 == id && OneOfSets(sets, codes, key.0)))
            && (key in members ==> m[key] == members[key])
            && (key in m && key !in members ==> m[key] == 0)
  {
    if codes != [] {
      AddMembersResult(sets, members, codes[..|codes| - 1], id, key);
    }
  }

  lemma BelongsSnoc(sets: Table<SetInfo>, questions: Table<QuestionInfo>, qs: seq<QuestionSeed>, key: (int, int))
    requires qs != []
    ensures Belongs(sets, questions, qs, key) <==>
            Belongs(sets, questions, qs[..|qs| - 1], key) || BelongsBy(sets, questions, qs[|qs| - 1], key)
  {
    var before := qs[..|qs| - 1];
    if Belongs(sets, questions, before, key) {
      var i :| 0 <= i < |before| && BelongsBy(sets, questions, before[i], key);
      assert qs[i] == before[i];
    }
    if Belongs(sets, questions, qs, key) {
      var i :| 0 <= i < |qs| && BelongsBy(sets, questions, qs[i], key);
      if i < |before| { assert before[i] == qs[i]; }
    }
  }

  lemma {:induction false} MembersResult(alloc: Allocator, db: Db, qs: seq<QuestionSeed>, now: int, key: (int, int))
    requires Fresh(alloc) && UniqueIds(db.questions)
    requires UpsertQuestions(alloc, db, qs, now).Some?
    ensures var r := UpsertQuestions(alloc, db, qs, now).value;
            && (key in r.members <==> key in db.members || Belongs(db.sets, r.questions, qs, key))
            && (key in db.members ==> r.members[key] == db.members[key])
            && (key in r.members && key !in db.members ==> r.members[key] == 0)
  {
    if qs != [] {
      var before, last := qs[..|qs| - 1], qs[|qs| - 1];
      MembersResult(alloc, db, before, now, key);
      QuestionRows(alloc, db, before, now);
      var b := UpsertQuestions(alloc, db, before, now).value;
      var r := UpsertQuestion(alloc, b, last, now);
      AddMembersResult(db.sets, b.members, last.sets, r.questions[last.code].id, key);
      forall i | 0 <= i < |before| ensures before[i].code in b.questions { assert InBank(before, before[i].code); }
      BelongsSnoc(db.sets, r.questions, qs, key);
    }
  }

  // ----- Sync as a whole -----

  /** The id columns are primary keys. */
  ghost predicate Keyed(db: Db) {
    UniqueIds(db.topics) && UniqueIds(db.sets) && UniqueIds(db.questions)
  }

  /** No code appears twice in the bank. */
  ghost predicate WellFormedBank(bank: Bank) {
    DistinctCodes(bank.topics) && DistinctCodes(bank.sets) && DistinctQuestions(bank.questions)
  }

  /** Every row the bank names is as the bank has it. */
  ghost predicate RowsMatch(db: Db, bank: Bank) {
    && Matches(db.topics, bank.topics) && Matches(db.sets, bank.sets)
    && forall i :: 0 <= i < |bank.questions| ==> InPlace(db.topics, db.questions, bank.questions[i])
  }

  /** The questions of a set are the bank's, and those it had before that are still in the bank. */
  ghost predicate MembersMatch(before: Db, db: Db, bank: Bank) {
    forall key ::
      && (key in db.members <==>
            (key in before.members && key.1 !in StaleIds(db, bank.questions))
            || Belongs(db.sets, db.questions, bank.questions, key))
      && (key in db.members ==> db.members[key] == if key in before.members then before.members[key] else 0)
  }

  /** Retired questions have no SRS row; all other SRS rows survive. */
  ghost predicate SrsMatch(before: Db, db: Db, bank: Bank) {
    && (forall key :: key in db.srs <==> key in before.srs && key.1 !in StaleIds(db, bank.questions))
    && (forall key :: key in db.srs ==> db.srs[key] == before.srs[key])
  }

  /** A table that only gains the codes of the bank: ids survive, rows outside the bank are untouched. */
  ghost predicate TableKept<V>(t: Table<V>, t': Table<V>, seeds: seq<Seed<V>>) {
    && (forall c :: c in t' <==> c in t || Seeded(seeds, c))
    && (forall c :: c in t ==> t'[c].id == t[c].id)
    && (forall c :: c in t && !Seeded(seeds, c) ==> t'[c] == t[c])
  }

  ghost predicate Kept(before: Db, db: Db, bank: Bank) {
    && TableKept(before.topics, db.topics, bank.topics) && TableKept(before.sets, db.sets, bank.sets)
    && RowsKept(before.questions, db.questions, bank.questions)
    && db.attempts == before.attempts
    && Keyed(db)
  }

  lemma StageResult(alloc: Allocator, db: Db, bank: Bank, now: int)
    requires Fresh(alloc) && Keyed(db) && Synced(alloc, db, bank, now).Some?
    ensures var staged := WithTopicsAndSets(alloc, db, bank);
            && Keyed(staged) && UpsertQuestions(alloc, staged, bank.questions, now).Some?
            && TableKept(db.topics, staged.topics, bank.topics) && TableKept(db.sets, staged.sets, bank.sets)
            && (WellFormedBank(bank) ==> Matches(staged.topics, bank.topics) && Matches(staged.sets, bank.sets))
  {
    UpsertAllResult(alloc, db.topics, bank.topics);
    UpsertAllResult(alloc, db.sets, bank.sets);
  }

  lemma SyncKeeps(alloc: Allocator, db: Db, bank: Bank, now: int)
    requires Fresh(alloc) && Keyed(db) && Synced(alloc, db, bank, now).Some?
    ensures Kept(db, Synced(alloc, db, bank, now).value, bank)
  {
    StageResult(alloc, db, bank, now);
    QuestionRows(alloc, WithTopicsAndSets(alloc, db, bank), bank.questions, now);
  }

  lemma SyncRowsMatch(alloc: Allocator, db: Db, bank: Bank, now: int)
    requires Fresh(alloc) && Keyed(db) && WellFormedBank(bank) && Synced(alloc, db, bank, now).Some?
    ensures RowsMatch(Synced(alloc, db, bank, now).value, bank)
  {
    StageResult(alloc, db, bank, now);
    QuestionsInPlace(alloc, WithTopicsAndSets(alloc, db, bank), bank.questions, now);
  }

  /** No membership the bank wants is retired. */
  lemma BelongsIsNotStale(db: Db, bank: Bank, key: (int, int))
    requires UniqueIds(db.questions) && Belongs(db.sets, db.questions, bank.questions, key)
    ensures key.1 !in StaleIds(db, bank.questions)
  {
    var i :| 0 <= i < |bank.questions| && BelongsBy(db.sets, db.questions, bank.questions[i], key);
    assert InBank(bank.questions, bank.questions[i].code);
  }

  lemma SyncMembersMatch(alloc: Allocator, db: Db, bank: Bank, now: int)
    requires Fresh(alloc) && Keyed(db) && Synced(alloc, db, bank, now).Some?
    ensures MembersMatch(db, Synced(alloc, db, bank, now).value, bank)
    ensures SrsMatch(db, Synced(alloc, db, bank, now).value, bank)
  {
    StageResult(alloc, db, bank, now);
    var staged, qs := WithTopicsAndSets(alloc, db, bank), bank.questions;
    var r := UpsertQuestions(alloc, staged, qs, now).value;
    var final := Retire(r, qs);
    QuestionRows(alloc, staged, qs, now);
    assert StaleIds(final, qs) == StaleIds(r, qs);
    forall key
      ensures key in final.members <==>
                (key in db.members && key.1 !in StaleIds(final, qs)) || Belongs(final.sets, final.questions, qs, key)
      ensures key in final.members ==> final.members[key] == if key in db.members then db.members[key] else 0
    {
      MembersResult(alloc, staged, qs, now, key);
      if Belongs(final.sets, final.questions, qs, key) { BelongsIsNotStale(final, bank, key); }
    }
  }

  /** After a Sync the tables hold exactly what the bank says, and nothing else has changed. */
  lemma SyncConverges(alloc: Allocator, db: Db, bank: Bank, now: int)
    requires Fresh(alloc) && Keyed(db) && WellFormedBank(bank) && Synced(alloc, db, bank, now).Some?
    ensures var after := Synced(alloc, db, bank, now).value;
            && RowsMatch(after, bank) && MembersMatch(db, after, bank)
            && SrsMatch(db, after, bank) && Kept(db, after, bank)
  {
    SyncKeeps(alloc, db, bank, now);
    SyncRowsMatch(alloc, db, bank, now);
    SyncMembersMatch(alloc, db, bank, now);
  }

  /** Sync refuses exactly when a question of the bank names a topic or a set that neither the bank nor the
      database has. */
  lemma SyncSucceedsExactly(alloc: Allocator, db: Db, bank: Bank, now: int)
    requires Fresh(alloc) && Keyed(db)
    ensures Synced(alloc, db, bank, now).Some? <==>
            forall i :: 0 <= i < |bank.questions| ==>
              && (bank.questions[i].topicCode in db.topics || Seeded(bank.topics, bank.questions[i].topicCode))
              && (forall j :: 0 <= j < |bank.questions[i].sets| ==>
                    bank.questions[i].sets[j] in db.sets || Seeded(bank.sets, bank.questions[i].sets[j]))
  {
    UpsertAllResult(alloc, db.topics, bank.topics);
    UpsertAllResult(alloc, db.sets, bank.sets);
    ResolvesExactly(alloc, WithTopicsAndSets(alloc, db, bank), bank.questions, now);
  }

  lemma {:induction false} NewQuestionsDated(alloc: Allocator, db: Db, qs: seq<QuestionSeed>, now: int, code: string)
    requires UpsertQuestions(alloc, db, qs, now).Some? && code !in db.questions
    ensures code in UpsertQuestions(alloc, db, qs, now).value.questions ==>
            UpsertQuestions(alloc, db, qs, now).value.questions[code].value.createdAt == now
  {
    if qs != [] { NewQuestionsDated(alloc, db, qs[..|qs| - 1], now, code); }
  }

  /** Questions that are new get the time of the Sync. */
  lemma SyncDatesNew(alloc: Allocator, db: Db, bank: Bank, now: int, code: string)
    requires Synced(alloc, db, bank, now).Some? && code !in db.questions
    ensures var after := Synced(alloc, db, bank, now).value;
            code in after.questions ==> after.questions[code].value.createdAt == now
  {
    NewQuestionsDated(alloc, WithTopicsAndSets(alloc, db, bank), bank.questions, now, code);
  }

  // ----- A second Sync -----

  /** Nothing is left for a Sync to do. */
  ghost predicate Settled(db: Db, bank: Bank) {
    && RowsMatch(db, bank)
    && (forall i :: 0 <= i < |bank.questions| ==> Resolves(db, bank.questions[i]))
    && (forall key :: Belongs(db.sets, db.questions, bank.questions, key) ==> key in db.members)
    && (forall key :: key in db.members ==> key.1 !in StaleIds(db, bank.questions))
    && (forall key :: key in db.srs ==> key.1 !in StaleIds(db, bank.questions))
  }

  lemma {:induction false} AddMembersNothing(sets: Table<SetInfo>, members: map<(int, int), int>, codes: seq<string>,
      id: int)
    requires forall i :: 0 <= i < |codes| ==> codes[i] in sets && (sets[codes[i]].id, id) in members
    ensures AddMembers(sets, members, codes, id) == members
  {
    if codes != [] { AddMembersNothing(sets, members, codes[..|codes| - 1], id); }
  }

  lemma UpsertQuestionNothing(alloc: Allocator, db: Db, q: QuestionSeed, now: int)
    requires Resolves(db, q) && InPlace(db.topics, db.questions, q)
    requires forall key :: BelongsBy(db.sets, db.questions, q, key) ==> key in db.members
    ensures UpsertQuestion(alloc, db, q, now) == db
  {
    var id := db.questions[q.code].id;
    assert db.questions[q.code := db.questions[q.code]] == db.questions;
    assert UpsertQuestionRow(alloc, db, q, now) == db.questions;
    forall j | 0 <= j < |q.sets| ensures (db.sets[q.sets[j]].id, id) in db.members {
      assert OneOfSets(db.sets, q.sets, db.sets[q.sets[j]].id);
      assert BelongsBy(db.sets, db.questions, q, (db.sets[q.sets[j]].id, id));
    }
    AddMembersNothing(db.sets, db.members, q.sets, id);
  }

  lemma {:induction false} UpsertQuestionsNothing(alloc: Allocator, db: Db, qs: seq<QuestionSeed>, now: int)
    requires forall i :: 0 <= i < |qs| ==> Resolves(db, qs[i]) && InPlace(db.topics, db.questions, qs[i])
    requires forall key :: Belongs(db.sets, db.questions, qs, key) ==> key in db.members
    ensures UpsertQuestions(alloc, db, qs, now) == Some(db)
  {
    if qs != [] {
      var before, last := qs[..|qs| - 1], qs[|qs| - 1];
      forall key ensures Belongs(db.sets, db.questions, before, key) ==> key in db.members {
        BelongsSnoc(db.sets, db.questions, qs, key);
      }
      UpsertQuestionsNothing(alloc, db, before, now);
      forall key | BelongsBy(db.sets, db.questions, last, key) ensures key in db.members {
        BelongsSnoc(db.sets, db.questions, qs, key);
      }
      UpsertQuestionNothing(alloc, db, last, now);
    }
  }

  lemma SettledStays(alloc: Allocator, db: Db, bank: Bank, now: int)
    requires Settled(db, bank)
    ensures Synced(alloc, db, bank, now) == Some(db)
  {
    UpsertAllNothing(alloc, db.topics, bank.topics);
    UpsertAllNothing(alloc, db.sets, bank.sets);
    assert WithTopicsAndSets(alloc, db, bank) == db;
    UpsertQuestionsNothing(alloc, db, bank.questions, now);
    assert Retire(db, bank.questions).members == db.members;
    assert Retire(db, bank.questions).srs == db.srs;
  }

  lemma SyncSettles(alloc: Allocator, db: Db, bank: Bank, now: int)
    requires Fresh(alloc) && Keyed(db) && WellFormedBank(bank) && Synced(alloc, db, bank, now).Some?
    ensures Settled(Synced(alloc, db, bank, now).value, bank)
  {
    SyncConverges(alloc, db, bank, now);
    var after := Synced(alloc, db, bank, now).value;
    ResolvesExactly(alloc, WithTopicsAndSets(alloc, db, bank), bank.questions, now);
    forall key | key in after.members ensures key.1 !in StaleIds(after, bank.questions) {
      if Belongs(after.sets, after.questions, bank.questions, key) { BelongsIsNotStale(after, bank, key); }
    }
  }

  /** A second Sync with the same bank changes nothing, at whatever time it runs and however ids are chosen. */
  lemma SyncIdempotent(alloc: Allocator, alloc': Allocator, db: Db, bank: Bank, now: int, later: int)
    requires Fresh(alloc) && Keyed(db) && WellFormedBank(bank) && Synced(alloc, db, bank, now).Some?
    ensures var after := Synced(alloc, db, bank, now).value;
            Synced(alloc', after, bank, later) == Some(after)
  {
    SyncSettles(alloc, db, bank, now);
    SettledStays(alloc', Synced(alloc, db, bank, now).value, bank, later);
  }

  // ----- What a Sync does to the agreement of attempts and srs_states -----

  /** The two tables QuizService ties together. */
  function StoreOf(db: Db): QuizService.Store {
    QuizService.Store(db.attempts, db.srs)
  }

  lemma SyncKeepsPair(before: Db, after: Db, bank: Bank, user: int, question: int)
    requires QuizService.AgreesFor(StoreOf(before), user, question)
    requires SrsMatch(before, after, bank) && after.attempts == before.attempts
    ensures QuizService.AgreesFor(StoreOf(after), user, question) <==>
            question !in StaleIds(after, bank.questions) ||
            forall a :: a in before.attempts && a.userId == user ==> a.questionId != question
  {
    QuizService.ReviewsExist(before.attempts, user, question);
  }

  /** A Sync takes the SRS rows of retired questions and keeps their attempts: the tables still agree exactly when
      no attempt is on a question outside the bank. */
  lemma SyncAgreementExact(alloc: Allocator, db: Db, bank: Bank, now: int)
    requires Fresh(alloc) && Keyed(db) && Synced(alloc, db, bank, now).Some?
    requires QuizService.Agrees(StoreOf(db))
    ensures var after := Synced(alloc, db, bank, now).value;
            QuizService.Agrees(StoreOf(after)) <==>
            forall a :: a in db.attempts ==> a.questionId !in StaleIds(after, bank.questions)
  {
    var after := Synced(alloc, db, bank, now).value;
    SyncKeeps(alloc, db, bank, now);
    SyncMembersMatch(alloc, db, bank, now);
    forall user, question
      ensures QuizService.AgreesFor(StoreOf(after), user, question) <==>
              question !in StaleIds(after, bank.questions) ||
              forall a :: a in db.attempts && a.userId == user ==> a.questionId != question
    {
      assert QuizService.AgreesFor(StoreOf(db), user, question);
      SyncKeepsPair(db, after, bank, user, question);
    }
    if QuizService.Agrees(StoreOf(after)) {
      forall a | a in db.attempts ensures a.questionId !in StaleIds(after, bank.questions) {
        assert QuizService.AgreesFor(StoreOf(after), a.userId, a.questionId);
      }
    }
  }

  /** The sets hold exactly what the bank says if and only if no bank question was in a set the bank does not put
      it into: such a membership is never taken away. */
  lemma MembersAreBanksExact(alloc: Allocator, db: Db, bank: Bank, now: int)
    requires Fresh(alloc) && Keyed(db) && Synced(alloc, db, bank, now).Some?
    ensures var after := Synced(alloc, db, bank, now).value;
            (forall key :: key in after.members <==> Belongs(after.sets, after.questions, bank.questions, key)) <==>
            forall key :: key in db.members && key.1 !in StaleIds(after, bank.questions) ==>
              Belongs(after.sets, after.questions, bank.questions, key)
  {
    SyncMembersMatch(alloc, db, bank, now);
  }
}
