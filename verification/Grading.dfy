/** internal/domain/grading: whether a submitted answer matches the stored one. */
module Grading {
  import opened Accounts
  import opened Text

  datatype QuestionType = Journal | Ledger | Subbook | TrialBalance | Worksheet | FS | Slip | Unknown

  datatype Entry = Entry(account: string, amount: int)

  datatype Payload = Payload(kind: QuestionType, debits: seq<Entry>, credits: seq<Entry>, choice: string, text: string)

  // ----- strings.TrimSpace -----

  function TrimLeft(s: string): string {
    if s != [] && IsSpace(s[0]) then TrimLeft(s[1..]) else s
  }

  function TrimRight(s: string): string {
    if s != [] && IsSpace(s[|s| - 1]) then TrimRight(s[..|s| - 1]) else s
  }

  function TrimSpace(s: string): string {
    TrimRight(TrimLeft(s))
  }

  // ----- What a list of entries means -----

  function Canonical(aliases: Table, account: string): string {
    Normalize(aliases, TrimSpace(account))
  }

  predicate IsBlank(aliases: Table, e: Entry) {
    Canonical(aliases, e.account) == "" && e.amount == 0
  }

  function Line(aliases: Table, e: Entry): seq<Entry> {
    if IsBlank(aliases, e) then [] else [Entry(Canonical(aliases, e.account), e.amount)]
  }

  /** The non-blank lines under their canonical names, in the order given. */
  function Lines(aliases: Table, entries: seq<Entry>): seq<Entry> {
    if entries == [] then []
    else Lines(aliases, entries[..|entries| - 1]) + Line(aliases, entries[|entries| - 1])
  }

  /** Equal as multisets of (canonical account, amount). */
  predicate SameEntries(aliases: Table, a: seq<Entry>, b: seq<Entry>) {
    multiset(Lines(aliases, a)) == multiset(Lines(aliases, b))
  }

  // ----- The order normalize sorts by -----

  predicate Less(x: Entry, y: Entry) {
    if x.account != y.account then Before(x.account, y.account) else x.amount < y.amount
  }

  predicate SortedEntries(s: seq<Entry>) {
    forall i, j :: 0 <= i < j < |s| ==> !Less(s[j], s[i])
  }

  lemma LessTotal(x: Entry, y: Entry)
    ensures x != y ==> Less(x, y) != Less(y, x)
    ensures !Less(x, x)
  {
    BeforeTotal(x.account, y.account);
    BeforeTotal(y.account, x.account);
  }

  lemma LessTransitive(x: Entry, y: Entry, z: Entry)
    requires !Less(y, x) && !Less(z, y)
    ensures !Less(z, x)
  {
    LessTotal(x, y);
    LessTotal(y, z);
    LessTotal(x, z);
    if x != y && y != z && x.account != y.account && y.account != z.account {
      BeforeTotal(x.account, z.account);
      BeforeTransitive(x.account, y.account, z.account);
    }
    BeforeTotal(x.account, y.account);
    BeforeTotal(y.account, z.account);
  }

  /** Sorting leaves no choice: a sorted list is determined by what it contains. */
  lemma {:induction false} SortedUnique(a: seq<Entry>, b: seq<Entry>)
    requires SortedEntries(a) && SortedEntries(b) && multiset(a) == multiset(b)
    ensures a == b
  {
    assert |a| == |multiset(a)| == |multiset(b)| == |b|;
    if a != [] {
      HeadsAgree(a, b);
      assert a == [a[0]] + a[1..] && b == [b[0]] + b[1..];
      assert multiset(a[1..]) == multiset(a) - multiset{a[0]};
      assert multiset(b[1..]) == multiset(b) - multiset{b[0]};
      SortedUnique(a[1..], b[1..]);
    }
  }

  lemma HeadsAgree(a: seq<Entry>, b: seq<Entry>)
    requires a != [] && b != []
    requires SortedEntries(a) && SortedEntries(b) && multiset(a) == multiset(b)
    ensures a[0] == b[0]
  {
    assert a[0] in multiset(b) && b[0] in multiset(a);
    var i :| 0 <= i < |b| && b[i] == a[0];
    var j :| 0 <= j < |a| && a[j] == b[0];
    LessTotal(a[0], b[0]);
  }

  // ----- The grading code -----

  /** sort.Slice with Less: in place, by insertion. */
  method Sort(s: seq<Entry>) returns (r: seq<Entry>)
    ensures SortedEntries(r) && multiset(r) == multiset(s)
  {
    r := [];
    for i := 0 to |s|
      invariant SortedEntries(r) && multiset(r) == multiset(s[..i])
    {
      assert s[..i + 1] == s[..i] + [s[i]];
      r := Insert(r, s[i]);
    }
    assert s[..|s|] == s;
  }

  method Insert(s: seq<Entry>, e: Entry) returns (r: seq<Entry>)
    requires SortedEntries(s)
    ensures SortedEntries(r) && multiset(r) == multiset(s) + multiset{e}
  {
    var n := 0;
    while n < |s| && !Less(e, s[n])
      invariant n <= |s|
      invariant forall i :: 0 <= i < n ==> !Less(e, s[i])
    {
      n := n + 1;
    }
    InsertSorted(s, e, n);
    assert s == s[..n] + s[n..];
    r := s[..n] + [e] + s[n..];
  }

  lemma InsertSorted(s: seq<Entry>, e: Entry, n: nat)
    requires SortedEntries(s) && n <= |s|
    requires forall i :: 0 <= i < n ==> !Less(e, s[i])
    requires n < |s| ==> Less(e, s[n])
    ensures SortedEntries(s[..n] + [e] + s[n..])
  {
    forall j | n <= j < |s| ensures !Less(s[j], e) {
      LessTotal(e, s[n]);
      LessTotal(s[j], s[j]);
      if j > n { LessTransitive(e, s[n], s[j]); }
    }
  }

  method NormalizeEntries(aliases: Table, entries: seq<Entry>) returns (out: seq<Entry>)
    ensures SortedEntries(out) && multiset(out) == multiset(Lines(aliases, entries))
  {
    out := [];
    for i := 0 to |entries|
      invariant out == Lines(aliases, entries[..i])
    {
      assert entries[..i + 1][..i] == entries[..i];
      var account := Canonical(aliases, entries[i].account);
      if account == "" && entries[i].amount == 0 {
        continue;
      }
      out := out + [Entry(account, entries[i].amount)];
    }
    assert entries[..|entries|] == entries;
    out := Sort(out);
  }

  method EntrySetEqual(aliases: Table, a: seq<Entry>, b: seq<Entry>) returns (same: bool)
    ensures same <==> SameEntries(aliases, a, b)
  {
    var na := NormalizeEntries(aliases, a);
    var nb := NormalizeEntries(aliases, b);
    same := SameSequence(na, nb);
    if SameEntries(aliases, a, b) { SortedUnique(na, nb); }
  }

  method SameSequence(na: seq<Entry>, nb: seq<Entry>) returns (same: bool)
    ensures same <==> na == nb
  {
    if |na| != |nb| {
      return false;
    }
    for i := 0 to |na|
      invariant forall j :: 0 <= j < i ==> na[j] == nb[j]
    {
      if na[i] != nb[i] {
        return false;
      }
    }
    return true;
  }

  predicate ByEntries(kind: QuestionType) {
    kind.Journal? || kind.Ledger? || kind.Slip?
  }

  predicate ByChoice(kind: QuestionType) {
    kind.Subbook? || kind.TrialBalance? || kind.Worksheet? || kind.FS?
  }

  /** strings.EqualFold: character by character, up to the case folding `fold`. */
  predicate EqualFold(fold: char -> char, s: string, t: string) {
    |s| == |t| && forall i :: 0 <= i < |s| ==> fold(s[i]) == fold(t[i])
  }

  predicate SameChoice(fold: char -> char, want: Payload, got: Payload) {
    if want.choice != "" || got.choice != "" then EqualFold(fold, TrimSpace(want.choice), TrimSpace(got.choice))
    else TrimSpace(want.text) == TrimSpace(got.text)
  }

  /** When an answer counts as correct. */
  predicate Correct(aliases: Table, fold: char -> char, want: Payload, got: Payload) {
    && want.kind == got.kind
    && (ByEntries(want.kind) ==>
          SameEntries(aliases, want.debits, got.debits) && SameEntries(aliases, want.credits, got.credits))
    && (ByChoice(want.kind) ==> SameChoice(fold, want, got))
    && !want.kind.Unknown?
  }

  method ChoiceMatches(fold: char -> char, want: Payload, got: Payload) returns (ok: bool)
    ensures ok <==> SameChoice(fold, want, got)
  {
    if want.choice != "" || got.choice != "" {
      ok := EqualFold(fold, TrimSpace(want.choice), TrimSpace(got.choice));
    } else {
      ok := TrimSpace(want.text) == TrimSpace(got.text);
    }
  }

  method EntriesMatch(aliases: Table, want: Payload, got: Payload) returns (ok: bool)
    ensures ok <==>
            SameEntries(aliases, want.debits, got.debits) && SameEntries(aliases, want.credits, got.credits)
  {
    ok := EntrySetEqual(aliases, want.debits, got.debits);
    if ok {
      ok := EntrySetEqual(aliases, want.credits, got.credits);
    }
  }

  method IsCorrect(aliases: Table, fold: char -> char, want: Payload, got: Payload) returns (ok: bool)
    ensures ok <==> Correct(aliases, fold, want, got)
  {
    if want.kind != got.kind {
      return false;
    }
    match want.kind {
      case Journal | Ledger | Slip =>
        ok := EntriesMatch(aliases, want, got);
        CorrectByEntries(aliases, fold, want, got);
      case Subbook | TrialBalance | Worksheet | FS =>
        ok := ChoiceMatches(fold, want, got);
        CorrectByChoice(aliases, fold, want, got);
      case Unknown => ok := false;
    }
  }

  // ----- Which edits of an answer do not matter -----

  lemma {:induction false} LinesAppend(aliases: Table, a: seq<Entry>, b: seq<Entry>)
    ensures Lines(aliases, a + b) == Lines(aliases, a) + Lines(aliases, b)
  {
    if b == [] {
      assert a + b == a;
    } else {
      var before, e := b[..|b| - 1], b[|b| - 1];
      assert (a + b)[..|a + b| - 1] == a + before;
      LinesAppend(aliases, a, before);
      assert (Lines(aliases, a) + Lines(aliases, before)) + Line(aliases, e)
          == Lines(aliases, a) + (Lines(aliases, before) + Line(aliases, e));
    }
  }

  lemma LinesOne(aliases: Table, e: Entry)
    ensures Lines(aliases, [e]) == Line(aliases, e)
  {
    assert [e][..0] == [];
    assert Lines(aliases, []) + Line(aliases, e) == Line(aliases, e);
  }

  lemma LinesInsert(aliases: Table, x: seq<Entry>, e: Entry, y: seq<Entry>)
    ensures multiset(Lines(aliases, x + [e] + y)) == multiset(Lines(aliases, x + y)) + multiset(Line(aliases, e))
  {
    LinesAppend(aliases, x + [e], y);
    LinesAppend(aliases, x, [e]);
    LinesAppend(aliases, x, y);
    LinesOne(aliases, e);
  }

  lemma TakeOut(b: seq<Entry>, i: nat)
    requires i < |b|
    ensures b == b[..i] + [b[i]] + b[i + 1..]
    ensures multiset(b[..i] + b[i + 1..]) == multiset(b) - multiset{b[i]}
  {
    assert b == b[..i] + [b[i]] + b[i + 1..];
  }

  /** The order of the lines does not matter. */
  lemma {:induction false} PermutedEntries(aliases: Table, a: seq<Entry>, b: seq<Entry>)
    requires multiset(a) == multiset(b)
    ensures SameEntries(aliases, a, b)
  {
    assert |a| == |multiset(a)| == |multiset(b)| == |b|;
    if a != [] {
      assert a[0] in multiset(b);
      var i :| 0 <= i < |b| && b[i] == a[0];
      TakeOut(a, 0);
      TakeOut(b, i);
      PermutedEntries(aliases, a[..0] + a[1..], b[..i] + b[i + 1..]);
      LinesInsert(aliases, a[..0], a[0], a[1..]);
      LinesInsert(aliases, b[..i], a[0], b[i + 1..]);
    }
  }

  lemma MultisetOfLine(m: multiset<Entry>, aliases: Table, e: Entry)
    ensures m + multiset(Line(aliases, e)) == m <==> IsBlank(aliases, e)
  {
    var c := Entry(Canonical(aliases, e.account), e.amount);
    if !IsBlank(aliases, e) { assert (m + multiset{c})[c] == m[c] + 1; }
  }

  /** A line may be added anywhere without a difference exactly when its account is blank and its amount zero. */
  lemma BlankLine(aliases: Table, x: seq<Entry>, e: Entry, y: seq<Entry>)
    ensures SameEntries(aliases, x + [e] + y, x + y) <==> Canonical(aliases, e.account) == "" && e.amount == 0
  {
    LinesInsert(aliases, x, e, y);
    MultisetOfLine(multiset(Lines(aliases, x + y)), aliases, e);
  }

  /** A line may be rewritten to another exactly when both are blank or they have the same canonical account and
      amount. */
  lemma RewrittenLine(aliases: Table, x: seq<Entry>, e: Entry, e': Entry, y: seq<Entry>)
    ensures SameEntries(aliases, x + [e] + y, x + [e'] + y) <==>
            Canonical(aliases, e.account) == Canonical(aliases, e'.account) && e.amount == e'.amount
  {
    LinesInsert(aliases, x, e, y);
    LinesInsert(aliases, x, e', y);
    var m, l, l' := multiset(Lines(aliases, x + y)), multiset(Line(aliases, e)), multiset(Line(aliases, e'));
    SameSum(m, l, l');
    SameLine(aliases, e, e');
  }

  lemma SameSum(m: multiset<Entry>, l: multiset<Entry>, l': multiset<Entry>)
    ensures m + l == m + l' <==> l == l'
  {
    if m + l == m + l' { assert l == (m + l) - m == (m + l') - m == l'; }
  }

  lemma SameLine(aliases: Table, e: Entry, e': Entry)
    ensures multiset(Line(aliases, e)) == multiset(Line(aliases, e')) <==>
            Canonical(aliases, e.account) == Canonical(aliases, e'.account) && e.amount == e'.amount
  {
    var c, c' := Entry(Canonical(aliases, e.account), e.amount), Entry(Canonical(aliases, e'.account), e'.amount);
    assert !IsBlank(aliases, e) ==> c in multiset(Line(aliases, e));
    assert !IsBlank(aliases, e') ==> c' in multiset(Line(aliases, e'));
  }

  // ----- Stripped blanks, aliases -----

  lemma {:induction false} TrimLeftStrip(s: string)
    ensures TrimLeft(Strip(s)) == Strip(TrimLeft(s))
  {
    if s != [] {
      TrimLeftStrip(s[1..]);
      assert ([s[0]] + Strip(s[1..]))[1..] == Strip(s[1..]);
    }
  }

  lemma {:induction false} TrimRightStrip(s: string)
    ensures TrimRight(Strip(s)) == Strip(TrimRight(s))
  {
    if s != [] {
      var before, c := s[..|s| - 1], s[|s| - 1];
      var x := Strip(before);
      TrimRightStrip(before);
      StripLast(before, c);
      assert s == before + [c];
      if !IsStripped(c) {
        assert (x + [c])[..|x|] == x && (x + [c])[|x|] == c;
      }
    }
  }

  lemma TrimStrip(s: string)
    ensures Strip(TrimSpace(s)) == TrimSpace(Strip(s))
  {
    TrimLeftStrip(s);
    TrimRightStrip(TrimLeft(s));
  }

  /** A space, tab or ideographic space may be inserted anywhere in an account name. */
  lemma InsertedBlank(aliases: Table, s: string, c: char, t: string)
    requires c == ' ' || c == '\t' || c == '\U{3000}'
    ensures Canonical(aliases, s + [c] + t) == Canonical(aliases, s + t)
  {
    TrimStrip(s + [c] + t);
    TrimStrip(s + t);
    StripAppend(s + [c], t);
    StripLast(s, c);
    StripAppend(s, t);
    assert Strip(s + [c] + t) == Strip(s + t);
  }

  lemma {:induction false} TrimSpaceOfClean(s: string)
    requires Clean(s)
    ensures TrimSpace(s) == s
  {
  }

  lemma {:induction false} TrimSpaceTwice(s: string)
    ensures TrimSpace(TrimSpace(s)) == TrimSpace(s)
  {
    TrimRightTwice(TrimLeft(s));
    TrimRightKeepsLeft(TrimLeft(s));
    TrimLeftIsTrimmed(s);
  }

  lemma {:induction false} TrimLeftIsTrimmed(s: string)
    ensures TrimLeft(s) == [] || !IsSpace(TrimLeft(s)[0])
  {
    if s != [] { TrimLeftIsTrimmed(s[1..]); }
  }

  lemma {:induction false} TrimRightTwice(s: string)
    ensures TrimRight(TrimRight(s)) == TrimRight(s)
  {
    if s != [] && IsSpace(s[|s| - 1]) { TrimRightTwice(s[..|s| - 1]); }
  }

  lemma {:induction false} TrimRightKeepsLeft(s: string)
    ensures TrimRight(s) == [] || TrimRight(s)[0] == s[0]
  {
    if s != [] && IsSpace(s[|s| - 1]) { TrimRightKeepsLeft(s[..|s| - 1]); }
  }

  /** An alias and the standard name it stands for are interchangeable. */
  lemma AliasForm(aliases: Table, standard: set<string>, alias: string)
    requires WellFormed(aliases, standard) && alias in aliases
    ensures Canonical(aliases, alias) == Canonical(aliases, aliases[alias]) == aliases[alias]
  {
    TrimSpaceOfClean(alias);
    TrimSpaceOfClean(aliases[alias]);
    AliasSwap(aliases, standard, alias);
    StandardIsFixed(aliases, standard, aliases[alias]);
  }

  lemma CanonicalIdempotent(aliases: Table, standard: set<string>, account: string)
    requires WellFormed(aliases, standard)
    ensures Canonical(aliases, Canonical(aliases, account)) == Canonical(aliases, account)
  {
    var s := Strip(TrimSpace(account));
    if s in aliases {
      TrimSpaceOfClean(aliases[s]);
      StandardIsFixed(aliases, standard, aliases[s]);
    } else {
      TrimStrip(account);
      TrimSpaceTwice(Strip(account));
      StripIsStripped(TrimSpace(account));
      StrippedIsUnchanged(s);
    }
  }

  /** Two standard names are never taken for one another. */
  lemma StandardNamesDistinct(aliases: Table, standard: set<string>, x: string, y: string)
    requires WellFormed(aliases, standard) && x in standard && y in standard && x != y
    ensures Canonical(aliases, x) == x != y == Canonical(aliases, y)
  {
    TrimSpaceOfClean(x);
    TrimSpaceOfClean(y);
    StandardIsFixed(aliases, standard, x);
    StandardIsFixed(aliases, standard, y);
  }

  // ----- What trimming is -----

  predicate AllSpace(s: string) {
    forall i :: 0 <= i < |s| ==> IsSpace(s[i])
  }

  /** Empty, or without white space at either end. */
  predicate Trimmed(s: string) {
    s != "" ==> !IsSpace(s[0]) && !IsSpace(s[|s| - 1])
  }

  ghost predicate Surrounds(s: string, t: string) {
    exists a: string, b: string :: AllSpace(a) && AllSpace(b) && s == a + t + b
  }

  lemma {:induction false} TrimLeftCuts(s: string) returns (a: string)
    ensures AllSpace(a) && s == a + TrimLeft(s)
  {
    a := "";
    if s != [] && IsSpace(s[0]) {
      a := TrimLeftCuts(s[1..]);
      a := [s[0]] + a;
    }
  }

  lemma {:induction false} TrimRightCuts(s: string) returns (b: string)
    ensures AllSpace(b) && s == TrimRight(s) + b
  {
    b := "";
    if s != [] && IsSpace(s[|s| - 1]) {
      b := TrimRightCuts(s[..|s| - 1]);
      b := b + [s[|s| - 1]];
    }
  }

  lemma {:induction false} TrimRightIsTrimmed(s: string)
    ensures TrimRight(s) == [] || !IsSpace(TrimRight(s)[|TrimRight(s)| - 1])
  {
    if s != [] && IsSpace(s[|s| - 1]) { TrimRightIsTrimmed(s[..|s| - 1]); }
  }

  lemma {:induction false} TrimLeftOf(a: string, x: string)
    requires AllSpace(a)
    ensures TrimLeft(a + x) == TrimLeft(x)
  {
    if a == [] {
      assert a + x == x;
    } else {
      TailOfSum(a, x);
      assert AllSpace(a[1..]);
      TrimLeftOf(a[1..], x);
    }
  }

  lemma {:induction false} TrimRightOf(x: string, b: string)
    requires AllSpace(b)
    ensures TrimRight(x + b) == TrimRight(x)
  {
    if b == [] {
      assert x + b == x;
    } else {
      assert (x + b)[..|x + b| - 1] == x + b[..|b| - 1];
      TrimRightOf(x, b[..|b| - 1]);
    }
  }

  lemma TrimSpaceCuts(s: string)
    ensures Trimmed(TrimSpace(s)) && Surrounds(s, TrimSpace(s))
  {
    var a := TrimLeftCuts(s);
    var b := TrimRightCuts(TrimLeft(s));
    TrimLeftIsTrimmed(s);
    TrimRightKeepsLeft(TrimLeft(s));
    TrimRightIsTrimmed(TrimLeft(s));
    assert s == a + TrimSpace(s) + b;
  }

  lemma TrimSpaceOf(a: string, t: string, b: string)
    requires AllSpace(a) && AllSpace(b) && Trimmed(t)
    ensures TrimSpace(a + t + b) == t
  {
    assert a + t + b == a + (t + b);
    TrimLeftOf(a, t + b);
    if t == "" {
      assert t + b == b && b + "" == b;
      TrimLeftOf(b, "");
    } else {
      assert (t + b)[0] == t[0];
      TrimRightOf(t, b);
    }
  }

  /** Trimming gives the one text without white space at its ends that white space surrounds. */
  lemma TrimSpaceExact(s: string, t: string)
    ensures TrimSpace(s) == t <==> Trimmed(t) && Surrounds(s, t)
  {
    TrimSpaceCuts(s);
    if Trimmed(t) && Surrounds(s, t) {
      var a: string, b: string :| AllSpace(a) && AllSpace(b) && s == a + t + b;
      TrimSpaceOf(a, t, b);
    }
  }

  /** White space around a text does not change what it is trimmed to. */
  lemma SpaceAround(a: string, s: string, b: string)
    requires AllSpace(a) && AllSpace(b)
    ensures TrimSpace(a + s + b) == TrimSpace(s)
  {
    TrimSpaceCuts(s);
    var c: string, d: string :| AllSpace(c) && AllSpace(d) && s == c + TrimSpace(s) + d;
    assert a + s + b == (a + c) + TrimSpace(s) + (d + b);
    TrimSpaceOf(a + c, TrimSpace(s), d + b);
  }

  // ----- What counts as correct -----

  /** White space around a choice that is there, or around the text when no choice is, makes no difference on
      either side. */
  lemma SpaceAroundAnswer(aliases: Table, fold: char -> char, want: Payload, got: Payload, a: string, b: string)
    requires AllSpace(a) && AllSpace(b)
    ensures got.choice != "" ==>
              (Correct(aliases, fold, want, got.(choice := a + got.choice + b)) <==>
               Correct(aliases, fold, want, got)) &&
              (Correct(aliases, fold, got.(choice := a + got.choice + b), want) <==> Correct(aliases, fold, got, want))
    ensures got.choice == "" && want.choice == "" ==>
              (Correct(aliases, fold, want, got.(text := a + got.text + b)) <==> Correct(aliases, fold, want, got)) &&
              (Correct(aliases, fold, got.(text := a + got.text + b), want) <==> Correct(aliases, fold, got, want))
  {
    SpaceAround(a, got.choice, b);
    SpaceAround(a, got.text, b);
  }

  /** Nor does it around the name of an account. */
  lemma SpaceAroundAccount(aliases: Table, a: string, s: string, b: string)
    requires AllSpace(a) && AllSpace(b)
    ensures Canonical(aliases, a + s + b) == Canonical(aliases, s)
  {
    SpaceAround(a, s, b);
  }

  /** The same but for white space around them. */
  ghost predicate SameText(s: string, t: string) {
    exists core: string :: Trimmed(core) && Surrounds(s, core) && Surrounds(t, core)
  }

  /** The same but for white space around them and for case. */
  ghost predicate SameFolded(fold: char -> char, s: string, t: string) {
    exists u: string, v: string ::
      Trimmed(u) && Trimmed(v) && Surrounds(s, u) && Surrounds(t, v) && EqualFold(fold, u, v)
  }

  lemma SameTextIs(s: string, t: string)
    ensures SameText(s, t) <==> TrimSpace(s) == TrimSpace(t)
  {
    TrimSpaceCuts(s);
    TrimSpaceCuts(t);
    if core: string :| Trimmed(core) && Surrounds(s, core) && Surrounds(t, core) {
      TrimSpaceExact(s, core);
      TrimSpaceExact(t, core);
    }
  }

  /** Equal up to case: the heads fold alike and the rests are equal up to case. */
  lemma EqualFoldHead(fold: char -> char, c: char, s: string, d: char, t: string)
    ensures EqualFold(fold, [c] + s, [d] + t) <==> fold(c) == fold(d) && EqualFold(fold, s, t)
    ensures !EqualFold(fold, [c] + s, []) && !EqualFold(fold, [], [d] + t) && EqualFold(fold, [], [])
  {
    var x, y := [c] + s, [d] + t;
    assert x[0] == c && y[0] == d;
    assert forall i :: 0 <= i < |s| ==> x[i + 1] == s[i];
    assert forall i :: 0 <= i < |t| ==> y[i + 1] == t[i];
    assert x[1..] == s && y[1..] == t;
    forall i | EqualFold(fold, x, y) && 0 <= i < |s| ensures fold(s[i]) == fold(t[i]) {
      assert fold(x[i + 1]) == fold(y[i + 1]);
    }
  }

  lemma SameFoldedIs(fold: char -> char, s: string, t: string)
    ensures SameFolded(fold, s, t) <==> EqualFold(fold, TrimSpace(s), TrimSpace(t))
  {
    TrimSpaceCuts(s);
    TrimSpaceCuts(t);
    if u: string, v: string :|
      Trimmed(u) && Trimmed(v) && Surrounds(s, u) && Surrounds(t, v) && EqualFold(fold, u, v) {
      TrimSpaceExact(s, u);
      TrimSpaceExact(t, v);
    }
  }

  /** For subsidiary books, trial balances, worksheets and statements: the choices are the same up to case and
      surrounding white space, or, with no choice on either side, the texts are up to surrounding white space. */
  lemma ChoiceGradingExact(aliases: Table, fold: char -> char, want: Payload, got: Payload)
    requires want.kind in {Subbook, TrialBalance, Worksheet, FS}
    ensures Correct(aliases, fold, want, got) <==>
            got.kind == want.kind &&
            if want.choice == "" && got.choice == "" then SameText(want.text, got.text)
            else SameFolded(fold, want.choice, got.choice)
  {
    SameTextIs(want.text, got.text);
    SameFoldedIs(fold, want.choice, got.choice);
    CorrectByChoice(aliases, fold, want, got);
  }

  lemma CorrectByChoice(aliases: Table, fold: char -> char, want: Payload, got: Payload)
    requires ByChoice(want.kind)
    ensures Correct(aliases, fold, want, got) <==> got.kind == want.kind && SameChoice(fold, want, got)
  {
  }

  /** A kind the program does not know has no correct answer. */
  lemma UnknownNeverCorrect(aliases: Table, fold: char -> char, want: Payload, got: Payload)
    ensures Correct(aliases, fold, want, got) ==> want.kind == got.kind && !want.kind.Unknown?
  {
  }

  // ----- Is grading an equivalence? -----

  /** What an answer graded by entries says. */
  ghost function Meaning(aliases: Table, p: Payload): (QuestionType, multiset<Entry>, multiset<Entry>) {
    (p.kind, multiset(Lines(aliases, p.debits)), multiset(Lines(aliases, p.credits)))
  }

  /** Graded by entries, an answer is correct exactly when it says the same: correctness is an equivalence. */
  lemma EntryGradingIsMeaning(aliases: Table, fold: char -> char, a: Payload, b: Payload)
    requires a.kind in {Journal, Ledger, Slip}
    ensures Correct(aliases, fold, a, b) <==> Meaning(aliases, a) == Meaning(aliases, b)
  {
    CorrectByEntries(aliases, fold, a, b);
  }

  lemma CorrectByEntries(aliases: Table, fold: char -> char, a: Payload, b: Payload)
    requires ByEntries(a.kind)
    ensures Correct(aliases, fold, a, b) <==>
            a.kind == b.kind && SameEntries(aliases, a.debits, b.debits) && SameEntries(aliases, a.credits, b.credits)
  {
  }

  lemma {:induction false} EntryGradingEquivalence(aliases: Table, fold: char -> char, a: Payload, b: Payload,
      c: Payload)
    requires ByEntries(a.kind)
    ensures Correct(aliases, fold, a, a)
    ensures Correct(aliases, fold, a, b) ==> Correct(aliases, fold, b, a)
    ensures Correct(aliases, fold, a, b) && Correct(aliases, fold, b, c) ==> Correct(aliases, fold, a, c)
  {
    EntryGradingIsMeaning(aliases, fold, a, a);
    EntryGradingIsMeaning(aliases, fold, a, b);
    EntryGradingIsMeaning(aliases, fold, a, c);
    if b.kind == a.kind {
      EntryGradingIsMeaning(aliases, fold, b, a);
      EntryGradingIsMeaning(aliases, fold, b, c);
    }
  }

  /** A choice that is written but only of spaces. */
  predicate BlankChoice(p: Payload) {
    p.choice != "" && TrimSpace(p.choice) == ""
  }

  lemma ChoiceTransitive(fold: char -> char, a: Payload, b: Payload, c: Payload)
    requires SameChoice(fold, a, b) && SameChoice(fold, b, c) && !BlankChoice(b)
    ensures SameChoice(fold, a, c)
  {
    assert TrimSpace("") == "";
  }

  ghost predicate Links(aliases: Table, fold: char -> char, b: Payload) {
    forall a, c :: Correct(aliases, fold, a, b) && Correct(aliases, fold, b, c) ==> Correct(aliases, fold, a, c)
  }

  /** Graded by choice, correctness is reflexive and symmetric, and chains through b exactly when the choice
      of b is not blank. */
  lemma ChoiceGradingChains(aliases: Table, fold: char -> char, b: Payload)
    requires ByChoice(b.kind)
    ensures Correct(aliases, fold, b, b)
    ensures forall a :: Correct(aliases, fold, a, b) <==> Correct(aliases, fold, b, a)
    ensures Links(aliases, fold, b) <==> !BlankChoice(b)
  {
    if BlankChoice(b) {
      BlankChoiceBreaks(aliases, fold, b);
    } else {
      forall a, c | Correct(aliases, fold, a, b) && Correct(aliases, fold, b, c)
        ensures Correct(aliases, fold, a, c)
      {
        ChoiceTransitive(fold, a, b, c);
      }
    }
  }

  lemma BlankChoiceBreaks(aliases: Table, fold: char -> char, b: Payload)
    requires ByChoice(b.kind) && BlankChoice(b)
    ensures !Links(aliases, fold, b)
  {
    var a, c := Payload(b.kind, [], [], "", "0"), Payload(b.kind, [], [], "", "1");
    assert TrimSpace("") == "" && TrimSpace("0") == "0" && TrimSpace("1") == "1";
    assert Correct(aliases, fold, a, b) && Correct(aliases, fold, b, c) && !Correct(aliases, fold, a, c);
  }

  // ----- Choices to questions graded by entries -----

  /** No line says anything: the entry lists are empty or blank. */
  predicate NoLines(aliases: Table, p: Payload) {
    Lines(aliases, p.debits) == [] && Lines(aliases, p.credits) == []
  }

  lemma EmptyMultiset(s: seq<Entry>)
    ensures multiset(s) == multiset([]) <==> s == []
  {
    assert |multiset(s)| == |s|;
  }

  /** A ledger, slip or journal question stored without entries accepts every answer without entries, whatever is
      chosen. */
  lemma EveryChoicePasses(aliases: Table, fold: char -> char, want: Payload, got: Payload)
    requires ByEntries(want.kind) && NoLines(aliases, want)
    ensures Correct(aliases, fold, want, got) <==> got.kind == want.kind && NoLines(aliases, got)
  {
    CorrectByEntries(aliases, fold, want, got);
    EmptyMultiset(Lines(aliases, got.debits));
    EmptyMultiset(Lines(aliases, got.credits));
  }

  /** What a stored choice is for: of the answers without entries exactly those that choose it are correct. */
  ghost predicate ChoiceDecides(aliases: Table, fold: char -> char, want: Payload) {
    forall got: Payload :: got.kind == want.kind && NoLines(aliases, got) ==>
      (Correct(aliases, fold, want, got) <==> EqualFold(fold, TrimSpace(want.choice), TrimSpace(got.choice)))
  }

  /** Another answer than the stored choice. */
  function OtherChoice(want: Payload): Payload {
    Payload(want.kind, [], [], if TrimSpace(want.choice) == "" then "x" else "", "")
  }

  lemma OtherChoiceDiffers(fold: char -> char, want: Payload)
    ensures !EqualFold(fold, TrimSpace(want.choice), TrimSpace(OtherChoice(want).choice))
  {
    assert TrimSpace("") == "" && TrimSpace("x") == "x";
  }

  /** A question stored with a choice and no entries is decided by that choice exactly when its kind is graded by
      choice; a ledger or slip question is not. */
  lemma ChoiceDecidesExact(aliases: Table, fold: char -> char, want: Payload)
    requires want.choice != "" && NoLines(aliases, want) && !want.kind.Unknown?
    ensures ChoiceDecides(aliases, fold, want) <==> ByChoice(want.kind)
  {
    if ByEntries(want.kind) {
      var got := OtherChoice(want);
      EveryChoicePasses(aliases, fold, want, got);
      OtherChoiceDiffers(fold, want);
      assert NoLines(aliases, got) && Correct(aliases, fold, want, got);
    }
  }
}
