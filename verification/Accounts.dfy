/** internal/domain/accounts: the standard account names and the aliases mapped to them. Everything here
    holds for any well-formed alias table; AccountTables shows that the table in use is one. */
module Accounts {

  type Table = map<string, string>

  /** The characters Normalize removes wherever they stand: space, tab and the ideographic space. */
  predicate IsStripped(c: char) {
    c == ' ' || c == '\t' || c == '\U{3000}'
  }

  function Strip(s: string): (r: string) {
    if s == [] then []
    else if IsStripped(s[0]) then Strip(s[1..])
    else [s[0]] + Strip(s[1..])
  }

  function Normalize(aliases: Table, input: string): string {
    var s := Strip(input);
    if s in aliases then aliases[s] else s
  }

  /** Unicode white space, as strings.TrimSpace sees it. */
  predicate IsSpace(c: char) {
    || '\t' <= c <= '\r' || c == ' ' || c == '\U{85}' || c == '\U{A0}' || c == '\U{1680}'
    || '\U{2000}' <= c <= '\U{200A}' || c == '\U{2028}' || c == '\U{2029}' || c == '\U{202F}'
    || c == '\U{205F}' || c == '\U{3000}'
  }

  predicate Clean(s: string) {
    forall i :: 0 <= i < |s| ==> !IsSpace(s[i])
  }

  predicate Stripped(s: string) {
    forall i :: 0 <= i < |s| ==> !IsStripped(s[i])
  }

  /** Aliases lead to standard names and none of them is itself standard; no name contains a space. */
  ghost predicate WellFormed(aliases: Table, standard: set<string>) {
    && (forall k :: k in aliases ==> Clean(k) && k !in standard && aliases[k] in standard)
    && (forall s :: s in standard ==> Clean(s))
  }

  lemma {:induction false} StripIsStripped(s: string)
    ensures Stripped(Strip(s))
  {
    if s != [] { StripIsStripped(s[1..]); }
  }

  lemma {:induction false} StrippedIsUnchanged(s: string)
    requires Stripped(s)
    ensures Strip(s) == s
  {
    if s != [] {
      assert Stripped(s[1..]);
      StrippedIsUnchanged(s[1..]);
    }
  }

  lemma {:induction false} StripAppend(s: string, t: string)
    ensures Strip(s + t) == Strip(s) + Strip(t)
  {
    if s == [] {
      assert s + t == t;
    } else {
      assert (s + t)[1..] == s[1..] + t;
      StripAppend(s[1..], t);
    }
  }

  lemma StripLast(before: string, c: char)
    ensures Strip(before + [c]) == if IsStripped(c) then Strip(before) else Strip(before) + [c]
  {
    StripAppend(before, [c]);
  }

  /** Spaces, tabs and ideographic spaces go, wherever they stand, and every other character stays. */
  lemma StripExactly(s: string, c: char, t: string)
    ensures Strip(s + [c] + t) ==
            Strip(s) + (if c == ' ' || c == '\t' || c == '\U{3000}' then [] else [c]) + Strip(t)
  {
    StripAppend(s + [c], t);
    StripLast(s, c);
    assert IsStripped(c) ==> Strip(s) + [] == Strip(s);
  }

  lemma StandardIsFixed(aliases: Table, standard: set<string>, name: string)
    requires WellFormed(aliases, standard) && name in standard
    ensures Normalize(aliases, name) == name
  {
    StrippedIsUnchanged(name);
  }

  lemma NormalizeIdempotent(aliases: Table, standard: set<string>, input: string)
    requires WellFormed(aliases, standard)
    ensures Normalize(aliases, Normalize(aliases, input)) == Normalize(aliases, input)
  {
    var s := Strip(input);
    StripIsStripped(input);
    StrippedIsUnchanged(s);
    if s in aliases { StandardIsFixed(aliases, standard, aliases[s]); }
  }

  /** Two inputs are identified exactly when, blanks aside, they are equal or name one standard account,
      directly or by alias; so two standard names never are. */
  lemma NormalizeKernel(aliases: Table, standard: set<string>, x: string, y: string)
    requires WellFormed(aliases, standard)
    ensures Normalize(aliases, x) == Normalize(aliases, y) <==>
            (Strip(x) == Strip(y) || exists n :: n in standard && Names(aliases, x, n) && Names(aliases, y, n))
  {
    var n := Normalize(aliases, x);
    if n == Normalize(aliases, y) && Strip(x) != Strip(y) {
      assert n in standard && Names(aliases, x, n) && Names(aliases, y, n);
    }
  }

  predicate Names(aliases: Table, input: string, name: string) {
    var s := Strip(input);
    s == name || (s in aliases && aliases[s] == name)
  }

  lemma NeverMergesStandard(aliases: Table, standard: set<string>, x: string, y: string)
    requires WellFormed(aliases, standard) && x in standard && y in standard && x != y
    ensures Normalize(aliases, x) != Normalize(aliases, y)
  {
    StandardIsFixed(aliases, standard, x);
    StandardIsFixed(aliases, standard, y);
  }

  /** An alias and the name it stands for are interchangeable. */
  lemma AliasSwap(aliases: Table, standard: set<string>, alias: string)
    requires WellFormed(aliases, standard) && alias in aliases
    ensures Normalize(aliases, alias) == Normalize(aliases, aliases[alias])
  {
    StrippedIsUnchanged(alias);
    StandardIsFixed(aliases, standard, aliases[alias]);
  }
}
