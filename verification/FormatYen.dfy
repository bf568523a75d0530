/** The amounts printed in question texts: seed's formatYen. */
module FormatYen {
  import opened Decimal
  import opened Text
  import opened Wrappers

  const SUFFIX: string := " \U{5186}"

  // ----- What the text is -----

  /** Groups of three digits, counted from the right. */
  function Groups(s: string): (parts: seq<string>)
    ensures parts != []
    decreases |s|
  {
    if |s| <= 3 then [s] else Groups(s[..|s| - 3]) + [s[|s| - 3..]]
  }

  function Grouped(s: string): string {
    Join(Groups(s), ',')
  }

  function YenText(n: Int64): string {
    (if n < 1000 then Itoa(n) else Grouped(Itoa(n))) + SUFFIX
  }

  // ----- How it is computed -----

  function Reversed(s: string): (r: string)
    ensures |r| == |s|
  {
    if s == [] then [] else [s[|s| - 1]] + Reversed(s[..|s| - 1])
  }

  lemma {:induction false} ReversedAt(s: string, k: nat)
    requires k < |s|
    ensures Reversed(s)[k] == s[|s| - 1 - k]
    decreases |s|
  {
    if k > 0 { ReversedAt(s[..|s| - 1], k - 1); }
  }

  lemma {:induction false} JoinSnoc(parts: seq<string>, last: string, c: char)
    requires parts != []
    ensures Join(parts + [last], c) == Join(parts, c) + [c] + last
    decreases |parts|
  {
    if |parts| == 1 {
      assert (parts + [last])[1..] == [last];
    } else {
      JoinSnoc(parts[1..], last, c);
      assert (parts + [last])[1..] == parts[1..] + [last];
    }
  }

  lemma GroupedStep(s: string)
    requires |s| > 3
    ensures Grouped(s) == Grouped(s[..|s| - 3]) + [','] + s[|s| - 3..]
  {
    JoinSnoc(Groups(s[..|s| - 3]), s[|s| - 3..], ',');
  }

  /** One more digit on the left: a comma comes first when the digits so far fill their groups. */
  lemma {:induction false} GroupedCons(c: char, s: string)
    ensures Grouped([c] + s) == [c] + (if |s| > 0 && |s| % 3 == 0 then [','] else []) + Grouped(s)
    decreases |s|
  {
    var t := [c] + s;
    if |s| >= 3 {
      GroupedStep(t);
      assert t[|t| - 3..] == s[|s| - 3..] && t[..|t| - 3] == [c] + s[..|s| - 3];
      if |s| == 3 {
        assert s[|s| - 3..] == s && [c] + s[..0] == [c];
      } else {
        GroupedStep(s);
        GroupedCons(c, s[..|s| - 3]);
      }
    }
  }

  method ReverseInPlace(a: array<char>)
    modifies a
    ensures a[..] == Reversed(old(a[..]))
  {
    var i, j := 0, a.Length - 1;
    while i < j
      invariant 0 <= i <= j + 2 && j == a.Length - 1 - i
      invariant forall k :: 0 <= k < i || j < k < a.Length ==> a[k] == old(a[a.Length - 1 - k])
      invariant forall k :: i <= k <= j ==> a[k] == old(a[k])
      decreases j - i
    {
      a[i], a[j] := a[j], a[i];
      i, j := i + 1, j - 1;
    }
    ghost var before := old(a[..]);
    forall k | 0 <= k < a.Length ensures a[k] == Reversed(before)[k] {
      ReversedAt(before, k);
    }
  }

  /** Digits last to first. */
  method LastToFirst(s: string) returns (rev: string)
    ensures |rev| == |s| && forall k :: 0 <= k < |s| ==> rev[k] == s[|s| - 1 - k]
  {
    rev := [];
    var i := |s| - 1;
    while i >= 0
      invariant -1 <= i < |s| && |rev| == |s| - 1 - i
      invariant forall k :: 0 <= k < |rev| ==> rev[k] == s[|s| - 1 - k]
    {
      rev := rev + [s[i]];
      i := i - 1;
    }
  }

  lemma ReversedTwo(out: string, c: char)
    ensures Reversed(out + [','] + [c]) == [c] + [','] + Reversed(out)
  {
  }

  lemma LongerTail(s: string, i: nat)
    requires i < |s|
    ensures s[|s| - (i + 1)..] == [s[|s| - 1 - i]] + s[|s| - i..]
  {
  }

  /** The output so far, last to first, is the grouped text of the last i digits. */
  ghost predicate Holds(out: string, s: string, i: nat) {
    i <= |s| && Reversed(out) == Grouped(s[|s| - i..])
  }

  lemma HoldsAtFirst(s: string)
    ensures Holds([], s, 0)
  {
    assert s[|s|..] == [];
  }

  lemma HoldsAtLast(out: string, s: string)
    requires Holds(out, s, |s|)
    ensures Reversed(out) == Grouped(s)
  {
    assert s[0..] == s;
  }

  /** A comma after every third digit but the last one: the grouped text, last to first. */
  method InsertCommas(rev: string, ghost s: string) returns (out: string)
    requires |rev| == |s| && forall k :: 0 <= k < |s| ==> rev[k] == s[|s| - 1 - k]
    ensures Reversed(out) == Grouped(s)
  {
    out := [];
    HoldsAtFirst(s);
    for i := 0 to |rev|
      invariant Holds(out, s, i)
    {
      ghost var before := out;
      if i > 0 && i % 3 == 0 {
        out := out + [','];
        ReversedTwo(before, rev[i]);
      }
      out := out + [rev[i]];
      GroupedCons(rev[i], s[|s| - i..]);
      LongerTail(s, i);
    }
    HoldsAtLast(out, s);
  }

  method Format(n: Int64) returns (text: string)
    ensures text == YenText(n)
  {
    var s := Itoa(n);
    if n < 1000 {
      return s + SUFFIX;
    }
    var rev := LastToFirst(s);
    var out := InsertCommas(rev, s);
    var bytes := new char[|out|](i requires 0 <= i < |out| => out[i]);
    assert bytes[..] == out;
    ReverseInPlace(bytes);
    return bytes[..] + SUFFIX;
  }

  // ----- What the text means -----

  function Without(s: string, c: char): string {
    if s == [] then [] else (if s[0] == c then [] else [s[0]]) + Without(s[1..], c)
  }

  lemma {:induction false} WithoutSum(s: string, t: string, c: char)
    ensures Without(s + t, c) == Without(s, c) + Without(t, c)
    decreases |s|
  {
    if s == [] {
      assert s + t == t;
    } else {
      WithoutSum(s[1..], t, c);
      TailOfSum(s, t);
    }
  }

  lemma {:induction false} WithoutNone(s: string, c: char)
    requires c !in s
    ensures Without(s, c) == s
  {
    if s != [] { WithoutNone(s[1..], c); }
  }

  lemma {:induction false} ErasedGroups(s: string)
    requires ',' !in s
    ensures Without(Grouped(s), ',') == s
    decreases |s|
  {
    if |s| <= 3 {
      WithoutNone(s, ',');
    } else {
      var front, last := s[..|s| - 3], s[|s| - 3..];
      GroupedStep(s);
      ErasedGroups(front);
      WithoutSum(Grouped(front) + [','], last, ',');
      WithoutSum(Grouped(front), [','], ',');
      WithoutNone(last, ',');
    }
  }

  /** Erasing the commas and the suffix gives the plain numeral, which reads back as the amount. */
  lemma ErasingCommas(n: Int64)
    ensures Without(YenText(n), ',') == Itoa(n) + SUFFIX
    ensures Atoi(Without(YenText(n)[..|YenText(n)| - |SUFFIX|], ',')) == Some(n)
  {
    var digits := if n < 1000 then Itoa(n) else Grouped(Itoa(n));
    ErasedGroups(Itoa(n));
    WithoutNone(Itoa(n), ',');
    WithoutSum(digits, SUFFIX, ',');
    WithoutNone(SUFFIX, ',');
    assert YenText(n)[..|YenText(n)| - |SUFFIX|] == digits;
    AtoiItoa(n);
  }

  /** Different amounts never print alike. */
  lemma Injective(m: Int64, n: Int64)
    requires YenText(m) == YenText(n)
    ensures m == n
  {
    ErasingCommas(m);
    ErasingCommas(n);
  }

  // ----- The groups -----

  /** One to three characters, then threes. */
  predicate WellGrouped(parts: seq<string>) {
    && parts != []
    && 1 <= |parts[0]| <= 3
    && forall i :: 1 <= i < |parts| ==> |parts[i]| == 3
  }

  lemma {:induction false} GroupsAreThrees(s: string)
    requires s != []
    ensures WellGrouped(Groups(s))
    decreases |s|
  {
    if |s| > 3 { GroupsAreThrees(s[..|s| - 3]); }
  }

  lemma {:induction false} GroupsAreClean(s: string, part: string)
    requires ',' !in s && part in Groups(s)
    ensures ',' !in part
    decreases |s|
  {
    if |s| > 3 && part != s[|s| - 3..] { GroupsAreClean(s[..|s| - 3], part); }
  }

  lemma {:induction false} DigitCount(n: nat)
    requires n >= 1000
    ensures |Digits(n)| > 3
  {
    assert |Digits(n / 100)| == 1 + |Digits(n / 100 / 10)|;
    assert |Digits(n / 10)| == 1 + |Digits(n / 10 / 10)|;
    assert |Digits(n)| == 1 + |Digits(n / 10)|;
  }

  /** Cut at the commas, an amount from zero up is one to three digits and then threes; below zero there is no
      comma at all. */
  lemma GroupsOfAmount(n: Int64)
    ensures var text := YenText(n)[..|YenText(n)| - |SUFFIX|];
            && (n >= 0 ==> WellGrouped(Split(text, ',')))
            && (|Split(text, ',')| > 1 <==> n >= 1000)
  {
    var v: int := n;
    var text := YenText(n)[..|YenText(n)| - |SUFFIX|];
    if n < 1000 {
      assert text == Itoa(n);
      SplitLast(text, ',');
      if n >= 0 { SmallNumerals(v); }
    } else {
      assert text == Grouped(Itoa(n));
      DigitCount(v);
      GroupsAreThrees(Digits(v));
      forall part | part in Groups(Digits(v)) ensures ',' !in part { GroupsAreClean(Digits(v), part); }
      SplitJoin(Groups(Digits(v)), ',');
    }
  }

  lemma SmallNumerals(n: nat)
    requires n < 1000
    ensures 1 <= |Digits(n)| <= 3
  {
    assert n >= 10 ==> |Digits(n)| == 1 + |Digits(n / 10)|;
    assert n / 10 >= 10 ==> |Digits(n / 10)| == 1 + |Digits(n / 10 / 10)|;
  }
}
