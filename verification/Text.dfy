/** Cutting texts at a separator, as package strings does, and the order of texts. */
module Text {
  import opened Decimal
  import opened Wrappers

  function IndexOf(s: string, c: char): (i: nat)
    ensures i <= |s|
    ensures c !in s[..i] && (i < |s| ==> s[i] == c)
  {
    if s == [] || s[0] == c then 0
    else
      var i := 1 + IndexOf(s[1..], c);
      assert s[..i] == [s[0]] + s[1..][..i - 1];
      i
  }

  /** Never empty: the text between separators, the empty text included. */
  function Split(s: string, c: char): (parts: seq<string>)
    ensures parts != []
    decreases |s|
  {
    var i := IndexOf(s, c);
    if i == |s| then [s] else [s[..i]] + Split(s[i + 1..], c)
  }

  /** The texts around the first separator, if there is one. */
  function Cut(s: string, c: char): Option<(string, string)> {
    var i := IndexOf(s, c);
    if i == |s| then None else Some((s[..i], s[i + 1..]))
  }

  lemma FirstIndex(s: string, c: char, i: nat)
    requires i <= |s| && c !in s[..i] && (i < |s| ==> s[i] == c)
    ensures IndexOf(s, c) == i
  {
    var j := IndexOf(s, c);
    assert forall k :: 0 <= k < i ==> s[k] == s[..i][k];
    assert forall k :: 0 <= k < j ==> s[k] == s[..j][k];
  }

  lemma SplitHead(head: string, c: char, tail: string)
    requires c !in head
    ensures Split(head + [c] + tail, c) == [head] + Split(tail, c)
  {
    var s := head + [c] + tail;
    assert s[..|head|] == head && s[|head| + 1..] == tail;
    FirstIndex(s, c, |head|);
  }

  lemma SplitLast(s: string, c: char)
    requires c !in s
    ensures Split(s, c) == [s]
  {
    assert s[..|s|] == s;
    FirstIndex(s, c, |s|);
  }

  lemma CutAt(key: string, c: char, value: string)
    requires c !in key
    ensures Cut(key + [c] + value, c) == Some((key, value))
  {
    var s := key + [c] + value;
    assert s[..|key|] == key && s[|key| + 1..] == value;
    FirstIndex(s, c, |key|);
  }

  /** A text is cut exactly when it has the separator, and then at the first one. */
  lemma CutExact(s: string, c: char, key: string, value: string)
    ensures Cut(s, c).None? <==> c !in s
    ensures Cut(s, c) == Some((key, value)) <==> s == key + [c] + value && c !in key
  {
    var i := IndexOf(s, c);
    if i == |s| { assert s[..i] == s; }
    if i < |s| { assert s == s[..i] + [c] + s[i + 1..]; }
    if s == key + [c] + value && c !in key { CutAt(key, c, value); }
  }

  function Join(parts: seq<string>, c: char): string
    requires parts != []
  {
    if |parts| == 1 then parts[0] else parts[0] + [c] + Join(parts[1..], c)
  }

  lemma {:induction false} PartsAreClean(s: string, c: char)
    ensures forall part :: part in Split(s, c) ==> c !in part
    decreases |s|
  {
    var i := IndexOf(s, c);
    if i == |s| {
      assert s[..i] == s;
    } else {
      PartsAreClean(s[i + 1..], c);
    }
  }

  /** Splitting is the inverse of joining: the one way to cut the text at every separator. */
  lemma {:induction false} JoinSplit(s: string, c: char)
    ensures Join(Split(s, c), c) == s
    decreases |s|
  {
    var i := IndexOf(s, c);
    if i < |s| {
      JoinSplit(s[i + 1..], c);
    }
  }

  lemma {:induction false} SplitJoin(parts: seq<string>, c: char)
    requires parts != [] && forall part :: part in parts ==> c !in part
    ensures Split(Join(parts, c), c) == parts
    decreases |parts|
  {
    if |parts| == 1 {
      SplitLast(parts[0], c);
    } else {
      SplitJoin(parts[1..], c);
      SplitHead(parts[0], c, Join(parts[1..], c));
    }
  }

  // ----- The order of texts -----

  predicate Before(s: string, t: string) {
    if t == [] then false
    else if s == [] then true
    else if s[0] != t[0] then s[0] < t[0]
    else Before(s[1..], t[1..])
  }

  lemma {:induction false} BeforeTotal(s: string, t: string)
    ensures s != t ==> Before(s, t) != Before(t, s)
    ensures !Before(s, s)
  {
    if s != [] && t != [] {
      BeforeTotal(s[1..], t[1..]);
      if s[0] == t[0] && s[1..] == t[1..] { assert s == [s[0]] + s[1..] == t; }
    }
    if s != [] { BeforeTotal(s[1..], s[1..]); }
  }

  lemma {:induction false} BeforeTransitive(s: string, t: string, u: string)
    requires Before(s, t) && Before(t, u)
    ensures Before(s, u)
  {
    if s != [] && s[0] == t[0] == u[0] { BeforeTransitive(s[1..], t[1..], u[1..]); }
  }

  lemma {:induction false} BeforeExtends(s: string, t: string, x: string, y: string)
    requires |s| == |t| && Before(s, t)
    ensures Before(s + x, t + y)
    decreases |s|
  {
    TailOfSum(s, x);
    TailOfSum(t, y);
    if s[0] == t[0] { BeforeExtends(s[1..], t[1..], x, y); }
  }

  lemma TailOfSum<T>(s: seq<T>, x: seq<T>)
    requires s != []
    ensures s + x != [] && (s + x)[0] == s[0] && (s + x)[1..] == s[1..] + x
  {
  }

  lemma {:induction false} BeforeAfterPrefix(s: string, x: char, y: char)
    requires x < y
    ensures Before(s + [x], s + [y])
    decreases |s|
  {
    if s != [] {
      TailOfSum(s, [x]);
      TailOfSum(s, [y]);
      BeforeAfterPrefix(s[1..], x, y);
    }
  }

  /** Of two numerals of one width, the smaller number comes first, and the same number is the same text. */
  lemma {:induction false} WidthOrder(s: string, t: string)
    requires |s| == |t| && AllDigits(s) && AllDigits(t)
    ensures Value(s) < Value(t) ==> Before(s, t)
    ensures Value(s) == Value(t) ==> s == t
    decreases |s|
  {
    if s != [] {
      var s', x, t', y := s[..|s| - 1], s[|s| - 1], t[..|t| - 1], t[|t| - 1];
      assert s == s' + [x] && t == t' + [y];
      WidthOrder(s', t');
      if Value(s') < Value(t') {
        BeforeExtends(s', t', [x], [y]);
      } else if Value(s') == Value(t') && x < y {
        BeforeAfterPrefix(s', x, y);
      }
    }
  }
}
