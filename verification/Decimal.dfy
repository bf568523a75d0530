/** strconv.Itoa and strconv.Atoi on 64-bit integers. */
module Decimal {
  import opened Wrappers

  const MAX_INT64: int := 0x7FFF_FFFF_FFFF_FFFF
  const MIN_INT64: int := -MAX_INT64 - 1

  type Int64 = n: int | MIN_INT64 <= n <= MAX_INT64

  predicate IsDigit(c: char) {
    '0' <= c <= '9'
  }

  function DigitChar(d: nat): (c: char)
    requires d < 10
    ensures IsDigit(c) && DigitValue(c) == d
  {
    ('0' as int + d) as char
  }

  function DigitValue(c: char): (d: nat)
    requires IsDigit(c)
    ensures d < 10
  {
    c as int - '0' as int
  }

  /** The numeral of n, most significant digit first and without leading zeros. */
  function Digits(n: nat): (s: string)
    ensures s != [] && forall i :: 0 <= i < |s| ==> IsDigit(s[i])
  {
    if n < 10 then [DigitChar(n)] else Digits(n / 10) + [DigitChar(n % 10)]
  }

  function Itoa(n: int): (s: string)
    ensures s != [] && forall i :: 0 <= i < |s| ==> IsDigit(s[i]) || s[i] == '-'
  {
    if n < 0 then ['-'] + Digits(-n) else Digits(n)
  }

  /** Only negative numbers carry a sign. */
  lemma ItoaSign(n: int)
    ensures if n < 0 then Itoa(n) == ['-'] + Itoa(-n) else AllDigits(Itoa(n))
  {
  }

  predicate AllDigits(s: string) {
    forall i :: 0 <= i < |s| ==> IsDigit(s[i])
  }

  function Value(s: string): nat
    requires AllDigits(s)
  {
    if s == [] then 0 else 10 * Value(s[..|s| - 1]) + DigitValue(s[|s| - 1])
  }

  /** An optional sign, then at least one digit, and nothing else; out of range is an error. */
  function Atoi(s: string): Option<int> {
    var body := if s != [] && (s[0] == '-' || s[0] == '+') then s[1..] else s;
    if body == [] || !AllDigits(body) then None
    else
      var v: int := Value(body);
      var n := if s[0] == '-' then -v else v;
      if MIN_INT64 <= n <= MAX_INT64 then Some(n) else None
  }

  lemma {:induction false} ValueOfDigits(n: nat)
    ensures Value(Digits(n)) == n
  {
    if n >= 10 {
      ValueOfDigits(n / 10);
      var s := Digits(n / 10) + [DigitChar(n % 10)];
      assert s[..|s| - 1] == Digits(n / 10);
    }
  }

  lemma AtoiUnsigned(body: string)
    requires body != [] && AllDigits(body) && Value(body) <= MAX_INT64
    ensures Atoi(body) == Some(Value(body))
  {
    assert IsDigit(body[0]);
  }

  /** Printing and parsing back gives every 64-bit integer again, the smallest one included. */
  lemma AtoiItoa(n: Int64)
    ensures Atoi(Itoa(n)) == Some(n)
  {
    var v: int := n;
    if v < 0 {
      ValueOfDigits(-v);
    } else {
      ValueOfDigits(v);
      AtoiUnsigned(Digits(v));
    }
  }

  /** A numeral has no leading zero but for zero itself. */
  lemma {:induction false} NoLeadingZero(n: nat)
    ensures Digits(n)[0] == '0' <==> n == 0
  {
    if n >= 10 { NoLeadingZero(n / 10); }
  }

  /** Leading zeros do not change a value. */
  lemma {:induction false} LeadingZero(s: string)
    requires AllDigits(s)
    ensures AllDigits(['0'] + s) && Value(['0'] + s) == Value(s)
    decreases |s|
  {
    var t := ['0'] + s;
    if s != [] {
      LeadingZero(s[..|s| - 1]);
      assert t[..|t| - 1] == ['0'] + s[..|s| - 1];
    }
  }

  /** Every other text of digits is the numeral of its value. */
  lemma {:induction false} DigitsOfValue(s: string)
    requires s != [] && AllDigits(s) && (s[0] == '0' ==> |s| == 1)
    ensures Digits(Value(s)) == s
    decreases |s|
  {
    var before, d := s[..|s| - 1], DigitValue(s[|s| - 1]);
    assert s == before + [DigitChar(d)];
    if before != [] {
      DigitsOfValue(before);
      NoLeadingZero(Value(before));
      assert Value(s) / 10 == Value(before) && Value(s) % 10 == d;
    }
  }

  /** A text of digits that stands for v, with a minus sign, a plus sign or none. */
  predicate Spells(s: string, d: string, v: int) {
    d != "" && AllDigits(d) &&
    var n: int := Value(d);
    (v == n && (s == d || s == ['+'] + d)) || (v == -n && s == ['-'] + d)
  }

  /** Exactly the texts of an optional sign and at least one digit are numbers, if their value is in range. */
  lemma AtoiExact(s: string, v: int)
    ensures Atoi(s) == Some(v) <==> MIN_INT64 <= v <= MAX_INT64 && exists d: string :: Spells(s, d, v)
  {
    if Atoi(s) == Some(v) {
      var d := if s[0] == '-' || s[0] == '+' then s[1..] else s;
      assert s[0] == '-' ==> s == ['-'] + d;
      assert s[0] == '+' ==> s == ['+'] + d;
      assert Spells(s, d, v);
    }
    if d: string :| Spells(s, d, v) {
      assert IsDigit(d[0]);
      assert s != d ==> s[1..] == d;
    }
  }
}
