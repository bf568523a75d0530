/** The text form of the scrypt parameters stored with a password. */
module ScryptParams {
  import opened Decimal
  import opened Text
  import opened Wrappers

  datatype Params = Params(n: Int64, r: Int64, p: Int64, keyLen: Int64, saltLen: Int64)

  datatype Fault = NotScrypt | BadPair(text: string) | BadValue(key: string) | UnknownKey(key: string) | Missing

  const PREFIX: string := "scrypt$"

  predicate IsKey(key: string) {
    key == "N" || key == "r" || key == "p" || key == "keyLen"
  }

  // ----- Printing -----

  function Pair(key: string, n: int): string {
    key + ['='] + Itoa(n)
  }

  function PairsText(p: Params): string {
    Pair("N", p.n) + ['$'] + (Pair("r", p.r) + ['$'] + (Pair("p", p.p) + ['$'] + Pair("keyLen", p.keyLen)))
  }

  function Encode(p: Params): string {
    PREFIX + PairsText(p)
  }

  method EncodeParams(p: Params) returns (s: string)
    ensures s == Encode(p)
    ensures s == "scrypt$N=" + Itoa(p.n) + "$r=" + Itoa(p.r) + "$p=" + Itoa(p.p) + "$keyLen=" + Itoa(p.keyLen)
  {
    s := "scrypt$N=";
    s := s + Itoa(p.n);
    assert s == PREFIX + Pair("N", p.n);
    ghost var first := s;
    s := s + "$r=";
    s := s + Itoa(p.r);
    assert s == first + ['$'] + Pair("r", p.r);
    ghost var second := s;
    s := s + "$p=";
    s := s + Itoa(p.p);
    assert s == second + ['$'] + Pair("p", p.p);
    ghost var third := s;
    s := s + "$keyLen=";
    s := s + Itoa(p.keyLen);
    assert s == third + ['$'] + Pair("keyLen", p.keyLen);
    Regroup(PREFIX, Pair("N", p.n), Pair("r", p.r), Pair("p", p.p), Pair("keyLen", p.keyLen));
  }

  lemma Regroup(prefix: string, a: string, b: string, c: string, d: string)
    ensures prefix + a + ['$'] + b + ['$'] + c + ['$'] + d == prefix + (a + ['$'] + (b + ['$'] + (c + ['$'] + d)))
  {
  }

  // ----- Parsing -----

  function Set(p: Params, key: string, n: Int64): Result<Params, Fault> {
    if key == "N" then Ok(p.(n := n))
    else if key == "r" then Ok(p.(r := n))
    else if key == "p" then Ok(p.(p := n))
    else if key == "keyLen" then Ok(p.(keyLen := n))
    else Err(UnknownKey(key))
  }

  function SetPart(p: Params, part: string): Result<Params, Fault> {
    var kv := Cut(part, '=');
    if kv.None? then Err(BadPair(part))
    else
      var n := Atoi(kv.value.1);
      if n.None? then Err(BadValue(kv.value.0)) else Set(p, kv.value.0, n.value)
  }

  function SetParts(p: Params, parts: seq<string>): Result<Params, Fault>
    decreases |parts|
  {
    if parts == [] then Ok(p)
    else
      var next := SetPart(p, parts[0]);
      if next.Err? then next else SetParts(next.value, parts[1..])
  }

  const NO_PARAMS: Params := Params(0, 0, 0, 0, 0)

  predicate AllSet(p: Params) {
    p.n != 0 && p.r != 0 && p.p != 0 && p.keyLen != 0
  }

  predicate HasPrefix(s: string) {
    |s| >= |PREFIX| && s[..|PREFIX|] == PREFIX
  }

  function Decode(s: string): Result<Params, Fault> {
    if !HasPrefix(s) then Err(NotScrypt)
    else
      var p := SetParts(NO_PARAMS, Split(s[|PREFIX|..], '$'));
      if p.Err? then p
      else if !AllSet(p.value) then Err(Missing)
      else p
  }

  method DecodeParams(s: string) returns (r: Result<Params, Fault>)
    ensures r == Decode(s)
  {
    if !HasPrefix(s) {
      return Err(NotScrypt);
    }
    var parts := Split(s[|PREFIX|..], '$');
    var p := NO_PARAMS;
    for i := 0 to |parts|
      invariant SetParts(NO_PARAMS, parts) == SetParts(p, parts[i..])
    {
      var part := parts[i];
      assert parts[i..][0] == part && parts[i..][1..] == parts[i + 1..];
      var kv := Cut(part, '=');
      if kv.None? {
        return Err(BadPair(part));
      }
      var (key, value) := kv.value;
      var n := Atoi(value);
      if n.None? {
        return Err(BadValue(key));
      }
      match key {
        case "N" => p := p.(n := n.value);
        case "r" => p := p.(r := n.value);
        case "p" => p := p.(p := n.value);
        case "keyLen" => p := p.(keyLen := n.value);
        case _ => return Err(UnknownKey(key));
      }
    }
    if p.n == 0 || p.r == 0 || p.p == 0 || p.keyLen == 0 {
      return Err(Missing);
    }
    return Ok(p);
  }

  // ----- Round trip -----

  lemma SplitFour(a: string, b: string, c: string, d: string)
    requires '$' !in a && '$' !in b && '$' !in c && '$' !in d
    ensures Split(a + ['$'] + (b + ['$'] + (c + ['$'] + d)), '$') == [a, b, c, d]
  {
    SplitLast(d, '$');
    SplitHead(c, '$', d);
    SplitHead(b, '$', c + ['$'] + d);
    SplitHead(a, '$', b + ['$'] + (c + ['$'] + d));
  }

  lemma PairSets(p: Params, key: string, n: Int64)
    requires '=' !in key
    ensures SetPart(p, Pair(key, n)) == Set(p, key, n)
  {
    CutAt(key, '=', Itoa(n));
    AtoiItoa(n);
  }

  lemma SplitPairs(p: Params)
    ensures Split(PairsText(p), '$') == [Pair("N", p.n), Pair("r", p.r), Pair("p", p.p), Pair("keyLen", p.keyLen)]
  {
    SplitFour(Pair("N", p.n), Pair("r", p.r), Pair("p", p.p), Pair("keyLen", p.keyLen));
  }

  lemma SetNext(p: Params, part: string, rest: seq<string>, next: Params)
    requires SetPart(p, part) == Ok(next)
    ensures SetParts(p, [part] + rest) == SetParts(next, rest)
  {
    assert ([part] + rest)[1..] == rest;
  }

  lemma FourSteps(p0: Params, p1: Params, p2: Params, p3: Params, p4: Params, a: string, b: string, c: string,
      d: string)
    requires SetPart(p0, a) == Ok(p1) && SetPart(p1, b) == Ok(p2)
    requires SetPart(p2, c) == Ok(p3) && SetPart(p3, d) == Ok(p4)
    ensures SetParts(p0, [a, b, c, d]) == Ok(p4)
  {
    SetNext(p0, a, [b] + ([c] + ([d] + [])), p1);
    SetNext(p1, b, [c] + ([d] + []), p2);
    SetNext(p2, c, [d] + [], p3);
    SetNext(p3, d, [], p4);
    assert [a, b, c, d] == [a] + ([b] + ([c] + ([d] + [])));
  }

  lemma SetFour(p: Params, a: string, b: string, c: string, d: string)
    requires a == Pair("N", p.n) && b == Pair("r", p.r) && c == Pair("p", p.p) && d == Pair("keyLen", p.keyLen)
    ensures SetParts(NO_PARAMS, [a, b, c, d]) == Ok(p.(saltLen := 0))
  {
    var p1 := Params(p.n, 0, 0, 0, 0);
    var p2 := Params(p.n, p.r, 0, 0, 0);
    var p3 := Params(p.n, p.r, p.p, 0, 0);
    PairSets(NO_PARAMS, "N", p.n);
    PairSets(p1, "r", p.r);
    PairSets(p2, "p", p.p);
    PairSets(p3, "keyLen", p.keyLen);
    FourSteps(NO_PARAMS, p1, p2, p3, p.(saltLen := 0), a, b, c, d);
  }

  lemma EncodeTail(p: Params)
    ensures HasPrefix(Encode(p)) && Encode(p)[|PREFIX|..] == PairsText(p)
  {
  }

  lemma DecodeFrom(s: string, parts: seq<string>, q: Params)
    requires HasPrefix(s) && Split(s[|PREFIX|..], '$') == parts && SetParts(NO_PARAMS, parts) == Ok(q)
    ensures Decode(s) == if AllSet(q) then Ok(q) else Err(Missing)
  {
  }

  /** Printing and parsing back gives the parameters again without the salt length; exactly the parameters with a
      zero field are refused. */
  lemma DecodeEncode(p: Params)
    ensures Decode(Encode(p)) ==
            if p.n != 0 && p.r != 0 && p.p != 0 && p.keyLen != 0 then Ok(p.(saltLen := 0)) else Err(Missing)
  {
    var a, b, c, d := Pair("N", p.n), Pair("r", p.r), Pair("p", p.p), Pair("keyLen", p.keyLen);
    EncodeTail(p);
    SplitPairs(p);
    SetFour(p, a, b, c, d);
    DecodeFrom(Encode(p), [a, b, c, d], p.(saltLen := 0));
  }

  /** Whatever text was accepted, printing the outcome gives a text that means the same. */
  lemma Reencode(s: string)
    requires Decode(s).Ok?
    ensures Decode(Encode(Decode(s).value)) == Decode(s)
  {
    NoSalt(NO_PARAMS, Split(s[|PREFIX|..], '$'));
    DecodeEncode(Decode(s).value);
  }

  lemma {:induction false} NoSalt(p: Params, parts: seq<string>)
    requires SetParts(p, parts).Ok?
    ensures SetParts(p, parts).value.saltLen == p.saltLen
    decreases |parts|
  {
    if parts != [] { NoSalt(SetPart(p, parts[0]).value, parts[1..]); }
  }

  // ----- What a text means -----

  /** A known key, then a 64-bit number. */
  predicate GoodPart(part: string) {
    var kv := Cut(part, '=');
    kv.Some? && IsKey(kv.value.0) && Atoi(kv.value.1).Some?
  }

  predicate AllGood(parts: seq<string>) {
    forall i :: 0 <= i < |parts| ==> GoodPart(parts[i])
  }

  /** The number in the last pair with this key, zero without one. */
  function LastValue(parts: seq<string>, key: string): Int64
    requires AllGood(parts)
  {
    if parts == [] then 0
    else
      var last := parts[|parts| - 1];
      assert GoodPart(last);
      var kv := Cut(last, '=').value;
      if kv.0 == key then Atoi(kv.1).value else LastValue(parts[..|parts| - 1], key)
  }

  lemma {:induction false} SetPartsLast(p: Params, parts: seq<string>, part: string)
    ensures SetParts(p, parts + [part]) ==
            var before := SetParts(p, parts); if before.Err? then before else SetPart(before.value, part)
    decreases |parts|
  {
    if parts == [] {
      assert (parts + [part])[0] == part && (parts + [part])[1..] == [];
    } else {
      assert (parts + [part])[0] == parts[0] && (parts + [part])[1..] == parts[1..] + [part];
      if SetPart(p, parts[0]).Ok? { SetPartsLast(SetPart(p, parts[0]).value, parts[1..], part); }
    }
  }

  lemma GoodPartSets(p: Params, part: string)
    ensures SetPart(p, part).Ok? <==> GoodPart(part)
    ensures GoodPart(part) ==>
            var (key, n) := (Cut(part, '=').value.0, Atoi(Cut(part, '=').value.1).value);
            SetPart(p, part) == Ok(Params(if key == "N" then n else p.n, if key == "r" then n else p.r,
                                          if key == "p" then n else p.p,
                                          if key == "keyLen" then n else p.keyLen, p.saltLen))
  {
  }

  lemma {:induction false} BadPartStops(p: Params, parts: seq<string>)
    ensures SetParts(p, parts).Ok? <==> AllGood(parts)
    decreases |parts|
  {
    if parts != [] {
      GoodPartSets(p, parts[0]);
      if GoodPart(parts[0]) { BadPartStops(SetPart(p, parts[0]).value, parts[1..]); }
    }
  }

  function LastValues(parts: seq<string>): Params
    requires AllGood(parts)
  {
    Params(LastValue(parts, "N"), LastValue(parts, "r"), LastValue(parts, "p"), LastValue(parts, "keyLen"), 0)
  }

  lemma LastValueStep(before: seq<string>, last: string, key: string)
    requires AllGood(before) && GoodPart(last) && AllGood(before + [last])
    ensures LastValue(before + [last], key) ==
            if Cut(last, '=').value.0 == key then Atoi(Cut(last, '=').value.1).value else LastValue(before, key)
  {
    assert (before + [last])[..|before|] == before;
  }

  lemma LastValuesStep(before: seq<string>, last: string)
    requires AllGood(before) && GoodPart(last) && AllGood(before + [last])
    ensures SetPart(LastValues(before), last) == Ok(LastValues(before + [last]))
  {
    LastValueStep(before, last, "N");
    LastValueStep(before, last, "r");
    LastValueStep(before, last, "p");
    LastValueStep(before, last, "keyLen");
    GoodPartSets(LastValues(before), last);
  }

  lemma {:induction false} LastPairWins(parts: seq<string>)
    requires AllGood(parts)
    ensures SetParts(NO_PARAMS, parts) == Ok(LastValues(parts))
    decreases |parts|
  {
    if parts != [] {
      var before, last := parts[..|parts| - 1], parts[|parts| - 1];
      assert parts == before + [last];
      LastPairWins(before);
      LastPairAppended(before, last);
    }
  }

  lemma LastPairAppended(before: seq<string>, last: string)
    requires AllGood(before) && AllGood(before + [last])
    requires SetParts(NO_PARAMS, before) == Ok(LastValues(before))
    ensures SetParts(NO_PARAMS, before + [last]) == Ok(LastValues(before + [last]))
  {
    assert (before + [last])[|before|] == last;
    SetPartsLast(NO_PARAMS, before, last);
    LastValuesStep(before, last);
  }

  /** A text is accepted exactly when it starts with the scheme, is made of good pairs, and gives each of the four
      keys a nonzero last value; those values are the outcome. */
  lemma DecodeMeaning(s: string)
    ensures Decode(s).Ok? <==>
            HasPrefix(s) && var parts := Split(s[|PREFIX|..], '$'); AllGood(parts) && AllSet(LastValues(parts))
    ensures Decode(s).Ok? ==>
            var parts := Split(s[|PREFIX|..], '$'); AllGood(parts) && Decode(s).value == LastValues(parts)
  {
    if HasPrefix(s) {
      var parts := Split(s[|PREFIX|..], '$');
      BadPartStops(NO_PARAMS, parts);
      if AllGood(parts) { LastPairWins(parts); }
    }
  }

  /** What is wrong with a part: no separator, else no number, else an unknown key. */
  function PartFault(part: string): Fault
    requires !GoodPart(part)
  {
    if '=' !in part then BadPair(part)
    else
      var i := IndexOf(part, '=');
      if Atoi(part[i + 1..]).None? then BadValue(part[..i]) else UnknownKey(part[..i])
  }

  lemma {:induction false} FirstBadPart(p: Params, parts: seq<string>, i: nat)
    requires i < |parts| && AllGood(parts[..i]) && !GoodPart(parts[i])
    ensures SetParts(p, parts) == Err(PartFault(parts[i]))
    decreases |parts|
  {
    if i == 0 {
    } else {
      assert parts[..i][0] == parts[0] && parts[..i][1..] == parts[1..][..i - 1];
      GoodPartSets(p, parts[0]);
      FirstBadPart(SetPart(p, parts[0]).value, parts[1..], i - 1);
    }
  }

  /** Which error a text gives: the scheme is looked at first, then the parts in order, and a missing parameter is
      reported only when all of them are good. */
  lemma DecodeErrors(s: string, i: nat)
    ensures Decode(s) == Err(NotScrypt) <==> !exists tail: string :: s == "scrypt$" + tail
    ensures HasPrefix(s) ==>
              var parts := Split(s[|PREFIX|..], '$');
              && (i < |parts| && AllGood(parts[..i]) && !GoodPart(parts[i]) ==> Decode(s) == Err(PartFault(parts[i])))
              && (AllGood(parts) && !AllSet(LastValues(parts)) ==> Decode(s) == Err(Missing))
  {
    if HasPrefix(s) {
      assert s == "scrypt$" + s[|PREFIX|..];
      var parts := Split(s[|PREFIX|..], '$');
      if i < |parts| && AllGood(parts[..i]) && !GoodPart(parts[i]) { FirstBadPart(NO_PARAMS, parts, i); }
      if AllGood(parts) { LastPairWins(parts); }
      NeverNotScrypt(NO_PARAMS, parts);
    }
  }

  lemma {:induction false} NeverNotScrypt(p: Params, parts: seq<string>)
    ensures SetParts(p, parts) != Err(NotScrypt)
    decreases |parts|
  {
    if parts != [] && SetPart(p, parts[0]).Ok? { NeverNotScrypt(SetPart(p, parts[0]).value, parts[1..]); }
  }
}
