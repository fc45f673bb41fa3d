/** The pieces of text handling that addresses and rules are parsed with: splitting on a character,
    and decimal numerals in and out. */
module Text {
  datatype Option<+T> = None | Some(value: T)

  lemma LastApart<T>(s: seq<T>)
    requires s != []
    ensures s == s[..|s| - 1] + [s[|s| - 1]]
    ensures forall x :: x in s <==> x in s[..|s| - 1] || x == s[|s| - 1]
  {
  }

  ghost predicate NoRepeats<T>(s: seq<T>) {
    forall i, j :: 0 <= i < j < |s| ==> s[i] != s[j]
  }

  lemma {:induction false} DistinctSize<T>(s: seq<T>)
    requires NoRepeats(s)
    ensures |set x | x in s| == |s|
  {
    if s != [] {
      var n := |s| - 1;
      DistinctSize(s[..n]);
      assert (set x | x in s) == (set x | x in s[..n]) + {s[n]};
    } else {
      assert (set x | x in s) == {};
    }
  }

  const MAX_INT := 0x7fff_ffff_ffff_ffff

  function IndexOf(s: string, c: char): (i: nat)
    requires c in s
    ensures i < |s| && s[i] == c && c !in s[..i]
  {
    if s[0] == c then 0 else 1 + IndexOf(s[1..], c)
  }

  /** The fields between separators; a text without a separator is one field. */
  function Split(s: string, c: char): (fields: seq<string>)
    ensures |fields| >= 1
    decreases |s|
  {
    if c !in s then [s] else var i := IndexOf(s, c); [s[..i]] + Split(s[i + 1..], c)
  }

  /** The fields with the separator between them. */
  ghost function Together(fields: seq<string>, c: char): string
    requires fields != []
  {
    if |fields| == 1 then fields[0] else fields[0] + [c] + Together(fields[1..], c)
  }

  /** Splitting takes a text apart at every separator: no field holds one, and together the fields are the text. */
  lemma {:induction false} SplitApart(s: string, c: char)
    ensures Together(Split(s, c), c) == s && forall field :: field in Split(s, c) ==> c !in field
    decreases |s|
  {
    if c in s {
      var i := IndexOf(s, c);
      var first, rest := s[..i], Split(s[i + 1..], c);
      SplitApart(s[i + 1..], c);
      assert ([first] + rest)[1..] == rest;
      assert s == first + [c] + s[i + 1..];
    }
  }

  /** There is no other way to take it apart. */
  lemma {:induction false} SplitIsOne(fields: seq<string>, c: char)
    requires fields != [] && forall i :: 0 <= i < |fields| ==> c !in fields[i]
    ensures Split(Together(fields, c), c) == fields
  {
    if |fields| == 1 {
      SplitOne(fields[0], c);
    } else {
      var rest := fields[1..];
      assert forall i :: 0 <= i < |rest| ==> rest[i] == fields[i + 1];
      SplitIsOne(rest, c);
      SplitFirst(fields[0], c, Together(rest, c));
      assert Together(fields, c) == fields[0] + [c] + Together(rest, c);
      assert fields == [fields[0]] + rest;
    }
  }

  predicate IsDigit(c: char) {
    '0' <= c <= '9'
  }

  predicate AllDigits(s: string) {
    forall i :: 0 <= i < |s| ==> IsDigit(s[i])
  }

  function Numeral(s: string): nat
    requires AllDigits(s)
  {
    if s == "" then 0 else Numeral(s[..|s| - 1]) * 10 + (s[|s| - 1] as int - '0' as int)
  }

  /** A decimal integer with an optional sign, if it fits 64 bits. */
  function Atoi(s: string): Option<int> {
    var signed := s != "" && (s[0] == '-' || s[0] == '+');
    var digits := if signed then s[1..] else s;
    if digits == "" || !AllDigits(digits) then None
    else
      var magnitude: int := Numeral(digits);
      var n := if signed && s[0] == '-' then -magnitude else magnitude;
      if -MAX_INT - 1 <= n <= MAX_INT then Some(n) else None
  }

  function Itoa(n: nat): (s: string)
    ensures s != "" && AllDigits(s) && Numeral(s) == n
    ensures |s| > 1 ==> s[0] != '0'
  {
    var last := [(n % 10 + '0' as int) as char];
    if n < 10 then last else (var s := Itoa(n / 10) + last; assert s[..|s| - 1] == Itoa(n / 10); s)
  }

  /** A numeral is read with its sign, and refused beyond 64 bits. */
  lemma AtoiOfSigned(d: string)
    requires d != "" && AllDigits(d)
    ensures Atoi(d) == Atoi("+" + d) == if Numeral(d) <= 9_223_372_036_854_775_807 then Some(Numeral(d)) else None
    ensures var n: int := Numeral(d); Atoi("-" + d) == if n <= 9_223_372_036_854_775_808 then Some(-n) else None
  {
    assert IsDigit(d[0]);
    assert ("+" + d)[1..] == d && ("-" + d)[1..] == d;
  }

  /** Nothing else is. */
  lemma AtoiIsSigned(s: string)
    requires Atoi(s).Some?
    ensures exists d :: d != "" && AllDigits(d) && (s == d || s == "+" + d || s == "-" + d)
  {
    if s[0] == '-' || s[0] == '+' {
      assert s == [s[0]] + s[1..];
    }
  }

  lemma AtoiOfItoa(n: nat)
    requires n <= MAX_INT
    ensures Atoi(Itoa(n)) == Some(n)
  {
    var s := Itoa(n);
    assert IsDigit(s[0]);
  }

  lemma NotInDigits(s: string, c: char)
    requires AllDigits(s) && !IsDigit(c)
    ensures c !in s
  {
  }

  lemma SplitOne(s: string, c: char)
    requires c !in s
    ensures Split(s, c) == [s]
  {
  }

  lemma SplitFirst(a: string, c: char, b: string)
    requires c !in a
    ensures Split(a + [c] + b, c) == [a] + Split(b, c)
  {
    var s := a + [c] + b;
    assert s[|a|] == c;
    var i := IndexOf(s, c);
    assert i >= |a| by { assert forall j :: 0 <= j < |a| ==> s[j] == a[j]; }
    assert i <= |a| by { assert forall j :: 0 <= j < i ==> s[..i][j] == s[j]; }
    assert s[..i] == a && s[i + 1..] == b;
  }
}
