/** Dotted addresses to 32-bit words and back. */
module Inet {
  import opened Words
  import opened Text

  /** The word with the given binary digits; digits beyond the 32nd are shifted out. */
  function Low(n: nat): Word {
    if n == 0 then 0 else (Low(n / 2) << 1) | (if n % 2 == 1 then 1 else 0)
  }

  /** The value of the `k` lowest bits. */
  function FromWord(w: Word, k: nat): nat {
    if k == 0 then 0 else 2 * FromWord(w >> 1, k - 1) + (if w & 1 == 1 then 1 else 0)
  }

  lemma DoubledBelow(w: Word, s: Word, b: Word)
    requires OneBit(s) && s < 0x8000_0000 && w < s && b <= 1
    ensures (w << 1) | b < s << 1 && ((w << 1) | b) >> 1 == w && ((w << 1) | b) & 1 == b
  {
  }

  lemma HalvedBelow(w: Word, s: Word)
    requires OneBit(s) && s < 0x8000_0000 && w < s << 1
    ensures w >> 1 < s && ((w >> 1) << 1) | (w & 1) == w
  {
  }
  
  lemma {:induction false} ShiftOneBelow(k: nat)
    requires k < 31
    ensures OneBit(ShiftOne(k)) && ShiftOne(k) < 0x8000_0000
  {
    ShiftOneIsOneBit(k);
    ShiftOneNonZero(k + 1);
  }

  function Two(k: nat): nat {
    if k == 0 then 1 else 2 * Two(k - 1)
  }

  lemma {:induction false} ZeroFits(k: nat)
    ensures FromWord(0, k) == 0
  {
    if k > 0 { ZeroFits(k - 1); }
  }

  lemma {:induction false} LowFits(n: nat, k: nat)
    requires k <= 31 && n < Two(k)
    ensures Low(n) < ShiftOne(k) && FromWord(Low(n), k) == n
  {
    if n == 0 {
      ZeroFits(k);
      ShiftOneNonZero(k);
    } else {
      LowFits(n / 2, k - 1);
      ShiftOneBelow(k - 1);
      LowStep(n, k);
    }
  }

  lemma LowStep(n: nat, k: nat)
    requires 0 < k <= 31 && n > 0 && OneBit(ShiftOne(k - 1)) && ShiftOne(k - 1) < 0x8000_0000 && Low(n / 2) < ShiftOne(k - 1)
    ensures Low(n) < ShiftOne(k) && Low(n) >> 1 == Low(n / 2) && (Low(n) & 1 == 1 <==> n % 2 == 1)
  {
    if n % 2 == 1 {
      DoubledBelow(Low(n / 2), ShiftOne(k - 1), 1);
    } else {
      DoubledBelow(Low(n / 2), ShiftOne(k - 1), 0);
    }
  }

  lemma {:induction false} FromWordFits(w: Word, k: nat)
    requires k <= 31 && w < ShiftOne(k)
    ensures FromWord(w, k) < Two(k) && Low(FromWord(w, k)) == w
  {
    if k > 0 {
      ShiftOneBelow(k - 1);
      HalvedBelow(w, ShiftOne(k - 1));
      FromWordFits(w >> 1, k - 1);
      LastBit(w);
      FromWordStep(w, FromWord(w >> 1, k - 1), FromWord(w, k));
    }
  }

  lemma LastBit(w: Word)
    ensures w & 1 == 1 || w & 1 == 0
  {
  }

  lemma FromWordStep(w: Word, half: nat, n: nat)
    requires Low(half) == w >> 1 && ((w >> 1) << 1) | (w & 1) == w && (w & 1 == 1 || w & 1 == 0)
    requires n == 2 * half + (if w & 1 == 1 then 1 else 0)
    ensures Low(n) == w
  {
    assert n / 2 == half;
  }

  /** Words and the numbers below 2 to the 32 name each other. */
  lemma FromWordRound(w: Word)
    ensures Low(FromWord(w, 32)) == w
  {
    ShiftOneAtTheTop();
    HalfWord(w);
    FromWordFits(w >> 1, 31);
    LastBit(w);
    FromWordStep(w, FromWord(w >> 1, 31), FromWord(w, 32));
  }

  lemma LowRound(n: nat)
    requires n < WORDS
    ensures FromWord(Low(n), 32) == n
  {
    if n == 0 {
      ZeroFits(32);
    } else {
      HalfFits(n);
      LowRoundStep(n);
    }
  }

  lemma HalfFits(n: nat)
    requires n < WORDS
    ensures Low(n / 2) < 0x8000_0000 && FromWord(Low(n / 2), 31) == n / 2
  {
    SomeTwos();
    TwoAdds(24, 7);
    assert Two(7) == 128;
    LowFits(n / 2, 31);
    ShiftOneAtTheTop();
  }

  lemma LowRoundStep(n: nat)
    requires n > 0 && Low(n / 2) < 0x8000_0000 && FromWord(Low(n / 2), 31) == n / 2
    ensures FromWord(Low(n), 32) == n
  {
    LowHalves(n);
  }

  lemma LowHalves(n: nat)
    requires n > 0 && Low(n / 2) < 0x8000_0000
    ensures Low(n) >> 1 == Low(n / 2) && (Low(n) & 1 == 1 <==> n % 2 == 1)
  {
    TopDoubled(Low(n / 2));
  }

  lemma TopDoubled(w: Word)
    requires w < 0x8000_0000
    ensures ((w << 1) | 1) >> 1 == w && ((w << 1) | 0) >> 1 == w && ((w << 1) | 1) & 1 == 1 && ((w << 1) | 0) & 1 == 0
  {
  }

  lemma HalfWord(w: Word)
    ensures w >> 1 < 0x8000_0000 && ((w >> 1) << 1) | (w & 1) == w
  {
  }

  // ---- parsing, on 32-bit numbers

  const WORDS := 0x1_0000_0000

  /** Bitwise or. */
  function Or(x: nat, y: nat): nat {
    if x == 0 then y else if y == 0 then x
    else 2 * Or(x / 2, y / 2) + (if x % 2 == 1 || y % 2 == 1 then 1 else 0)
  }

  /** `v << pos`, kept to 32 bits; a negative `v` counts in two's complement. */
  function Left(v: int, pos: nat): nat {
    (v * Two(pos)) % WORDS
  }

  /** A bit of an or is set when it is set on either side. */
  lemma {:induction false} OrBits(x: nat, y: nat, k: nat)
    ensures Bit(Or(x, y), k) <==> Bit(x, k) || Bit(y, k)
  {
    if x == 0 || y == 0 {
      ZeroBit(k);
    } else if k > 0 {
      OrBits(x / 2, y / 2, k - 1);
    }
  }

  lemma {:induction false} ZeroBit(k: nat)
    ensures !Bit(0, k)
  {
    if k > 0 { ZeroBit(k - 1); }
  }

  /** Bit `k` of a number. */
  ghost predicate Bit(n: nat, k: nat) {
    if k == 0 then n % 2 == 1 else Bit(n / 2, k - 1)
  }

  datatype Refusal = NotANumber | NegativeShift
  datatype Address = Parsed(number: nat) | Unparsed(why: Refusal)

  /** The segments from `i` on, each ORed in one byte further right than the one before. */
  function Gather(segments: seq<string>, i: nat, acc: nat, pos: int): Address
    requires i <= |segments|
    decreases |segments| - i
  {
    if i == |segments| then Parsed(acc)
    else
      match Atoi(segments[i])
      case None => Unparsed(NotANumber)
      case Some(v) => if pos < 0 then Unparsed(NegativeShift) else Gather(segments, i + 1, Or(acc, Left(v, pos)), pos - 8)
  }

  function ParseAddress(ip: string): Address {
    Gather(Split(ip, '.'), 0, 0, 24)
  }

  /** Those of the first five fields that there are, from `i` on, are numerals. */
  predicate Numerals(fields: seq<string>, i: nat) {
    forall j :: i <= j < 5 && j < |fields| ==> Atoi(fields[j]).Some?
  }

  lemma NumeralsFrom(fields: seq<string>, i: nat)
    requires i < |fields| && i < 5
    ensures Numerals(fields, i) <==> Atoi(fields[i]).Some? && Numerals(fields, i + 1)
  {
  }

  lemma {:induction false} GatherCases(fields: seq<string>, i: nat, acc: nat, pos: int)
    requires i <= |fields| && i <= 4 && pos == 24 - 8 * i
    ensures Gather(fields, i, acc, pos) == Unparsed(NegativeShift) <==> |fields| >= 5 && Numerals(fields, i)
    ensures Gather(fields, i, acc, pos) == Unparsed(NotANumber) <==> !Numerals(fields, i)
    decreases 4 - i
  {
    if i < |fields| {
      NumeralsFrom(fields, i);
      if i < 4 && Atoi(fields[i]).Some? {
        var v := Atoi(fields[i]).value;
        GatherCases(fields, i + 1, Or(acc, Left(v, pos)), pos - 8);
      }
    }
  }

  /** Which texts are refused, and which shift by a negative count: the five first fields decide. */
  lemma AddressCases(ip: string)
    ensures ParseAddress(ip) == Unparsed(NegativeShift) <==> |Split(ip, '.')| >= 5 && Numerals(Split(ip, '.'), 0)
    ensures ParseAddress(ip) == Unparsed(NotANumber) <==> !Numerals(Split(ip, '.'), 0)
  {
    GatherCases(Split(ip, '.'), 0, 0, 24);
  }

  /** What a field counts for: the first 2 to the 24th, the last of four 1. */
  ghost function Weight(j: nat): nat {
    if j == 0 then 0x100_0000 else if j == 1 then 0x1_0000 else if j == 2 then 0x100 else 1
  }

  /** Field `j`, weighted, within 32 bits, has bit `k` set. */
  ghost predicate SetBy(fields: seq<string>, j: nat, k: nat)
    requires j < |fields|
  {
    Atoi(fields[j]).Some? && Bit((Atoi(fields[j]).value * Weight(j)) % 0x1_0000_0000, k)
  }

  lemma {:induction false} GatherBits(fields: seq<string>, i: nat, acc: nat, pos: int, k: nat)
    requires i <= |fields| <= 4 && pos == 24 - 8 * i && Gather(fields, i, acc, pos).Parsed?
    ensures Bit(Gather(fields, i, acc, pos).number, k) <==>
            Bit(acc, k) || exists j: nat {:trigger SetBy(fields, j, k)} :: i <= j < |fields| && SetBy(fields, j, k)
    decreases |fields| - i
  {
    if i < |fields| {
      var v := Atoi(fields[i]).value;
      SomeTwos();
      OrBits(acc, Left(v, pos), k);
      assert Bit(Left(v, pos), k) <==> SetBy(fields, i, k);
      GatherBits(fields, i + 1, Or(acc, Left(v, pos)), pos - 8, k);
    }
  }

  /** An address is the bits of its fields together, however large they are, the first field the most significant. */
  lemma AddressBits(ip: string, k: nat)
    requires ParseAddress(ip).Parsed?
    ensures |Split(ip, '.')| <= 4
    ensures Bit(ParseAddress(ip).number, k) <==>
            exists j: nat {:trigger SetBy(Split(ip, '.'), j, k)} :: j < |Split(ip, '.')| && SetBy(Split(ip, '.'), j, k)
  {
    AddressCases(ip);
    ZeroBit(k);
    GatherBits(Split(ip, '.'), 0, 0, 24, k);
  }

  method InetToi(ip: string) returns (address: Address)
    ensures address == ParseAddress(ip)
    ensures address == Unparsed(NegativeShift) <==> |Split(ip, '.')| >= 5 && Numerals(Split(ip, '.'), 0)
    ensures address == Unparsed(NotANumber) <==> !Numerals(Split(ip, '.'), 0)
  {
    AddressCases(ip);
    var segments := Split(ip, '.');
    var ret := 0;
    var pos := 24;
    for i := 0 to |segments|
      invariant Gather(segments, 0, 0, 24) == Gather(segments, i, ret, pos)
    {
      var temp := Atoi(segments[i]);
      if temp.None? {
        return Unparsed(NotANumber);
      }
      if pos < 0 {
        return Unparsed(NegativeShift);
      }
      ret := Or(ret, Left(temp.value, pos));
      pos := pos - 8;
    }
    return Parsed(ret);
  }

  // ---- printing

  function Dotted(a: nat, b: nat, c: nat, d: nat): string {
    Itoa(a) + "." + (Itoa(b) + "." + (Itoa(c) + "." + Itoa(d)))
  }

  function Print(n: nat): string {
    Dotted(n / 0x100_0000, n / 0x1_0000 % 256, n / 256 % 256, n % 256)
  }

  lemma FieldThenDot(field: string, rest: string)
    requires '.' !in field
    ensures Split(field + "." + rest, '.') == [field] + Split(rest, '.')
  {
    SplitFirst(field, '.', rest);
  }

  lemma FourFields(a: string, b: string, c: string, d: string)
    requires '.' !in a && '.' !in b && '.' !in c && '.' !in d
    ensures Split(a + "." + (b + "." + (c + "." + d)), '.') == [a, b, c, d]
  {
    FieldThenDot(a, b + "." + (c + "." + d));
    FieldThenDot(b, c + "." + d);
    FieldThenDot(c, d);
    SplitOne(d, '.');
    FourTogether(a, b, c, d);
  }

  lemma FourTogether<T>(a: T, b: T, c: T, d: T)
    ensures [a] + ([b] + ([c] + [d])) == [a, b, c, d]
  {
  }

  lemma SplitDotted(a: nat, b: nat, c: nat, d: nat)
    ensures Split(Dotted(a, b, c, d), '.') == [Itoa(a), Itoa(b), Itoa(c), Itoa(d)]
  {
    NotInDigits(Itoa(a), '.');
    NotInDigits(Itoa(b), '.');
    NotInDigits(Itoa(c), '.');
    NotInDigits(Itoa(d), '.');
    FourFields(Itoa(a), Itoa(b), Itoa(c), Itoa(d));
  }

  lemma {:induction false} TwoPositive(k: nat)
    ensures Two(k) >= 1
  {
    if k > 0 { TwoPositive(k - 1); }
  }

  /** Fields that do not overlap are added by an or. */
  lemma {:induction false} OrOfDisjoint(h: nat, l: nat, k: nat)
    requires l < Two(k)
    ensures Or(h * Two(k), l) == h * Two(k) + l
  {
    if k > 0 && h > 0 && l > 0 {
      var t := Two(k - 1);
      TwoPositive(k - 1);
      assert h * Two(k) == 2 * (h * t);
      assert h * t > 0;
      OrOfDisjoint(h, l / 2, k - 1);
    }
  }

  lemma SomeTwos()
    ensures Two(0) == 1 && Two(8) == 0x100 && Two(16) == 0x1_0000 && Two(24) == 0x100_0000
  {
    assert Two(4) == 16;
    assert Two(12) == 0x1000;
    assert Two(20) == 0x10_0000;
  }

  lemma LeftFits(v: nat, pos: nat, x: nat)
    requires x == v * Two(pos) && x < WORDS
    ensures Left(v, pos) == x
  {
  }

  lemma OctetFits(v: nat, pos: nat)
    requires v < 256 && pos <= 24
    ensures v * Two(pos) < Two(pos + 8) <= WORDS
  {
    TwoPositive(pos);
    TwoAdds(pos, 8);
    SomeTwos();
    BelowProduct(v, 256, Two(pos));
    TwoAtMost(24 - pos, pos + 8);
  }

  lemma LeftOctet(v: nat, pos: nat)
    requires v < 256 && pos <= 24
    ensures Left(v, pos) == v * Two(pos) < Two(pos + 8)
  {
    OctetFits(v, pos);
    LeftFits(v, pos, v * Two(pos));
  }

  lemma OrOctet(high: nat, v: nat, pos: nat)
    requires v < 256 && pos <= 24
    ensures Or(high * Two(pos + 8), Left(v, pos)) == (high * 256 + v) * Two(pos)
  {
    LeftOctet(v, pos);
    OrOfDisjoint(high, v * Two(pos), pos + 8);
    TwoAdds(8, pos);
    SomeTwos();
    Factor(high, v, Two(pos));
  }

  lemma Factor(high: nat, v: nat, t: nat)
    ensures high * (256 * t) + v * t == (high * 256 + v) * t
  {
  }

  lemma GatherOctet(segments: seq<string>, i: nat, high: nat, pos: nat, v: nat)
    requires i < |segments| && Atoi(segments[i]) == Some(v) && v < 256 && pos <= 24
    ensures Gather(segments, i, high * Two(pos + 8), pos) == Gather(segments, i + 1, (high * 256 + v) * Two(pos), pos - 8)
  {
    GatherNext(segments, i, high * Two(pos + 8), pos, v);
    OrOctet(high, v, pos);
  }

  lemma GatherNext(segments: seq<string>, i: nat, acc: nat, pos: nat, v: int)
    requires i < |segments| && Atoi(segments[i]) == Some(v)
    ensures Gather(segments, i, acc, pos) == Gather(segments, i + 1, Or(acc, Left(v, pos)), pos - 8)
  {
  }

  lemma {:induction false} TwoAdds(j: nat, k: nat)
    ensures Two(j + k) == Two(j) * Two(k)
  {
    if j > 0 {
      TwoAdds(j - 1, k);
      Regroup(Two(j - 1), Two(k));
    }
  }

  lemma Regroup(m: nat, n: nat)
    ensures (2 * m) * n == 2 * (m * n)
  {
  }

  lemma BelowProduct(v: nat, m: nat, t: nat)
    requires v < m && t >= 1
    ensures v * t < m * t
  {
  }

  lemma TwoAtMost(j: nat, k: nat)
    requires j + k == 32
    ensures Two(k) <= WORDS
  {
    TwoAdds(j, k);
    TwoPositive(j);
    TwoPositive(k);
    SomeTwos();
    TwoAdds(16, 16);
    assert Two(32) == WORDS;
    assert Two(k) <= Two(j) * Two(k);
  }

  ghost function BigEndian(high: nat, octets: seq<nat>): nat
    decreases |octets|
  {
    if octets == [] then high else BigEndian(high * 256 + octets[0], octets[1..])
  }

  ghost predicate Octets(segments: seq<string>, octets: seq<nat>) {
    |segments| == |octets| && forall i :: 0 <= i < |octets| ==> octets[i] < 256 && Atoi(segments[i]) == Some(octets[i])
  }

  lemma {:induction false} GatherOctets(segments: seq<string>, octets: seq<nat>, i: nat, high: nat, pos: int)
    requires Octets(segments, octets) && |octets| == 4 && i <= 4 && pos == 24 - 8 * i
    ensures Gather(segments, i, high * Two(pos + 8), pos) == Parsed(BigEndian(high, octets[i..]))
    decreases |octets| - i
  {
    if i == 4 {
      GatherEnd(segments, high);
    } else {
      GatherOctet(segments, i, high, pos, octets[i]);
      GatherOctets(segments, octets, i + 1, high * 256 + octets[i], pos - 8);
      BigEndianNext(octets, i, high);
    }
  }

  lemma GatherEnd(segments: seq<string>, acc: nat)
    requires |segments| == 4
    ensures Gather(segments, 4, acc, -8) == Parsed(acc)
  {
  }

  lemma BigEndianNext(octets: seq<nat>, i: nat, high: nat)
    requires i < |octets|
    ensures BigEndian(high, octets[i..]) == BigEndian(high * 256 + octets[i], octets[i + 1..])
  {
    assert octets[i..][1..] == octets[i + 1..];
  }

  lemma FourOctets(a: nat, b: nat, c: nat, d: nat)
    ensures BigEndian(0, [a, b, c, d]) == ((a * 256 + b) * 256 + c) * 256 + d
  {
    var ab := a * 256 + b;
    var abc := ab * 256 + c;
    assert [a, b, c, d][1..] == [b, c, d] && [b, c, d][1..] == [c, d] && [c, d][1..] == [d];
    assert BigEndian(abc, [d]) == abc * 256 + d;
    assert BigEndian(ab, [c, d]) == BigEndian(abc, [d]);
    assert BigEndian(a, [b, c, d]) == BigEndian(ab, [c, d]);
  }

  lemma FourAreOctets(r: string, s: string, t: string, u: string, a: nat, b: nat, c: nat, d: nat)
    requires a < 256 && b < 256 && c < 256 && d < 256
    requires Atoi(r) == Some(a) && Atoi(s) == Some(b) && Atoi(t) == Some(c) && Atoi(u) == Some(d)
    ensures Octets([r, s, t, u], [a, b, c, d])
  {
  }

  lemma NumeralsAreOctets(a: nat, b: nat, c: nat, d: nat)
    requires a < 256 && b < 256 && c < 256 && d < 256
    ensures Octets([Itoa(a), Itoa(b), Itoa(c), Itoa(d)], [a, b, c, d])
  {
    AtoiOfItoa(a);
    AtoiOfItoa(b);
    AtoiOfItoa(c);
    AtoiOfItoa(d);
    FourAreOctets(Itoa(a), Itoa(b), Itoa(c), Itoa(d), a, b, c, d);
  }

  lemma GatherFour(segments: seq<string>, octets: seq<nat>)
    requires Octets(segments, octets) && |octets| == 4
    ensures Gather(segments, 0, 0, 24) == Parsed(BigEndian(0, octets))
  {
    GatherOctets(segments, octets, 0, 0, 24);
    assert octets[0..] == octets;
  }

  /** A dotted quad of octets is read as its big-endian value. */
  lemma InetOfDotted(a: nat, b: nat, c: nat, d: nat)
    requires a < 256 && b < 256 && c < 256 && d < 256
    ensures ParseAddress(Dotted(a, b, c, d)) == Parsed(((a * 256 + b) * 256 + c) * 256 + d)
  {
    SplitDotted(a, b, c, d);
    NumeralsAreOctets(a, b, c, d);
    GatherFour([Itoa(a), Itoa(b), Itoa(c), Itoa(d)], [a, b, c, d]);
    FourOctets(a, b, c, d);
  }

  lemma Digits(n: nat)
    requires n < WORDS
    ensures n == ((n / 0x100_0000 * 256 + n / 0x1_0000 % 256) * 256 + n / 256 % 256) * 256 + n % 256
    ensures n / 0x100_0000 < 256
  {
    assert n / 256 / 256 == n / 0x1_0000 && n / 0x1_0000 / 256 == n / 0x100_0000;
  }

  lemma DigitsOf(a: nat, b: nat, c: nat, d: nat, n: nat)
    requires b < 256 && c < 256 && d < 256 && n == ((a * 256 + b) * 256 + c) * 256 + d
    ensures n / 0x100_0000 == a && n / 0x1_0000 % 256 == b && n / 256 % 256 == c && n % 256 == d
  {
    assert n / 256 == (a * 256 + b) * 256 + c;
    assert n / 0x1_0000 == a * 256 + b;
  }

  /** Parsing inverts printing, for every address. */
  lemma InetOfPrint(n: nat)
    requires n < WORDS
    ensures ParseAddress(Print(n)) == Parsed(n)
  {
    Digits(n);
    InetOfDotted(n / 0x100_0000, n / 0x1_0000 % 256, n / 256 % 256, n % 256);
  }

  /** Printing inverts parsing, for every quad of octets. */
  lemma PrintOfInet(a: nat, b: nat, c: nat, d: nat)
    requires a < 256 && b < 256 && c < 256 && d < 256
    ensures match ParseAddress(Dotted(a, b, c, d)) case Parsed(n) => Print(n) == Dotted(a, b, c, d) case Unparsed(_) => false
  {
    var n := ((a * 256 + b) * 256 + c) * 256 + d;
    InetOfDotted(a, b, c, d);
    PrintOfDigits(a, b, c, d, n);
    assert ParseAddress(Dotted(a, b, c, d)) == Parsed(n);
  }

  lemma PrintOfDigits(a: nat, b: nat, c: nat, d: nat, n: nat)
    requires b < 256 && c < 256 && d < 256 && n == ((a * 256 + b) * 256 + c) * 256 + d
    ensures Print(n) == Dotted(a, b, c, d)
  {
    DigitsOf(a, b, c, d, n);
  }

  // ---- numbers shifted to the left

  lemma LowTwice(n: nat)
    requires n > 0
    ensures Low(2 * n) == Low(n) << 1
  {
    assert (2 * n) / 2 == n && (2 * n) % 2 == 0;
    OrNothing(Low(n) << 1);
  }

  lemma OrNothing(w: Word)
    ensures w | 0 == w
  {
  }

  lemma LowTimes16(n: nat)
    requires n > 0
    ensures Low(16 * n) == Low(n) << 4
  {
    LowTwice(n);
    LowTwice(2 * n);
    LowTwice(4 * n);
    LowTwice(8 * n);
    FourShifts(Low(n));
  }

  lemma FourShifts(w: Word)
    ensures (((w << 1) << 1) << 1) << 1 == w << 4
  {
  }

  lemma LowOfTen()
    ensures Low(10) == 10
  {
    assert Low(1) == 1;
    assert Low(2) == 2;
    assert Low(5) == 5;
  }
}
