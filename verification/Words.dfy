/** 32-bit words as the address trie sees them: a moving single bit, leading-ones masks,
    and the sequence of bits a key spells from the most significant one down. */
module Words {
  type Word = bv32

  /** A position in the binary trie: a branch choice (true goes right) below a position, or the root. */
  datatype Path = Root | Step(up: Path, right: bool)
  {
    ghost function Depth(): nat {
      match this
      case Root => 0
      case Step(q, _) => q.Depth() + 1
    }
  }

  /** The bit tested after `d` one-place right shifts of the top bit; nothing is left at 32. */
  ghost function BitAt(d: nat): Word
    requires d <= 32
  {
    if d == 0 then 0x8000_0000 else BitAt(d - 1) >> 1
  }

  /** `1 << n` in 32-bit arithmetic: one place at a time, overflowing to zero. */
  function ShiftOne(n: nat): Word
  {
    if n == 0 then 1 else ShiftOne(n - 1) << 1
  }

  /** A prefix length that `1 << (32 - cidr)` can be computed for: the shift count, 64-bit arithmetic with a
      sign, is not negative. Below `MIN_LENGTH` the subtraction itself runs over. */
  const MIN_LENGTH := 32 - 0x7fff_ffff_ffff_ffff
  type Length = c: int | MIN_LENGTH <= c <= 32

  /** The netmask of a prefix length. Nothing below 0 is refused: a negative length shifts everything out. */
  function NetMask(cidr: Length): Word {
    (ShiftOne(32 - cidr) - 1) ^ 0xffff_ffff
  }

  ghost predicate IsSet(w: Word, d: nat)
    requires d <= 32
  {
    w & BitAt(d) != 0
  }

  /** The branch choices a 32-bit key spells, most significant bit first. */
  type Route = r: seq<bool> | |r| == 32 witness seq(32, _ => false)

  ghost function Bits(key: Word): Route {
    seq(32, (d: int) requires 0 <= d < 32 => IsSet(key, d))
  }

  /** Where the first `d` choices of a route lead. */
  ghost function Walk(route: Route, d: nat): (p: Path)
    requires d <= 32
    ensures p.Depth() == d
  {
    if d == 0 then Root else Step(Walk(route, d - 1), route[d - 1])
  }

  /** How many levels a walk guided by `mask` descends when it has already descended `d`. */
  ghost function OnesFrom(mask: Word, d: nat): (n: nat)
    requires d <= 32
    ensures d <= n <= 32
    ensures forall i :: d <= i < n ==> IsSet(mask, i)
    ensures n < 32 ==> !IsSet(mask, n)
    decreases 32 - d
  {
    if d < 32 && IsSet(mask, d) then OnesFrom(mask, d + 1) else d
  }

  ghost function LeadingOnes(mask: Word): (n: nat)
    ensures n <= 32
  {
    OnesFrom(mask, 0)
  }

  /** The trie position that a key and an arbitrary mask designate. */
  ghost function Target(key: Word, mask: Word): Path
  {
    Walk(Bits(key), LeadingOnes(mask))
  }

  ghost predicate OneBit(w: Word) {
    w != 0 && w & (w - 1) == 0
  }

  lemma ShiftOneAtTheTop()
    ensures ShiftOne(31) == 0x8000_0000 && ShiftOne(32) == 0
  {
    assert ShiftOne(7) == 0x80;
    assert ShiftOne(13) == 0x2000;
    assert ShiftOne(19) == 0x8_0000;
    assert ShiftOne(25) == 0x200_0000;
    assert ShiftOne(31) == 0x8000_0000;
  }

  lemma {:induction false} ShiftOneNonZero(n: nat)
    requires n <= 31
    ensures ShiftOne(n) != 0
    decreases 31 - n
  {
    if n == 31 { ShiftOneAtTheTop(); } else { ShiftOneNonZero(n + 1); }
  }

  lemma {:induction false} ShiftOneOverflows(n: nat)
    requires n >= 32
    ensures ShiftOne(n) == 0
  {
    if n == 32 { ShiftOneAtTheTop(); } else { ShiftOneOverflows(n - 1); }
  }

  lemma {:induction false} ShiftOneIsOneBit(n: nat)
    requires n <= 31
    ensures OneBit(ShiftOne(n))
  {
    ShiftOneNonZero(n);
    if n > 0 { ShiftOneIsOneBit(n - 1); }
  }

  lemma {:induction false} BitValue(d: nat)
    requires d < 32
    ensures BitAt(d) == ShiftOne(31 - d) && OneBit(BitAt(d))
  {
    ShiftOneIsOneBit(31 - d);
    if d == 0 {
      ShiftOneAtTheTop();
    } else {
      BitValue(d - 1);
      ShiftOneNonZero(32 - d);
    }
  }

  lemma EndOfWord()
    ensures BitAt(32) == 0
  {
    BitValue(31);
  }

  lemma MaskStep(d: nat)
    requires d < 32
    ensures NetMask(d + 1) == NetMask(d) | BitAt(d)
    ensures NetMask(d) & BitAt(d) == 0
  {
    BitValue(d);
    assert ShiftOne(32 - d) == ShiftOne(31 - d) << 1;
  }

  lemma MaskOfNothing(cidr: Length)
    requires cidr <= 0
    ensures NetMask(cidr) == 0
  {
    ShiftOneOverflows(32 - cidr);
  }

  /** A prefix length's mask has exactly that many leading ones; a negative length behaves as 0. */
  lemma {:induction false} MaskBits(cidr: Length, d: nat)
    requires d < 32
    ensures IsSet(NetMask(cidr), d) <==> d < cidr
  {
    if cidr <= 0 {
      MaskOfNothing(cidr);
    } else {
      MaskStep(cidr - 1);
      MaskBits(cidr - 1, d);
      BitValue(d);
      BitValue(cidr - 1);
      if d != cidr - 1 { DistinctBits(d, cidr - 1); }
    }
  }

  lemma DistinctBits(d: nat, e: nat)
    requires d < 32 && e < 32 && d != e
    ensures BitAt(d) & BitAt(e) == 0
  {
    BitValue(d);
    BitValue(e);
    if d < e { LowerBits(d, e); } else { LowerBits(e, d); }
    OneBitsDiffer(BitAt(d), BitAt(e));
  }

  lemma {:induction false} LowerBits(d: nat, e: nat)
    requires d < e < 32
    ensures BitAt(e) < BitAt(d)
  {
    BitValue(e - 1);
    HalfIsLess(BitAt(e - 1));
    if d + 1 < e { LowerBits(d, e - 1); }
  }

  lemma HalfIsLess(w: Word)
    requires w != 0
    ensures w >> 1 < w
  {
  }

  lemma OneBitsDiffer(v: Word, w: Word)
    requires OneBit(v) && OneBit(w) && v != w
    ensures v & w == 0
  {
  }

  lemma LengthOfMask(cidr: Length)
    ensures LeadingOnes(NetMask(cidr)) == if cidr < 0 then 0 else cidr
  {
    var n := OnesFrom(NetMask(cidr), 0);
    if n < 32 { MaskBits(cidr, n); }
    if n > 0 { MaskBits(cidr, n - 1); }
  }

  lemma SameBit(x: Word, y: Word, b: Word)
    requires OneBit(b)
    ensures (x ^ y) & b == 0 <==> (x & b != 0 <==> y & b != 0)
  {
  }

  /** The masked comparison of addresses is agreement on the leading bits (RFC 4632, section 3.1). */
  lemma {:induction false} CoversIsPrefix(key: Word, net: Word, len: nat)
    requires len <= 32
    ensures (key ^ net) & NetMask(len) == 0 <==> Walk(Bits(key), len) == Walk(Bits(net), len)
  {
    if len == 0 {
      MaskOfNothing(0);
    } else {
      var d := len - 1;
      CoversIsPrefix(key, net, d);
      MaskStep(d);
      BitValue(d);
      SameBit(key, net, BitAt(d));
      SplitMask(key ^ net, NetMask(d), BitAt(d));
    }
  }

  lemma SplitMask(x: Word, m: Word, b: Word)
    ensures x & (m | b) == 0 <==> x & m == 0 && x & b == 0
  {
    AndDistributes(x, m, b);
    OrIsZero(x & m, x & b);
  }

  lemma AndDistributes(x: Word, m: Word, b: Word)
    ensures x & (m | b) == (x & m) | (x & b)
  {
  }

  lemma OrIsZero(x: Word, y: Word)
    ensures x | y == 0 <==> x == 0 && y == 0
  {
  }

  /** No two words spell the same bits. */
  lemma BitsInjective(x: Word, y: Word)
    requires Bits(x) == Bits(y)
    ensures x == y
  {
    CoversIsPrefix(x, y, 32);
    assert NetMask(32) == 0xffff_ffff;
  }

  lemma SetEitherWay(mask: Word, d: nat)
    requires d <= 32
    ensures BitAt(d) & mask != 0 <==> IsSet(mask, d)
  {
    AndCommutes(BitAt(d), mask);
  }

  lemma AndCommutes(x: Word, y: Word)
    ensures x & y == y & x
  {
  }

  lemma AndZero(x: Word)
    ensures x & 0 == 0
  {
  }

  // The three word operations of the descending loops, each in terms of the level it is at. Their
  // preconditions tie a word to its level, its route or its length only where its bits are mentioned.

  ghost predicate IsBit(bit: Word, d: nat) {
    d <= 32 && forall e: nat {:trigger BitAt(e)} :: e == d ==> bit == BitAt(e)
  }

  ghost predicate Spells(key: Word, route: Route) {
    forall d {:trigger IsSet(key, d)} :: 0 <= d < 32 ==> route[d] == IsSet(key, d)
  }

  ghost predicate Ones(mask: Word, n: nat) {
    n <= 32 && forall d {:trigger IsSet(mask, d)} :: 0 <= d <= n && d < 32 ==> (IsSet(mask, d) <==> d < n)
  }

  lemma RouteAndLength(key: Word, mask: Word)
    ensures Spells(key, Bits(key)) && Ones(mask, LeadingOnes(mask))
  {
    assert LeadingOnes(mask) == OnesFrom(mask, 0);
  }

  lemma TopBit()
    ensures IsBit(0x8000_0000, 0)
  {
  }

  /** `bit & mask != 0`: whether the walk goes on. */
  method UnderMask(bit: Word, mask: Word, ghost n: nat, ghost d: nat) returns (more: bool)
    requires d <= n && Ones(mask, n) && IsBit(bit, d)
    ensures more <==> d < n
  {
    UnderMaskBy(bit, mask, n, d);
    more := bit & mask != 0;
  }

  lemma UnderMaskBy(bit: Word, mask: Word, n: nat, d: nat)
    requires d <= n && Ones(mask, n) && IsBit(bit, d)
    ensures bit & mask != 0 <==> d < n
  {
    assert bit == BitAt(d);
    SetBelowLength(mask, n, d);
    SetEitherWay(mask, d);
  }

  lemma SetBelowLength(mask: Word, n: nat, d: nat)
    requires d <= n && Ones(mask, n)
    ensures IsSet(mask, d) <==> d < n
  {
    if d == 32 { NothingAtTheEnd(mask); }
  }

  lemma NothingAtTheEnd(mask: Word)
    ensures !IsSet(mask, 32)
  {
    EndOfWord();
    AndZero(mask);
  }

  /** `key & bit != 0`: which way it goes; below the last level, left. */
  method GoesRight(key: Word, bit: Word, ghost route: Route, ghost d: nat) returns (right: bool)
    requires d <= 32 && Spells(key, route) && IsBit(bit, d)
    ensures right <==> d < 32 && route[d]
  {
    GoesRightBy(key, bit, route, d);
    right := key & bit != 0;
  }

  lemma GoesRightBy(key: Word, bit: Word, route: Route, d: nat)
    requires d <= 32 && Spells(key, route) && IsBit(bit, d)
    ensures key & bit != 0 <==> d < 32 && route[d]
  {
    assert bit == BitAt(d);
    SetIs(key, bit, d);
    if d == 32 { NothingAtTheEnd(key); }
  }

  lemma SetIs(key: Word, bit: Word, d: nat)
    requires d <= 32 && bit == BitAt(d)
    ensures key & bit != 0 <==> IsSet(key, d)
  {
  }

  lemma ToggledTwice(x: Word, b: Word)
    ensures x ^ (x ^ b) == b
  {
  }

  lemma MeetsItself(b: Word)
    requires OneBit(b)
    ensures b & b != 0
  {
  }

  lemma MeetsOnly(i: nat, j: nat)
    requires i < 32 && j < 32
    ensures BitAt(i) & BitAt(j) == 0 <==> i != j
  {
    BitValue(j);
    if i == j { MeetsItself(BitAt(j)); } else { DistinctBits(i, j); }
  }

  lemma SameOrNot(x: Word, y: Word, b: Word, c: Word)
    requires OneBit(c) && x ^ y == b
    ensures (x & c != 0 <==> y & c != 0) <==> b & c == 0
  {
    SameBit(x, y, c);
  }

  /** What a bit of a word is, without the word. */
  ghost predicate BitIs(w: Word, d: nat, on: bool) {
    d < 32 && Bits(w)[d] == on
  }

  lemma BitIsBy(w: Word, c: Word, d: nat, on: bool)
    requires d < 32 && c == BitAt(d) && (w & c != 0 <==> on)
    ensures BitIs(w, d, on)
  {
    SetIs(w, c, d);
  }

  lemma DiffersAt(x: Word, y: Word, i: nat, j: nat) returns (on: bool)
    requires i < 32 && j < 32 && x ^ y == BitAt(i)
    ensures BitIs(x, j, on) && BitIs(y, j, if i == j then !on else on)
  {
    var c := BitAt(j);
    BitValue(j);
    MeetsOnly(i, j);
    SameOrNot(x, y, BitAt(i), c);
    on := x & c != 0;
    BitIsBy(x, c, j, on);
    BitIsBy(y, c, j, if i == j then !on else on);
  }

  /** The word with one bit turned over. */
  lemma Toggled(x: Word, i: nat) returns (y: Word)
    requires i < 32
    ensures forall j :: 0 <= j < 32 ==> Bits(y)[j] == if j == i then !Bits(x)[j] else Bits(x)[j]
  {
    y := x ^ BitAt(i);
    ToggledTwice(x, BitAt(i));
    TurnedOver(x, y, i);
  }

  lemma TurnedOver(x: Word, y: Word, i: nat)
    requires i < 32 && x ^ y == BitAt(i)
    ensures forall j :: 0 <= j < 32 ==> Bits(y)[j] == if j == i then !Bits(x)[j] else Bits(x)[j]
  {
    forall j | 0 <= j < 32 ensures Bits(y)[j] == if j == i then !Bits(x)[j] else Bits(x)[j] {
      var on := DiffersAt(x, y, i, j);
      BitsFollow(x, y, i, j, on);
    }
  }

  lemma BitsFollow(x: Word, y: Word, i: nat, j: nat, on: bool)
    requires BitIs(x, j, on) && BitIs(y, j, if i == j then !on else on)
    ensures Bits(y)[j] == if j == i then !Bits(x)[j] else Bits(x)[j]
  {
  }

  /** `bit >>= 1`. */
  method NextBit(bit: Word, ghost d: nat) returns (next: Word)
    requires IsBit(bit, d)
    ensures IsBit(next, if d < 32 then d + 1 else 32)
  {
    next := bit >> 1;
    if d < 32 { BitStep(d); } else { EndOfWord(); }
  }

  lemma BitStep(d: nat)
    requires d < 32
    ensures BitAt(d) >> 1 == BitAt(d + 1)
  {
  }
}
