/** Rule texts "address/length", as `Add` and `Delete` read them. */
module Rules {
  import opened Words
  import opened Text
  import opened Inet

  datatype Rule = Rule(net: Word, cidr: Length) | BadAddress | BadLength | Panics
  {
    /** The trie position of a rule that was understood. */
    ghost function Position(): Path
      requires Rule?
    {
      Target(net, NetMask(cidr))
    }
  }

  /** `Add` takes every length for which the shift count is not negative. */
  function ToAdd(text: string): (r: Rule)
    ensures r.Rule? ==> text != ""
  {
    var fields := Split(text, '/');
    match ParseAddress(fields[0])
    case Unparsed(NotANumber) => BadAddress
    case Unparsed(NegativeShift) => Panics
    case Parsed(n) =>
      if |fields| < 2 then BadAddress
      else
        match Atoi(fields[1])
        case None => BadLength
        case Some(cidr) => if cidr > 32 || cidr < MIN_LENGTH then Panics else (assert text != "" by { SplitOne("", '/'); } Rule(Low(n), cidr))
  }

  /** `Delete` refuses every length outside 0 to 32. */
  function ToDelete(text: string): (r: Rule)
    ensures r.Rule? ==> 0 <= r.cidr && r == ToAdd(text)
  {
    var fields := Split(text, '/');
    match ParseAddress(fields[0])
    case Unparsed(NotANumber) => BadAddress
    case Unparsed(NegativeShift) => Panics
    case Parsed(n) =>
      if |fields| < 2 then BadAddress
      else
        match Atoi(fields[1])
        case None => BadLength
        case Some(cidr) => if 0 <= cidr <= 32 then Rule(Low(n), cidr) else BadLength
  }

  /** The pieces of a rule text: what stands before the first slash is four or fewer numerals. */
  predicate AddressReads(text: string) {
    var octets := Split(Split(text, '/')[0], '.');
    |octets| < 5 && Numerals(octets, 0)
  }

  predicate AddressShifts(text: string) {
    var octets := Split(Split(text, '/')[0], '.');
    |octets| >= 5 && Numerals(octets, 0)
  }

  /** The numeral that stands after the first slash, if there is one there. */
  function LengthField(text: string): Option<int> {
    var fields := Split(text, '/');
    if |fields| < 2 then None else Atoi(fields[1])
  }

  /** How `Add` reads a text, from its fields: the address is refused when it is not of numerals or no slash
      follows it, the length when it is no numeral; five numerals in front, or a length that 64-bit arithmetic
      with a sign cannot take from 32 without going below 0, make it panic; otherwise the rule is what it says. */
  lemma AddReads(text: string)
    ensures ToAdd(text) == BadAddress <==> !AddressShifts(text) && (!AddressReads(text) || |Split(text, '/')| < 2)
    ensures ToAdd(text) == BadLength <==> AddressReads(text) && |Split(text, '/')| >= 2 && LengthField(text) == None
    ensures ToAdd(text) == Panics <==>
            AddressShifts(text)
            || (AddressReads(text) && LengthField(text).Some? && !(-9_223_372_036_854_775_775 <= LengthField(text).value <= 32))
    ensures ToAdd(text).Rule? <==>
            AddressReads(text) && LengthField(text).Some? && -9_223_372_036_854_775_775 <= LengthField(text).value <= 32
    ensures ToAdd(text).Rule? ==>
            LengthField(text) == Some(ToAdd(text).cidr) && ParseAddress(Split(text, '/')[0]).Parsed?
            && ToAdd(text).net == Low(ParseAddress(Split(text, '/')[0]).number)
  {
    AddressCases(Split(text, '/')[0]);
  }

  /** How `Delete` reads it: it refuses every length outside 0 to 32. */
  lemma DeleteReads(text: string)
    ensures ToDelete(text) == BadAddress <==> !AddressShifts(text) && (!AddressReads(text) || |Split(text, '/')| < 2)
    ensures ToDelete(text) == BadLength <==>
            AddressReads(text) && |Split(text, '/')| >= 2 && (LengthField(text) == None || !(0 <= LengthField(text).value <= 32))
    ensures ToDelete(text) == Panics <==> AddressShifts(text)
    ensures ToDelete(text).Rule? <==> AddressReads(text) && LengthField(text).Some? && 0 <= LengthField(text).value <= 32
    ensures ToDelete(text).Rule? ==>
            LengthField(text) == Some(ToDelete(text).cidr) && ParseAddress(Split(text, '/')[0]).Parsed?
            && ToDelete(text).net == Low(ParseAddress(Split(text, '/')[0]).number)
  {
    AddressCases(Split(text, '/')[0]);
  }

  /** When `Add` panics: on a text whose address has five numerals in front, or on a well-formed address with
      a length whose shift count is negative. */
  lemma AddPanics(text: string)
    ensures var fields := Split(text, '/');
            var octets := Split(fields[0], '.');
            ToAdd(text) == Panics <==>
            && Numerals(octets, 0)
            && (|octets| >= 5
                || (|fields| >= 2 && Atoi(fields[1]).Some? && !(MIN_LENGTH <= Atoi(fields[1]).value <= 32)))
  {
    AddReads(text);
  }

  /** The parsing that opens `Add`. */
  method ReadToAdd(text: string) returns (rule: Rule)
    ensures rule == ToAdd(text)
  {
    var strs := Split(text, '/');
    var ip := InetToi(strs[0]);
    if ip.Unparsed? {
      return if ip.why == NotANumber then BadAddress else Panics;
    }
    if |strs| < 2 {
      return BadAddress;
    }
    var cidr := Atoi(strs[1]);
    if cidr.None? {
      return BadLength;
    }
    if cidr.value > 32 || cidr.value < MIN_LENGTH {
      return Panics;
    }
    return Rule(Low(ip.number), cidr.value);
  }

  /** The parsing that opens `Delete`. */
  method ReadToDelete(text: string) returns (rule: Rule)
    ensures rule == ToDelete(text)
  {
    var strs := Split(text, '/');
    var ip := InetToi(strs[0]);
    if ip == Unparsed(NegativeShift) {
      return Panics;
    }
    if ip.Unparsed? || |strs| < 2 {
      return BadAddress;
    }
    var cidr := Atoi(strs[1]);
    if cidr.None? || cidr.value < 0 || cidr.value > 32 {
      return BadLength;
    }
    return Rule(Low(ip.number), cidr.value);
  }

  /** The usual spelling of a network. */
  function RuleText(n: nat, len: nat): string {
    Print(n) + "/" + Itoa(len)
  }

  lemma NoSlash(n: nat)
    ensures '/' !in Print(n)
  {
    NotInDigits(Itoa(n / 0x100_0000), '/');
    NotInDigits(Itoa(n / 0x1_0000 % 256), '/');
    NotInDigits(Itoa(n / 256 % 256), '/');
    NotInDigits(Itoa(n % 256), '/');
  }

  /** The usual spelling is understood, by both readers alike. */
  lemma RuleOfText(n: nat, len: nat)
    requires n < WORDS && len <= 32
    ensures ToAdd(RuleText(n, len)) == ToDelete(RuleText(n, len)) == Rule(Low(n), len)
  {
    NoSlash(n);
    NotInDigits(Itoa(len), '/');
    SplitFirst(Print(n), '/', Itoa(len));
    SplitOne(Itoa(len), '/');
    InetOfPrint(n);
    AtoiOfItoa(len);
  }

  lemma PositionOfRule(net: Word, len: nat)
    requires len <= 32
    ensures Rule(net, len).Position() == Walk(Bits(net), len)
  {
    LengthOfMask(len);
  }

  lemma PositionOfText(n: nat, len: nat, net: Word)
    requires n < WORDS && len <= 32 && net == Low(n)
    ensures ToAdd(RuleText(n, len)).Rule? && ToAdd(RuleText(n, len)).Position() == Walk(Bits(net), len)
  {
    RuleOfText(n, len);
    PositionOfRule(net, len);
  }

  lemma SameMaskedNetwork(x: Word, y: Word, len: nat)
    requires len <= 32 && Walk(Bits(x), len) == Walk(Bits(y), len)
    requires x & NetMask(len) == x && y & NetMask(len) == y
    ensures x == y
  {
    CoversIsPrefix(x, y, len);
    MaskedApart(x, y, NetMask(len));
  }

  lemma MaskedApart(x: Word, y: Word, mask: Word)
    ensures x & mask == x && y & mask == y && (x ^ y) & mask == 0 ==> x == y
  {
  }

  ghost predicate UsualText(n: nat, len: nat, net: Word) {
    n < WORDS && len <= 32 && net == Low(n) && net & NetMask(len) == net
  }

  /** One spelling per network: usual texts without host bits that designate the same position are equal. */
  lemma OneUsualSpelling(n: nat, i: nat, m: nat, j: nat)
    requires UsualText(n, i, Low(n)) && UsualText(m, j, Low(m))
    requires ToAdd(RuleText(n, i)).Rule? && ToAdd(RuleText(m, j)).Rule?
    requires ToAdd(RuleText(n, i)).Position() == ToAdd(RuleText(m, j)).Position()
    ensures RuleText(n, i) == RuleText(m, j)
  {
    SameUsualText(n, i, Low(n), m, j, Low(m));
  }

  lemma SameUsualText(n: nat, i: nat, x: Word, m: nat, j: nat, y: Word)
    requires UsualText(n, i, x) && UsualText(m, j, y)
    requires ToAdd(RuleText(n, i)).Rule? && ToAdd(RuleText(m, j)).Rule?
    requires ToAdd(RuleText(n, i)).Position() == ToAdd(RuleText(m, j)).Position()
    ensures n == m && i == j
  {
    PositionOfText(n, i, x);
    PositionOfText(m, j, y);
    assert Walk(Bits(x), i).Depth() == i && Walk(Bits(y), j).Depth() == j;
    SameMaskedNetwork(x, y, i);
    LowRound(n);
    LowRound(m);
  }
}
