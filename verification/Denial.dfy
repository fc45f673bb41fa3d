/** Which addresses a list denies: from the text of the address to the texts of the rules. */
module Denial {
  import opened Words
  import opened Text
  import opened Inet
  import opened LongestMatch
  import opened Rules
  import opened Acl
  import opened TrieRules
  import opened RadixTree
  import opened AclMachine

  /** How many bits of an address a rule compares: none for a negative length. */
  ghost function Compared(text: string): (len: nat)
    requires ToAdd(text).Rule?
    ensures len <= 32
  {
    if ToAdd(text).cidr < 0 then 0 else ToAdd(text).cidr
  }

  ghost predicate RuleCovers(text: string, key: Word) {
    ToAdd(text).Rule? && Covers(ToAdd(text).net, Compared(text), key)
  }

  lemma PositionOfCover(text: string)
    requires ToAdd(text).Rule?
    ensures ToAdd(text).Position() == Walk(Bits(ToAdd(text).net), Compared(text))
  {
    LengthOfMask(ToAdd(text).cidr);
  }

  lemma CoverIsStored(acl: Acl, text: string, key: Word)
    requires Tied(acl) && text in acl.record && RuleCovers(text, key)
    ensures Stored(acl.table, ToAdd(text).net, Compared(text))
  {
    assert TiedText(acl, text);
    PositionOfCover(text);
  }

  /** What is stored on an address's way is the text of a recorded rule that covers it. */
  lemma StoredIsCover(acl: Acl, key: Word, len: nat)
    requires Tied(acl) && len <= 32 && Stored(acl.table, key, len)
    ensures var text := ValueOf(acl.table, key, len);
            text in acl.record && text != NOTHING && RuleCovers(text, key) && Compared(text) == len
  {
    var p := Walk(Bits(key), len);
    assert TiedEntry(acl, p);
    var text := acl.table[p];
    PositionOfCover(text);
    assert Compared(text) == p.Depth() == len;
    CoversIsPrefix(key, ToAdd(text).net, len);
    CoverTurned(key, ToAdd(text).net, NetMask(len));
  }

  lemma CoverTurned(x: Word, y: Word, mask: Word)
    ensures (x ^ y) & mask == (y ^ x) & mask
  {
  }

  /** The answer for an address covered by some recorded rule is the text of the longest such rule. */
  lemma AnswerIsLongest(acl: Acl, key: Word, text: string)
    requires Tied(acl) && text in acl.record && RuleCovers(text, key)
    ensures var answer := Lookup(acl.table, key);
            answer in acl.record && RuleCovers(answer, key) && Compared(text) <= Compared(answer)
  {
    CoverIsStored(acl, text, key);
    CoverTurned(key, ToAdd(text).net, NetMask(Compared(text)));
    var best := LookupIsLongestCover(acl.table, key, ToAdd(text).net, Compared(text));
    StoredIsCover(acl, key, best);
  }

  lemma StoredOnTheWay(acl: Acl, key: Word, net: Word, len: nat)
    requires Tied(acl) && len <= 32 && Stored(acl.table, net, len) && Covers(net, len, key)
    ensures exists text :: text in acl.record && RuleCovers(text, key)
  {
    CoversIsPrefix(key, net, len);
    StoredIsCover(acl, key, len);
  }

  /** An address is answered with something exactly when some recorded rule covers it. */
  lemma AnswerIffCovered(acl: Acl, key: Word)
    requires Tied(acl)
    ensures Lookup(acl.table, key) != NOTHING <==> exists text :: text in acl.record && RuleCovers(text, key)
  {
    forall p | p in acl.table ensures acl.table[p] != NOTHING { assert TiedEntry(acl, p); }
    LookupOfUncovered(acl.table, key);
    if Lookup(acl.table, key) != NOTHING {
      var net: Word, len: nat :| len <= 32 && Stored(acl.table, net, len) && Covers(net, len, key);
      StoredOnTheWay(acl, key, net, len);
    }
    if text :| text in acl.record && RuleCovers(text, key) {
      AnswerIsLongest(acl, key, text);
    }
  }

  /** The address a request is looked up under: a port is cut off, and what is not a number counts as 0. */
  ghost function AddressOf(ip: string): Word {
    match ParseAddress(Split(ip, ':')[0])
    case Parsed(n) => Low(n)
    case Unparsed(_) => 0
  }

  /** An address in its usual spelling is looked up under its number, with or without a port. */
  lemma AddressOfPrint(n: nat, port: string)
    requires n < WORDS
    ensures AddressOf(Print(n)) == AddressOf(Print(n) + ":" + port) == Low(n)
  {
    NoColon(n);
    SplitOne(Print(n), ':');
    SplitFirst(Print(n), ':', port);
    InetOfPrint(n);
  }

  lemma NoColon(n: nat)
    ensures ':' !in Print(n)
  {
    NotInDigits(Itoa(n / 0x100_0000), ':');
    NotInDigits(Itoa(n / 0x1_0000 % 256), ':');
    NotInDigits(Itoa(n / 256 % 256), ':');
    NotInDigits(Itoa(n % 256), ':');
  }

  /** A rule in its usual spelling covers the addresses whose leading bits are those of its network. */
  lemma RuleTextCovers(n: nat, len: nat, key: Word)
    requires n < WORDS && len <= 32
    ensures RuleCovers(RuleText(n, len), key) <==> forall i :: 0 <= i < len ==> Bits(key)[i] == Bits(Low(n))[i]
  {
    RuleOfText(n, len);
    TextCovers(RuleText(n, len), Low(n), key);
    AlikeSoFar(Bits(key), Bits(Low(n)), len);
  }

  lemma TextCovers(text: string, net: Word, key: Word)
    requires ToAdd(text).Rule? && ToAdd(text).net == net && ToAdd(text).cidr >= 0
    ensures RuleCovers(text, key) <==> Walk(Bits(key), ToAdd(text).cidr) == Walk(Bits(net), ToAdd(text).cidr)
  {
    CoverIsPrefix(net, ToAdd(text).cidr, key);
  }

  lemma CoverIsPrefix(net: Word, len: nat, key: Word)
    requires len <= 32
    ensures Covers(net, len, key) <==> Walk(Bits(key), len) == Walk(Bits(net), len)
  {
    CoversIsPrefix(key, net, len);
  }

  lemma {:induction false} AlikeSoFar(r: Route, t: Route, len: nat)
    requires len <= 32
    ensures Walk(r, len) == Walk(t, len) <==> forall i :: 0 <= i < len ==> r[i] == t[i]
  {
    if len > 0 { AlikeSoFar(r, t, len - 1); }
  }

  /** A request is denied exactly when a recorded rule covers its address. */
  method AccessControl(tree: RadixTree, ipAddress: string, ghost s: Summary) returns (outcome: Outcome, denied: bool)
    requires Keeps(tree, s) && Tied(s.acl)
    ensures outcome == Panic <==> ParseAddress(Split(ipAddress, ':')[0]) == Unparsed(NegativeShift)
    ensures outcome != Panic ==> (denied <==> exists text :: text in tree.Record && RuleCovers(text, AddressOf(ipAddress)))
  {
    assert Holds(tree, s);
    var ret;
    outcome, ret := tree.Search(Split(ipAddress, ':')[0]);
    denied := ret != "";
    AnswerIffCovered(s.acl, AddressOf(ipAddress));
  }
}
