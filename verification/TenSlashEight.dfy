/** One network worked out: 10.0.0.0/8 as a text, as a word and bit by bit. */
module TenSlashEight {
  import opened Words
  import opened Text
  import opened Inet
  import opened Rules

  lemma TenAsWord()
    ensures Low(0x0a00_0000) == 0x0a00_0000
  {
    LowOfTen();
    LowTimes16(10);
    LowTimes16(0xa0);
    LowTimes16(0xa00);
    LowTimes16(0xa000);
    LowTimes16(0xa_0000);
    LowTimes16(0xa0_0000);
  }

  lemma SecondAndThirdBit()
    ensures BitAt(1) == 0x4000_0000 && BitAt(2) == 0x2000_0000
  {
    assert BitAt(0) == 0x8000_0000;
    assert BitAt(1) == 0x4000_0000;
  }

  lemma TenHasNoSecondBit()
    ensures !Bits(0x0a00_0000)[1]
  {
    SecondAndThirdBit();
  }

  lemma TenHasNoThirdBit()
    ensures !Bits(0x0a00_0000)[2]
  {
    SecondAndThirdBit();
  }

  /** 74.0.0.0 is 10.0.0.0 with the second bit turned over, 106.0.0.0 with the second and the third. */
  lemma SeventyFour()
    ensures forall j :: 0 <= j < 32 ==> Bits(0x4a00_0000)[j] == if j == 1 then !Bits(0x0a00_0000)[j] else Bits(0x0a00_0000)[j]
  {
    SecondAndThirdBit();
    TurnedOver(0x0a00_0000, 0x4a00_0000, 1);
  }

  lemma HundredAndSix()
    ensures forall j :: 0 <= j < 32 ==>
              Bits(0x6a00_0000)[j] == if j == 1 || j == 2 then !Bits(0x0a00_0000)[j] else Bits(0x0a00_0000)[j]
  {
    SeventyFour();
    SecondAndThirdBit();
    TurnedOver(0x4a00_0000, 0x6a00_0000, 2);
  }

  /** `key` keeps to the network but for some of its bits that are not set, the second among them. */
  ghost predicate TurnsAtTheSecond(key: Word, net: Word) {
    && Bits(key)[0] == Bits(net)[0] && Bits(key)[1] != Bits(net)[1]
    && forall j :: 0 <= j < 32 && Bits(key)[j] != Bits(net)[j] ==> 0 < j < 8 && !Bits(net)[j]
  }

  lemma BothTurn()
    ensures TurnsAtTheSecond(0x4a00_0000, 0x0a00_0000) && TurnsAtTheSecond(0x6a00_0000, 0x0a00_0000)
  {
    TenHasNoSecondBit();
    TenHasNoThirdBit();
    SeventyFour();
    HundredAndSix();
  }

  lemma SmallNumerals()
    ensures Itoa(0) == "0" && Itoa(8) == "8" && Itoa(10) == "10"
  {
    assert Itoa(1) == "1";
  }

  lemma TenJoined()
    ensures "10" + "." + ("0" + "." + ("0" + "." + "0")) + "/" + "8" == "10.0.0.0/8"
  {
  }

  lemma TextOfTen()
    ensures RuleText(0x0a00_0000, 8) == "10.0.0.0/8"
  {
    PrintOfDigits(10, 0, 0, 0, 0x0a00_0000);
    SmallNumerals();
    TenJoined();
  }

  lemma TenIsRule()
    ensures ToDelete("10.0.0.0/8") == Rule(0x0a00_0000, 8) && ToAdd("10.0.0.0/8") == Rule(0x0a00_0000, 8)
  {
    TextOfTen();
    RuleOfText(0x0a00_0000, 8);
    TenAsWord();
  }
}
