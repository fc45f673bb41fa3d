/** Leader and follower that have both applied the whole log and deny different addresses. */
module Divergence {
  import opened Words
  import opened LongestMatch
  import opened Rules
  import opened Acl
  import opened TrieShape
  import opened TrieSearch
  import opened TrieRules
  import opened RadixTree
  import opened AclMachine
  import opened Replication
  import opened Recycling
  import opened Replicas
  import opened Overlaps
  import opened Straying
  import opened TenSlashEight

  /** A network is deleted and added by two requests; they are logged in that order, but the handlers ran in the
      other, both before either entry was applied. */
  function Log(text: string): seq<Change> {
    [Change(0, text), Change(1, text)]
  }

  const TRACE: seq<Event> := [Local(1), Local(0), Replay(0), Replay(1)]

  lemma TraceIsInterleaving(log: seq<Change>)
    requires |log| == 2
    ensures Interleaving(TRACE, log)
  {
    assert TRACE[0] == Local(1) && TRACE[1] == Local(0) && TRACE[2] == Replay(0) && TRACE[3] == Replay(1);
    assert Replayed(TRACE, 0, 0) && Replayed(TRACE, 1, 0) && Replayed(TRACE, 0, 1);
  }

  lemma FlatIs(text: string)
    ensures Entries(TRACE, Log(text))
    ensures Flat(TRACE, Log(text)) == [Change(1, text), Change(0, text)] + [Change(0, text)] + [Change(1, text)]
  {
  }

  lemma DropNothing(text: string, spare: nat)
    requires ToDelete(text).Rule?
    ensures Next(Summary(EMPTY, spare), Change(0, text)) == Summary(EMPTY, spare)
  {
  }

  /** Before its last event the leader has the empty list and the nodes of the network to spare. */
  lemma BeforeTheLast(text: string)
    requires ToDelete(text).Rule? && ToDelete(text).cidr >= 1
    ensures var front := [Change(1, text), Change(0, text)] + [Change(0, text)];
            SafeRun(START, front) && RunSummary(START, front) == Summary(EMPTY, ToDelete(text).cidr)
  {
    var two := [Change(1, text), Change(0, text)];
    FirstTwoAreSafe(text);
    AfterAddAndDelete(text);
    SafeRunSnoc(START, two, Change(0, text));
    DeleteIsSafe(RunSummary(START, two), text);
    DropNothing(text, ToDelete(text).cidr);
  }

  /** A follower folds the log from the start without recycling anything. */
  lemma LogIsSafe(text: string)
    requires ToDelete(text).Rule? && ToDelete(text).cidr >= 1
    ensures SafeRun(START, Log(text)) && RunSummary(START, Log(text)) == Next(START, Change(1, text))
  {
    assert Log(text) == [] + [Change(0, text)] + [Change(1, text)];
    SafeRunSnoc(START, [], Change(0, text));
    DeleteIsSafe(START, text);
    DropNothing(text, 0);
    SafeRunSnoc(START, [] + [Change(0, text)], Change(1, text));
    AddIsSafe(text);
  }

  lemma AddIsSafe(text: string)
    ensures ToAdd(text).Rule? ==> SafeChange(START, Change(1, text))
  {
  }

  lemma NothingTied()
    ensures Tied(EMPTY)
  {
  }

  lemma OneText(text: string, log: seq<Change>)
    requires ToAdd(text).Rule? && forall i :: 0 <= i < |log| ==> log[i].text == text
    ensures OneSpelling(EMPTY, log)
  {
  }

  lemma AllLogged(log: seq<Change>)
    requires Entries(TRACE, log) && forall i :: 0 <= i < |log| ==> log[i].code <= 1
    ensures Overtaken(EMPTY, TRACE, log)
  {
  }

  lemma NothingToSpell(text: string)
    requires ToDelete(text).Rule?
    ensures Tied(EMPTY) && OneSpelling(EMPTY, Log(text)) && Overtaken(EMPTY, TRACE, Log(text))
  {
    NothingTied();
    FlatIs(text);
    OneText(text, Log(text));
    AllLogged(Log(text));
  }

  /** The answers of a tree that the text was added to, the list being empty: something exactly for the addresses that
      the text covers or that stray with so many nodes to spare. */
  ghost predicate AnswersWith(tree: RadixTree, text: string, spare: nat)
    requires ToAdd(text).Rule?
    reads tree, tree.plan.slot.Keys
  {
    forall key {:trigger Bits(key)} ::
      && Ends(tree.Now(), Bits(key))
      && (Seen(tree.Now(), Bits(key), 33) != NO_VALUE <==>
          Lookup(Added(EMPTY, text).table, key) != NOTHING || StraysFrom(Summary(EMPTY, spare), ToAdd(text), key))
  }

  lemma AddedToNothing(tree: RadixTree, text: string, spare: nat, outcome: Outcome)
    requires ToAdd(text).Rule? && LeftBy(tree, Summary(EMPTY, spare), Change(1, text), outcome)
    ensures AnswersWith(tree, text, spare) && tree.Record.Keys == {text}
  {
    var s := Summary(EMPTY, spare);
    assert AddedAnswers(tree.Now(), s, text);
    forall key {:trigger Bits(key)}
      ensures Ends(tree.Now(), Bits(key)) && (Seen(tree.Now(), Bits(key), 33) != NO_VALUE <==>
              Lookup(Added(EMPTY, text).table, key) != NOTHING || StraysFrom(s, ToAdd(text), key))
    {
      assert Ends(tree.Now(), Bits(key));
    }
  }

  lemma EndedWith(tree: RadixTree, front: seq<Change>, text: string, spare: nat, outcome: Outcome)
    requires ToAdd(text).Rule? && SafeRun(START, front) && RunSummary(START, front) == Summary(EMPTY, spare)
    requires Ended(tree, START, front + [Change(1, text)], outcome)
    ensures AnswersWith(tree, text, spare) && tree.Record.Keys == {text}
  {
    EndedByLast(tree, START, front, Change(1, text), outcome);
    AddedToNothing(tree, text, spare, outcome);
  }

  lemma LeaderStops(text: string)
    requires ToDelete(text).Rule? && ToDelete(text).cidr >= 1
    ensures Interleaving(TRACE, Log(text)) && Stop(START, Flat(TRACE, Log(text))) == 4
  {
    TraceIsInterleaving(Log(text));
    FlatIs(text);
    BeforeTheLast(text);
    StopsAtTheEnd(START, [Change(1, text), Change(0, text)] + [Change(0, text)], Change(1, text));
  }

  lemma FollowerStops(text: string)
    requires ToDelete(text).Rule? && ToDelete(text).cidr >= 1
    ensures var front := [Change(0, text)];
            && Log(text) == front + [Change(1, text)] && Stop(START, Log(text)) == 2
            && SafeRun(START, front) && RunSummary(START, front) == START
  {
    LogIsSafe(text);
    assert Log(text) == [Change(0, text)] + [Change(1, text)];
    SafeRunSnoc(START, [Change(0, text)], Change(1, text));
    assert [Change(0, text)] == [] + [Change(0, text)];
    SafeRunSnoc(START, [], Change(0, text));
    DropNothing(text, 0);
    StopsAtTheEnd(START, [Change(0, text)], Change(1, text));
  }

  /** Both run to the end of the log, and both end with the one recorded text. The follower answers exactly the
      addresses it covers, the leader those that stray from it as well. */
  method RunBoth(leader: RadixTree, follower: RadixTree, text: string)
    requires Keeps(leader, START) && Keeps(follower, START) && leader != follower && leader.plan.slot.Keys !! follower.plan.slot.Keys
    requires ToDelete(text).Rule? && ToDelete(text).cidr >= 1
    modifies leader, leader.plan.slot.Keys, follower, follower.plan.slot.Keys
    ensures ToAdd(text).Rule? && leader.Record.Keys == {text} && follower.Record.Keys == {text}
    ensures AnswersWith(leader, text, ToDelete(text).cidr) && AnswersWith(follower, text, 0)
  {
    LeaderStops(text);
    FollowerStops(text);
    NothingToSpell(text);
    var led, followed := RunReplicas(leader, follower, TRACE, Log(text), 4, 2, START);
    LeaderAnswers(leader, text, led);
    FollowerAnswers(follower, text, followed);
  }

  lemma LeaderAnswers(leader: RadixTree, text: string, outcome: Outcome)
    requires ToDelete(text).Rule? && ToDelete(text).cidr >= 1 && Entries(TRACE, Log(text))
    requires Ended(leader, START, Flat(TRACE, Log(text)), outcome)
    ensures ToAdd(text).Rule? && AnswersWith(leader, text, ToDelete(text).cidr) && leader.Record.Keys == {text}
  {
    FlatIs(text);
    BeforeTheLast(text);
    EndedWith(leader, [Change(1, text), Change(0, text)] + [Change(0, text)], text, ToDelete(text).cidr, outcome);
  }

  lemma FollowerAnswers(follower: RadixTree, text: string, outcome: Outcome)
    requires ToDelete(text).Rule? && ToDelete(text).cidr >= 1
    requires Ended(follower, START, Log(text), outcome)
    ensures ToAdd(text).Rule? && AnswersWith(follower, text, 0) && follower.Record.Keys == {text}
  {
    FollowerStops(text);
    EndedWith(follower, [Change(0, text)], text, 0, outcome);
  }

  // ---- when the two answer alike

  lemma SharedAlone(text: string, spare: nat, i: nat)
    requires ToDelete(text).Rule? && ToAdd(text).Rule? && (spare == ToDelete(text).cidr || spare == 0)
    ensures Shared(Summary(EMPTY, spare), ToAdd(text), i) <==> spare > 0 && 0 < i < ToDelete(text).cidr && !Bits(ToDelete(text).net)[i]
    ensures NothingOnTheWay(Summary(EMPTY, spare), ToAdd(text))
  {
    LengthOfMask(ToDelete(text).cidr);
    NeededOfNone();
    ReachOfNone(Needed(map[]), Bits(ToAdd(text).net), ToDelete(text).cidr);
  }

  ghost predicate AnswersAlike(leader: RadixTree, follower: RadixTree)
    reads leader, leader.plan.slot.Keys, follower, follower.plan.slot.Keys
  {
    forall key {:trigger Bits(key)} :: Seen(leader.Now(), Bits(key), 33) != NO_VALUE <==> Seen(follower.Now(), Bits(key), 33) != NO_VALUE
  }

  ghost predicate Uncovered(text: string, spare: nat, key: Word)
    requires ToAdd(text).Rule?
  {
    StraysFrom(Summary(EMPTY, spare), ToAdd(text), key) && Lookup(Added(EMPTY, text).table, key) == NOTHING
  }

  lemma UncoveredIff(text: string, spare: nat)
    requires ToDelete(text).Rule? && ToAdd(text).Rule? && (spare == ToDelete(text).cidr || spare == 0)
    ensures (exists key :: Uncovered(text, spare, key)) <==>
            spare > 0 && exists i: nat :: i < 32 && Bits(ToDelete(text).net)[i] == false && 0 < i < ToDelete(text).cidr
  {
    var s := Summary(EMPTY, spare);
    NothingToSpell(text);
    WrongIff(s, text);
    assert NothingOnTheWay(s, ToAdd(text)) by { SharedAlone(text, spare, 0); }
    forall i: nat ensures Shared(s, ToAdd(text), i) <==> spare > 0 && 0 < i < ToDelete(text).cidr && !Bits(ToDelete(text).net)[i] {
      SharedAlone(text, spare, i);
    }
    assert (exists key :: Uncovered(text, spare, key)) <==>
           (exists key :: StraysFrom(s, ToAdd(text), key) && Lookup(Added(s.acl, text).table, key) == NOTHING) by {
      forall key ensures Uncovered(text, spare, key) <==>
                         StraysFrom(s, ToAdd(text), key) && Lookup(Added(s.acl, text).table, key) == NOTHING {}
    }
  }

  /** After the whole log the two deny the same addresses exactly when every bit of the network from the second to its
      length is set. */
  lemma AnswersAlikeIff(leader: RadixTree, follower: RadixTree, text: string)
    requires ToDelete(text).Rule? && ToDelete(text).cidr >= 1 && ToAdd(text).Rule?
    requires AnswersWith(leader, text, ToDelete(text).cidr) && AnswersWith(follower, text, 0)
    ensures AnswersAlike(leader, follower) <==> forall i :: 0 < i < ToDelete(text).cidr ==> Bits(ToDelete(text).net)[i]
  {
    var len := ToDelete(text).cidr;
    UncoveredIff(text, len);
    UncoveredIff(text, 0);
    if AnswersAlike(leader, follower) {
      forall key ensures !Uncovered(text, len, key) {
        var r := Bits(key);
        assert !Uncovered(text, 0, key);
      }
    } else {
      var key :| !(Seen(leader.Now(), Bits(key), 33) != NO_VALUE <==> Seen(follower.Now(), Bits(key), 33) != NO_VALUE);
      assert !Uncovered(text, 0, key);
      assert Uncovered(text, len, key);
    }
  }

  lemma TurnedIsUncovered(text: string, net: Word, key: Word)
    requires ToDelete(text) == Rule(net, 8) && ToAdd(text) == Rule(net, 8) && TurnsAtTheSecond(key, net)
    ensures Uncovered(text, 8, key)
  {
    var s := Summary(EMPTY, 8);
    forall j: nat ensures Shared(s, ToAdd(text), j) <==> 0 < j < 8 && !Bits(net)[j] { SharedAlone(text, 8, j); }
    SharedAlone(text, 8, 0);
    StraysBy(s, ToAdd(text), key);
    NothingToSpell(text);
    assert Shared(s, ToAdd(text), 1);
    LeftByRules(s, text, key, 1);
  }

  lemma SeventyFourIsUncovered()
    ensures ToAdd("10.0.0.0/8").Rule? && Uncovered("10.0.0.0/8", 8, 0x4a00_0000) && Uncovered("10.0.0.0/8", 8, 0x6a00_0000)
  {
    TenIsRule();
    BothUncovered("10.0.0.0/8");
  }

  /** A rule put into a new trie, taken out and put in again: an address is answered exactly when the rule covers it or
      it strays from the rule. */
  method AnswerAfterReturn(tree: RadixTree, text: string, key: Word) returns (answer: string)
    requires Keeps(tree, START) && ToDelete(text).Rule? && ToDelete(text).cidr >= 1
    modifies tree, tree.plan.slot.Keys
    ensures tree.Record.Keys == {text} && ToAdd(text).Rule?
    ensures answer != NOTHING <==>
            Lookup(Added(EMPTY, text).table, key) != NOTHING || StraysFrom(Summary(EMPTY, ToDelete(text).cidr), ToAdd(text), key)
  {
    FirstTwoAreSafe(text);
    AfterAddAndDelete(text);
    ReplayLog(tree, [Change(1, text), Change(0, text)], START);
    answer := AddAndAsk(tree, text, key, Summary(EMPTY, ToDelete(text).cidr));
  }

  /** With 10.0.0.0/8 the leader denies 74.0.0.0 and 106.0.0.0, which the follower lets through. */
  lemma TenDiverges(leader: RadixTree, follower: RadixTree)
    requires ToAdd("10.0.0.0/8").Rule? ==> AnswersWith(leader, "10.0.0.0/8", 8) && AnswersWith(follower, "10.0.0.0/8", 0)
    ensures Seen(leader.Now(), Bits(0x4a00_0000), 33) != NO_VALUE && Seen(follower.Now(), Bits(0x4a00_0000), 33) == NO_VALUE
    ensures Seen(leader.Now(), Bits(0x6a00_0000), 33) != NO_VALUE && Seen(follower.Now(), Bits(0x6a00_0000), 33) == NO_VALUE
  {
    TenIsRule();
    Diverges(leader, follower, "10.0.0.0/8");
  }

  lemma Diverges(leader: RadixTree, follower: RadixTree, text: string)
    requires ToDelete(text) == Rule(0x0a00_0000, 8) && ToAdd(text) == Rule(0x0a00_0000, 8)
    requires AnswersWith(leader, text, 8) && AnswersWith(follower, text, 0)
    ensures Seen(leader.Now(), Bits(0x4a00_0000), 33) != NO_VALUE && Seen(follower.Now(), Bits(0x4a00_0000), 33) == NO_VALUE
    ensures Seen(leader.Now(), Bits(0x6a00_0000), 33) != NO_VALUE && Seen(follower.Now(), Bits(0x6a00_0000), 33) == NO_VALUE
  {
    BothUncovered(text);
    DivergesAt(leader, follower, text, 0x4a00_0000);
    DivergesAt(leader, follower, text, 0x6a00_0000);
  }

  lemma BothUncovered(text: string)
    requires ToDelete(text) == Rule(0x0a00_0000, 8) && ToAdd(text) == Rule(0x0a00_0000, 8)
    ensures Uncovered(text, 8, 0x4a00_0000) && Uncovered(text, 8, 0x6a00_0000)
  {
    BothTurn();
    TurnedIsUncovered(text, 0x0a00_0000, 0x4a00_0000);
    TurnedIsUncovered(text, 0x0a00_0000, 0x6a00_0000);
  }

  lemma DivergesAt(leader: RadixTree, follower: RadixTree, text: string, key: Word)
    requires ToDelete(text).Rule? && ToDelete(text).cidr == 8 && ToAdd(text).Rule?
    requires AnswersWith(leader, text, 8) && AnswersWith(follower, text, 0) && Uncovered(text, 8, key)
    ensures Seen(leader.Now(), Bits(key), 33) != NO_VALUE && Seen(follower.Now(), Bits(key), 33) == NO_VALUE
  {
    UncoveredIff(text, 0);
    assert !Uncovered(text, 0, key);
  }
}
