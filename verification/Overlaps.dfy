/** Requests that overlap: both are made before the log entry of either is applied. */
module Overlaps {
  import opened Words
  import opened Rules
  import opened Acl
  import opened TrieRules
  import opened Replication
  import opened Recycling
  import opened SerialRequests
  import opened TenSlashEight

  /** A network added and deleted by two requests before either is logged: a follower folds the two entries safely;
      the leader, who recycles its own deleted nodes, keeps a trie exactly when every bit of the network from the
      second to its length is set. */
  lemma OverlappingRequests(text: string)
    requires ToDelete(text).Rule? && ToDelete(text).cidr >= 1
    ensures var log, trace := [Change(1, text), Change(0, text)], [Local(0), Local(1), Replay(0), Replay(1)];
            && Interleaving(trace, log) && Serial([Local(0), Replay(0), Local(1), Replay(1)], 2)
            && SafeRun(START, log)
            && (SafeRun(START, Flat(trace, log)) <==> forall i :: 0 < i < ToDelete(text).cidr ==> Bits(ToDelete(text).net)[i])
  {
    var log, trace := [Change(1, text), Change(0, text)], [Local(0), Local(1), Replay(0), Replay(1)];
    OverlapIsInterleaving(log);
    OverlapIsSerial();
    FirstTwoAreSafe(text);
    assert Flat(trace, log) == log + [Change(1, text)] + [Change(0, text)];
    SafeRunSnoc(START, log, Change(1, text));
    SafeRunSnoc(START, log + [Change(1, text)], Change(0, text));
    NextAddAfterDelete(text, text);
    DeleteIsSafe(RunSummary(START, log + [Change(1, text)]), text);
  }

  lemma OverlapIsInterleaving(log: seq<Change>)
    requires |log| == 2
    ensures Interleaving([Local(0), Local(1), Replay(0), Replay(1)], log)
  {
    var trace := [Local(0), Local(1), Replay(0), Replay(1)];
    assert trace[0] == Local(0) && trace[1] == Local(1) && trace[2] == Replay(0) && trace[3] == Replay(1);
    assert Replayed(trace, 0, 0) && Replayed(trace, 1, 0) && Replayed(trace, 1, 1);
  }

  lemma OverlapIsSerial()
    ensures Serial([Local(0), Replay(0), Local(1), Replay(1)], 2)
  {
    var trace := [Local(0), Replay(0), Local(1), Replay(1)];
    assert trace[..2] == [Local(0), Replay(0)];
    assert trace[..2][..0] == [];
    assert Serial(trace[..2], 1);
  }

  /** Only a deletion of the empty network can crash. */
  lemma DeleteIsSafe(s: Summary, text: string)
    requires ToDelete(text).Rule? && ToDelete(text).cidr >= 1
    ensures SafeChange(s, Change(0, text))
  {
    LengthOfMask(ToDelete(text).cidr);
  }

  lemma FirstTwoAreSafe(text: string)
    requires ToDelete(text).Rule? && ToDelete(text).cidr >= 1
    ensures SafeRun(START, [Change(1, text), Change(0, text)])
  {
    SafeRunSnoc(START, [], Change(1, text));
    assert [] + [Change(1, text)] == [Change(1, text)];
    SafeRunSnoc(START, [Change(1, text)], Change(0, text));
    assert [Change(1, text)] + [Change(0, text)] == [Change(1, text), Change(0, text)];
    DeleteIsSafe(RunSummary(START, [Change(1, text)]), text);
  }

  /** So the leader loses its trie over 10.0.0.0/8, and the follower does not. */
  lemma OverlappingOnTen()
    ensures var log, trace := [Change(1, "10.0.0.0/8"), Change(0, "10.0.0.0/8")], [Local(0), Local(1), Replay(0), Replay(1)];
            Interleaving(trace, log) && SafeRun(START, log) && !SafeRun(START, Flat(trace, log))
  {
    TenIsRule();
    OverlapOf("10.0.0.0/8", 0x0a00_0000);
  }

  lemma OverlapOf(text: string, net: Word)
    requires ToDelete(text) == Rule(net, 8) && net == 0x0a00_0000
    ensures var log, trace := [Change(1, text), Change(0, text)], [Local(0), Local(1), Replay(0), Replay(1)];
            Interleaving(trace, log) && SafeRun(START, log) && !SafeRun(START, Flat(trace, log))
  {
    OverlappingRequests(text);
    TenHasNoSecondBit();
  }
}
