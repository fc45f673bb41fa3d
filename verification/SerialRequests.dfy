/** Requests one at a time: each is made right before its log entry is applied. */
module SerialRequests {
  import opened Words
  import opened Text
  import opened LongestMatch
  import opened Rules
  import opened Acl
  import opened TrieRules
  import opened Replication
  import opened Replicas

  /** The first `k` log entries in order, each alone or with its request right before it. */
  ghost predicate Serial(trace: seq<Event>, k: nat)
    decreases |trace|
  {
    var n := |trace|;
    if n == 0 then k == 0
    else
      && k > 0 && trace[n - 1] == Replay(k - 1)
      && if n > 1 && trace[n - 2] == Local(k - 1) then Serial(trace[..n - 2], k - 1) else Serial(trace[..n - 1], k - 1)
  }

  lemma MatchedWhenStored(table: Table, rule: Rule)
    requires rule.Rule? && rule.Position() in table
    ensures Matched(table, rule) == LeadingOnes(NetMask(rule.cidr))
  {
    var p := rule.Position();
    assert p in Ancestors(p);
    assert p in Needed(table);
  }

  lemma NextAfterAdd(s: Summary, text: string)
    requires ToAdd(text).Rule?
    ensures var rule := ToAdd(text);
            Next(s, Change(1, text)) == Summary(Acl(s.acl.table[rule.Position() := text], s.acl.record + {text}), SpareAfterAdd(s, rule))
  {
  }

  lemma NothingMade(s: Summary, rule: Rule)
    requires rule.Rule? && Matched(s.acl.table, rule) == LeadingOnes(NetMask(rule.cidr))
    ensures SpareAfterAdd(s, rule) == s.spare && SafeRule(s, rule)
  {
  }

  lemma AddedAgain(s: Summary, text: string)
    requires SafeChange(s, Change(1, text))
    ensures var c := Change(1, text); SafeChange(Next(s, c), c) && Next(Next(s, c), c) == Next(s, c)
  {
    var rule := ToAdd(text);
    if rule.Rule? {
      NextAfterAdd(s, text);
      var t := Next(s, Change(1, text));
      MatchedWhenStored(t.acl.table, rule);
      NothingMade(t, rule);
      NextAfterAdd(t, text);
    } else {
      NothingToAdd(s, text);
    }
  }

  lemma DroppedAgain(s: Summary, c: Change)
    requires c.code == 0 && SafeChange(s, c)
    ensures SafeChange(Next(s, c), c) && Next(Next(s, c), c) == Next(s, c)
  {
    var t := Next(s, c);
    assert t.acl == Dropped(s.acl, c.text) && Dropped(t.acl, c.text) == t.acl;
  }

  /** A safe change is safe a second time, and then changes nothing. */
  lemma ChangedAgain(s: Summary, c: Change)
    requires c.code <= 1 && SafeChange(s, c)
    ensures SafeChange(Next(s, c), c) && Next(Next(s, c), c) == Next(s, c)
  {
    if c.code == 1 {
      assert c == Change(1, c.text);
      AddedAgain(s, c.text);
    } else {
      DroppedAgain(s, c);
    }
  }

  /** Two runs that are safe together and then leave the same summary. */
  ghost predicate Alike(s: Summary, f: seq<Change>, g: seq<Change>) {
    (SafeRun(s, f) <==> SafeRun(s, g)) && (SafeRun(s, g) ==> RunSummary(s, f) == RunSummary(s, g))
  }

  /** `Alike`, kept closed. */
  ghost predicate Together(s: Summary, f: seq<Change>, g: seq<Change>) {
    forall h {:trigger Alike(s, f, h)} :: h == g ==> Alike(s, f, h)
  }

  lemma TogetherAtFirst(s: Summary)
    ensures Together(s, [], [])
  {
  }

  lemma AlikeOnce(s: Summary, f: seq<Change>, g: seq<Change>, c: Change)
    requires Together(s, f, g)
    ensures Together(s, f + [c], g + [c])
  {
    assert Alike(s, f, g);
    SafeRunSnoc(s, f, c);
    SafeRunSnoc(s, g, c);
  }

  lemma AlikeTwice(s: Summary, f: seq<Change>, g: seq<Change>, c: Change)
    requires Together(s, f, g) && c.code <= 1
    ensures Together(s, f + [c] + [c], g + [c])
  {
    AlikeOnce(s, f, g, c);
    assert Alike(s, f + [c], g + [c]);
    SafeRunSnoc(s, f, c);
    SafeRunSnoc(s, f + [c], c);
    if SafeRun(s, f + [c]) { ChangedAgain(RunSummary(s, f), c); }
  }

  lemma FlatOfRequest(trace: seq<Event>, log: seq<Change>, k: nat)
    requires |trace| >= 2 && Entries(trace, log) && k < |log| && log[k].code <= 1
    requires trace[|trace| - 2] == Local(k) && trace[|trace| - 1] == Replay(k)
    ensures Flat(trace, log) == Flat(trace[..|trace| - 2], log) + [log[k]] + [log[k]]
  {
    FlatOfTwo(trace, log);
    assert Requested(log[k]) == log[k];
  }

  /** With requests one at a time the leader's trie is safe exactly when a follower's is, and both end in the same
      list with as many spare nodes. */
  lemma SerialIsSafeIff(s: Summary, trace: seq<Event>, log: seq<Change>)
    requires Serial(trace, |log|) && Entries(trace, log) && forall i :: 0 <= i < |log| ==> log[i].code <= 1
    ensures SafeRun(s, Flat(trace, log)) <==> SafeRun(s, log)
    ensures SafeRun(s, log) ==> RunSummary(s, Flat(trace, log)) == RunSummary(s, log)
  {
    SerialTogether(s, trace, log, |log|);
    assert log[..|log|] == log;
    assert Alike(s, Flat(trace, log), log);
  }

  lemma EntryTogether(s: Summary, trace: seq<Event>, log: seq<Change>, k: nat)
    requires trace != [] && Entries(trace, log) && k < |log| && trace[|trace| - 1] == Replay(k)
    requires Together(s, Flat(trace[..|trace| - 1], log), log[..k])
    ensures Together(s, Flat(trace, log), log[..k + 1])
  {
    FlatOfLast(trace, log);
    LogApart(log, k + 1);
    AlikeOnce(s, Flat(trace[..|trace| - 1], log), log[..k], log[k]);
  }

  lemma RequestTogether(s: Summary, trace: seq<Event>, log: seq<Change>, k: nat)
    requires |trace| >= 2 && Entries(trace, log) && k < |log| && log[k].code <= 1
    requires trace[|trace| - 2] == Local(k) && trace[|trace| - 1] == Replay(k)
    requires Together(s, Flat(trace[..|trace| - 2], log), log[..k])
    ensures Together(s, Flat(trace, log), log[..k + 1])
  {
    FlatOfRequest(trace, log, k);
    LogApart(log, k + 1);
    AlikeTwice(s, Flat(trace[..|trace| - 2], log), log[..k], log[k]);
  }

  lemma {:induction false} SerialTogether(s: Summary, trace: seq<Event>, log: seq<Change>, k: nat)
    requires Serial(trace, k) && k <= |log| && Entries(trace, log) && forall i :: 0 <= i < |log| ==> log[i].code <= 1
    ensures Together(s, Flat(trace, log), log[..k])
    decreases |trace|
  {
    var n := |trace|;
    if n == 0 {
      assert Flat(trace, log) == [] && log[..k] == [];
      TogetherAtFirst(s);
    } else if n > 1 && trace[n - 2] == Local(k - 1) {
      SerialTogether(s, trace[..n - 2], log, k - 1);
      RequestTogether(s, trace, log, k - 1);
    } else {
      SerialTogether(s, trace[..n - 1], log, k - 1);
      EntryTogether(s, trace, log, k - 1);
    }
  }

  lemma FlatOfTwo(trace: seq<Event>, log: seq<Change>)
    requires |trace| >= 2 && Entries(trace, log)
    ensures var n := |trace|; Flat(trace, log) == Flat(trace[..n - 2], log) + [Made(trace[n - 2], log)] + [Made(trace[n - 1], log)]
  {
  }

  lemma LastTwoApart<T>(s: seq<T>)
    requires |s| >= 2
    ensures s == s[..|s| - 2] + [s[|s| - 2], s[|s| - 1]]
  {
  }

  lemma LogApart(log: seq<Change>, k: nat)
    requires 0 < k <= |log|
    ensures log[..k] == log[..k - 1] + [log[k - 1]]
  {
  }

  /** Such a trace is one of the interleavings. */
  lemma {:induction false} SerialIsInterleaving(trace: seq<Event>, log: seq<Change>, k: nat)
    requires Serial(trace, k) && k <= |log|
    ensures Interleaving(trace, log[..k])
    decreases |trace|
  {
    var n := |trace|;
    if n > 0 {
      LogApart(log, k);
      if n > 1 && trace[n - 2] == Local(k - 1) {
        SerialIsInterleaving(trace[..n - 2], log, k - 1);
        InterleavingMore(trace[..n - 2], log[..k - 1], log[k - 1], [Local(k - 1), Replay(k - 1)]);
        LastTwoApart(trace);
      } else {
        SerialIsInterleaving(trace[..n - 1], log, k - 1);
        InterleavingMore(trace[..n - 1], log[..k - 1], log[k - 1], [Replay(k - 1)]);
        LastApart(trace);
      }
    }
  }

  lemma ReplayedStill(trace: seq<Event>, more: seq<Event>, i: nat, from: nat)
    requires Replayed(trace, i, from)
    ensures Replayed(trace + more, i, from)
  {
    var j :| from <= j < |trace| && trace[j] == Replay(i);
    assert (trace + more)[j] == Replay(i);
  }

  lemma InterleavingMore(trace: seq<Event>, log: seq<Change>, c: Change, more: seq<Event>)
    requires Interleaving(trace, log) && (more == [Local(|log|), Replay(|log|)] || more == [Replay(|log|)])
    ensures Interleaving(trace + more, log + [c])
  {
    var w := trace + more;
    assert w[|w| - 1] == Replay(|log|);
    forall i: nat | i < |log + [c]| ensures Replayed(w, i, 0) {
      if i < |log| { ReplayedStill(trace, more, i, 0); }
    }
    forall j {:trigger w[j]} | 0 <= j < |w| && w[j].Local? ensures Replayed(w, w[j].entry, j) {
      if j < |trace| {
        assert w[j] == trace[j];
        ReplayedStill(trace, more, trace[j].entry, j);
      }
    }
  }
}
