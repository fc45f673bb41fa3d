/** Leader and follower as tries: which runs of the leader keep its trie in order, and what the two answer. */
module Replicas {
  import opened Words
  import opened Rules
  import opened Acl
  import opened TrieShape
  import opened TrieSearch
  import opened TrieRules
  import opened Replication
  import opened RadixTree
  import opened AclMachine

  // ---- runs up to the first unsafe change

  /** How many changes are made up to and with the first that is not safe: all of them, if every one is. */
  ghost function Stop(s: Summary, changes: seq<Change>): (n: nat)
    ensures n <= |changes| && (n > 0 ==> SafeRun(s, changes[..n - 1])) && (n == 0 <==> changes == [])
    ensures if SafeRun(s, changes) then n == |changes| else !SafeRun(s, changes[..n])
  {
    if changes == [] then 0
    else
      var front := changes[..|changes| - 1];
      if SafeRun(s, front) then (Whole(changes); |changes|)
      else
        var n := Stop(s, front);
        FrontOfFront(changes, n);
        FrontOfFront(changes, n - 1);
        n
  }

  /** A run that is not safe has a first change that is not. */
  lemma {:induction false} FirstUnsafe(s: Summary, log: seq<Change>) returns (n: nat)
    requires !SafeRun(s, log)
    ensures n < |log| && SafeRun(s, log[..n]) && !SafeChange(RunSummary(s, log[..n]), log[n])
  {
    n := |log| - 1;
    if !SafeRun(s, log[..n]) {
      var front := log[..n];
      n := FirstUnsafe(s, front);
      FrontOfFront(log, n);
    }
  }

  // ---- the leader's own trie

  /** What one change leaves: the next list, or a crash or a heap that is no trie; and after an addition, safe or
      not, how every address is answered. */
  ghost predicate LeftBy(tree: RadixTree, s: Summary, c: Change, outcome: Outcome)
    reads tree, tree.plan.slot.Keys
  {
    && (if SafeChange(s, c) then Keeps(tree, Next(s, c)) && outcome != Panic
        else if c.code == 1 && ToAdd(c.text).Rule? then Corrupt(tree.Now()) && outcome != Panic
        else outcome == Panic)
    && (outcome != Panic ==> AnswersAfter(tree.Now(), s, c) && tree.Record.Keys == Applied(s.acl, c).record)
  }

  /** A request to the leader, done on its trie at once. */
  method HandleRequest(tree: RadixTree, c: Change, ghost s: Summary) returns (outcome: Outcome)
    requires Keeps(tree, s)
    modifies tree, tree.plan.slot.Keys
    ensures LeftBy(tree, s, Requested(c), outcome)
    ensures forall node :: node in tree.plan.slot && node !in old(tree.plan.slot) ==> fresh(node)
  {
    assert Holds(tree, s);
    if c.code == 0 {
      outcome := HandleDelete(tree, c.text, s);
      DeleteAnswersNothing(tree.Now(), s, Requested(c));
      assert Requested(c) == Change(0, c.text);
    } else {
      outcome := HandleAdd(tree, c.text, s);
    }
  }

  lemma DeleteAnswersNothing(w: View, s: Summary, c: Change)
    requires c.code != 1
    ensures AnswersAfter(w, s, c)
  {
  }

  /** A log entry applied to a trie. */
  method HandleLogged(tree: RadixTree, c: Change, ghost s: Summary) returns (outcome: Outcome)
    requires Keeps(tree, s)
    modifies tree, tree.plan.slot.Keys
    ensures LeftBy(tree, s, c, outcome)
    ensures forall node :: node in tree.plan.slot && node !in old(tree.plan.slot) ==> fresh(node)
  {
    assert Holds(tree, s);
    outcome := HandleAcl(tree, c, s);
  }

  method HandleEvent(tree: RadixTree, e: Event, log: seq<Change>, ghost s: Summary) returns (outcome: Outcome)
    requires Keeps(tree, s) && e.entry < |log|
    modifies tree, tree.plan.slot.Keys
    ensures LeftBy(tree, s, Made(e, log), outcome)
    ensures forall node :: node in tree.plan.slot && node !in old(tree.plan.slot) ==> fresh(node)
  {
    if e.Local? {
      outcome := HandleRequest(tree, log[e.entry], s);
    } else {
      outcome := HandleLogged(tree, log[e.entry], s);
    }
  }

  lemma FlatOfLast(trace: seq<Event>, log: seq<Change>)
    requires trace != [] && Entries(trace, log)
    ensures var n := |trace| - 1; Flat(trace, log) == Flat(trace[..n], log) + [Made(trace[n], log)]
  {
    FlatOfFront(trace, log);
  }

  /** The first `n` events of a leader, all safe. */
  method RunSafely(tree: RadixTree, trace: seq<Event>, log: seq<Change>, n: nat, ghost s: Summary)
    requires Keeps(tree, s) && Entries(trace, log) && n <= |trace| && SafeRun(s, Flat(trace, log)[..n])
    modifies tree, tree.plan.slot.Keys
    ensures Keeps(tree, RunSummary(s, Flat(trace, log)[..n]))
    ensures forall node :: node in tree.plan.slot && node !in old(tree.plan.slot) ==> fresh(node)
  {
    ghost var changes := Flat(trace, log)[..n];
    for i := 0 to n
      invariant Keeps(tree, RunSummary(s, changes[..i]))
      invariant forall node :: node in tree.plan.slot && node !in old(tree.plan.slot) ==> fresh(node)
    {
      SafeRunAt(s, changes, i);
      assert changes[i] == Made(trace[i], log);
      var _ := HandleEvent(tree, trace[i], log, RunSummary(s, changes[..i]));
    }
    Whole(changes);
  }

  lemma PrefixLast(s: Summary, changes: seq<Change>, n: nat)
    requires 0 < n <= |changes|
    ensures SafeRun(s, changes[..n]) <==> SafeRun(s, changes[..n - 1]) && SafeChange(RunSummary(s, changes[..n - 1]), changes[n - 1])
    ensures RunSummary(s, changes[..n]) == Next(RunSummary(s, changes[..n - 1]), changes[n - 1])
  {
    assert changes[..n] == changes[..n - 1] + [changes[n - 1]];
    SafeRunSnoc(s, changes[..n - 1], changes[n - 1]);
  }

  /** How a run of changes ends that stops with the first that is not safe. */
  ghost predicate EndedBy(tree: RadixTree, s: Summary, changes: seq<Change>, outcome: Outcome)
    reads tree, tree.plan.slot.Keys
  {
    var n := Stop(s, changes);
    if n == 0 then Keeps(tree, s) && outcome != Panic
    else LeftBy(tree, RunSummary(s, changes[..n - 1]), changes[n - 1], outcome)
  }

  /** `EndedBy`, kept closed: opened by asserting it. */
  ghost predicate Ended(tree: RadixTree, s: Summary, changes: seq<Change>, outcome: Outcome)
    reads tree, tree.plan.slot.Keys
  {
    forall o {:trigger EndedBy(tree, s, changes, o)} :: o == outcome ==> EndedBy(tree, s, changes, o)
  }

  /** The leader's events, up to and with the first that is not safe. */
  method RunLeader(tree: RadixTree, trace: seq<Event>, log: seq<Change>, n: nat, ghost s: Summary) returns (outcome: Outcome)
    requires Keeps(tree, s) && Entries(trace, log) && n == Stop(s, Flat(trace, log))
    modifies tree, tree.plan.slot.Keys
    ensures Ended(tree, s, Flat(trace, log), outcome)
    ensures forall node :: node in tree.plan.slot && node !in old(tree.plan.slot) ==> fresh(node)
  {
    outcome := Done;
    if n > 0 {
      RunSafely(tree, trace, log, n - 1, s);
      outcome := HandleEvent(tree, trace[n - 1], log, RunSummary(s, Flat(trace, log)[..n - 1]));
    }
  }

  /** A follower's log, likewise. */
  method RunFollower(tree: RadixTree, log: seq<Change>, n: nat, ghost s: Summary) returns (outcome: Outcome)
    requires Keeps(tree, s) && n == Stop(s, log)
    modifies tree, tree.plan.slot.Keys
    ensures Ended(tree, s, log, outcome)
    ensures forall node :: node in tree.plan.slot && node !in old(tree.plan.slot) ==> fresh(node)
  {
    outcome := Done;
    if n > 0 {
      ReplayLog(tree, log[..n - 1], s);
      outcome := HandleLogged(tree, log[n - 1], RunSummary(s, log[..n - 1]));
    }
  }

  /** A run that is safe throughout ends with the list it folds to; one that is not, with a crash or no trie. */
  lemma EndedMeans(tree: RadixTree, s: Summary, changes: seq<Change>, outcome: Outcome)
    requires Ended(tree, s, changes, outcome)
    ensures SafeRun(s, changes) ==> Keeps(tree, RunSummary(s, changes)) && outcome != Panic
    ensures !SafeRun(s, changes) ==> outcome == Panic || Corrupt(tree.Now())
  {
    assert EndedBy(tree, s, changes, outcome);
    var n := Stop(s, changes);
    if n > 0 {
      PrefixLast(s, changes, n);
      if SafeRun(s, changes) { Whole(changes); }
    }
  }

  lemma StopsAtTheEnd(s: Summary, front: seq<Change>, c: Change)
    requires SafeRun(s, front)
    ensures Stop(s, front + [c]) == |front| + 1 && (front + [c])[..|front|] == front && (front + [c])[|front|] == c
  {
    assert (front + [c])[..|front|] == front;
  }

  /** A run that is safe up to its last change ends as that change leaves it. */
  lemma EndedByLast(tree: RadixTree, s: Summary, front: seq<Change>, c: Change, outcome: Outcome)
    requires SafeRun(s, front) && Ended(tree, s, front + [c], outcome)
    ensures LeftBy(tree, RunSummary(s, front), c, outcome)
  {
    assert EndedBy(tree, s, front + [c], outcome);
    StopsAtTheEnd(s, front, c);
  }

  // ---- what leader and follower answer

  /** Both are tries, search for every address with the same answer, and have the same record. */
  ghost predicate Agree(a: RadixTree, b: RadixTree)
    reads a, a.plan.slot.Keys, b, b.plan.slot.Keys
  {
    && a.Valid() && b.Valid() && a.Record.Keys == b.Record.Keys
    && forall key {:trigger Bits(key)} ::
         Ends(a.Now(), Bits(key)) && Ends(b.Now(), Bits(key)) && Seen(a.Now(), Bits(key), 33) == Seen(b.Now(), Bits(key), 33)
  }

  lemma SameListAgrees(a: RadixTree, b: RadixTree, s: Summary, t: Summary)
    requires Keeps(a, s) && Keeps(b, t) && s.acl == t.acl
    ensures Agree(a, b)
  {
    assert Holds(a, s) && Holds(b, t);
    forall key {:trigger Bits(key)}
      ensures Ends(a.Now(), Bits(key)) && Ends(b.Now(), Bits(key)) && Seen(a.Now(), Bits(key), 33) == Seen(b.Now(), Bits(key), 33)
    {
      TrieSearches(a.Now(), Bits(key));
      TrieSearches(b.Now(), Bits(key));
    }
  }

  lemma SummariesConverge(s: Summary, trace: seq<Event>, log: seq<Change>)
    requires Interleaving(trace, log) && Tied(s.acl) && OneSpelling(s.acl, log) && Overtaken(s.acl, trace, log)
    ensures RunSummary(s, Flat(trace, log)).acl == RunSummary(s, log).acl
  {
    RunSummaryIsRun(s, Flat(trace, log));
    RunSummaryIsRun(s, log);
    LeaderIsRun(s.acl, trace, log);
    ReplicasConverge(s.acl, trace, log);
  }

  /** Two tries that hold the same list, one running the leader's events, the other the log, each up to and with the
      first that is not safe; `n` and `m` are how far that is. When both runs are safe throughout, the two answer every
      address alike. A run that is not ends with a crash or without a trie, answering, if its last change was an
      addition, as `EndedBy` says. */
  method RunReplicas(leader: RadixTree, follower: RadixTree, trace: seq<Event>, log: seq<Change>, n: nat, m: nat, ghost s: Summary)
    returns (led: Outcome, followed: Outcome)
    requires Keeps(leader, s) && Keeps(follower, s) && leader != follower && leader.plan.slot.Keys !! follower.plan.slot.Keys
    requires Interleaving(trace, log) && Tied(s.acl) && OneSpelling(s.acl, log) && Overtaken(s.acl, trace, log)
    requires n == Stop(s, Flat(trace, log)) && m == Stop(s, log)
    modifies leader, leader.plan.slot.Keys, follower, follower.plan.slot.Keys
    ensures Ended(leader, s, Flat(trace, log), led) && Ended(follower, s, log, followed)
    ensures SafeRun(s, Flat(trace, log)) ==> Keeps(leader, RunSummary(s, Flat(trace, log))) && led != Panic
    ensures !SafeRun(s, Flat(trace, log)) ==> led == Panic || Corrupt(leader.Now())
    ensures SafeRun(s, log) ==> Keeps(follower, RunSummary(s, log)) && followed != Panic
    ensures SafeRun(s, Flat(trace, log)) && SafeRun(s, log) ==> Agree(leader, follower)
  {
    followed := RunFollower(follower, log, m, s);
    assert leader.plan.slot.Keys !! follower.plan.slot.Keys;
    led := RunLeader(leader, trace, log, n, s);
    BothEnded(leader, follower, s, Flat(trace, log), log, led, followed);
    SummariesConverge(s, trace, log);
  }

  lemma BothEnded(leader: RadixTree, follower: RadixTree, s: Summary, changes: seq<Change>, log: seq<Change>, led: Outcome, followed: Outcome)
    requires Ended(leader, s, changes, led) && Ended(follower, s, log, followed)
    ensures SafeRun(s, changes) ==> Keeps(leader, RunSummary(s, changes)) && led != Panic
    ensures !SafeRun(s, changes) ==> led == Panic || Corrupt(leader.Now())
    ensures SafeRun(s, log) ==> Keeps(follower, RunSummary(s, log)) && followed != Panic
    ensures SafeRun(s, changes) && SafeRun(s, log) && RunSummary(s, changes).acl == RunSummary(s, log).acl ==> Agree(leader, follower)
  {
    EndedMeans(leader, s, changes, led);
    EndedMeans(follower, s, log, followed);
    if SafeRun(s, changes) && SafeRun(s, log) && RunSummary(s, changes).acl == RunSummary(s, log).acl {
      SameListAgrees(leader, follower, RunSummary(s, changes), RunSummary(s, log));
    }
  }
}
