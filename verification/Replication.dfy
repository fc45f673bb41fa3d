/** Leader and follower: the leader's handlers change its list at once and the log entry changes it
    again when it commits; followers only fold the log. */
module Replication {
  import opened Words
  import opened Text
  import opened LongestMatch
  import opened Rules
  import opened Acl

  /** What the leader does in some order: its own change for a log entry, or the entry's application. */
  datatype Event = Local(entry: nat) | Replay(entry: nat)

  ghost function Leader(acl: Acl, trace: seq<Event>, log: seq<Change>): Acl
    requires Entries(trace, log)
  {
    if trace == [] then acl
    else
      var before := Leader(acl, trace[..|trace| - 1], log);
      match trace[|trace| - 1]
      case Local(i) => Handled(before, log[i])
      case Replay(i) => Applied(before, log[i])
  }

  ghost predicate Replayed(trace: seq<Event>, i: nat, from: nat) {
    exists j :: from <= j < |trace| && trace[j] == Replay(i)
  }

  /** Every entry is applied once, in log order, and a local change comes before its own application.
      Otherwise the order is free: local changes may be made in another order than the log's. */
  ghost predicate Interleaving(trace: seq<Event>, log: seq<Change>) {
    && Entries(trace, log)
    && (forall i: nat :: i < |log| ==> Replayed(trace, i, 0))
    && (forall j, k :: 0 <= j < k < |trace| && trace[j].Replay? && trace[k].Replay? ==> trace[j].entry < trace[k].entry)
    && (forall j {:trigger trace[j]} :: 0 <= j < |trace| && trace[j].Local? ==> Replayed(trace, trace[j].entry, j))
  }

  ghost function Look(table: Table, p: Path): Option<string> {
    if p in table then Some(table[p]) else None
  }

  ghost predicate Touches(c: Change, p: Path) {
    || (c.code == 0 && ToDelete(c.text).Rule? && ToDelete(c.text).Position() == p)
    || (c.code == 1 && ToAdd(c.text).Rule? && ToAdd(c.text).Position() == p)
  }

  lemma AppliedLook(acl: Acl, c: Change, p: Path)
    ensures Look(Applied(acl, c).table, p) ==
            if Touches(c, p) then (if c.code == 1 then Some(c.text) else None) else Look(acl.table, p)
  {
  }

  /** `last` is the index of the last change that touches a position, -1 if none does. */
  ghost predicate IsLastTouch(changes: seq<Change>, p: Path, last: int) {
    && -1 <= last < |changes|
    && (last >= 0 ==> Touches(changes[last], p))
    && forall i :: last < i < |changes| ==> !Touches(changes[i], p)
  }

  lemma LastTouchBefore(changes: seq<Change>, p: Path, last: int)
    requires IsLastTouch(changes, p, last) && changes != []
    ensures var n := |changes| - 1;
            if last == n then Touches(changes[n], p) else !Touches(changes[n], p) && IsLastTouch(changes[..n], p, last)
  {
  }

  lemma RunLookLast(acl: Acl, changes: seq<Change>, p: Path)
    requires changes != []
    ensures var n := |changes| - 1;
            Look(Run(acl, changes).table, p) ==
            if Touches(changes[n], p) then (if changes[n].code == 1 then Some(changes[n].text) else None)
            else Look(Run(acl, changes[..n]).table, p)
  {
    AppliedLook(Run(acl, changes[..|changes| - 1]), changes[|changes| - 1], p);
  }

  /** The last change that touches a position decides what is there, if any does. */
  lemma {:induction false} RunLook(acl: Acl, changes: seq<Change>, p: Path, last: int)
    requires IsLastTouch(changes, p, last)
    ensures Look(Run(acl, changes).table, p) ==
            if last < 0 then Look(acl.table, p) else if changes[last].code == 1 then Some(changes[last].text) else None
  {
    if changes != [] {
      LastTouchBefore(changes, p, last);
      RunLookLast(acl, changes, p);
      if last < |changes| - 1 { RunLook(acl, changes[..|changes| - 1], p, last); }
    }
  }

  lemma LastTouch(changes: seq<Change>, p: Path) returns (last: int)
    ensures IsLastTouch(changes, p, last)
  {
    last := |changes| - 1;
    while last >= 0 && !Touches(changes[last], p)
      invariant -1 <= last < |changes|
      invariant forall i :: last < i < |changes| ==> !Touches(changes[i], p)
    {
      last := last - 1;
    }
  }

  /** The change that a local request makes: its handler adds for every code but 0. */
  ghost function Requested(c: Change): Change {
    if c.code == 0 then c else Change(1, c.text)
  }

  ghost function Made(e: Event, log: seq<Change>): Change
    requires e.entry < |log|
  {
    match e
    case Local(i) => Requested(log[i])
    case Replay(i) => log[i]
  }

  ghost predicate Entries(trace: seq<Event>, log: seq<Change>) {
    forall j :: 0 <= j < |trace| ==> trace[j].entry < |log|
  }

  /** The leader's events as the changes they make. */
  ghost function Flat(trace: seq<Event>, log: seq<Change>): (changes: seq<Change>)
    requires Entries(trace, log)
    ensures |changes| == |trace| && forall j :: 0 <= j < |trace| ==> changes[j] == Made(trace[j], log)
  {
    seq(|trace|, (j: int) requires 0 <= j < |trace| => Made(trace[j], log))
  }

  lemma HandledIsApplied(acl: Acl, c: Change)
    ensures Handled(acl, c) == Applied(acl, Requested(c))
  {
  }

  lemma FlatOfFront(trace: seq<Event>, log: seq<Change>)
    requires Entries(trace, log) && trace != []
    ensures var n := |trace| - 1;
            Flat(trace, log)[..n] == Flat(trace[..n], log) && Flat(trace, log)[n] == Made(trace[n], log)
  {
  }

  lemma {:induction false} LeaderIsRun(acl: Acl, trace: seq<Event>, log: seq<Change>)
    requires Entries(trace, log)
    ensures Leader(acl, trace, log) == Run(acl, Flat(trace, log))
  {
    if trace != [] {
      var n := |trace| - 1;
      LeaderIsRun(acl, trace[..n], log);
      FlatOfFront(trace, log);
      HandledIsApplied(Run(acl, Flat(trace[..n], log)), log[trace[n].entry]);
    }
  }

  /** A request that adds although its log entry will do nothing. */
  ghost predicate Unlogged(e: Event, log: seq<Change>) {
    e.Local? && e.entry < |log| && log[e.entry].code > 1
  }

  lemma ReplayTouches(trace: seq<Event>, log: seq<Change>, p: Path, i: nat) returns (k: nat)
    requires Interleaving(trace, log) && i < |log| && Touches(log[i], p)
    ensures k < |trace| && trace[k] == Replay(i) && Touches(Flat(trace, log)[k], p)
  {
    assert Replayed(trace, i, 0);
    k :| 0 <= k < |trace| && trace[k] == Replay(i);
  }

  lemma LastIsReplay(trace: seq<Event>, log: seq<Change>, p: Path, j: nat)
    requires Interleaving(trace, log) && IsLastTouch(Flat(trace, log), p, j) && !Unlogged(trace[j], log)
    ensures trace[j].Replay? && Touches(log[trace[j].entry], p)
  {
    assert Flat(trace, log)[j] == log[trace[j].entry];
    assert trace[j].Local? ==> Replayed(trace, trace[j].entry, j);
    forall k | j < k < |trace| ensures trace[k] != Replay(trace[j].entry) {
      assert !Touches(Flat(trace, log)[k], p);
    }
  }

  /** In the leader's history the last touch of a position is the application of the log's last touch, unless
      it is a request that was not logged as an addition. */
  lemma SameLastTouch(trace: seq<Event>, log: seq<Change>, p: Path, j: int, i: int)
    requires Interleaving(trace, log)
    requires IsLastTouch(Flat(trace, log), p, j) && IsLastTouch(log, p, i) && (j >= 0 ==> !Unlogged(trace[j], log))
    ensures (j < 0 <==> i < 0) && (j >= 0 ==> Flat(trace, log)[j] == log[i])
  {
    if i >= 0 { var k := ReplayTouches(trace, log, p, i); }
    if j >= 0 {
      LastIsReplay(trace, log, p, j);
      LastOfBoth(trace, log, p, j, i);
    }
  }

  lemma LastOfBoth(trace: seq<Event>, log: seq<Change>, p: Path, j: nat, i: int)
    requires Interleaving(trace, log) && IsLastTouch(Flat(trace, log), p, j) && IsLastTouch(log, p, i)
    requires trace[j].Replay? && Touches(log[trace[j].entry], p)
    ensures i == trace[j].entry
  {
    assert trace[j].entry <= i;
    var k := ReplayTouches(trace, log, p, i);
    assert k <= j;
  }

  /** Each request that was not logged as an addition, and that nothing touches after it, put what the log puts there. */
  ghost predicate Overtaken(acl: Acl, trace: seq<Event>, log: seq<Change>)
    requires Entries(trace, log)
  {
    forall p, j {:trigger IsLastTouch(Flat(trace, log), p, j)} ::
      IsLastTouch(Flat(trace, log), p, j) && j >= 0 && Unlogged(trace[j], log) ==>
      Look(Run(acl, log).table, p) == Some(log[trace[j].entry].text)
  }

  lemma LookConverges(acl: Acl, trace: seq<Event>, log: seq<Change>, p: Path)
    requires Interleaving(trace, log) && Overtaken(acl, trace, log)
    ensures Look(Run(acl, Flat(trace, log)).table, p) == Look(Run(acl, log).table, p)
  {
    var changes := Flat(trace, log);
    var j := LastTouch(changes, p);
    var i := LastTouch(log, p);
    RunLook(acl, changes, p, j);
    if j < 0 || !Unlogged(trace[j], log) {
      SameLastTouch(trace, log, p, j, i);
      RunLook(acl, log, p, i);
    }
  }

  /** For every interleaving, log and list: a leader that has applied the whole log looks up the same rules as a
      follower that only folded it exactly when no unlogged addition is left that the log does not make. */
  lemma TablesConvergeIff(acl: Acl, trace: seq<Event>, log: seq<Change>)
    requires Interleaving(trace, log)
    ensures Leader(acl, trace, log).table == Run(acl, log).table <==> Overtaken(acl, trace, log)
  {
    LeaderIsRun(acl, trace, log);
    var changes := Flat(trace, log);
    if Overtaken(acl, trace, log) {
      forall p ensures Look(Run(acl, changes).table, p) == Look(Run(acl, log).table, p) {
        LookConverges(acl, trace, log, p);
      }
      SameTable(Run(acl, changes).table, Run(acl, log).table);
    } else {
      var p, j :| IsLastTouch(changes, p, j) && j >= 0 && Unlogged(trace[j], log)
                  && Look(Run(acl, log).table, p) != Some(log[trace[j].entry].text);
      RunLook(acl, changes, p, j);
    }
  }

  /** With operation codes 0 and 1 that is always so. */
  lemma TablesConverge(acl: Acl, trace: seq<Event>, log: seq<Change>)
    requires Interleaving(trace, log)
    requires forall i :: 0 <= i < |log| ==> log[i].code <= 1
    ensures Leader(acl, trace, log).table == Run(acl, log).table
  {
    TablesConvergeIff(acl, trace, log);
  }

  lemma SameTable(s: Table, t: Table)
    requires forall p :: Look(s, p) == Look(t, p)
    ensures s == t
  {
    forall p ensures p in s <==> p in t { assert Look(s, p) == Look(t, p); }
    forall p | p in s ensures s[p] == t[p] { assert Look(s, p) == Look(t, p); }
  }

  lemma FlatSpelling(acl: Acl, trace: seq<Event>, log: seq<Change>)
    requires Entries(trace, log) && OneSpelling(acl, log)
    ensures OneSpelling(acl, Flat(trace, log))
  {
    var changes := Flat(trace, log);
    forall i, j {:trigger SameSpelling(changes[i].text, changes[j].text)} | 0 <= i < |changes| && 0 <= j < |changes|
      ensures SameSpelling(changes[i].text, changes[j].text)
    {
      assert SameSpelling(log[trace[i].entry].text, log[trace[j].entry].text);
    }
    forall i, t {:trigger SameSpelling(changes[i].text, t)} | 0 <= i < |changes| && t in acl.record
      ensures SameSpelling(changes[i].text, t)
    {
      assert SameSpelling(log[trace[i].entry].text, t);
    }
  }

  /** With one spelling per network the records agree under the same condition. */
  lemma ReplicasConverge(acl: Acl, trace: seq<Event>, log: seq<Change>)
    requires Interleaving(trace, log) && Tied(acl) && OneSpelling(acl, log)
    ensures Leader(acl, trace, log) == Run(acl, log) <==> Overtaken(acl, trace, log)
    ensures Tied(Leader(acl, trace, log)) && Tied(Run(acl, log))
  {
    TablesConvergeIff(acl, trace, log);
    LeaderIsRun(acl, trace, log);
    FlatSpelling(acl, trace, log);
    RunTied(acl, Flat(trace, log));
    RunTied(acl, log);
    if Overtaken(acl, trace, log) { TiedRecord(Run(acl, Flat(trace, log)), Run(acl, log)); }
  }

  /** One change, made and then applied on the leader, applied on a follower: the two agree exactly
      when its code is 0 or 1, or it could not be added, or the list already had it. */
  lemma OtherCodesDiverge(acl: Acl, c: Change)
    ensures Leader(acl, [Local(0), Replay(0)], [c]) == Run(acl, [c]) <==>
            c.code <= 1 || !ToAdd(c.text).Rule? || Added(acl, c.text) == acl
  {
    var trace := [Local(0), Replay(0)];
    assert trace[..1] == [Local(0)] && [Local(0)][..0] == [];
    assert Leader(acl, [Local(0)], [c]) == Handled(acl, c);
    assert Leader(acl, trace, [c]) == Applied(Handled(acl, c), c);
    assert [c][..0] == [] && Run(acl, [c]) == Applied(acl, c);
    if c.code <= 1 { AppliedTwice(acl, c); }
  }

  lemma AppliedTwice(acl: Acl, c: Change)
    requires c.code <= 1
    ensures Applied(Applied(acl, c), c) == Applied(acl, c)
  {
  }
}
