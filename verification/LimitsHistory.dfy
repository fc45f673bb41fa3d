/** Whole histories of the route and limiter tables: log entries, visits and restarts from a snapshot, in any order. */
module LimitsHistory {
  import opened Text
  import opened Limits

  datatype Command =
    | Open(location: Location)              // a logged new proxy
    | Close(pattern: string)                // a logged removal
    | Limit(info: LimiterInfo)              // a logged limiter
    | Visit(pattern: string, path: string)  // a request for a path of the pattern
    | Restart(afresh: bool)                 // snapshot and restore, in a new process or in the old one

  ghost function Step(parse: Parse, t: Tables, c: Command): Tables {
    match c
    case Open(l) => if l.pattern !in t.methods && Builds(parse, l) then Opened(t, l) else t
    case Close(p) => if p in t.methods then Removed(t, p) else t
    case Limit(info) => if info.prefix in t.methods then Limited(t, info.prefix, info) else t
    case Visit(p, path) => if p in t.methods then Visited(t, p, path) else t
    case Restart(afresh) => Restored(parse, t, if afresh then {} else t.routes)
  }

  ghost function Run(parse: Parse, t: Tables, cs: seq<Command>): Tables {
    if cs == [] then t else Step(parse, Run(parse, t, cs[..|cs| - 1]), cs[|cs| - 1])
  }

  /** No pattern is opened that an earlier proxy left limiter entries for. */
  ghost predicate CleanStep(parse: Parse, t: Tables, c: Command) {
    c.Open? && c.location.pattern !in t.methods && Builds(parse, c.location) ==> Entries(t.limiters, c.location.pattern) == []
  }

  ghost predicate Clean(parse: Parse, t: Tables, cs: seq<Command>) {
    cs == [] || (Clean(parse, t, cs[..|cs| - 1]) && CleanStep(parse, Run(parse, t, cs[..|cs| - 1]), cs[|cs| - 1]))
  }

  lemma StepKept(parse: Parse, t: Tables, c: Command)
    requires Kept(parse, t)
    ensures Kept(parse, Step(parse, t, c))
  {
    match c
    case Open(l) => if Builds(parse, l) { OpenedTied(parse, t, l); }
    case Close(p) => RemovedKeeps(parse, t, p);
    case Limit(info) => if info.prefix in t.methods { LimitedKept(parse, t, info.prefix, info); }
    case Visit(p, path) => if p in t.methods { LimitedKept(parse, t, p, DefaultInfo(path)); }
    case Restart(_) =>
      RestoredKeeps(parse, t, t.routes);
      RestoredKeeps(parse, t, {});
      forall p | p in t.routes ensures p in t.locations { assert KeptAt(parse, t, p); }
  }

  /** A step keeps the settings tied to the entries exactly when it is clean; a restart ties them in any case. */
  lemma StepTied(parse: Parse, t: Tables, c: Command)
    requires Kept(parse, t)
    ensures Tied(t) ==> (Tied(Step(parse, t, c)) <==> CleanStep(parse, t, c))
    ensures c.Restart? ==> Tied(Step(parse, t, c))
  {
    match c
    case Open(l) => if Builds(parse, l) { OpenedTied(parse, t, l); }
    case Close(p) => RemovedKeeps(parse, t, p);
    case Limit(info) => if Tied(t) && info.prefix in t.methods { LimitedTied(t, info.prefix, info); }
    case Visit(p, path) => if Tied(t) && p in t.methods { LimitedTied(t, p, DefaultInfo(path)); }
    case Restart(_) =>
      RestoredKeeps(parse, t, t.routes);
      RestoredKeeps(parse, t, {});
  }

  /** The patterns of relations, locations and router agree after every history. */
  lemma {:induction false} RunKept(parse: Parse, t: Tables, cs: seq<Command>)
    requires Kept(parse, t)
    ensures Kept(parse, Run(parse, t, cs))
  {
    if cs != [] {
      var n := |cs| - 1;
      RunKept(parse, t, cs[..n]);
      StepKept(parse, Run(parse, t, cs[..n]), cs[n]);
    }
  }

  lemma {:induction false} RunTied(parse: Parse, t: Tables, cs: seq<Command>)
    requires Kept(parse, t) && Tied(t) && Clean(parse, t, cs)
    ensures Tied(Run(parse, t, cs))
  {
    if cs != [] {
      var n := |cs| - 1;
      RunTied(parse, t, cs[..n]);
      RunKept(parse, t, cs[..n]);
      StepTied(parse, Run(parse, t, cs[..n]), cs[n]);
    }
  }

  // ---- restarts cannot be noticed

  ghost predicate SameAt(t: Tables, u: Tables, p: string) {
    Replay(map[], Entries(t.limiters, p)) == Replay(map[], Entries(u.limiters, p))
  }

  /** The same settings, locations and routes, from entries that read the same. */
  ghost predicate Same(t: Tables, u: Tables) {
    && t.locations == u.locations && t.methods == u.methods && t.routes == u.routes
    && forall p {:trigger SameAt(t, u, p)} :: SameAt(t, u, p)
  }

  lemma LimitedReads(t: Tables, p: string, info: LimiterInfo, q: string)
    requires p in t.methods && SettingOf(info).Some?
    ensures Replay(map[], Entries(Limited(t, p, info).limiters, q)) ==
            if q == p then Put(Replay(map[], Entries(t.limiters, p)), info) else Replay(map[], Entries(t.limiters, q))
  {
    ReplaySnoc(map[], Entries(t.limiters, p), info);
  }

  lemma LimitedSame(t: Tables, u: Tables, p: string, info: LimiterInfo)
    requires Same(t, u) && p in t.methods
    ensures Same(Limited(t, p, info), Limited(u, p, info))
  {
    if SettingOf(info).Some? {
      forall q ensures SameAt(Limited(t, p, info), Limited(u, p, info), q) {
        assert SameAt(t, u, q) && SameAt(t, u, p);
        LimitedReads(t, p, info, q);
        LimitedReads(u, p, info, q);
      }
    }
  }

  lemma StepSame(parse: Parse, t: Tables, u: Tables, c: Command)
    requires Same(t, u) && !c.Restart?
    ensures Same(Step(parse, t, c), Step(parse, u, c))
  {
    match c
    case Open(l) => forall q ensures SameAt(Step(parse, t, c), Step(parse, u, c), q) { assert SameAt(t, u, q); }
    case Close(p) => forall q ensures SameAt(Step(parse, t, c), Step(parse, u, c), q) { assert SameAt(t, u, q); }
    case Limit(info) => if info.prefix in t.methods { LimitedSame(t, u, info.prefix, info); }
    case Visit(p, path) => if p in t.methods { LimitedSame(t, u, p, DefaultInfo(path)); }
  }

  lemma RestartSame(parse: Parse, t: Tables, u: Tables, afresh: bool)
    requires Same(t, u) && Kept(parse, t) && Tied(t)
    ensures Same(Step(parse, t, Restart(afresh)), u)
  {
    var r := Step(parse, t, Restart(afresh));
    RestoreIffTied(parse, t, if afresh then {} else t.routes);
    forall p ensures p in r.routes <==> p in t.routes { assert KeptAt(parse, t, p); }
    forall p ensures SameAt(r, u, p) {
      assert SameAt(t, u, p);
      ReplayTwice(map[], Entries(t.limiters, p));
    }
  }

  ghost function WithoutRestarts(cs: seq<Command>): seq<Command> {
    if cs == [] then []
    else
      var n := |cs| - 1;
      if cs[n].Restart? then WithoutRestarts(cs[..n]) else WithoutRestarts(cs[..n]) + [cs[n]]
  }

  /** Any number of restarts at any points of a clean history leaves the same settings, locations and routes
      as the history without them. */
  lemma {:induction false} RestartsAreInvisible(parse: Parse, t: Tables, cs: seq<Command>)
    requires Kept(parse, t) && Tied(t) && Clean(parse, t, cs)
    ensures Same(Run(parse, t, cs), Run(parse, t, WithoutRestarts(cs)))
  {
    if cs != [] {
      var n := |cs| - 1;
      RestartsAreInvisible(parse, t, cs[..n]);
      var before := Run(parse, t, cs[..n]);
      var plain := WithoutRestarts(cs[..n]);
      RunKept(parse, t, cs[..n]);
      RunTied(parse, t, cs[..n]);
      if cs[n].Restart? {
        RestartSame(parse, before, Run(parse, t, plain), cs[n].afresh);
      } else {
        assert (plain + [cs[n]])[..|plain|] == plain;
        StepSame(parse, before, Run(parse, t, plain), cs[n]);
      }
    }
  }

  /** Removing a proxy and adding it again loses its settings; a restart brings them back. */
  lemma ReopenedThenRestarted(parse: Parse, t: Tables, l: Location)
    requires Kept(parse, t) && Tied(t) && l.pattern in t.methods && Builds(parse, l)
    ensures var a := Step(parse, Step(parse, t, Close(l.pattern)), Open(l));
            && a.methods == t.methods[l.pattern := map[]]
            && l.pattern in Step(parse, a, Restart(true)).methods
            && Step(parse, a, Restart(true)).methods[l.pattern] == t.methods[l.pattern]
  {
    assert TiedAt(t, l.pattern) && KeptAt(parse, t, l.pattern);
    var a := Step(parse, Step(parse, t, Close(l.pattern)), Open(l));
    assert l.pattern in a.locations && a.locations[l.pattern] == l && a.limiters == t.limiters;
  }

  // ---- leader and follower

  /** The leader sets a limiter when the log entry commits, and once more in its own handler afterwards. */
  datatype Event = Logged(entry: nat) | Again(entry: nat)

  ghost predicate Repeated(trace: seq<Event>, i: nat) {
    exists j, k :: 0 <= j < k < |trace| && trace[j] == Logged(i) && trace[k] == Again(i)
  }

  ghost predicate Trace(trace: seq<Event>, log: seq<LimiterInfo>) {
    && (forall j :: 0 <= j < |trace| ==> trace[j].entry < |log|)
    && (forall i: nat :: i < |log| ==> Repeated(trace, i))
    && (forall j, k :: 0 <= j < k < |trace| && trace[j].Logged? && trace[k].Logged? ==> trace[j].entry < trace[k].entry)
  }

  /** The leader's handlers finish in the order of the log. */
  ghost predicate InOrder(trace: seq<Event>) {
    forall j, k :: 0 <= j < k < |trace| && trace[j].Again? && trace[k].Again? ==> trace[j].entry < trace[k].entry
  }

  ghost function Flat(trace: seq<Event>, log: seq<LimiterInfo>): (list: seq<LimiterInfo>)
    requires forall j :: 0 <= j < |trace| ==> trace[j].entry < |log|
    ensures |list| == |trace| && forall j :: 0 <= j < |trace| ==> list[j] == log[trace[j].entry]
  {
    seq(|trace|, (j: int) requires 0 <= j < |trace| => log[trace[j].entry])
  }

  /** The last usable entries for a path, if any, give the same setting. */
  ghost predicate EndsAlike(list: seq<LimiterInfo>, log: seq<LimiterInfo>, path: string) {
    forall j, i {:trigger IsLast(list, path, j), IsLast(log, path, i)} :: IsLast(list, path, j) && IsLast(log, path, i) ==>
      (j < 0 <==> i < 0) && (j >= 0 ==> SettingOf(list[j]) == SettingOf(log[i]))
  }

  /** The leader's events and the log's entries are for the same paths. */
  lemma UsableOnBoth(trace: seq<Event>, log: seq<LimiterInfo>, path: string, j: int, i: int)
    requires Trace(trace, log) && IsLast(Flat(trace, log), path, j) && IsLast(log, path, i)
    ensures j < 0 <==> i < 0
  {
    if i >= 0 {
      assert Repeated(trace, i);
      var first, k :| 0 <= first < k < |trace| && trace[first] == Logged(i) && trace[k] == Again(i);
      assert Flat(trace, log)[k] == log[i];
    }
    if j >= 0 { assert Flat(trace, log)[j] == log[trace[j].entry]; }
  }

  lemma LookAlike(m: Methods, trace: seq<Event>, log: seq<LimiterInfo>, path: string)
    requires Trace(trace, log)
    ensures Look(Replay(m, Flat(trace, log)), path) == Look(Replay(m, log), path) <==> EndsAlike(Flat(trace, log), log, path)
  {
    var list := Flat(trace, log);
    var j := LastOf(list, path);
    var i := LastOf(log, path);
    LastEntryWins(m, list, path, j);
    LastEntryWins(m, log, path, i);
    UsableOnBoth(trace, log, path, j, i);
  }

  /** Whatever the order in which the leader's handlers finish, it has a follower's settings exactly when for each
      path the last event that was usable repeats the setting of the last usable entry. */
  lemma LimitersConvergeIff(m: Methods, trace: seq<Event>, log: seq<LimiterInfo>)
    requires Trace(trace, log)
    ensures Replay(m, Flat(trace, log)) == Replay(m, log) <==> forall path :: EndsAlike(Flat(trace, log), log, path)
  {
    var list := Flat(trace, log);
    forall path ensures Look(Replay(m, list), path) == Look(Replay(m, log), path) <==> EndsAlike(list, log, path) {
      LookAlike(m, trace, log, path);
    }
    if forall path :: EndsAlike(list, log, path) { SameMethods(Replay(m, list), Replay(m, log)); }
  }

  lemma LastOnLeader(trace: seq<Event>, log: seq<LimiterInfo>, path: string, i: int) returns (k: int)
    requires Trace(trace, log) && InOrder(trace) && IsLast(log, path, i)
    ensures IsLast(Flat(trace, log), path, k)
    ensures (k < 0 <==> i < 0) && (k >= 0 ==> Flat(trace, log)[k] == log[i])
  {
    k := -1;
    if i >= 0 {
      assert Repeated(trace, i);
      var first: int;
      first, k :| 0 <= first < k < |trace| && trace[first] == Logged(i) && trace[k] == Again(i);
    }
  }

  lemma LastIsOne(list: seq<LimiterInfo>, path: string, j: int, k: int)
    requires IsLast(list, path, j) && IsLast(list, path, k)
    ensures j == k
  {
  }

  /** Handlers that finish in log order leave the leader with the settings of a follower. */
  lemma LimitersConverge(m: Methods, trace: seq<Event>, log: seq<LimiterInfo>)
    requires Trace(trace, log) && InOrder(trace)
    ensures Replay(m, Flat(trace, log)) == Replay(m, log)
  {
    LimitersConvergeIff(m, trace, log);
    forall path ensures EndsAlike(Flat(trace, log), log, path) {
      forall j, i | IsLast(Flat(trace, log), path, j) && IsLast(log, path, i)
        ensures (j < 0 <==> i < 0) && (j >= 0 ==> SettingOf(Flat(trace, log)[j]) == SettingOf(log[i]))
      {
        var k := LastOnLeader(trace, log, path, i);
        LastIsOne(Flat(trace, log), path, j, k);
      }
    }
  }

  /** Two handlers that finish the other way round leave it with the earlier setting: leader and follower then
      agree exactly when the entries are for different paths, are the same setting, or one of them fails. */
  lemma OvertakenHandler(m: Methods, a: LimiterInfo, b: LimiterInfo)
    ensures var trace := [Logged(0), Logged(1), Again(1), Again(0)];
            Trace(trace, [a, b]) &&
            (Replay(m, Flat(trace, [a, b])) == Replay(m, [a, b]) <==>
             a.pathName != b.pathName || SettingOf(a) == None || SettingOf(b) == None || SettingOf(a) == SettingOf(b))
  {
    var trace := [Logged(0), Logged(1), Again(1), Again(0)];
    assert trace[0] == Logged(0) && trace[1] == Logged(1) && trace[2] == Again(1) && trace[3] == Again(0);
    assert Repeated(trace, 0) && Repeated(trace, 1);
    assert Flat(trace, [a, b]) == [a, b, b, a];
    LimitersConvergeIff(m, trace, [a, b]);
    OvertakenEnds(a, b);
  }

  lemma OvertakenEnds(a: LimiterInfo, b: LimiterInfo)
    ensures (forall path :: EndsAlike([a, b, b, a], [a, b], path)) <==>
            a.pathName != b.pathName || SettingOf(a) == None || SettingOf(b) == None || SettingOf(a) == SettingOf(b)
  {
    var list, log := [a, b, b, a], [a, b];
    if a.pathName != b.pathName || SettingOf(a) == None || SettingOf(b) == None || SettingOf(a) == SettingOf(b) {
      forall path, j, i | IsLast(list, path, j) && IsLast(log, path, i)
        ensures (j < 0 <==> i < 0) && (j >= 0 ==> SettingOf(list[j]) == SettingOf(log[i]))
      {
        assert list[3] == a && list[2] == b && list[1] == b && list[0] == a && log[0] == a && log[1] == b;
      }
    } else {
      assert IsLast(list, a.pathName, 3) && IsLast(log, a.pathName, 1);
      assert !EndsAlike(list, log, a.pathName);
    }
  }
}
