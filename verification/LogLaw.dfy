/** What a log of entries comes to, read off its bytes: which patterns are open, with what location, hosts and
    settings, what is recorded of limiters, and what the access control list has been through. */
module LogLaw {
  import opened Text
  import opened LogEntry
  import opened Limits
  import opened Acl
  import opened TrieRules
  import opened StateMachine

  const START := System(NO_TABLES, map[], Summary(EMPTY, 0))

  // ---- one entry

  ghost predicate Coded(bytes: seq<Byte>, code: Byte) {
    |bytes| >= 2 && bytes[0] == 0 && bytes[1] == code
  }

  /** Every target parses, and the algorithm is one of two. */
  ghost predicate Makes(parse: Parse, l: Location) {
    && (forall i :: 0 <= i < |l.proxyPass| ==> parse(l.proxyPass[i]) != None)
    && (l.balanceMode == "consistence-hash" || l.balanceMode == "round-robin")
  }

  /** The location that an entry can open. */
  ghost function Opening(c: Codec, parse: Parse, bytes: seq<Byte>): Option<Location> {
    if Coded(bytes, 1) && c.toLocation(bytes[2..]).Some? && Makes(parse, c.toLocation(bytes[2..]).value) then c.toLocation(bytes[2..])
    else None
  }

  /** The limiter that an entry sets. */
  ghost function Limiting(c: Codec, bytes: seq<Byte>): Option<LimiterInfo> {
    if Coded(bytes, 2) && c.toInfo(bytes[2..]).Some? && c.toInfo(bytes[2..]).value.limiterType == "qps" then c.toInfo(bytes[2..])
    else None
  }

  /** The change of the access control list. */
  ghost function Changing(c: Codec, bytes: seq<Byte>): Option<Change> {
    if Coded(bytes, 3) then c.toChange(bytes[2..]) else None
  }

  /** The pattern that an entry removes. */
  ghost function Removing(c: Codec, bytes: seq<Byte>): Option<string> {
    if Coded(bytes, 4) then Some(c.toText(bytes[2..])) else None
  }

  /** The host that an entry takes from a pattern. */
  ghost function Leaving(c: Codec, bytes: seq<Byte>): Option<HostLog> {
    if Coded(bytes, 5) then c.toHost(bytes[2..]) else None
  }

  /** The host that an entry adds to a pattern, as its target is parsed. */
  ghost function Joining(c: Codec, parse: Parse, bytes: seq<Byte>): Option<HostLog> {
    if Coded(bytes, 6) && c.toHost(bytes[2..]).Some? && parse(c.toHost(bytes[2..]).value.host).Some?
    then Some(HostLog(c.toHost(bytes[2..]).value.pattern, parse(c.toHost(bytes[2..]).value.host).value))
    else None
  }

  ghost predicate Opens(c: Codec, parse: Parse, bytes: seq<Byte>, p: string) {
    Opening(c, parse, bytes).Some? && Opening(c, parse, bytes).value.pattern == p
  }

  ghost predicate Sets(c: Codec, bytes: seq<Byte>, p: string, path: string) {
    Limiting(c, bytes).Some? && Limiting(c, bytes).value.prefix == p && Limiting(c, bytes).value.pathName == path
  }

  /** What is kept for a pattern. */
  datatype Service = Service(location: Location, methods: Methods, hosts: set<string>)

  ghost function ServiceAt(s: System, p: string): Option<Service> {
    if p in s.tables.locations && p in s.tables.methods && p in s.hosts
    then Some(Service(s.tables.locations[p], s.tables.methods[p], s.hosts[p])) else None
  }

  lemma CodeIsRead(bytes: seq<Byte>, code: Byte)
    ensures Coded(bytes, code) <==> Read(bytes).Some? && Read(bytes).value.opt == code
    ensures Read(bytes).Some? ==> Read(bytes).value.data == bytes[2..]
  {
  }

  /** When an entry is survived, and what it does to the list. */
  lemma EntrySurvived(c: Codec, parse: Parse, s: System, bytes: seq<Byte>)
    requires SystemKept(parse, s)
    ensures Execute(c, parse, s, bytes).Some? <==>
            && |bytes| >= 2
            && (Leaving(c, bytes).Some? ==> ServiceAt(s, Leaving(c, bytes).value.pattern).Some?)
            && (Changing(c, bytes).Some? ==> SafeChange(s.list, Changing(c, bytes).value))
    ensures Execute(c, parse, s, bytes).Some? ==>
            Execute(c, parse, s, bytes).value.list == if Changing(c, bytes).Some? then Next(s.list, Changing(c, bytes).value) else s.list
  {
    CodeIsRead(bytes, 3);
    CodeIsRead(bytes, 5);
    if Leaving(c, bytes).Some? { assert KeptAt(parse, s.tables, Leaving(c, bytes).value.pattern); }
  }

  /** What an entry does to a pattern: it opens it unless it is open, removes it, or changes what is kept for it. */
  ghost predicate StepAt(c: Codec, parse: Parse, before: Option<Service>, bytes: seq<Byte>, after: Option<Service>, p: string) {
    && (before.None? ==>
          after == if Opens(c, parse, bytes, p) then Some(Service(Opening(c, parse, bytes).value, map[], HostsOf(parse, Opening(c, parse, bytes).value)))
                   else None)
    && (before.Some? ==>
          && (after.None? <==> Removing(c, bytes) == Some(p))
          && (after.Some? ==>
                && after.value.location == before.value.location
                && after.value.methods ==
                   (if Limiting(c, bytes).Some? && Limiting(c, bytes).value.prefix == p
                    then before.value.methods[Limiting(c, bytes).value.pathName := SettingOf(Limiting(c, bytes).value).value]
                    else before.value.methods)
                && forall h {:trigger h in after.value.hosts} {:trigger h in before.value.hosts} :: h in after.value.hosts <==>
                    (h in before.value.hosts && Leaving(c, bytes) != Some(HostLog(p, h))) || Joining(c, parse, bytes) == Some(HostLog(p, h))))
  }

  lemma EntryAt(c: Codec, parse: Parse, s: System, bytes: seq<Byte>, t: System, p: string)
    requires SystemKept(parse, s) && Execute(c, parse, s, bytes) == Some(t)
    ensures StepAt(c, parse, ServiceAt(s, p), bytes, ServiceAt(t, p), p)
  {
    forall code: Byte ensures Coded(bytes, code) <==> Read(bytes).value.opt == code { CodeIsRead(bytes, code); }
    assert KeptAt(parse, s.tables, p);
  }

  lemma EntryRecorded(c: Codec, parse: Parse, s: System, bytes: seq<Byte>, t: System, p: string)
    requires SystemKept(parse, s) && Execute(c, parse, s, bytes) == Some(t)
    ensures Entries(t.tables.limiters, p) ==
            Entries(s.tables.limiters, p) + if Limiting(c, bytes).Some? && Limiting(c, bytes).value.prefix == p && ServiceAt(s, p).Some?
                                            then [Limiting(c, bytes).value] else []
  {
    forall code: Byte ensures Coded(bytes, code) <==> Read(bytes).value.opt == code { CodeIsRead(bytes, code); }
    assert KeptAt(parse, s.tables, p);
  }

  // ---- a whole log

  ghost predicate NotRemoved(c: Codec, log: seq<seq<Byte>>, p: string, from: int) {
    forall j {:trigger log[j]} :: from < j < |log| && 0 <= j ==> Removing(c, log[j]) != Some(p)
  }

  /** Some entry opens the pattern and none after it removes it. */
  ghost predicate IsOpen(c: Codec, parse: Parse, log: seq<seq<Byte>>, p: string) {
    exists i {:trigger log[i]} :: 0 <= i < |log| && Opens(c, parse, log[i], p) && NotRemoved(c, log, p, i)
  }

  /** Entry `i` opens the pattern, which was not open, and none after it removes it. */
  ghost predicate OpenedAt(c: Codec, parse: Parse, log: seq<seq<Byte>>, p: string, i: int) {
    0 <= i < |log| && Opens(c, parse, log[i], p) && !IsOpen(c, parse, log[..i], p) && NotRemoved(c, log, p, i)
  }

  lemma NotRemovedSnoc(c: Codec, log: seq<seq<Byte>>, last: seq<Byte>, p: string, from: int)
    requires from < |log|
    ensures NotRemoved(c, log + [last], p, from) <==> NotRemoved(c, log, p, from) && Removing(c, last) != Some(p)
  {
    assert (log + [last])[|log|] == last;
    if NotRemoved(c, log + [last], p, from) {
      forall j | from < j < |log| && 0 <= j ensures Removing(c, log[j]) != Some(p) { assert (log + [last])[j] == log[j]; }
    }
  }

  lemma OpenSnoc(c: Codec, parse: Parse, log: seq<seq<Byte>>, last: seq<Byte>, p: string)
    ensures IsOpen(c, parse, log + [last], p) <==>
            Opens(c, parse, last, p) || (IsOpen(c, parse, log, p) && Removing(c, last) != Some(p))
  {
    var longer := log + [last];
    assert longer[|log|] == last;
    if IsOpen(c, parse, longer, p) {
      var i :| 0 <= i < |longer| && Opens(c, parse, longer[i], p) && NotRemoved(c, longer, p, i);
      if i < |log| {
        NotRemovedSnoc(c, log, last, p, i);
        assert longer[i] == log[i];
      }
    }
    if IsOpen(c, parse, log, p) && Removing(c, last) != Some(p) {
      var i :| 0 <= i < |log| && Opens(c, parse, log[i], p) && NotRemoved(c, log, p, i);
      NotRemovedSnoc(c, log, last, p, i);
      assert longer[i] == log[i];
    }
  }

  lemma OpenedSnoc(c: Codec, parse: Parse, log: seq<seq<Byte>>, last: seq<Byte>, p: string, i: int)
    ensures OpenedAt(c, parse, log + [last], p, i) <==>
            if i == |log| then Opens(c, parse, last, p) && !IsOpen(c, parse, log, p)
            else OpenedAt(c, parse, log, p, i) && Removing(c, last) != Some(p)
  {
    var longer := log + [last];
    if i == |log| {
      assert longer[..i] == log;
    } else if 0 <= i < |log| {
      assert longer[..i] == log[..i];
      NotRemovedSnoc(c, log, last, p, i);
    }
  }

  /** In the state that a log leads to, a pattern has a proxy, a location, a route and hosts exactly when the last entry
      that opens or removes it opens it. */
  lemma {:induction false} OpenLaw(c: Codec, parse: Parse, log: seq<seq<Byte>>, t: System, p: string)
    requires ExecuteAll(c, parse, START, log) == Some(t)
    ensures SystemKept(parse, t)
    ensures p in t.tables.methods <==> IsOpen(c, parse, log, p)
    ensures p in t.tables.locations <==> IsOpen(c, parse, log, p)
    ensures p in t.tables.routes <==> IsOpen(c, parse, log, p)
    ensures p in t.hosts <==> IsOpen(c, parse, log, p)
    ensures ServiceAt(t, p).Some? <==> IsOpen(c, parse, log, p)
    decreases |log|
  {
    LogKept(c, parse, START, log);
    assert KeptAt(parse, t.tables, p);
    if log != [] {
      var n := |log| - 1;
      var s := ExecuteAll(c, parse, START, log[..n]).value;
      OpenLaw(c, parse, log[..n], s, p);
      EntryAt(c, parse, s, log[n], t, p);
      OpenSnoc(c, parse, log[..n], log[n], p);
      LastApart(log);
    }
  }

  /** An open pattern was opened for good at one entry. */
  lemma {:induction false} Opener(c: Codec, parse: Parse, log: seq<seq<Byte>>, p: string) returns (i: int)
    requires IsOpen(c, parse, log, p)
    ensures OpenedAt(c, parse, log, p, i)
    decreases |log|
  {
    var n := |log| - 1;
    LastApart(log);
    OpenSnoc(c, parse, log[..n], log[n], p);
    if IsOpen(c, parse, log[..n], p) && Removing(c, log[n]) != Some(p) {
      i := Opener(c, parse, log[..n], p);
    } else {
      i := n;
    }
    OpenedSnoc(c, parse, log[..n], log[n], p, i);
  }

  lemma OpenedIsOpen(c: Codec, parse: Parse, log: seq<seq<Byte>>, p: string, i: int)
    requires OpenedAt(c, parse, log, p, i)
    ensures IsOpen(c, parse, log, p)
  {
    assert Opens(c, parse, log[i], p);
  }

  /** The state before the last entry, and what the entry did to the pattern. */
  lemma Before(c: Codec, parse: Parse, log: seq<seq<Byte>>, t: System, p: string) returns (s: System)
    requires ExecuteAll(c, parse, START, log) == Some(t) && log != []
    ensures ExecuteAll(c, parse, START, log[..|log| - 1]) == Some(s)
    ensures StepAt(c, parse, ServiceAt(s, p), log[|log| - 1], ServiceAt(t, p), p)
    ensures ServiceAt(t, p).Some? <==> IsOpen(c, parse, log, p)
    ensures ServiceAt(s, p).Some? <==> IsOpen(c, parse, log[..|log| - 1], p)
    ensures log == log[..|log| - 1] + [log[|log| - 1]]
  {
    s := ExecuteAll(c, parse, START, log[..|log| - 1]).value;
    OpenLaw(c, parse, log, t, p);
    OpenLaw(c, parse, log[..|log| - 1], s, p);
    EntryAt(c, parse, s, log[|log| - 1], t, p);
    LastApart(log);
  }

  /** Its location is that of the first opening since the last removal: openings of an open pattern do nothing. */
  lemma {:induction false} LocationLaw(c: Codec, parse: Parse, log: seq<seq<Byte>>, t: System, p: string, i: int)
    requires ExecuteAll(c, parse, START, log) == Some(t) && OpenedAt(c, parse, log, p, i)
    ensures p in t.tables.locations && Some(t.tables.locations[p]) == Opening(c, parse, log[i])
    ensures ServiceAt(t, p).Some? && Some(ServiceAt(t, p).value.location) == Opening(c, parse, log[i])
    decreases |log|
  {
    var n := |log| - 1;
    OpenedIsOpen(c, parse, log, p, i);
    var s := Before(c, parse, log, t, p);
    OpenedSnoc(c, parse, log[..n], log[n], p, i);
    if i < n {
      LocationLaw(c, parse, log[..n], s, p, i);
    }
  }

  // ---- hosts

  /** A target of the location names the host. */
  ghost predicate Names(parse: Parse, l: Location, h: string) {
    exists k :: 0 <= k < |l.proxyPass| && parse(l.proxyPass[k]) == Some(h)
  }

  /** Entry `j` brings the host to the pattern that entry `i` opened. */
  ghost predicate Brings(c: Codec, parse: Parse, log: seq<seq<Byte>>, p: string, i: int, j: int, h: string) {
    && 0 <= i <= j < |log|
    && if j == i then Opening(c, parse, log[i]).Some? && Names(parse, Opening(c, parse, log[i]).value, h)
       else Joining(c, parse, log[j]) == Some(HostLog(p, h))
  }

  ghost predicate NotTaken(c: Codec, log: seq<seq<Byte>>, p: string, h: string, from: int) {
    forall k {:trigger log[k]} :: from < k < |log| && 0 <= k ==> Leaving(c, log[k]) != Some(HostLog(p, h))
  }

  /** It was brought by the opening entry or by one after it, and not taken since. */
  ghost predicate Held(c: Codec, parse: Parse, log: seq<seq<Byte>>, p: string, i: int, h: string) {
    exists j {:trigger Brings(c, parse, log, p, i, j, h)} :: Brings(c, parse, log, p, i, j, h) && NotTaken(c, log, p, h, j)
  }

  lemma NotTakenSnoc(c: Codec, log: seq<seq<Byte>>, last: seq<Byte>, p: string, h: string, from: int)
    requires from < |log|
    ensures NotTaken(c, log + [last], p, h, from) <==> NotTaken(c, log, p, h, from) && Leaving(c, last) != Some(HostLog(p, h))
  {
    assert (log + [last])[|log|] == last;
    if NotTaken(c, log + [last], p, h, from) {
      forall k | from < k < |log| && 0 <= k ensures Leaving(c, log[k]) != Some(HostLog(p, h)) { assert (log + [last])[k] == log[k]; }
    }
  }

  lemma BringsSnoc(c: Codec, parse: Parse, log: seq<seq<Byte>>, last: seq<Byte>, p: string, i: int, j: int, h: string)
    requires 0 <= i < |log|
    ensures Brings(c, parse, log + [last], p, i, j, h) <==>
            if j == |log| then Joining(c, parse, last) == Some(HostLog(p, h)) else Brings(c, parse, log, p, i, j, h)
  {
    assert (log + [last])[|log|] == last && (log + [last])[i] == log[i];
    if i <= j < |log| { assert (log + [last])[j] == log[j]; }
  }

  lemma HeldSnoc(c: Codec, parse: Parse, log: seq<seq<Byte>>, last: seq<Byte>, p: string, i: int, h: string)
    requires 0 <= i < |log|
    ensures Held(c, parse, log + [last], p, i, h) <==>
            Joining(c, parse, last) == Some(HostLog(p, h)) || (Held(c, parse, log, p, i, h) && Leaving(c, last) != Some(HostLog(p, h)))
  {
    var longer := log + [last];
    if Held(c, parse, longer, p, i, h) {
      var j :| Brings(c, parse, longer, p, i, j, h) && NotTaken(c, longer, p, h, j);
      BringsSnoc(c, parse, log, last, p, i, j, h);
      if j < |log| { NotTakenSnoc(c, log, last, p, h, j); }
    }
    if Held(c, parse, log, p, i, h) && Leaving(c, last) != Some(HostLog(p, h)) {
      var j :| Brings(c, parse, log, p, i, j, h) && NotTaken(c, log, p, h, j);
      BringsSnoc(c, parse, log, last, p, i, j, h);
      NotTakenSnoc(c, log, last, p, h, j);
    }
    if Joining(c, parse, last) == Some(HostLog(p, h)) {
      BringsSnoc(c, parse, log, last, p, i, |log|, h);
      assert NotTaken(c, longer, p, h, |log|);
    }
  }

  lemma HeldAtOnce(c: Codec, parse: Parse, log: seq<seq<Byte>>, p: string, i: int, h: string)
    requires 0 <= i == |log| - 1 && Opening(c, parse, log[i]).Some?
    ensures Held(c, parse, log, p, i, h) <==> Names(parse, Opening(c, parse, log[i]).value, h)
  {
    if Held(c, parse, log, p, i, h) {
      var j :| Brings(c, parse, log, p, i, j, h) && NotTaken(c, log, p, h, j);
      assert j == i by { assert Brings(c, parse, log, p, i, j, h); }
    }
    if Names(parse, Opening(c, parse, log[i]).value, h) {
      assert Brings(c, parse, log, p, i, i, h) && NotTaken(c, log, p, h, i);
    }
  }

  /** Its hosts are those of the location it was opened with and those added since, without those taken since. */
  lemma {:induction false} HostsLaw(c: Codec, parse: Parse, log: seq<seq<Byte>>, t: System, p: string, i: int, h: string)
    requires ExecuteAll(c, parse, START, log) == Some(t) && OpenedAt(c, parse, log, p, i)
    ensures p in t.hosts && (h in t.hosts[p] <==> Held(c, parse, log, p, i, h))
    decreases |log|
  {
    var n := |log| - 1;
    OpenedIsOpen(c, parse, log, p, i);
    var s := Before(c, parse, log, t, p);
    OpenedSnoc(c, parse, log[..n], log[n], p, i);
    if i < n {
      HostsLaw(c, parse, log[..n], s, p, i, h);
      HeldSnoc(c, parse, log[..n], log[n], p, i, h);
    } else {
      HeldAtOnce(c, parse, log, p, i, h);
    }
  }

  // ---- settings

  /** Entry `j` is the last usable one for the path since entry `i`; `i` itself if there is none. */
  ghost predicate LastSet(c: Codec, log: seq<seq<Byte>>, p: string, path: string, i: int, j: int) {
    && 0 <= i <= j < |log| && (j > i ==> Sets(c, log[j], p, path))
    && forall k {:trigger log[k]} :: j < k < |log| ==> !Sets(c, log[k], p, path)
  }

  lemma LastSetSnoc(c: Codec, log: seq<seq<Byte>>, last: seq<Byte>, p: string, path: string, i: int, j: int)
    requires 0 <= i < |log| && LastSet(c, log + [last], p, path, i, j)
    ensures if Sets(c, last, p, path) then j == |log| else LastSet(c, log, p, path, i, j)
  {
    var longer := log + [last];
    assert longer[|log|] == last;
    if j < |log| {
      assert longer[j] == log[j];
      forall k | j < k < |log| ensures !Sets(c, log[k], p, path) { assert longer[k] == log[k]; }
    }
  }

  /** A path has a setting exactly when some usable entry since the opening was for it, and it is that of the last. */
  lemma {:induction false} SettingsLaw(c: Codec, parse: Parse, log: seq<seq<Byte>>, t: System, p: string, i: int, path: string, j: int)
    requires ExecuteAll(c, parse, START, log) == Some(t) && OpenedAt(c, parse, log, p, i) && LastSet(c, log, p, path, i, j)
    ensures p in t.tables.methods
    ensures path in t.tables.methods[p] <==> j > i
    ensures j > i ==> IsSettingFor(t.tables.methods[p][path], Limiting(c, log[j]).value)
    decreases |log|
  {
    var n := |log| - 1;
    OpenedIsOpen(c, parse, log, p, i);
    var s := Before(c, parse, log, t, p);
    OpenedSnoc(c, parse, log[..n], log[n], p, i);
    if i < n {
      LastSetSnoc(c, log[..n], log[n], p, path, i, j);
      if j == n {
        SettingReads(Limiting(c, log[n]).value);
      } else {
        SettingsLaw(c, parse, log[..n], s, p, i, path, j);
      }
    }
  }

  /** The entries recorded of a pattern: the usable ones logged while it was open, whoever it was open for. */
  ghost function Recorded(c: Codec, parse: Parse, log: seq<seq<Byte>>, p: string): seq<LimiterInfo> {
    if log == [] then []
    else
      var n := |log| - 1;
      var info := Limiting(c, log[n]);
      Recorded(c, parse, log[..n], p) + if info.Some? && info.value.prefix == p && IsOpen(c, parse, log[..n], p) then [info.value] else []
  }

  lemma {:induction false} RecordLaw(c: Codec, parse: Parse, log: seq<seq<Byte>>, t: System, p: string)
    requires ExecuteAll(c, parse, START, log) == Some(t)
    ensures Entries(t.tables.limiters, p) == Recorded(c, parse, log, p)
    decreases |log|
  {
    if log != [] {
      var n := |log| - 1;
      var s := Before(c, parse, log, t, p);
      LogKept(c, parse, START, log[..n]);
      EntryRecorded(c, parse, s, log[n], t, p);
      RecordLaw(c, parse, log[..n], s, p);
    }
  }

  // ---- what a restart makes of the settings

  /** Those of them logged after entry `i`. */
  ghost function Since(c: Codec, log: seq<seq<Byte>>, p: string, i: nat): seq<LimiterInfo>
    decreases |log|
  {
    if |log| <= i + 1 then []
    else
      var n := |log| - 1;
      var info := Limiting(c, log[n]);
      Since(c, log[..n], p, i) + if info.Some? && info.value.prefix == p then [info.value] else []
  }

  ghost predicate HasPath(list: seq<LimiterInfo>, path: string) {
    exists k :: 0 <= k < |list| && list[k].pathName == path
  }

  ghost predicate SetAfter(c: Codec, log: seq<seq<Byte>>, p: string, path: string, i: int) {
    exists j {:trigger log[j]} :: i < j < |log| && 0 <= j && Sets(c, log[j], p, path)
  }

  lemma HasPathSnoc(list: seq<LimiterInfo>, info: LimiterInfo, path: string)
    ensures HasPath(list + [info], path) <==> HasPath(list, path) || info.pathName == path
  {
    assert (list + [info])[|list|] == info;
    if HasPath(list, path) {
      var k :| 0 <= k < |list| && list[k].pathName == path;
      assert (list + [info])[k] == list[k];
    }
  }

  lemma SetAfterSnoc(c: Codec, log: seq<seq<Byte>>, last: seq<Byte>, p: string, path: string, i: nat)
    requires i < |log|
    ensures SetAfter(c, log + [last], p, path, i) <==> SetAfter(c, log, p, path, i) || Sets(c, last, p, path)
  {
    var longer := log + [last];
    assert longer[|log|] == last;
    if SetAfter(c, log, p, path, i) {
      var j :| i < j < |log| && 0 <= j && Sets(c, log[j], p, path);
      assert longer[j] == log[j];
    }
    if SetAfter(c, longer, p, path, i) && !Sets(c, last, p, path) {
      var j :| i < j < |longer| && 0 <= j && Sets(c, longer[j], p, path);
      assert longer[j] == log[j];
    }
  }

  lemma {:induction false} SinceHas(c: Codec, log: seq<seq<Byte>>, p: string, i: nat, path: string)
    requires i < |log|
    ensures HasPath(Since(c, log, p, i), path) <==> SetAfter(c, log, p, path, i)
    decreases |log|
  {
    if i + 1 < |log| {
      var n := |log| - 1;
      var info := Limiting(c, log[n]);
      LastApart(log);
      SinceHas(c, log[..n], p, i, path);
      SetAfterSnoc(c, log[..n], log[n], p, path, i);
      if info.Some? && info.value.prefix == p {
        HasPathSnoc(Since(c, log[..n], p, i), info.value, path);
      } else {
        assert Since(c, log, p, i) == Since(c, log[..n], p, i);
      }
    }
  }

  /** The settings in force are those of the entries since the opening; what is recorded goes further back. */
  lemma {:induction false} SinceLaw(c: Codec, parse: Parse, log: seq<seq<Byte>>, t: System, p: string, i: int)
    requires ExecuteAll(c, parse, START, log) == Some(t) && OpenedAt(c, parse, log, p, i)
    ensures p in t.tables.methods && t.tables.methods[p] == Replay(map[], Since(c, log, p, i))
    ensures Recorded(c, parse, log, p) == Recorded(c, parse, log[..i], p) + Since(c, log, p, i)
    decreases |log|
  {
    var n := |log| - 1;
    OpenedIsOpen(c, parse, log, p, i);
    var s := Before(c, parse, log, t, p);
    OpenedSnoc(c, parse, log[..n], log[n], p, i);
    if i < n {
      SinceLaw(c, parse, log[..n], s, p, i);
      OpenedIsOpen(c, parse, log[..n], p, i);
      RecordedSince(c, parse, log, p, i);
      SetSince(c, log, p, i, ServiceAt(s, p).value.methods, ServiceAt(t, p).value.methods);
    } else {
      OpensOnly(c, parse, log[n], p);
    }
  }

  lemma RecordedSince(c: Codec, parse: Parse, log: seq<seq<Byte>>, p: string, i: nat)
    requires i < |log| - 1 && IsOpen(c, parse, log[..|log| - 1], p)
    requires var front := log[..|log| - 1];
             Recorded(c, parse, front, p) == Recorded(c, parse, front[..i], p) + Since(c, front, p, i)
    ensures Recorded(c, parse, log, p) == Recorded(c, parse, log[..i], p) + Since(c, log, p, i)
  {
    assert log[..|log| - 1][..i] == log[..i];
  }

  lemma SetSince(c: Codec, log: seq<seq<Byte>>, p: string, i: nat, before: Methods, after: Methods)
    requires i < |log| - 1 && before == Replay(map[], Since(c, log[..|log| - 1], p, i))
    requires var info := Limiting(c, log[|log| - 1]);
             after == if info.Some? && info.value.prefix == p then before[info.value.pathName := SettingOf(info.value).value] else before
    ensures after == Replay(map[], Since(c, log, p, i))
  {
    var info, list := Limiting(c, log[|log| - 1]), Since(c, log[..|log| - 1], p, i);
    if info.Some? && info.value.prefix == p { ReplaySnoc(map[], list, info.value); } else { assert Since(c, log, p, i) == list; }
  }

  lemma OpensOnly(c: Codec, parse: Parse, bytes: seq<Byte>, p: string)
    requires Opens(c, parse, bytes, p)
    ensures Limiting(c, bytes) == None
  {
  }

  lemma LooksAt(list: seq<LimiterInfo>, m: Methods, path: string)
    requires AllKnown(list)
    ensures Look(Replay(m, list), path).Some? <==> HasPath(list, path) || path in m
    ensures HasPath(list, path) ==> Look(Replay(m, list), path) == Look(Replay(map[], list), path)
    ensures !HasPath(list, path) ==> Look(Replay(m, list), path) == Look(m, path)
  {
    var last := LastOf(list, path);
    LastEntryWins(m, list, path, last);
    LastEntryWins(map[], list, path, last);
    if HasPath(list, path) {
      var k :| 0 <= k < |list| && list[k].pathName == path;
      assert SettingOf(list[k]).Some?;
    }
  }

  lemma SameReading(a: seq<LimiterInfo>, b: seq<LimiterInfo>)
    requires AllKnown(a) && AllKnown(b)
    ensures Replay(map[], a + b) == Replay(map[], b) <==> forall path :: HasPath(a, path) ==> HasPath(b, path)
  {
    var m := Replay(map[], a);
    ReplayConcat(map[], a, b);
    forall path ensures Look(Replay(m, b), path) == Look(Replay(map[], b), path) <==> (HasPath(a, path) ==> HasPath(b, path)) {
      LooksAt(a, map[], path);
      LooksAt(b, m, path);
      LooksAt(b, map[], path);
    }
    if forall path :: HasPath(a, path) ==> HasPath(b, path) { SameMethods(Replay(m, b), Replay(map[], b)); }
  }

  lemma KnownPart(a: seq<LimiterInfo>, b: seq<LimiterInfo>)
    requires AllKnown(a + b)
    ensures AllKnown(a) && AllKnown(b)
  {
    forall k | 0 <= k < |a| ensures SettingOf(a[k]).Some? { assert (a + b)[k] == a[k]; }
    forall k | 0 <= k < |b| ensures SettingOf(b[k]).Some? { assert (a + b)[|a| + k] == b[k]; }
  }

  /** After a restart from a snapshot, an open pattern has its settings back exactly when every path that was set for an
      earlier proxy of the pattern has been set for this one too: the settings of removed proxies come back otherwise. */
  lemma RestartLaw(c: Codec, parse: Parse, log: seq<seq<Byte>>, t: System, p: string, i: int, routes: set<string>)
    requires ExecuteAll(c, parse, START, log) == Some(t) && OpenedAt(c, parse, log, p, i)
    ensures var u := Restored(parse, t.tables, routes);
            && p in t.tables.methods && p in u.methods
            && (u.methods[p] == t.tables.methods[p] <==>
                forall path :: HasPath(Recorded(c, parse, log[..i], p), path) ==> SetAfter(c, log, p, path, i))
  {
    OpenLaw(c, parse, log, t, p);
    OpenedIsOpen(c, parse, log, p, i);
    assert KeptAt(parse, t.tables, p);
    RecordLaw(c, parse, log, t, p);
    SinceLaw(c, parse, log, t, p, i);
    var a, b := Recorded(c, parse, log[..i], p), Since(c, log, p, i);
    KnownPart(a, b);
    SameReading(a, b);
    forall path ensures HasPath(b, path) <==> SetAfter(c, log, p, path, i) { SinceHas(c, log, p, i, path); }
  }

  // ---- the list, and survival

  ghost function Changes(c: Codec, log: seq<seq<Byte>>): seq<Change> {
    if log == [] then []
    else
      var n := |log| - 1;
      Changes(c, log[..n]) + if Changing(c, log[n]).Some? then [Changing(c, log[n]).value] else []
  }

  /** The entry can be read, and takes no host from a pattern that is not open. */
  ghost predicate Bearable(c: Codec, parse: Parse, log: seq<seq<Byte>>, n: nat)
    requires n < |log|
  {
    |log[n]| >= 2 && (Leaving(c, log[n]).Some? ==> IsOpen(c, parse, log[..n], Leaving(c, log[n]).value.pattern))
  }

  ghost predicate AllBearable(c: Codec, parse: Parse, log: seq<seq<Byte>>) {
    forall n: nat {:trigger Bearable(c, parse, log, n)} :: n < |log| ==> Bearable(c, parse, log, n)
  }

  lemma BearableSnoc(c: Codec, parse: Parse, log: seq<seq<Byte>>)
    requires log != []
    ensures AllBearable(c, parse, log) <==> AllBearable(c, parse, log[..|log| - 1]) && Bearable(c, parse, log, |log| - 1)
  {
    var front := log[..|log| - 1];
    forall n: nat | n < |front| ensures Bearable(c, parse, log, n) <==> Bearable(c, parse, front, n) { assert log[..n] == front[..n]; }
  }

  lemma LastSurvived(c: Codec, parse: Parse, log: seq<seq<Byte>>, s: System)
    requires log != [] && ExecuteAll(c, parse, START, log[..|log| - 1]) == Some(s)
    ensures var last, t := log[|log| - 1], ExecuteAll(c, parse, START, log);
            && (t.Some? <==> Bearable(c, parse, log, |log| - 1) && (Changing(c, last).Some? ==> SafeChange(s.list, Changing(c, last).value)))
            && (t.Some? ==> t.value.list == if Changing(c, last).Some? then Next(s.list, Changing(c, last).value) else s.list)
  {
    var front, last := log[..|log| - 1], log[|log| - 1];
    LogKept(c, parse, START, front);
    EntrySurvived(c, parse, s, last);
    if Leaving(c, last).Some? { OpenLaw(c, parse, front, s, Leaving(c, last).value.pattern); }
  }

  /** A log is survived exactly when each entry can be read, hosts are taken from open patterns only, and the changes of
      the list are safe; the list is then what those changes make of the empty one. */
  lemma {:induction false} SurvivalLaw(c: Codec, parse: Parse, log: seq<seq<Byte>>)
    ensures ExecuteAll(c, parse, START, log).Some? <==> AllBearable(c, parse, log) && SafeRun(START.list, Changes(c, log))
    ensures ExecuteAll(c, parse, START, log).Some? ==>
            ExecuteAll(c, parse, START, log).value.list == RunSummary(START.list, Changes(c, log))
    decreases |log|
  {
    if log != [] {
      SurvivalLaw(c, parse, log[..|log| - 1]);
      BearableSnoc(c, parse, log);
      ChangesSafe(c, log, START.list);
      var s := ExecuteAll(c, parse, START, log[..|log| - 1]);
      if s.Some? { LastSurvived(c, parse, log, s.value); }
    }
  }

  lemma ChangesSafe(c: Codec, log: seq<seq<Byte>>, s: Summary)
    requires log != []
    ensures var front, change := Changes(c, log[..|log| - 1]), Changing(c, log[|log| - 1]);
            && (SafeRun(s, Changes(c, log)) <==>
                SafeRun(s, front) && (change.Some? ==> SafeChange(RunSummary(s, front), change.value)))
            && RunSummary(s, Changes(c, log)) ==
               if change.Some? then Next(RunSummary(s, front), change.value) else RunSummary(s, front)
  {
    var front, change := Changes(c, log[..|log| - 1]), Changing(c, log[|log| - 1]);
    if change.Some? { SafeRunSnoc(s, front, change.value); } else { assert Changes(c, log) == front; }
  }
}
