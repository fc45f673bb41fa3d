/** The routes of the gateway and the limiters of each, as tables: what log entries and requests do to them,
    and what a snapshot and its restoration leave of them. */
module Limits {
  import opened Text
  import opened Balancers

  datatype Location = Location(pattern: string, proxyPass: seq<string>, balanceMode: string)

  datatype LimiterInfo = LimiterInfo(prefix: string, pathName: string, limiterType: string, volumn: int, speed: int,
                                     maxThread: int, duration: int)

  /** The interval between tokens in nanoseconds and the burst size; the timeout in nanoseconds. */
  datatype Rate = Rate(interval: int, burst: int)
  datatype Setting = Setting(rate: Option<Rate>, timeout: int)

  type Methods = map<string, Setting>

  const SECOND := 1_000_000_000
  const MILLISECOND := 1_000_000

  /** Integer division that truncates towards zero. */
  function Quotient(a: nat, b: int): int
    requires b != 0
  {
    if b > 0 then a / b else -(a / -b)
  }

  /** Arithmetic on 64 bits with a sign. */
  function Wrapped(x: int): int {
    (x + 0x8000_0000_0000_0000) % 0x1_0000_0000_0000_0000 - 0x8000_0000_0000_0000
  }

  /** The setting that a limiter entry describes; `qps` is the one registered type. */
  function SettingOf(info: LimiterInfo): Option<Setting> {
    if info.limiterType != "qps" then None
    else Some(Setting(if info.speed != 0 then Some(Rate(Quotient(SECOND, info.speed), info.volumn)) else None,
                      if info.duration != 0 then Wrapped(info.duration * MILLISECOND) else -1))
  }

  /** What a setting is for an entry, without the arithmetic: no rate for speed 0, otherwise the burst given and the
      whole number of nanoseconds between so many tokens a second; no timeout for duration 0, otherwise so many
      milliseconds in nanoseconds, in 64 bits with a sign. */
  ghost predicate IsSettingFor(s: Setting, info: LimiterInfo) {
    && (s.rate == None <==> info.speed == 0)
    && (info.speed != 0 ==> s.rate.value.burst == info.volumn)
    && (info.speed > 0 ==> s.rate.value.interval * info.speed <= 1_000_000_000 < (s.rate.value.interval + 1) * info.speed)
    && (info.speed < 0 ==> -s.rate.value.interval * -info.speed <= 1_000_000_000 < (-s.rate.value.interval + 1) * -info.speed)
    && (info.duration == 0 ==> s.timeout == -1)
    && (info.duration != 0 ==>
          && -0x8000_0000_0000_0000 <= s.timeout < 0x8000_0000_0000_0000
          && (s.timeout - info.duration * 1_000_000) % 0x1_0000_0000_0000_0000 == 0)
  }

  lemma WholeQuotient(a: nat, b: nat)
    requires b > 0
    ensures a / b * b <= a < (a / b + 1) * b
  {
  }

  lemma WrappedIs(x: int)
    ensures -0x8000_0000_0000_0000 <= Wrapped(x) < 0x8000_0000_0000_0000
    ensures (Wrapped(x) - x) % 0x1_0000_0000_0000_0000 == 0
  {
    var y := x + 0x8000_0000_0000_0000;
    assert y == y / 0x1_0000_0000_0000_0000 * 0x1_0000_0000_0000_0000 + y % 0x1_0000_0000_0000_0000;
    assert Wrapped(x) - x == -(y / 0x1_0000_0000_0000_0000) * 0x1_0000_0000_0000_0000;
  }

  /** Every entry of the one registered type has its setting, no other entry has any. */
  lemma SettingReads(info: LimiterInfo)
    ensures SettingOf(info).None? <==> info.limiterType != "qps"
    ensures SettingOf(info).Some? ==> IsSettingFor(SettingOf(info).value, info)
  {
    if info.speed > 0 { WholeQuotient(SECOND, info.speed); }
    if info.speed < 0 { WholeQuotient(SECOND, -info.speed); }
    WrappedIs(info.duration * MILLISECOND);
  }

  /** The default entry is for the path, sets no rate, and makes no request wait. */
  lemma DefaultReads(path: string)
    ensures DefaultInfo(path).pathName == path && DefaultInfo(path).limiterType == "qps"
    ensures SettingOf(DefaultInfo(path)) == Some(Setting(None, -1)) && Wait(SettingOf(DefaultInfo(path)).value) == 0
  {
  }

  /** The limiter gives its timeout in whole milliseconds, and the caller waits that many nanoseconds; 0 is no wait. */
  function Wait(s: Setting): int {
    if s.timeout >= 0 then s.timeout / MILLISECOND else -((-s.timeout) / MILLISECOND)
  }

  /** The wait is the whole milliseconds of the timeout, cut towards 0. */
  lemma WaitReads(s: Setting)
    ensures s.timeout >= 0 ==> Wait(s) * 1_000_000 <= s.timeout < (Wait(s) + 1) * 1_000_000
    ensures s.timeout < 0 ==> (Wait(s) - 1) * 1_000_000 < s.timeout <= Wait(s) * 1_000_000
  {
  }

  /** So a timeout of `d` milliseconds is waited for `d` nanoseconds, and a limiter without one does not wait. */
  lemma WaitsNanoseconds(info: LimiterInfo)
    requires SettingOf(info).Some?
    ensures 0 < info.duration * MILLISECOND <= MAX_INT ==> Wait(SettingOf(info).value) == info.duration
    ensures info.duration == 0 ==> Wait(SettingOf(info).value) == 0
  {
    if 0 < info.duration * MILLISECOND <= MAX_INT {
      assert Wrapped(info.duration * MILLISECOND) == info.duration * MILLISECOND;
    }
  }

  /** The entry written for a path that is visited before anything was set for it. */
  function DefaultInfo(path: string): LimiterInfo {
    LimiterInfo("", path, "qps", -1, 0, -1, 0)
  }

  // ---- the entries of one pattern

  ghost function Put(m: Methods, info: LimiterInfo): Methods {
    match SettingOf(info)
    case None => m
    case Some(s) => m[info.pathName := s]
  }

  ghost function Replay(m: Methods, list: seq<LimiterInfo>): Methods {
    if list == [] then m else Put(Replay(m, list[..|list| - 1]), list[|list| - 1])
  }

  /** The entries that are replayed without an error. */
  ghost predicate AllKnown(list: seq<LimiterInfo>) {
    forall i :: 0 <= i < |list| ==> SettingOf(list[i]).Some?
  }

  ghost function Look(m: Methods, path: string): Option<Setting> {
    if path in m then Some(m[path]) else None
  }

  /** `last` is the index of the last usable entry for a path, -1 if there is none. */
  ghost predicate IsLast(list: seq<LimiterInfo>, path: string, last: int) {
    && -1 <= last < |list|
    && (last >= 0 ==> list[last].pathName == path && SettingOf(list[last]).Some?)
    && forall i :: last < i < |list| && list[i].pathName == path ==> SettingOf(list[i]) == None
  }

  lemma LastOf(list: seq<LimiterInfo>, path: string) returns (last: int)
    ensures IsLast(list, path, last)
  {
    last := |list| - 1;
    while last >= 0 && !(list[last].pathName == path && SettingOf(list[last]).Some?)
      invariant -1 <= last < |list|
      invariant forall i :: last < i < |list| && list[i].pathName == path ==> SettingOf(list[i]) == None
    {
      last := last - 1;
    }
  }

  /** The last entry for a path decides its setting. */
  lemma {:induction false} LastEntryWins(m: Methods, list: seq<LimiterInfo>, path: string, last: int)
    requires IsLast(list, path, last)
    ensures Look(Replay(m, list), path) == if last < 0 then Look(m, path) else SettingOf(list[last])
  {
    if list != [] {
      var n := |list| - 1;
      if last < n { LastEntryWins(m, list[..n], path, last); }
    }
  }

  lemma SameMethods(m: Methods, n: Methods)
    requires forall path :: Look(m, path) == Look(n, path)
    ensures m == n
  {
    forall path ensures path in m <==> path in n { assert Look(m, path) == Look(n, path); }
    forall path | path in m ensures m[path] == n[path] { assert Look(m, path) == Look(n, path); }
  }

  lemma {:induction false} ReplayConcat(m: Methods, a: seq<LimiterInfo>, b: seq<LimiterInfo>)
    ensures Replay(m, a + b) == Replay(Replay(m, a), b)
  {
    if b == [] {
      assert a + b == a;
    } else {
      var n := |b| - 1;
      assert (a + b)[..|a + b| - 1] == a + b[..n];
      ReplayConcat(m, a, b[..n]);
    }
  }

  ghost function Usable(list: seq<LimiterInfo>): (r: seq<LimiterInfo>)
    ensures AllKnown(r)
    ensures AllKnown(list) ==> r == list
  {
    if list == [] then []
    else
      var n := |list| - 1;
      assert list == list[..n] + [list[n]];
      if SettingOf(list[n]) == None then Usable(list[..n]) else Usable(list[..n]) + [list[n]]
  }

  lemma {:induction false} ReplayUsable(m: Methods, list: seq<LimiterInfo>)
    ensures Replay(m, Usable(list)) == Replay(m, list)
  {
    if list != [] {
      var n := |list| - 1;
      ReplayUsable(m, list[..n]);
      assert (Usable(list[..n]) + [list[n]])[..|Usable(list[..n])|] == Usable(list[..n]);
    }
  }

  /** Appending the whole list again, without the entries that fail, changes no reading of it. */
  lemma ReplayTwice(m: Methods, list: seq<LimiterInfo>)
    ensures Replay(m, list + Usable(list)) == Replay(m, list)
  {
    ReplayConcat(m, list, Usable(list));
    ReplayUsable(Replay(m, list), list);
    forall path ensures Look(Replay(Replay(m, list), list), path) == Look(Replay(m, list), path) {
      var last := LastOf(list, path);
      LastEntryWins(m, list, path, last);
      LastEntryWins(Replay(m, list), list, path, last);
    }
    SameMethods(Replay(Replay(m, list), list), Replay(m, list));
  }

  lemma {:induction false} ReplayIsEmpty(list: seq<LimiterInfo>)
    requires AllKnown(list)
    ensures Replay(map[], list) == map[] <==> list == []
  {
    if list != [] {
      assert SettingOf(list[|list| - 1]).Some?;
      assert list[|list| - 1].pathName in Replay(map[], list);
    }
  }

  // ---- all patterns together

  /** Locations and limiter entries are kept in a snapshot; the settings in force and the routes are not. */
  datatype Tables = Tables(locations: map<string, Location>, methods: map<string, Methods>,
                           limiters: map<string, seq<LimiterInfo>>, routes: set<string>)

  const NO_TABLES := Tables(map[], map[], map[], {})

  /** How a host is read from the text of a location; None is a parse error. */
  type Parse = string -> Option<string>

  predicate Builds(parse: Parse, l: Location) {
    (forall i :: 0 <= i < |l.proxyPass| ==> parse(l.proxyPass[i]).Some?) && l.balanceMode in ALGORITHMS
  }

  function Entries(limiters: map<string, seq<LimiterInfo>>, p: string): seq<LimiterInfo> {
    if p in limiters then limiters[p] else []
  }

  function Appended(limiters: map<string, seq<LimiterInfo>>, p: string, info: LimiterInfo): map<string, seq<LimiterInfo>> {
    limiters[p := Entries(limiters, p) + [info]]
  }

  ghost function Opened(t: Tables, l: Location): Tables {
    t.(locations := t.locations[l.pattern := l], methods := t.methods[l.pattern := map[]], routes := t.routes + {l.pattern})
  }

  /** The limiter entries stay behind. */
  ghost function Removed(t: Tables, p: string): Tables {
    t.(locations := t.locations - {p}, methods := t.methods - {p}, routes := t.routes - {p})
  }

  ghost function Limited(t: Tables, p: string, info: LimiterInfo): Tables
    requires p in t.methods
  {
    match SettingOf(info)
    case None => t
    case Some(s) => t.(methods := t.methods[p := t.methods[p][info.pathName := s]], limiters := Appended(t.limiters, p, info))
  }

  ghost function Visited(t: Tables, p: string, path: string): Tables
    requires p in t.methods
  {
    if path in t.methods[p] then t else Limited(t, p, DefaultInfo(path))
  }

  /** What is left of the tables by a snapshot and its restoration in a process whose router has `routes`. */
  ghost function Restored(parse: Parse, t: Tables, routes: set<string>): Tables {
    var built := set p | p in t.locations && Builds(parse, t.locations[p]);
    Tables(t.locations,
           map p | p in built :: Replay(map[], Entries(t.limiters, p)),
           map p | p in t.limiters :: if p in built then t.limiters[p] + Usable(t.limiters[p]) else t.limiters[p],
           routes + built)
  }

  ghost predicate KeptAt(parse: Parse, t: Tables, p: string) {
    && (p in t.methods <==> p in t.locations)
    && (p in t.routes <==> p in t.locations)
    && (p in t.locations ==> t.locations[p].pattern == p && Builds(parse, t.locations[p]))
    && AllKnown(Entries(t.limiters, p))
  }

  /** Relations, locations and the router table have the same patterns. */
  ghost predicate Kept(parse: Parse, t: Tables) {
    forall p {:trigger KeptAt(parse, t, p)} :: KeptAt(parse, t, p)
  }

  ghost predicate TiedAt(t: Tables, p: string) {
    p in t.methods ==> t.methods[p] == Replay(map[], Entries(t.limiters, p))
  }

  /** The settings in force are what the recorded entries say. */
  ghost predicate Tied(t: Tables) {
    forall p {:trigger TiedAt(t, p)} :: TiedAt(t, p)
  }

  lemma LimitedKept(parse: Parse, t: Tables, p: string, info: LimiterInfo)
    requires Kept(parse, t) && p in t.methods
    ensures Kept(parse, Limited(t, p, info))
  {
    forall q ensures KeptAt(parse, Limited(t, p, info), q) { assert KeptAt(parse, t, q); }
  }

  lemma ReplaySnoc(m: Methods, list: seq<LimiterInfo>, info: LimiterInfo)
    ensures Replay(m, list + [info]) == Put(Replay(m, list), info)
  {
    assert (list + [info])[..|list|] == list;
  }

  lemma LimitedTied(t: Tables, p: string, info: LimiterInfo)
    requires Tied(t) && p in t.methods
    ensures Tied(Limited(t, p, info))
  {
    forall q ensures TiedAt(Limited(t, p, info), q) {
      assert TiedAt(t, q);
      ReplaySnoc(map[], Entries(t.limiters, p), info);
    }
  }

  /** A new proxy starts with no settings: the tie survives exactly when no entry of its pattern was left
      behind by an earlier one. */
  lemma OpenedTied(parse: Parse, t: Tables, l: Location)
    requires Kept(parse, t) && Builds(parse, l)
    ensures Kept(parse, Opened(t, l))
    ensures Tied(t) ==> (Tied(Opened(t, l)) <==> Entries(t.limiters, l.pattern) == [])
  {
    var u := Opened(t, l);
    forall q ensures KeptAt(parse, u, q) { assert KeptAt(parse, t, q); }
    assert KeptAt(parse, t, l.pattern);
    ReplayIsEmpty(Entries(t.limiters, l.pattern));
    if Tied(t) {
      assert TiedAt(u, l.pattern) <==> Entries(t.limiters, l.pattern) == [];
      forall q | q != l.pattern ensures TiedAt(u, q) { assert TiedAt(t, q); }
    }
  }

  lemma RemovedKeeps(parse: Parse, t: Tables, p: string)
    requires Kept(parse, t)
    ensures Kept(parse, Removed(t, p))
    ensures Tied(t) ==> Tied(Removed(t, p))
  {
    var u := Removed(t, p);
    forall q ensures KeptAt(parse, u, q) { assert KeptAt(parse, t, q); }
    if Tied(t) { forall q ensures TiedAt(u, q) { assert TiedAt(t, q); } }
  }

  /** A restoration always leaves tied tables; its router has just their patterns exactly when every route
      of the process before it is one of them. */
  lemma RestoredKeeps(parse: Parse, t: Tables, routes: set<string>)
    requires Kept(parse, t)
    ensures Tied(Restored(parse, t, routes))
    ensures Kept(parse, Restored(parse, t, routes)) <==> routes <= t.locations.Keys
  {
    var u := Restored(parse, t, routes);
    forall q ensures TiedAt(u, q) { ReplayTwice(map[], Entries(t.limiters, q)); }
    forall q ensures KeptAt(parse, u, q) <==> (q in routes ==> q in t.locations) {
      assert KeptAt(parse, t, q);
    }
    if !(routes <= t.locations.Keys) {
      var q :| q in routes && q !in t.locations;
      assert !KeptAt(parse, u, q);
    }
  }

  /** The settings in force survive a restoration exactly when they were what the entries say. */
  lemma RestoreIffTied(parse: Parse, t: Tables, routes: set<string>)
    requires Kept(parse, t)
    ensures Restored(parse, t, routes).methods == t.methods <==> Tied(t)
  {
    var u := Restored(parse, t, routes);
    forall q ensures q in u.methods <==> q in t.methods { assert KeptAt(parse, t, q); }
    forall q ensures TiedAt(t, q) <==> (q in t.methods ==> u.methods[q] == t.methods[q]) { assert KeptAt(parse, t, q); }
  }
}
