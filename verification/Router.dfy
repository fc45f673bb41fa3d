/** The router table: patterns and the proxies registered under them, the longest pattern deciding. */
module Router {
  import opened Text

  /** The pattern is followed by a slash in the path. */
  predicate Matches(p: string, path: string) {
    |p| < |path| && path[..|p|] == p && path[|p|] == '/'
  }

  lemma MatchesIsSplit(p: string, path: string)
    ensures Matches(p, path) <==> exists rest :: path == p + rest && rest != "" && rest[0] == '/'
  {
    if Matches(p, path) { assert path == p + path[|p|..]; }
  }

  /** `r` is the longest of the patterns that match, or none does. */
  ghost predicate IsRoute(patterns: set<string>, path: string, r: Option<string>) {
    match r
    case None => forall q :: q in patterns ==> !Matches(q, path)
    case Some(p) => p in patterns && Matches(p, path) && forall q :: q in patterns && Matches(q, path) ==> |q| <= |p|
  }

  /** There is one such pattern at most. */
  lemma RouteIsUnique(patterns: set<string>, path: string, r: Option<string>, s: Option<string>)
    requires IsRoute(patterns, path, r) && IsRoute(patterns, path, s)
    ensures r == s
  {
    if r.Some? && s.Some? {
      assert r.value == path[..|r.value|] && s.value == path[..|s.value|];
    }
  }

  /** The pattern a path is routed by, looked for among the cuts before position `n`. */
  ghost function LongestBefore(patterns: set<string>, path: string, n: nat): (r: Option<string>)
    requires n <= |path|
    ensures r.Some? ==> r.value in patterns && Matches(r.value, path) && |r.value| < n
    ensures forall q :: q in patterns && Matches(q, path) && |q| < n ==> r.Some? && |q| <= |r.value|
  {
    if n == 0 then None
    else if path[n - 1] == '/' && path[..n - 1] in patterns then Some(path[..n - 1])
    else LongestBefore(patterns, path, n - 1)
  }

  ghost function RouteOf(patterns: set<string>, path: string): (r: Option<string>)
    ensures IsRoute(patterns, path, r)
  {
    LongestBefore(patterns, path, |path|)
  }

  /** A registered pattern takes over exactly the paths that it matches and no longer pattern did. */
  lemma RouteAfterAdd(patterns: set<string>, path: string, p: string)
    ensures var r := RouteOf(patterns, path);
            RouteOf(patterns + {p}, path) == if Matches(p, path) && (r.None? || |r.value| < |p|) then Some(p) else r
  {
    var r := RouteOf(patterns, path);
    var s := if Matches(p, path) && (r.None? || |r.value| < |p|) then Some(p) else r;
    assert IsRoute(patterns + {p}, path, s);
    RouteIsUnique(patterns + {p}, path, RouteOf(patterns + {p}, path), s);
  }

  /** Removing a pattern reroutes exactly the paths that were routed to it. */
  lemma RouteAfterRemove(patterns: set<string>, path: string, p: string)
    ensures RouteOf(patterns - {p}, path) == RouteOf(patterns, path) <==> RouteOf(patterns, path) != Some(p)
  {
    var r := RouteOf(patterns, path);
    if r != Some(p) {
      assert IsRoute(patterns - {p}, path, r);
      RouteIsUnique(patterns - {p}, path, RouteOf(patterns - {p}, path), r);
    }
  }

  /** The rewritten path starts as late as it can: no pattern that it still matches continues the chosen one. */
  lemma NothingLongerIsLeft(patterns: set<string>, path: string, p: string, q: string)
    requires RouteOf(patterns, path) == Some(p) && q != "" && Matches(q, path[|p|..])
    ensures p + q !in patterns
  {
    var rest := path[|p|..];
    assert path[..|p + q|] == p + q by { assert rest[..|q|] == q; }
    assert Matches(p + q, path);
  }

  class DefaultRouter<T> {
    var hosts: map<string, T>

    constructor ()
      ensures hosts == map[]
    {
      hosts := map[];
    }

    method Add(p: string, proxy: T)
      modifies this
      ensures hosts == old(hosts)[p := proxy]
    {
      hosts := hosts[p := proxy];
    }

    method Remove(p: string)
      modifies this
      ensures hosts == old(hosts) - {p}
    {
      hosts := hosts - {p};
    }

    predicate HasPrefix(p: string)
      reads this
    {
      p in hosts
    }

    /** Scans the path backwards, cutting it at each slash. The proxy found is that of the longest pattern
        that matches, and the path is rewritten to what follows the pattern. */
    method Route(path: string) returns (proxy: Option<T>, rest: string)
      ensures match RouteOf(hosts.Keys, path)
              case None => proxy == None && rest == ""
              case Some(p) => proxy == Some(hosts[p]) && path == p + rest && rest != "" && rest[0] == '/'
    {
      var i := |path| - 1;
      while i >= 0
        invariant -1 <= i < |path|
        invariant forall q :: q in hosts && Matches(q, path) ==> |q| <= i
      {
        if path[i] == '/' {
          var nextPath := path[..i];
          if HasPrefix(nextPath) {
            RouteIsUnique(hosts.Keys, path, RouteOf(hosts.Keys, path), Some(nextPath));
            return Some(hosts[nextPath]), path[i..];
          }
        }
        i := i - 1;
      }
      RouteIsUnique(hosts.Keys, path, RouteOf(hosts.Keys, path), None);
      return None, "";
    }
  }
}
