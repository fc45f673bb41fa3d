/** Rings built by adding absent hosts and removing present ones: what they contain, and how little a
    change of hosts moves. */
module RingHistory {
  import opened Text
  import opened Ring

  ghost predicate CollisionFree(hash: Hash, replicas: nat, hosts: set<string>) {
    forall g, h, i: nat, j: nat {:trigger Point(hash, i, g), Point(hash, j, h)} ::
      g in hosts && h in hosts && i < replicas && j < replicas && Point(hash, i, g) == Point(hash, j, h) ==> g == h && i == j
  }

  ghost predicate Owns(hash: Hash, replicas: nat, host: string, p: int) {
    p in Points(hash, replicas, host)
  }

  ghost predicate Owned(hash: Hash, replicas: nat, hosts: set<string>, p: int) {
    exists h :: h in hosts && Owns(hash, replicas, h, p)
  }

  /** The ring of a set of hosts: exactly their points, in strict order, each with its owner. */
  ghost predicate IsRing(hash: Hash, replicas: nat, hosts: set<string>, r: Ring) {
    && (forall i, j :: 0 <= i < j < |r.keys| ==> r.keys[i] < r.keys[j])
    && (forall p {:trigger Owned(hash, replicas, hosts, p)} :: p in r.keys <==> Owned(hash, replicas, hosts, p))
    && (forall p :: p in r.hosts <==> p in r.keys)
    && (forall h, p {:trigger Owns(hash, replicas, h, p)} :: h in hosts && Owns(hash, replicas, h, p) ==> p in r.hosts && r.hosts[p] == h)
  }

  lemma OneOwner(hash: Hash, replicas: nat, hosts: set<string>, g: string, h: string, p: int)
    requires CollisionFree(hash, replicas, hosts) && g in hosts && h in hosts
    requires Owns(hash, replicas, g, p) && Owns(hash, replicas, h, p)
    ensures g == h
  {
    var i: nat :| i < replicas && Points(hash, replicas, g)[i] == p;
    var j: nat :| j < replicas && Points(hash, replicas, h)[j] == p;
    assert Point(hash, i, g) == Point(hash, j, h);
  }

  lemma PointsDistinct(hash: Hash, replicas: nat, hosts: set<string>, h: string)
    requires CollisionFree(hash, replicas, hosts) && h in hosts
    ensures NoRepeats(Points(hash, replicas, h))
  {
    var s := Points(hash, replicas, h);
    forall i, j | 0 <= i < j < |s| ensures s[i] != s[j] {
      assert Point(hash, i, h) == s[i] && Point(hash, j, h) == s[j];
    }
  }

  lemma {:induction false} DistinctCount(s: seq<int>, x: int)
    requires NoRepeats(s)
    ensures multiset(s)[x] == if x in s then 1 else 0
  {
    if s != [] {
      var n := |s| - 1;
      assert s == s[..n] + [s[n]];
      DistinctCount(s[..n], x);
      if x == s[n] { assert x !in s[..n]; }
    }
  }

  lemma {:induction false} CountNoRepeats(s: seq<int>)
    requires forall x :: multiset(s)[x] <= 1
    ensures NoRepeats(s)
  {
    if s != [] {
      var n := |s| - 1;
      assert s == s[..n] + [s[n]];
      forall x ensures multiset(s[..n])[x] <= 1 { assert multiset(s)[x] <= 1; }
      CountNoRepeats(s[..n]);
      assert multiset(s)[s[n]] <= 1;
      assert s[n] !in multiset(s[..n]);
      forall i | 0 <= i < n ensures s[i] != s[n] { assert s[..n][i] in multiset(s[..n]); }
    }
  }

  lemma SameMembers(s: seq<int>, t: seq<int>)
    requires NoRepeats(s) && NoRepeats(t) && forall x :: x in s <==> x in t
    ensures multiset(s) == multiset(t)
  {
    forall x ensures multiset(s)[x] == multiset(t)[x] {
      DistinctCount(s, x);
      DistinctCount(t, x);
    }
  }

  lemma SameKeys(r: Ring)
    requires forall p :: p in r.hosts <==> p in r.keys
    ensures r.hosts.Keys == set p | p in r.keys
  {
    forall p ensures p in r.hosts.Keys <==> p in (set q | q in r.keys) {
      assert p in r.hosts <==> p in r.keys;
    }
  }

  lemma SomeIn(s: seq<int>, t: seq<int>)
    requires forall p :: p in s ==> p in t
    ensures |s| > 0 ==> |t| > 0
  {
    if |s| > 0 {
      var p := s[0];
      assert p in s;
      assert p in t;
    }
  }

  /** A set of hosts has one ring. */
  lemma RingIsUnique(hash: Hash, replicas: nat, hosts: set<string>, r: Ring, q: Ring)
    requires IsRing(hash, replicas, hosts, r) && IsRing(hash, replicas, hosts, q)
    ensures r == q
  {
    forall p ensures p in r.keys <==> p in q.keys { assert Owned(hash, replicas, hosts, p) || !Owned(hash, replicas, hosts, p); }
    SameMembers(r.keys, q.keys);
    SortedOnce(r.keys, q.keys);
    forall p | p in r.hosts ensures r.hosts[p] == q.hosts[p] {
      assert Owned(hash, replicas, hosts, p);
      var h :| h in hosts && Owns(hash, replicas, h, p);
    }
    SameKeys(r);
    SameKeys(q);
    assert r.hosts.Keys == q.hosts.Keys;
    assert r.hosts == q.hosts;
  }

  lemma EmptyIsRing(hash: Hash, replicas: nat)
    ensures IsRing(hash, replicas, {}, EMPTY)
  {
  }

  lemma OwnedByMore(hash: Hash, replicas: nat, hosts: set<string>, host: string, p: int)
    ensures Owned(hash, replicas, hosts + {host}, p) <==> Owned(hash, replicas, hosts, p) || Owns(hash, replicas, host, p)
  {
    if Owned(hash, replicas, hosts + {host}, p) {
      var h :| h in hosts + {host} && Owns(hash, replicas, h, p);
    }
  }

  lemma AddedKeys(hash: Hash, replicas: nat, hosts: set<string>, r: Ring, host: string)
    requires IsRing(hash, replicas, hosts, r) && host !in hosts && CollisionFree(hash, replicas, hosts + {host})
    ensures var w := Added(r, Points(hash, replicas, host), host);
            && (forall i, j :: 0 <= i < j < |w.keys| ==> w.keys[i] < w.keys[j])
            && (forall p :: p in w.keys <==> p in r.keys || Owns(hash, replicas, host, p))
  {
    var points := Points(hash, replicas, host);
    var w := Added(r, points, host);
    PointsDistinct(hash, replicas, hosts + {host}, host);
    forall x ensures multiset(w.keys)[x] <= 1 && (x in w.keys <==> x in r.keys || x in points) {
      DistinctCount(r.keys, x);
      DistinctCount(points, x);
      assert multiset(w.keys)[x] == multiset(r.keys)[x] + multiset(points)[x];
      if x in r.keys && x in points {
        assert Owned(hash, replicas, hosts, x);
        var h :| h in hosts && Owns(hash, replicas, h, x);
        OneOwner(hash, replicas, hosts + {host}, h, host, x);
      }
      assert x in w.keys <==> x in multiset(w.keys);
    }
    CountNoRepeats(w.keys);
  }

  /** Adding an absent host makes the ring of the larger set. */
  lemma AddedIsRing(hash: Hash, replicas: nat, hosts: set<string>, r: Ring, host: string)
    requires IsRing(hash, replicas, hosts, r) && host !in hosts && CollisionFree(hash, replicas, hosts + {host})
    ensures IsRing(hash, replicas, hosts + {host}, Added(r, Points(hash, replicas, host), host))
  {
    AddedKeys(hash, replicas, hosts, r, host);
    var w := Added(r, Points(hash, replicas, host), host);
    forall p ensures p in w.keys <==> Owned(hash, replicas, hosts + {host}, p) {
      OwnedByMore(hash, replicas, hosts, host, p);
      assert p in r.keys <==> Owned(hash, replicas, hosts, p);
    }
    forall h, p | h in hosts + {host} && Owns(hash, replicas, h, p) ensures p in w.hosts && w.hosts[p] == h {
      if h != host && Owns(hash, replicas, host, p) { OneOwner(hash, replicas, hosts + {host}, h, host, p); }
    }
  }

  /** Removing a present host never misses and makes the ring of the smaller set. */
  lemma RemovedIsRing(hash: Hash, replicas: nat, hosts: set<string>, r: Ring, host: string)
    requires IsRing(hash, replicas, hosts, r) && host in hosts && CollisionFree(hash, replicas, hosts)
    ensures var w := Removed(r, Points(hash, replicas, host)); w.Some? && IsRing(hash, replicas, hosts - {host}, w.value)
  {
    var points := Points(hash, replicas, host);
    PointsDistinct(hash, replicas, hosts, host);
    PointsWithin(hash, replicas, hosts, r, host);
    RemovedPresent(r, points);
    var w := Removed(r, points).value;
    assert hosts == (hosts - {host}) + {host};
    forall x ensures multiset(w.keys)[x] <= 1 && (x in w.keys <==> x in r.keys && x !in points) {
      DistinctCount(r.keys, x);
      DistinctCount(points, x);
      assert multiset(w.keys)[x] == if multiset(r.keys)[x] <= multiset(points)[x] then 0 else multiset(r.keys)[x] - multiset(points)[x];
      assert x in w.keys <==> x in multiset(w.keys);
    }
    CountNoRepeats(w.keys);
    RemovedOwners(hash, replicas, hosts, r, host, w);
  }

  lemma PointsWithin(hash: Hash, replicas: nat, hosts: set<string>, r: Ring, host: string)
    requires IsRing(hash, replicas, hosts, r) && host in hosts && NoRepeats(Points(hash, replicas, host))
    ensures multiset(Points(hash, replicas, host)) <= multiset(r.keys)
  {
    var points := Points(hash, replicas, host);
    forall x ensures multiset(points)[x] <= multiset(r.keys)[x] {
      DistinctCount(r.keys, x);
      DistinctCount(points, x);
      if x in points { assert Owns(hash, replicas, host, x) && Owned(hash, replicas, hosts, x); }
    }
  }

  lemma RemovedOwners(hash: Hash, replicas: nat, hosts: set<string>, r: Ring, host: string, w: Ring)
    requires IsRing(hash, replicas, hosts, r) && host in hosts && CollisionFree(hash, replicas, hosts)
    requires Sorted(w.keys) && NoRepeats(w.keys)
    requires forall x :: x in w.keys <==> x in r.keys && x !in Points(hash, replicas, host)
    requires w.hosts == r.hosts - set p | p in Points(hash, replicas, host)
    ensures IsRing(hash, replicas, hosts - {host}, w)
  {
    forall p ensures p in w.keys <==> Owned(hash, replicas, hosts - {host}, p) {
      assert p in r.keys <==> Owned(hash, replicas, hosts, p);
      OwnedByMore(hash, replicas, hosts - {host}, host, p);
      assert hosts == (hosts - {host}) + {host};
      forall h | h in hosts - {host} && Owns(hash, replicas, h, p) ensures !Owns(hash, replicas, host, p) {
        if Owns(hash, replicas, host, p) { OneOwner(hash, replicas, hosts, h, host, p); }
      }
    }
    forall h, p | h in hosts - {host} && Owns(hash, replicas, h, p) ensures p in w.hosts && w.hosts[p] == h {
      if Owns(hash, replicas, host, p) { OneOwner(hash, replicas, hosts, h, host, p); }
    }
  }

  // ---- runs

  datatype Move = Join(host: string) | Leave(host: string)

  ghost function HostsAfter(hosts: set<string>, moves: seq<Move>): set<string> {
    if moves == [] then hosts
    else
      var before := HostsAfter(hosts, moves[..|moves| - 1]);
      match moves[|moves| - 1]
      case Join(h) => before + {h}
      case Leave(h) => before - {h}
  }

  /** Hosts join when they are absent and leave when they are present, and no two ever collide. */
  ghost predicate Orderly(hash: Hash, replicas: nat, hosts: set<string>, moves: seq<Move>) {
    forall i {:trigger moves[i]} :: 0 <= i < |moves| ==>
      var before := HostsAfter(hosts, moves[..i]);
      match moves[i]
      case Join(h) => h !in before && CollisionFree(hash, replicas, before + {h})
      case Leave(h) => h in before && CollisionFree(hash, replicas, before)
  }

  ghost function RingAfter(hash: Hash, replicas: nat, r: Ring, moves: seq<Move>): Option<Ring> {
    if moves == [] then Some(r)
    else
      match RingAfter(hash, replicas, r, moves[..|moves| - 1])
      case None => None
      case Some(before) =>
        match moves[|moves| - 1]
        case Join(h) => Some(Added(before, Points(hash, replicas, h), h))
        case Leave(h) => Removed(before, Points(hash, replicas, h))
  }

  lemma {:induction false} RunIsRing(hash: Hash, replicas: nat, hosts: set<string>, r: Ring, moves: seq<Move>)
    requires IsRing(hash, replicas, hosts, r) && Orderly(hash, replicas, hosts, moves)
    ensures var w := RingAfter(hash, replicas, r, moves);
            w.Some? && IsRing(hash, replicas, HostsAfter(hosts, moves), w.value)
  {
    if moves != [] {
      var n := |moves| - 1;
      assert Orderly(hash, replicas, hosts, moves[..n]) by {
        forall i | 0 <= i < n ensures moves[..n][i] == moves[i] && moves[..n][..i] == moves[..i] {}
      }
      RunIsRing(hash, replicas, hosts, r, moves[..n]);
      var before := RingAfter(hash, replicas, r, moves[..n]).value;
      match moves[n]
      case Join(h) => AddedIsRing(hash, replicas, HostsAfter(hosts, moves[..n]), before, h);
      case Leave(h) => RemovedIsRing(hash, replicas, HostsAfter(hosts, moves[..n]), before, h);
    }
  }

  /** The ring depends on the hosts it ends with, not on how it came to have them. */
  lemma HistoryDoesNotMatter(hash: Hash, replicas: nat, one: seq<Move>, other: seq<Move>)
    requires Orderly(hash, replicas, {}, one) && Orderly(hash, replicas, {}, other)
    requires HostsAfter({}, one) == HostsAfter({}, other)
    ensures RingAfter(hash, replicas, EMPTY, one).Some?
    ensures RingAfter(hash, replicas, EMPTY, one) == RingAfter(hash, replicas, EMPTY, other)
  {
    EmptyIsRing(hash, replicas);
    RunIsRing(hash, replicas, {}, EMPTY, one);
    RunIsRing(hash, replicas, {}, EMPTY, other);
    RingIsUnique(hash, replicas, HostsAfter({}, one), RingAfter(hash, replicas, EMPTY, one).value, RingAfter(hash, replicas, EMPTY, other).value);
  }

  // ---- where a key goes

  /** The first point not below `x`, or the first of all when there is none. */
  ghost predicate Successor(hash: Hash, replicas: nat, hosts: set<string>, x: int, p: int) {
    && Owned(hash, replicas, hosts, p)
    && forall q {:trigger Owned(hash, replicas, hosts, q)} :: Owned(hash, replicas, hosts, q) ==>
         if p >= x then q < x || p <= q else q < x && p <= q
  }

  ghost predicate SentTo(hash: Hash, replicas: nat, hosts: set<string>, x: int, host: string) {
    host in hosts && exists p :: Owns(hash, replicas, host, p) && Successor(hash, replicas, hosts, x, p)
  }

  lemma FirstNotBelow(s: seq<int>, x: int, j: nat)
    requires Sorted(s) && j < |s|
    ensures var p := s[LowerBound(s, x) % |s|]; if p >= x then s[j] < x || p <= s[j] else s[j] < x && p <= s[j]
  {
    WrapIndex(LowerBound(s, x), |s|);
  }

  lemma WrapIndex(i: nat, n: nat)
    requires i <= n && n > 0
    ensures i % n == if i < n then i else 0
  {
  }

  lemma SomePoints(hash: Hash, replicas: nat, hosts: set<string>, r: Ring, h: string)
    requires IsRing(hash, replicas, hosts, r) && h in hosts && replicas > 0
    ensures |r.keys| > 0
  {
    var p := Points(hash, replicas, h)[0];
    assert Owns(hash, replicas, h, p) && Owned(hash, replicas, hosts, p);
  }

  /** A ring sends a key to the owner of the successor of its hash; only a ring without points refuses. */
  lemma BalancedIsSuccessor(hash: Hash, replicas: nat, hosts: set<string>, r: Ring, x: int)
    requires IsRing(hash, replicas, hosts, r)
    ensures match Balanced(r, x) case Some(h) => SentTo(hash, replicas, hosts, x, h) case None => replicas == 0 || hosts == {}
  {
    forall h | h in hosts && replicas > 0 ensures |r.keys| > 0 { SomePoints(hash, replicas, hosts, r, h); }
    if r.keys != [] {
      var p := r.keys[LowerBound(r.keys, x) % |r.keys|];
      assert Owned(hash, replicas, hosts, p);
      var h :| h in hosts && Owns(hash, replicas, h, p);
      forall q | Owned(hash, replicas, hosts, q) ensures if p >= x then q < x || p <= q else q < x && p <= q {
        var j :| 0 <= j < |r.keys| && r.keys[j] == q;
        FirstNotBelow(r.keys, x, j);
      }
      assert Successor(hash, replicas, hosts, x, p);
    }
  }

  lemma SentToOne(hash: Hash, replicas: nat, hosts: set<string>, x: int, g: string, h: string)
    requires CollisionFree(hash, replicas, hosts)
    requires SentTo(hash, replicas, hosts, x, g) && SentTo(hash, replicas, hosts, x, h)
    ensures g == h
  {
    var p :| Owns(hash, replicas, g, p) && Successor(hash, replicas, hosts, x, p);
    var q :| Owns(hash, replicas, h, q) && Successor(hash, replicas, hosts, x, q);
    assert p == q;
    OneOwner(hash, replicas, hosts, g, h, p);
  }

  /** A new host takes keys only for itself: whoever else gets a key had it before. */
  lemma JoinMovesToTheNewHost(hash: Hash, replicas: nat, hosts: set<string>, host: string, x: int, g: string)
    requires SentTo(hash, replicas, hosts + {host}, x, g) && g != host
    ensures SentTo(hash, replicas, hosts, x, g)
  {
    var p :| Owns(hash, replicas, g, p) && Successor(hash, replicas, hosts + {host}, x, p);
    assert Owned(hash, replicas, hosts, p);
    forall q | Owned(hash, replicas, hosts, q) ensures if p >= x then q < x || p <= q else q < x && p <= q {
      OwnedByMore(hash, replicas, hosts, host, q);
    }
  }

  /** For every key: adding a fresh host leaves it where it was or brings it to the new host. */
  lemma MinimalDisruptionOnAdd(hash: Hash, replicas: nat, hosts: set<string>, r: Ring, host: string, x: int)
    requires IsRing(hash, replicas, hosts, r) && host !in hosts && CollisionFree(hash, replicas, hosts + {host})
    ensures var w := Balanced(Added(r, Points(hash, replicas, host), host), x); w == Some(host) || w == Balanced(r, x)
  {
    var q := Added(r, Points(hash, replicas, host), host);
    AddedIsRing(hash, replicas, hosts, r, host);
    BalancedIsSuccessor(hash, replicas, hosts + {host}, q, x);
    BalancedIsSuccessor(hash, replicas, hosts, r, x);
    AddedKeys(hash, replicas, hosts, r, host);
    SomeIn(r.keys, q.keys);
    match Balanced(q, x)
    case None =>
    case Some(g) =>
      if g != host {
        JoinMovesToTheNewHost(hash, replicas, hosts, host, x, g);
        StillFree(hash, replicas, hosts, host);
        SomeoneGetsIt(hash, replicas, hosts, r, x, g);
      }
  }

  lemma StillFree(hash: Hash, replicas: nat, hosts: set<string>, host: string)
    requires CollisionFree(hash, replicas, hosts + {host})
    ensures CollisionFree(hash, replicas, hosts)
  {
  }

  lemma SomeoneGetsIt(hash: Hash, replicas: nat, hosts: set<string>, r: Ring, x: int, g: string)
    requires IsRing(hash, replicas, hosts, r) && CollisionFree(hash, replicas, hosts) && SentTo(hash, replicas, hosts, x, g)
    ensures Balanced(r, x) == Some(g)
  {
    BalancedIsSuccessor(hash, replicas, hosts, r, x);
    var p :| Owns(hash, replicas, g, p) && Successor(hash, replicas, hosts, x, p);
    assert p in r.keys;
    SentToOne(hash, replicas, hosts, x, g, Balanced(r, x).value);
  }

  /** For every key: removing a host moves it only if that host had it. */
  lemma MinimalDisruptionOnRemove(hash: Hash, replicas: nat, hosts: set<string>, r: Ring, host: string, x: int)
    requires IsRing(hash, replicas, hosts, r) && host in hosts && CollisionFree(hash, replicas, hosts)
    ensures var w := Removed(r, Points(hash, replicas, host));
            w.Some? && (Balanced(r, x) != Some(host) ==> Balanced(w.value, x) == Balanced(r, x))
  {
    RemovedIsRing(hash, replicas, hosts, r, host);
    var q := Removed(r, Points(hash, replicas, host)).value;
    var rest := hosts - {host};
    assert rest + {host} == hosts;
    BalancedIsSuccessor(hash, replicas, hosts, r, x);
    forall p | p in q.keys ensures p in r.keys {
      assert Owned(hash, replicas, rest, p);
      OwnedByMore(hash, replicas, rest, host, p);
      assert Owned(hash, replicas, hosts, p);
    }
    SomeIn(q.keys, r.keys);
    match Balanced(r, x)
    case None =>
    case Some(g) =>
      if g != host {
        JoinMovesToTheNewHost(hash, replicas, rest, host, x, g);
        StillFree(hash, replicas, rest, host);
        SomeoneGetsIt(hash, replicas, rest, q, x, g);
      }
  }

  lemma AtItsPoint(s: seq<int>, x: int)
    requires Sorted(s) && x in s
    ensures |s| > 0 && s[LowerBound(s, x) % |s|] == x
  {
    FoundAtLowerBound(s, x);
    WrapIndex(LowerBound(s, x), |s|);
  }

  /** A key that hashes to a host's own point is sent to that host. */
  lemma OwnPointIsOwn(hash: Hash, replicas: nat, hosts: set<string>, r: Ring, host: string)
    requires IsRing(hash, replicas, hosts, r) && host in hosts && replicas > 0
    ensures Balanced(r, Point(hash, 0, host)) == Some(host)
  {
    var p := Point(hash, 0, host);
    assert Points(hash, replicas, host)[0] == p;
    assert Owns(hash, replicas, host, p) && Owned(hash, replicas, hosts, p);
    AtItsPoint(r.keys, p);
  }

  /** A host added while it is present, then removed, leaves points without an owner: a key at one of them
      is sent to the empty name. */
  lemma AddedTwiceThenRemoved(hash: Hash, replicas: nat, hosts: set<string>, r: Ring, host: string)
    requires IsRing(hash, replicas, hosts, r) && host in hosts && replicas > 0
    ensures var points := Points(hash, replicas, host);
            var w := Removed(Added(r, points, host), points);
            w.Some? && w.value.keys == r.keys && Balanced(w.value, Point(hash, 0, host)) == Some("")
  {
    var points := Points(hash, replicas, host);
    var p := Point(hash, 0, host);
    assert points[0] == p && Owns(hash, replicas, host, p) && Owned(hash, replicas, hosts, p);
    RemoveAfterAdd(r, points, host);
    AtItsPoint(r.keys, p);
  }

  // ---- how many points there are

  /** `Len` counts the owners: replicas times the number of hosts. */
  lemma RingSize(hash: Hash, replicas: nat, hosts: set<string>, r: Ring)
    requires IsRing(hash, replicas, hosts, r) && CollisionFree(hash, replicas, hosts)
    ensures |r.keys| == |r.hosts| == replicas * |hosts|
  {
    SameKeys(r);
    DistinctSize(r.keys);
    KeyCount(hash, replicas, hosts, r);
  }

  lemma {:induction false} KeyCount(hash: Hash, replicas: nat, hosts: set<string>, r: Ring)
    requires IsRing(hash, replicas, hosts, r) && CollisionFree(hash, replicas, hosts)
    ensures |r.keys| == replicas * |hosts|
    decreases |hosts|
  {
    if hosts == {} {
      SomeHost(hash, replicas, hosts, r);
    } else {
      var h :| h in hosts;
      RemovedIsRing(hash, replicas, hosts, r, h);
      assert (hosts - {h}) + {h} == hosts;
      StillFree(hash, replicas, hosts - {h}, h);
      KeyCount(hash, replicas, hosts - {h}, Removed(r, Points(hash, replicas, h)).value);
      RemovedCount(hash, replicas, hosts, r, h);
      assert replicas * |hosts| == replicas * (|hosts| - 1) + replicas;
    }
  }

  lemma SomeHost(hash: Hash, replicas: nat, hosts: set<string>, r: Ring)
    requires IsRing(hash, replicas, hosts, r)
    ensures |r.keys| > 0 ==> hosts != {}
  {
    if |r.keys| > 0 {
      assert Owned(hash, replicas, hosts, r.keys[0]);
      var h :| h in hosts && Owns(hash, replicas, h, r.keys[0]);
    }
  }

  lemma RemovedCount(hash: Hash, replicas: nat, hosts: set<string>, r: Ring, host: string)
    requires IsRing(hash, replicas, hosts, r) && host in hosts && CollisionFree(hash, replicas, hosts)
    ensures var w := Removed(r, Points(hash, replicas, host)); w.Some? && |r.keys| == |w.value.keys| + replicas
  {
    PointsDistinct(hash, replicas, hosts, host);
    PointsWithin(hash, replicas, hosts, r, host);
    RemovedPresent(r, Points(hash, replicas, host));
    var w := Removed(r, Points(hash, replicas, host)).value;
    assert |multiset(w.keys)| == |multiset(r.keys)| - replicas;
  }

  // ---- the ring a balancer is created with

  function AddedAll(hash: Hash, replicas: nat, hosts: seq<string>): Ring {
    if hosts == [] then EMPTY
    else
      var h := hosts[|hosts| - 1];
      Added(AddedAll(hash, replicas, hosts[..|hosts| - 1]), Points(hash, replicas, h), h)
  }

  ghost function Named(hosts: seq<string>): set<string> {
    set h | h in hosts
  }

  lemma FreeWithin(hash: Hash, replicas: nat, universe: set<string>, hosts: set<string>)
    requires CollisionFree(hash, replicas, universe) && hosts <= universe
    ensures CollisionFree(hash, replicas, hosts)
  {
  }

  lemma NamedLast(hosts: seq<string>)
    requires hosts != []
    ensures Named(hosts) == Named(hosts[..|hosts| - 1]) + {hosts[|hosts| - 1]}
    ensures NoRepeats(hosts) <==> NoRepeats(hosts[..|hosts| - 1]) && hosts[|hosts| - 1] !in hosts[..|hosts| - 1]
  {
    LastApart(hosts);
    if NoRepeats(hosts[..|hosts| - 1]) && hosts[|hosts| - 1] !in hosts[..|hosts| - 1] {
      forall i, j | 0 <= i < j < |hosts| ensures hosts[i] != hosts[j] {
        assert hosts[i] == hosts[..|hosts| - 1][i];
      }
    }
  }

  /** Adding distinct hosts one after the other gives the ring of their set. */
  lemma {:induction false} AddedAllIsRing(hash: Hash, replicas: nat, hosts: seq<string>)
    requires CollisionFree(hash, replicas, Named(hosts)) && NoRepeats(hosts)
    ensures IsRing(hash, replicas, Named(hosts), AddedAll(hash, replicas, hosts))
  {
    if hosts == [] {
      EmptyIsRing(hash, replicas);
      assert Named(hosts) == {};
    } else {
      var front := hosts[..|hosts| - 1];
      NamedLast(hosts);
      FreeWithin(hash, replicas, Named(hosts), Named(front));
      AddedAllIsRing(hash, replicas, front);
      AddedIsRing(hash, replicas, Named(front), AddedAll(hash, replicas, front), hosts[|hosts| - 1]);
    }
  }

  lemma AddedSize(r: Ring, points: seq<int>, host: string)
    ensures |Added(r, points, host).keys| == |r.keys| + |points|
  {
    var sorted := SortInts(r.keys + points);
    assert |multiset(sorted)| == |sorted|;
    assert |multiset(r.keys + points)| == |r.keys + points|;
  }

  lemma {:induction false} AddedAllSize(hash: Hash, replicas: nat, hosts: seq<string>)
    ensures |AddedAll(hash, replicas, hosts).keys| == replicas * |hosts|
  {
    if hosts != [] {
      var n := |hosts| - 1;
      AddedAllSize(hash, replicas, hosts[..n]);
      AddedSize(AddedAll(hash, replicas, hosts[..n]), Points(hash, replicas, hosts[n]), hosts[n]);
      OneMoreRound(replicas, n);
    }
  }

  lemma OneMoreRound(k: nat, n: nat)
    ensures k * (n + 1) == k * n + k
  {
  }

  lemma {:induction false} NamedSize(hosts: seq<string>)
    ensures |Named(hosts)| <= |hosts|
    ensures |Named(hosts)| == |hosts| <==> NoRepeats(hosts)
  {
    if hosts == [] {
      assert Named(hosts) == {};
    } else {
      NamedLast(hosts);
      NamedSize(hosts[..|hosts| - 1]);
    }
  }

  /** The balancer a proxy starts with is the ring of its hosts exactly when no host is named twice. */
  lemma AddedAllIsRingIff(hash: Hash, replicas: nat, hosts: seq<string>)
    requires CollisionFree(hash, replicas, Named(hosts)) && replicas > 0
    ensures IsRing(hash, replicas, Named(hosts), AddedAll(hash, replicas, hosts)) <==> NoRepeats(hosts)
  {
    if NoRepeats(hosts) {
      AddedAllIsRing(hash, replicas, hosts);
    } else if IsRing(hash, replicas, Named(hosts), AddedAll(hash, replicas, hosts)) {
      RingSize(hash, replicas, Named(hosts), AddedAll(hash, replicas, hosts));
      AddedAllSize(hash, replicas, hosts);
      NamedSize(hosts);
      Fewer(replicas, |Named(hosts)|, |hosts|);
      assert false;
    }
  }

  lemma Fewer(k: nat, m: nat, n: nat)
    requires k > 0 && m < n
    ensures k * m < k * n
  {
  }

  // ---- a host added while it is there

  /** The key that a search ends at, by what it is among the keys. */
  lemma PickedKey(s: seq<int>, x: int)
    requires Sorted(s) && s != []
    ensures var p := s[LowerBound(s, x) % |s|];
            p in s && forall q :: q in s ==> if p >= x then q < x || p <= q else q < x && p <= q
  {
    WrapIndex(LowerBound(s, x), |s|);
  }

  lemma SameSetSamePick(s: seq<int>, t: seq<int>, x: int)
    requires Sorted(s) && Sorted(t) && s != [] && t != [] && forall p :: p in s <==> p in t
    ensures s[LowerBound(s, x) % |s|] == t[LowerBound(t, x) % |t|]
  {
    PickedKey(s, x);
    PickedKey(t, x);
  }

  lemma AddedPresent(hash: Hash, replicas: nat, hosts: set<string>, r: Ring, host: string)
    requires IsRing(hash, replicas, hosts, r) && host in hosts
    ensures var a := Added(r, Points(hash, replicas, host), host); a.hosts == r.hosts && forall p :: p in a.keys <==> p in r.keys
  {
    var points := Points(hash, replicas, host);
    var a := Added(r, points, host);
    forall p | p in points ensures p in r.keys && p in r.hosts && r.hosts[p] == host {
      assert Owns(hash, replicas, host, p) && Owned(hash, replicas, hosts, p);
    }
    forall p ensures p in a.keys <==> p in r.keys {
      assert p in a.keys <==> p in multiset(a.keys);
      assert p in multiset(r.keys + points) <==> p in r.keys + points;
    }
  }

  /** Adding a host that is there changes no pick; it is the removal that then leaves points without an owner. */
  lemma AddedTwiceIsUnseen(hash: Hash, replicas: nat, hosts: set<string>, r: Ring, host: string, x: int)
    requires IsRing(hash, replicas, hosts, r) && host in hosts
    ensures Balanced(Added(r, Points(hash, replicas, host), host), x) == Balanced(r, x)
  {
    var a := Added(r, Points(hash, replicas, host), host);
    AddedPresent(hash, replicas, hosts, r, host);
    SomeIn(r.keys, a.keys);
    SomeIn(a.keys, r.keys);
    if r.keys != [] { SameSetSamePick(r.keys, a.keys, x); }
  }
}
