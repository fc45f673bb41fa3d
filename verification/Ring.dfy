/** The consistent-hash ring without its object: sorted virtual points and their owners, what adding and
    removing a host do to them, and which host a key is sent to. */
module Ring {
  import opened Text

  /** The hash function, of which nothing is known. */
  type Hash = string -> nat

  datatype Ring = Ring(keys: seq<int>, hosts: map<int, string>)

  const EMPTY := Ring([], map[])

  function Point(hash: Hash, i: nat, host: string): int {
    hash(Itoa(i) + host)
  }

  /** The virtual points of a host, one a replica. */
  function Points(hash: Hash, replicas: nat, host: string): (points: seq<int>)
    ensures |points| == replicas
    ensures forall i :: 0 <= i < replicas ==> points[i] == Point(hash, i, host)
  {
    seq(replicas, (i: int) requires 0 <= i < replicas => Point(hash, i, host))
  }

  // ---- sorting and searching

  ghost predicate Sorted(s: seq<int>) {
    forall i, j :: 0 <= i < j < |s| ==> s[i] <= s[j]
  }

  function Placed(s: seq<int>, x: int): (r: seq<int>)
    ensures |r| == |s| + 1 && multiset(r) == multiset(s) + multiset{x}
  {
    if s == [] then [x]
    else if x <= s[0] then [x] + s
    else (assert s == [s[0]] + s[1..]; [s[0]] + Placed(s[1..], x))
  }

  lemma {:induction false} PlacedSorted(s: seq<int>, x: int)
    requires Sorted(s)
    ensures Sorted(Placed(s, x))
  {
    if s != [] && x > s[0] {
      var rest := Placed(s[1..], x);
      PlacedSorted(s[1..], x);
      forall e | e in rest ensures s[0] <= e {
        assert e in multiset(rest);
        assert e == x || e in multiset(s[1..]);
      }
      assert forall i :: 0 <= i < |rest| ==> rest[i] in rest;
    }
  }

  function SortInts(s: seq<int>): (r: seq<int>)
    ensures Sorted(r) && multiset(r) == multiset(s)
  {
    if s == [] then []
    else
      assert s == [s[0]] + s[1..];
      PlacedSorted(SortInts(s[1..]), s[0]);
      Placed(SortInts(s[1..]), s[0])
  }

  /** The number of leading elements below `x`: in a sorted sequence, the first index not below it. */
  function LowerBound(s: seq<int>, x: int): (i: nat)
    ensures i <= |s|
    ensures forall j :: 0 <= j < i ==> s[j] < x
    ensures i < |s| ==> s[i] >= x
  {
    if s == [] || s[0] >= x then 0 else 1 + LowerBound(s[1..], x)
  }

  /** Sorting has one result. */
  lemma {:induction false} SortedOnce(s: seq<int>, t: seq<int>)
    requires Sorted(s) && Sorted(t) && multiset(s) == multiset(t)
    ensures s == t
  {
    assert |s| == |multiset(s)| && |t| == |multiset(t)|;
    if s != [] {
      FirstIsLeast(s, t);
      FirstIsLeast(t, s);
      TailMultiset(s);
      TailMultiset(t);
      SortedOnce(s[1..], t[1..]);
      assert s == [s[0]] + s[1..] && t == [t[0]] + t[1..];
    }
  }

  lemma FirstIsLeast(s: seq<int>, t: seq<int>)
    requires Sorted(s) && s != [] && t != [] && multiset(s) == multiset(t)
    ensures s[0] <= t[0]
  {
    assert t[0] in multiset(t);
    var i :| 0 <= i < |s| && s[i] == t[0];
  }

  lemma TailMultiset(s: seq<int>)
    requires s != []
    ensures multiset(s[1..]) == multiset(s) - multiset{s[0]}
  {
    assert s == [s[0]] + s[1..];
  }

  // ---- the operations

  function Owning(hosts: map<int, string>, points: seq<int>, host: string): (m: map<int, string>)
    ensures m.Keys == hosts.Keys + set p | p in points
    ensures forall p :: p in m ==> m[p] == if p in points then host else hosts[p]
  {
    hosts + map p | p in points :: host
  }

  function Added(r: Ring, points: seq<int>, host: string): Ring {
    Ring(SortInts(r.keys + points), Owning(r.hosts, points, host))
  }

  /** A host owns the hash of each replica's number written before its name. */
  lemma AddedPoints(r: Ring, hash: Hash, replicas: nat, host: string, i: nat)
    requires i < replicas
    ensures var t, x := Added(r, Points(hash, replicas, host), host), hash(Itoa(i) + host);
            x in t.keys && x in t.hosts && t.hosts[x] == host
  {
    var points := Points(hash, replicas, host);
    assert points[i] == Point(hash, i, host);
    assert points[i] in multiset(r.keys + points);
  }

  /** One removal: whatever sits at the index of the search goes; beyond the last index the slice is refused. */
  function RemovedOne(r: Ring, point: int): Option<Ring> {
    var i := LowerBound(r.keys, point);
    if i == |r.keys| then None else Some(Ring(r.keys[..i] + r.keys[i + 1..], r.hosts - {point}))
  }

  function Removed(r: Ring, points: seq<int>): Option<Ring> {
    if points == [] then Some(r)
    else
      match Removed(r, points[..|points| - 1])
      case None => None
      case Some(before) => RemovedOne(before, points[|points| - 1])
  }

  /** The owner of the first point not below the hash, around the end; an unowned point gives the empty name. */
  function Balanced(r: Ring, h: int): Option<string> {
    if r.keys == [] then None
    else
      var key := r.keys[LowerBound(r.keys, h) % |r.keys|];
      Some(if key in r.hosts then r.hosts[key] else "")
  }

  lemma DropOne(s: seq<int>, i: nat)
    requires i < |s|
    ensures multiset(s[..i] + s[i + 1..]) == multiset(s) - multiset{s[i]}
  {
    assert s == s[..i] + ([s[i]] + s[i + 1..]);
  }

  lemma FoundAtLowerBound(s: seq<int>, x: int)
    requires Sorted(s) && x in s
    ensures LowerBound(s, x) < |s| && s[LowerBound(s, x)] == x
  {
    var j :| 0 <= j < |s| && s[j] == x;
  }

  lemma RemovedOnePresent(r: Ring, point: int)
    requires Sorted(r.keys) && point in r.keys
    ensures var w := RemovedOne(r, point);
            && w.Some? && Sorted(w.value.keys) && multiset(w.value.keys) == multiset(r.keys) - multiset{point}
            && w.value.hosts == r.hosts - {point}
  {
    FoundAtLowerBound(r.keys, point);
    DropOne(r.keys, LowerBound(r.keys, point));
  }

  lemma {:induction false} RemovedPresent(r: Ring, points: seq<int>)
    requires Sorted(r.keys) && multiset(points) <= multiset(r.keys)
    ensures var w := Removed(r, points);
            && w.Some? && Sorted(w.value.keys) && multiset(w.value.keys) == multiset(r.keys) - multiset(points)
            && w.value.hosts == r.hosts - set p | p in points
  {
    if points != [] {
      var n := |points| - 1;
      LastPoint(points);
      RemovedPresent(r, points[..n]);
      var before := Removed(r, points[..n]).value;
      OneLeft(multiset(r.keys), multiset(points[..n]), points[n]);
      assert points[n] in multiset(before.keys);
      RemovedOnePresent(before, points[n]);
      WithoutBoth(r.hosts, (set p | p in points[..n]), points[n]);
    }
  }

  lemma WithoutBoth(hosts: map<int, string>, gone: set<int>, point: int)
    ensures hosts - gone - {point} == hosts - (gone + {point})
  {
  }

  lemma LastPoint(points: seq<int>)
    requires points != []
    ensures var n := |points| - 1;
            multiset(points) == multiset(points[..n]) + multiset{points[n]}
            && (set p | p in points) == (set p | p in points[..n]) + {points[n]}
  {
    assert points == points[..|points| - 1] + [points[|points| - 1]];
  }

  lemma OneLeft(keys: multiset<int>, gone: multiset<int>, point: int)
    requires gone + multiset{point} <= keys
    ensures point in keys - gone && gone <= keys && keys - gone - multiset{point} == keys - (gone + multiset{point})
  {
    assert (gone + multiset{point})[point] <= keys[point];
    forall x ensures gone[x] <= keys[x] { assert (gone + multiset{point})[x] <= keys[x]; }
  }

  lemma RemoveAfterAdd(r: Ring, points: seq<int>, host: string)
    requires Sorted(r.keys)
    ensures var w := Removed(Added(r, points, host), points);
            w.Some? && w.value.keys == r.keys && w.value.hosts == Added(r, points, host).hosts - set p | p in points
  {
    var a := Added(r, points, host);
    assert multiset(a.keys) == multiset(r.keys) + multiset(points);
    RemovedPresent(a, points);
    SortedOnce(Removed(a, points).value.keys, r.keys);
  }

  /** Removing what was just added gives the ring back exactly when none of its points was owned before. */
  lemma RemoveUndoesAdd(r: Ring, points: seq<int>, host: string)
    requires Sorted(r.keys)
    ensures Removed(Added(r, points, host), points) == Some(r) <==> forall p :: p in points ==> p !in r.hosts
  {
    RemoveAfterAdd(r, points, host);
    var hosts := Added(r, points, host).hosts - set p | p in points;
    if forall p :: p in points ==> p !in r.hosts {
      assert hosts == r.hosts;
    } else {
      var p :| p in points && p in r.hosts;
      assert p !in hosts;
    }
  }
}
