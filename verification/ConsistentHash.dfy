/** The consistent-hash balancer: an object holding a ring, changed in place replica by replica. */
module ConsistentHash {
  import opened Text
  import opened Ring
  import opened RingHistory

  class ConsistenceHash {
    const hash: Hash
    const replicas: nat
    var keys: seq<int>
    var hosts: map<int, string>

    ghost function Now(): Ring
      reads this
    {
      Ring(keys, hosts)
    }

    ghost predicate Valid()
      reads this
    {
      Sorted(keys)
    }

    constructor (hash: Hash, replicas: nat, hosts: seq<string>)
      ensures Valid() && this.hash == hash && this.replicas == replicas
      ensures Now() == AddedAll(hash, replicas, hosts)
      ensures CollisionFree(hash, replicas, Named(hosts)) && replicas > 0 ==> (IsRing(hash, replicas, Named(hosts), Now()) <==> NoRepeats(hosts))
    {
      this.hash, this.replicas := hash, replicas;
      this.keys, this.hosts := [], map[];
      new;
      for i := 0 to |hosts|
        invariant Valid() && Now() == AddedAll(hash, replicas, hosts[..i])
      {
        Add(hosts[i]);
        assert hosts[..i + 1][..i] == hosts[..i];
      }
      assert hosts[..|hosts|] == hosts;
      if CollisionFree(hash, replicas, Named(hosts)) && replicas > 0 { AddedAllIsRingIff(hash, replicas, hosts); }
    }

    method Add(host: string)
      requires Valid()
      modifies this
      ensures Valid()
      ensures Now() == Added(old(Now()), Points(hash, replicas, host), host)
      ensures forall i: nat :: i < replicas ==> OwnedBy(hash(Itoa(i) + host), host)
    {
      ghost var before := Now();
      ghost var points := Points(hash, replicas, host);
      for i := 0 to replicas
        invariant keys == old(keys) + points[..i]
        invariant hosts == Owning(old(hosts), points[..i], host)
      {
        var h := Point(hash, i, host);
        keys := keys + [h];
        hosts := hosts[h := host];
        OwningOneMore(old(hosts), points, i, host);
      }
      assert points[..replicas] == points;
      keys := SortInts(keys);
      forall i: nat | i < replicas ensures OwnedBy(hash(Itoa(i) + host), host) { AddedPoints(before, hash, replicas, host, i); }
    }

    ghost predicate OwnedBy(point: int, host: string)
      reads this
    {
      point in keys && point in hosts && hosts[point] == host
    }

    /** Fails, with the keys it has already dropped gone, when the search for a point ends beyond the last key. */
    method Remove(host: string) returns (ok: bool)
      requires Valid()
      modifies this
      ensures ok <==> Removed(old(Now()), Points(hash, replicas, host)).Some?
      ensures ok ==> Valid() && Removed(old(Now()), Points(hash, replicas, host)) == Some(Now())
    {
      ghost var points := Points(hash, replicas, host);
      for i := 0 to replicas
        invariant Valid() && Removed(old(Now()), points[..i]) == Some(Now())
      {
        var h := Point(hash, i, host);
        NextPoint(points, i);
        var idx := Search(keys, h);
        if idx == |keys| {
          StaysRefused(old(Now()), points, i + 1);
          return false;
        }
        CutSorted(keys, idx);
        keys := keys[..idx] + keys[idx + 1..];
        hosts := hosts - {h};
      }
      assert points[..replicas] == points;
      return true;
    }

    method Balance(url: string) returns (host: Option<string>)
      requires Valid()
      ensures host == Balanced(Now(), hash(url))
    {
      if |keys| == 0 {
        return None;
      }
      var idx := Search(keys, hash(url));
      var key := keys[idx % |keys|];
      return Some(if key in hosts then hosts[key] else "");
    }

    /** On the ring of a set of hosts, replicas times their number. */
    method Len() returns (n: nat)
      ensures n == |Now().hosts|
      ensures forall names: set<string> :: IsRing(hash, replicas, names, Now()) && CollisionFree(hash, replicas, names) ==> n == replicas * |names|
    {
      forall names: set<string> | IsRing(hash, replicas, names, Now()) && CollisionFree(hash, replicas, names) ensures |hosts| == replicas * |names| {
        RingSize(hash, replicas, names, Now());
      }
      return |hosts|;
    }
  }

  lemma OwningOneMore(hosts: map<int, string>, points: seq<int>, i: nat, host: string)
    requires i < |points|
    ensures points[..i + 1] == points[..i] + [points[i]]
    ensures Owning(hosts, points[..i + 1], host) == Owning(hosts, points[..i], host)[points[i] := host]
  {
  }

  lemma CutSorted(s: seq<int>, i: nat)
    requires Sorted(s) && i < |s|
    ensures Sorted(s[..i] + s[i + 1..])
  {
  }

  lemma NextPoint(points: seq<int>, i: nat)
    requires i < |points|
    ensures points[..i + 1][..i] == points[..i] && points[..i + 1][i] == points[i] && |points[..i + 1]| == i + 1
  {
  }

  lemma {:induction false} StaysRefused(r: Ring, points: seq<int>, n: nat)
    requires n <= |points| && Removed(r, points[..n]).None?
    ensures Removed(r, points).None?
    decreases |points|
  {
    if n < |points| {
      assert points[..|points| - 1][..n] == points[..n];
      StaysRefused(r, points[..|points| - 1], n);
    } else {
      assert points[..n] == points;
    }
  }

  /** The library's binary search for the first key not below `x`. */
  method Search(keys: seq<int>, x: int) returns (index: nat)
    requires Sorted(keys)
    ensures index == LowerBound(keys, x)
  {
    var i, j := 0, |keys|;
    while i < j
      invariant 0 <= i <= j <= |keys|
      invariant i <= LowerBound(keys, x) <= j
    {
      var h := (i + j) / 2;
      if keys[h] < x {
        BelowBound(keys, x, h);
        i := h + 1;
      } else {
        j := h;
      }
    }
    return i;
  }

  lemma {:induction false} BelowBound(keys: seq<int>, x: int, h: nat)
    requires Sorted(keys) && h < |keys| && keys[h] < x
    ensures h < LowerBound(keys, x)
  {
    if h > 0 {
      assert keys[0] <= keys[h];
      BelowBound(keys[1..], x, h - 1);
    }
  }
}
