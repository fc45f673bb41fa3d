/** Rings on which a host may be added again while it is there, as it is when an addition is made and then applied
    from the log: how many copies of its points there are, and when points are left that nobody owns. */
module RingCounts {
  import opened Text
  import opened Ring
  import opened RingHistory

  /** Additions of a host less removals. */
  ghost function Copies(moves: seq<Move>, h: string): int {
    if moves == [] then 0
    else
      var before := Copies(moves[..|moves| - 1], h);
      match moves[|moves| - 1]
      case Join(g) => if g == h then before + 1 else before
      case Leave(g) => if g == h then before - 1 else before
  }

  /** Whether the last move of a host was an addition. */
  ghost predicate OwnedLast(moves: seq<Move>, h: string) {
    moves != [] &&
    match moves[|moves| - 1]
    case Join(g) => g == h || OwnedLast(moves[..|moves| - 1], h)
    case Leave(g) => g != h && OwnedLast(moves[..|moves| - 1], h)
  }

  /** Every removal finds a copy of its host. */
  ghost predicate Sound(universe: set<string>, moves: seq<Move>) {
    moves == [] ||
    (Sound(universe, moves[..|moves| - 1]) && moves[|moves| - 1].host in universe &&
     (moves[|moves| - 1].Leave? ==> Copies(moves[..|moves| - 1], moves[|moves| - 1].host) > 0))
  }

  ghost predicate CountedAt(hash: Hash, replicas: nat, universe: set<string>, moves: seq<Move>, r: Ring, h: string, p: int) {
    h in universe && Owns(hash, replicas, h, p) ==>
      && multiset(r.keys)[p] == Copies(moves, h)
      && (p in r.hosts <==> OwnedLast(moves, h))
      && (p in r.hosts ==> r.hosts[p] == h)
  }

  /** Each point of a host is there as often as the host has copies, and owned when its last move was an addition. */
  ghost predicate IsCounted(hash: Hash, replicas: nat, universe: set<string>, moves: seq<Move>, r: Ring) {
    && Sorted(r.keys)
    && (forall h, p {:trigger CountedAt(hash, replicas, universe, moves, r, h, p)} :: CountedAt(hash, replicas, universe, moves, r, h, p))
    && (forall p {:trigger Owned(hash, replicas, universe, p)} :: p in r.keys || p in r.hosts ==> Owned(hash, replicas, universe, p))
  }

  lemma PointCount(hash: Hash, replicas: nat, universe: set<string>, h: string, p: int)
    requires CollisionFree(hash, replicas, universe) && h in universe
    ensures multiset(Points(hash, replicas, h))[p] == if Owns(hash, replicas, h, p) then 1 else 0
  {
    PointsDistinct(hash, replicas, universe, h);
    DistinctCount(Points(hash, replicas, h), p);
  }

  lemma AddedCount(hash: Hash, replicas: nat, universe: set<string>, r: Ring, g: string, p: int)
    requires CollisionFree(hash, replicas, universe) && g in universe
    ensures var w := Added(r, Points(hash, replicas, g), g);
            && multiset(w.keys)[p] == multiset(r.keys)[p] + (if Owns(hash, replicas, g, p) then 1 else 0)
            && (p in w.hosts <==> p in r.hosts || Owns(hash, replicas, g, p))
            && (p in w.hosts ==> w.hosts[p] == if Owns(hash, replicas, g, p) then g else r.hosts[p])
  {
    PointCount(hash, replicas, universe, g, p);
    var points := Points(hash, replicas, g);
    assert multiset(SortInts(r.keys + points)) == multiset(r.keys) + multiset(points);
  }

  lemma JoinCounted(hash: Hash, replicas: nat, universe: set<string>, moves: seq<Move>, r: Ring, g: string)
    requires CollisionFree(hash, replicas, universe) && g in universe && IsCounted(hash, replicas, universe, moves, r)
    ensures IsCounted(hash, replicas, universe, moves + [Join(g)], Added(r, Points(hash, replicas, g), g))
  {
    var more, w := moves + [Join(g)], Added(r, Points(hash, replicas, g), g);
    assert more[..|more| - 1] == moves;
    forall h, p ensures CountedAt(hash, replicas, universe, more, w, h, p) {
      assert CountedAt(hash, replicas, universe, moves, r, h, p);
      AddedCount(hash, replicas, universe, r, g, p);
      if h in universe && Owns(hash, replicas, h, p) && Owns(hash, replicas, g, p) { OneOwner(hash, replicas, universe, g, h, p); }
    }
    forall p | p in w.keys || p in w.hosts ensures Owned(hash, replicas, universe, p) {
      AddedCount(hash, replicas, universe, r, g, p);
      assert p in w.keys <==> multiset(w.keys)[p] > 0;
      assert p in r.keys <==> multiset(r.keys)[p] > 0;
      if Owns(hash, replicas, g, p) { assert Owned(hash, replicas, universe, p); }
    }
  }

  lemma PointsThere(hash: Hash, replicas: nat, universe: set<string>, moves: seq<Move>, r: Ring, g: string)
    requires CollisionFree(hash, replicas, universe) && g in universe && IsCounted(hash, replicas, universe, moves, r) && Copies(moves, g) > 0
    ensures multiset(Points(hash, replicas, g)) <= multiset(r.keys)
  {
    forall p ensures multiset(Points(hash, replicas, g))[p] <= multiset(r.keys)[p] {
      PointCount(hash, replicas, universe, g, p);
      assert CountedAt(hash, replicas, universe, moves, r, g, p);
    }
  }

  lemma LeaveCounted(hash: Hash, replicas: nat, universe: set<string>, moves: seq<Move>, r: Ring, g: string)
    requires CollisionFree(hash, replicas, universe) && g in universe && IsCounted(hash, replicas, universe, moves, r) && Copies(moves, g) > 0
    ensures var w := Removed(r, Points(hash, replicas, g));
            w.Some? && IsCounted(hash, replicas, universe, moves + [Leave(g)], w.value)
  {
    var points := Points(hash, replicas, g);
    PointsThere(hash, replicas, universe, moves, r, g);
    RemovedPresent(r, points);
    var more, w := moves + [Leave(g)], Removed(r, points).value;
    assert more[..|more| - 1] == moves;
    forall h, p ensures CountedAt(hash, replicas, universe, more, w, h, p) {
      assert CountedAt(hash, replicas, universe, moves, r, h, p);
      PointCount(hash, replicas, universe, g, p);
      if h in universe && Owns(hash, replicas, h, p) && Owns(hash, replicas, g, p) { OneOwner(hash, replicas, universe, g, h, p); }
    }
    forall p | p in w.keys || p in w.hosts ensures Owned(hash, replicas, universe, p) {
      assert p in w.keys <==> multiset(w.keys)[p] > 0;
      assert p in r.keys <==> multiset(r.keys)[p] > 0;
    }
  }

  /** Every history in which removals find a copy runs through, and ends with the copies and owners its moves leave. */
  lemma {:induction false} RunIsCounted(hash: Hash, replicas: nat, universe: set<string>, moves: seq<Move>)
    requires CollisionFree(hash, replicas, universe) && Sound(universe, moves)
    ensures RingAfter(hash, replicas, EMPTY, moves).Some?
    ensures IsCounted(hash, replicas, universe, moves, RingAfter(hash, replicas, EMPTY, moves).value)
  {
    if moves != [] {
      var n := |moves| - 1;
      RunIsCounted(hash, replicas, universe, moves[..n]);
      var r := RingAfter(hash, replicas, EMPTY, moves[..n]).value;
      LastApart(moves);
      match moves[n]
      case Join(g) => JoinCounted(hash, replicas, universe, moves[..n], r, g);
      case Leave(g) => LeaveCounted(hash, replicas, universe, moves[..n], r, g);
    }
  }

  /** Points that nobody owns are left exactly when some host has copies but its last move was a removal. */
  lemma UnownedIff(hash: Hash, replicas: nat, universe: set<string>, moves: seq<Move>)
    requires CollisionFree(hash, replicas, universe) && Sound(universe, moves) && replicas > 0
    ensures RingAfter(hash, replicas, EMPTY, moves).Some?
    ensures var r := RingAfter(hash, replicas, EMPTY, moves).value;
            (exists p :: p in r.keys && p !in r.hosts) <==> exists h :: h in universe && Copies(moves, h) > 0 && !OwnedLast(moves, h)
  {
    RunIsCounted(hash, replicas, universe, moves);
    var r := RingAfter(hash, replicas, EMPTY, moves).value;
    if p :| p in r.keys && p !in r.hosts {
      assert Owned(hash, replicas, universe, p);
      var h :| h in universe && Owns(hash, replicas, h, p);
      assert CountedAt(hash, replicas, universe, moves, r, h, p);
      assert multiset(r.keys)[p] > 0;
    }
    if h :| h in universe && Copies(moves, h) > 0 && !OwnedLast(moves, h) {
      var p := Point(hash, 0, h);
      assert Points(hash, replicas, h)[0] == p && Owns(hash, replicas, h, p);
      assert CountedAt(hash, replicas, universe, moves, r, h, p);
      assert p in r.keys <==> multiset(r.keys)[p] > 0;
    }
  }
}
