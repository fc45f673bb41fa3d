/** The second loop of `insert`, seen from outside: which positions it fills, what it takes from the
    free list, and when the links left in recycled nodes are all overwritten. */
module TrieGrowth {
  import opened Words
  import opened TrieShape

  /** How deep the trie already goes along `route`, looking no further than `n` levels. */
  ghost function Reach(taken: set<Path>, route: Route, n: nat): (d: nat)
    requires n <= 32
    ensures d <= n
  {
    if n == 0 || Walk(route, n) in taken then n else Reach(taken, route, n - 1)
  }

  ghost predicate OnRoute(route: Route, p: Path, from: nat, to: nat) {
    from < p.Depth() <= to && p.Depth() <= 32 && p == Walk(route, p.Depth())
  }

  /** Which of the nodes about to be recycled would keep a stale `right` link: none.
      With `spare` nodes on the free list, levels `from`+1 up to `from`+`spare`-1 come with one; each of
      them must get a right child, so the route must have a further bit there, and that bit must be set. */
  ghost predicate SafeReuse(spare: nat, route: Route, from: nat, to: nat)
    requires to <= 32
  {
    from == to || forall i {:trigger route[i]} :: from < i < from + spare ==> i < to && route[i]
  }

  lemma {:induction false} ReachStops(at: Layout, route: Route, n: nat, i: nat)
    requires Closed(at) && n <= 32 && i <= n
    ensures Walk(route, i) in at <==> i <= Reach(at.Keys, route, n)
  {
    if i == n && n > 0 && Walk(route, n) !in at {
    } else if n == 0 || Walk(route, n) in at {
      RouteIsClosed(at, route, n, i);
    } else {
      ReachStops(at, route, n - 1, i);
    }
  }

  lemma ReachIs(v: View, route: Route, n: nat, d: nat)
    requires IsTrie(v) && d <= n <= 32 && Walk(route, d) in v.at && (d < n ==> Walk(route, d + 1) !in v.at)
    ensures Reach(v.at.Keys, route, n) == d
    ensures forall i: nat :: d < i <= n ==> Walk(route, i) !in v.at
  {
    var at := v.at;
    assert v.Shape(map[]);
    ReachStops(at, route, n, d);
    if d < n { ReachStops(at, route, n, d + 1); }
    forall i: nat | d < i <= n ensures Walk(route, i) !in at { ReachStops(at, route, n, i); }
  }

  lemma {:induction false} RouteIsClosed(at: Layout, route: Route, n: nat, i: nat)
    requires Closed(at) && n <= 32 && i <= n && Walk(route, n) in at
    ensures Walk(route, i) in at
  {
    if i < n {
      assert ClosedAt(at, Walk(route, n));
      RouteIsClosed(at, route, n - 1, i);
    }
  }

  /** Between `v0`, where the route is matched down to level `from`, and `v`, where it reaches level `d`. */
  ghost predicate Growing(v0: View, v: View, over: Layout, route: Route, from: nat, d: nat) {
    from <= d <= 32 && GrownHeap(v0, v, over, route, from, d) && GrownPlaces(v0, v, over, route, from, d)
  }

  /** The heap is in shape, but for the links in `over`, and stores what it stored. */
  ghost predicate GrownHeap(v0: View, v: View, over: Layout, route: Route, from: nat, d: nat)
    requires d <= 32
  {
    && v.Shape(over) && over.Keys <= v.at.Keys
    && Store(v) == Store(v0)
    && (Tight(v0) ==> TightBut(v, Walk(route, d)))
    && Allocated(v0, v, d - from)
  }

  /** Which positions were filled, what was taken from the free list, and which links are left from there. */
  ghost predicate GrownPlaces(v0: View, v: View, over: Layout, route: Route, from: nat, d: nat)
    requires d <= 32
  {
    && (forall p :: p in v.at <==> p in v0.at || OnRoute(route, p, from, d))
    && |v.pool| == (if |v0.pool| < d - from then 0 else |v0.pool| - (d - from))
    && (forall p :: p in over ==> OnRoute(route, p, from, d))
    && (forall i: nat {:trigger Left(v0, v, over, route, from, d, i)} :: from < i <= d ==> Left(v0, v, over, route, from, d, i))
  }

  /** Every node of before is still accounted for, and new ones were allocated only when no spare one was left. */
  ghost predicate Allocated(v0: View, v: View, made: int) {
    && v0.slot.Keys <= v.slot.Keys
    && |v.slot| == |v0.slot| + if made <= |v0.pool| then 0 else made - |v0.pool|
  }

  lemma StepAllocated(v0: View, v: View, made: nat, next: RadixNode, p: Path)
    requires Allocated(v0, v, made) && |v.pool| == (if |v0.pool| < made then 0 else |v0.pool| - made)
    requires if |v.pool| == 0 then next !in v.slot else next in v.slot
    ensures v0.slot.Keys <= v.slot[next := InTrie(p)].Keys
    ensures |v.slot[next := InTrie(p)]| == |v0.slot| + if made + 1 <= |v0.pool| then 0 else made + 1 - |v0.pool|
  {
    if |v.pool| > 0 { assert v.slot[next := InTrie(p)].Keys == v.slot.Keys; }
    assert |v.slot| == |v.slot.Keys| && |v.slot[next := InTrie(p)]| == |v.slot[next := InTrie(p)].Keys|;
    assert v.slot[next := InTrie(p)].Keys == v.slot.Keys + {next};
  }

  /** `Growing`, unfolded only where it is itself mentioned. */
  ghost predicate GrownTo(v0: View, v: View, over: Layout, route: Route, from: nat, d: nat) {
    forall e: nat {:trigger Growing(v0, v, over, route, from, e)} :: e == d ==> Growing(v0, v, over, route, from, e)
  }

  ghost predicate Left(v0: View, v: View, over: Layout, route: Route, from: nat, d: nat, i: nat)
    requires i <= d <= 32 && from <= i
  {
    var p := Walk(route, i);
    && (p in over <==> i - from < |v0.pool|)
    && (p in over ==> over[p] == if i < d then At(v.at, Walk(route, i + 1)) else v.free)
  }

  lemma StepDown(v: View, route: Route, d: nat)
    requires v.Shape(map[]) && d < 32 && Walk(route, d) in v.at
    ensures var n := v.at[Walk(route, d)];
            n in v.cells && (if route[d] then v.cells[n].right else v.cells[n].left) == At(v.at, Walk(route, d + 1))
  {
    assert LinkedAt(v.cells, v.at, map[], Walk(route, d));
  }

  ghost function GrowingStart(v: View, route: Route, from: nat): (over: Layout)
    requires IsTrie(v) && from <= 32 && Walk(route, from) in v.at
    ensures GrownTo(v, v, over, route, from, from)
  {
    assert v.Shape(map[]);
    map[]
  }

  /** What `AddChild` needs to know of the heap. */
  ghost predicate Pickable(v: View, q: Path) {
    && q in v.at && v.at[q] in v.cells && v.at[q] in v.slot
    && (v.free == null ==> |v.pool| == 0)
    && (v.free != null ==>
          && |v.pool| > 0 && v.free == Top(v.pool) && v.free in v.cells && v.free in v.slot && v.free != v.at[q]
          && v.cells[v.free].left == null && v.cells[v.free].right == Top(Popped(v.pool)))
  }

  lemma AlwaysPickable(v: View, over: Layout, q: Path)
    requires v.Shape(over) && q in v.at
    ensures Pickable(v, q)
  {
    assert LinkedAt(v.cells, v.at, over, q);
    if v.free != null { TopOfPool(v, over); }
  }

  ghost predicate CanStep(v0: View, v: View, over: Layout, route: Route, from: nat, d: nat, next: RadixNode) {
    && Growing(v0, v, over, route, from, d)
    && d < 32 && Walk(route, d) in v.at && v.at[Walk(route, d)] in v.cells && Walk(route, d + 1) !in v.at
    && if |v.pool| == 0 then next !in v.cells else next == Top(v.pool)
  }

  lemma Steppable(v0: View, v: View, over: Layout, route: Route, from: nat, d: nat)
    requires Growing(v0, v, over, route, from, d) && d < 32 && Walk(route, d) in v.at && Walk(route, d + 1) !in v0.at
    ensures Pickable(v, Walk(route, d))
    ensures forall next :: (if v.free == null then next !in v.cells else next == v.free) ==> CanStep(v0, v, over, route, from, d, next)
  {
    AlwaysPickable(v, over, Walk(route, d));
  }

  lemma NextIsNew(v: View, over: Layout, next: RadixNode)
    requires v.Shape(over)
    requires if |v.pool| == 0 then next !in v.cells else next == Top(v.pool)
    ensures next !in v.at.Values
  {
    if |v.pool| > 0 { TopOfPool(v, over); }
  }

  lemma NextIsKnown(v: View, over: Layout, next: RadixNode)
    requires v.Shape(over)
    requires if |v.pool| == 0 then next !in v.cells else next == Top(v.pool)
    ensures if |v.pool| == 0 then next !in v.slot else next in v.slot
  {
    if |v.pool| > 0 { TopOfPool(v, over); }
  }

  lemma StepLeft(v0: View, v: View, over: Layout, route: Route, from: nat, d: nat, next: RadixNode, i: nat)
    requires from < i <= d < 32 && Left(v0, v, over, route, from, d, i)
    requires Walk(route, d) in v.at && v.at[Walk(route, d)] in v.cells
    requires |v.pool| == (if |v0.pool| < d - from then 0 else |v0.pool| - (d - from))
    requires v.free == Top(v.pool) && (|v.pool| > 0 ==> next == v.free)
    ensures var q, b := Walk(route, d), route[d];
            Left(v0, Grown(v, q, b, next), GrownOver(v, q, b, over), route, from, d + 1, i)
  {
    var q, b := Walk(route, d), route[d];
    assert Step(q, b) == Walk(route, d + 1);
    assert Walk(route, d + 1).Depth() == d + 1 && Walk(route, i).Depth() == i && Walk(route, i + 1).Depth() == i + 1;
    assert At(Grown(v, q, b, next).at, Walk(route, i + 1)) == if i == d then next else At(v.at, Walk(route, i + 1));
  }

  lemma StepLeftLast(v0: View, v: View, over: Layout, route: Route, from: nat, d: nat, next: RadixNode)
    requires from <= d < 32 && Walk(route, d + 1) !in over
    requires Walk(route, d) in v.at && v.at[Walk(route, d)] in v.cells
    requires |v.pool| == (if |v0.pool| < d - from then 0 else |v0.pool| - (d - from))
    ensures var q, b := Walk(route, d), route[d];
            Left(v0, Grown(v, q, b, next), GrownOver(v, q, b, over), route, from, d + 1, d + 1)
  {
    assert Step(Walk(route, d), route[d]) == Walk(route, d + 1);
  }

  lemma StepLeftAny(v0: View, v: View, over: Layout, route: Route, from: nat, d: nat, next: RadixNode, i: nat)
    requires from < i <= d + 1 <= 32 && Walk(route, d + 1) !in over && (i <= d ==> Left(v0, v, over, route, from, d, i))
    requires Walk(route, d) in v.at && v.at[Walk(route, d)] in v.cells
    requires |v.pool| == (if |v0.pool| < d - from then 0 else |v0.pool| - (d - from))
    requires v.free == Top(v.pool) && (|v.pool| > 0 ==> next == v.free)
    ensures var q, b := Walk(route, d), route[d];
            Left(v0, Grown(v, q, b, next), GrownOver(v, q, b, over), route, from, d + 1, i)
  {
    if i <= d {
      StepLeft(v0, v, over, route, from, d, next, i);
    } else {
      StepLeftLast(v0, v, over, route, from, d, next);
    }
  }

  lemma StepOverKeys(v: View, over: Layout, route: Route, from: nat, d: nat)
    requires from <= d < 32 && forall p :: p in over ==> OnRoute(route, p, from, d)
    ensures var over' := GrownOver(v, Walk(route, d), route[d], over);
            forall p :: p in over' ==> OnRoute(route, p, from, d + 1)
  {
    assert Step(Walk(route, d), route[d]) == Walk(route, d + 1);
  }

  lemma StepPositions(v0: View, v: View, route: Route, from: nat, d: nat, next: RadixNode)
    requires from <= d < 32 && Walk(route, d) in v.at && v.at[Walk(route, d)] in v.cells
    requires forall p :: p in v.at <==> p in v0.at || OnRoute(route, p, from, d)
    ensures var w := Grown(v, Walk(route, d), route[d], next);
            forall p :: p in w.at <==> p in v0.at || OnRoute(route, p, from, d + 1)
  {
    var w := Grown(v, Walk(route, d), route[d], next);
    forall p ensures p in w.at <==> p in v0.at || OnRoute(route, p, from, d + 1) {
      assert OnRoute(route, p, from, d + 1) <==> OnRoute(route, p, from, d) || p == Walk(route, d + 1);
    }
  }

  lemma StepHeap(v0: View, v: View, over: Layout, route: Route, from: nat, d: nat, next: RadixNode)
    requires CanStep(v0, v, over, route, from, d, next)
    ensures var q, b := Walk(route, d), route[d];
            GrownHeap(v0, Grown(v, q, b, next), GrownOver(v, q, b, over), route, from, d + 1)
  {
    var q, b := Walk(route, d), route[d];
    assert Step(q, b) == Walk(route, d + 1);
    NextIsNew(v, over, next);
    NextIsKnown(v, over, next);
    StepAllocated(v0, v, d - from, next, Step(q, b));
    GrowShape(v, over, q, b, next);
    GrowStore(v, q, b, next);
    if Tight(v0) { GrowTight(v, q, b, next); }
  }

  lemma StepPlaces(v0: View, v: View, over: Layout, route: Route, from: nat, d: nat, next: RadixNode)
    requires from <= d < 32 && GrownPlaces(v0, v, over, route, from, d)
    requires Walk(route, d) in v.at && v.at[Walk(route, d)] in v.cells && Walk(route, d + 1) !in over
    requires v.free == Top(v.pool) && (|v.pool| > 0 ==> next == v.free)
    ensures var q, b := Walk(route, d), route[d];
            GrownPlaces(v0, Grown(v, q, b, next), GrownOver(v, q, b, over), route, from, d + 1)
  {
    var q, b := Walk(route, d), route[d];
    var w, over' := Grown(v, q, b, next), GrownOver(v, q, b, over);
    StepOverKeys(v, over, route, from, d);
    StepPositions(v0, v, route, from, d, next);
    forall i: nat {:trigger Left(v0, w, over', route, from, d + 1, i)} | from < i <= d + 1
      ensures Left(v0, w, over', route, from, d + 1, i)
    {
      assert i <= d ==> Left(v0, v, over, route, from, d, i);
      StepLeftAny(v0, v, over, route, from, d, next, i);
    }
  }

  lemma GrowingStep(v0: View, v: View, w: View, over: Layout, route: Route, from: nat, d: nat, next: RadixNode)
    returns (over': Layout)
    requires CanStep(v0, v, over, route, from, d, next)
    requires w == Grown(v, Walk(route, d), route[d], next)
    ensures Growing(v0, w, over', route, from, d + 1)
  {
    over' := GrownOver(v, Walk(route, d), route[d], over);
    StepHeap(v0, v, over, route, from, d, next);
    StepPlaces(v0, v, over, route, from, d, next);
  }

  lemma SafeAt(v0: View, v: View, over: Layout, route: Route, from: nat, to: nat, p: Path)
    requires from <= to <= 32 && GrownPlaces(v0, v, over, route, from, to) && SafeReuse(|v0.pool|, route, from, to)
    requires p in over
    ensures Step(p, true) in v.at
  {
    var i := p.Depth();
    assert OnRoute(route, p, from, to);
    assert Left(v0, v, over, route, from, to, i);
    assert route[i];
    assert Walk(route, i + 1) == Step(p, true);
    assert OnRoute(route, Walk(route, i + 1), from, to);
  }

  lemma SafeIsShape(v0: View, v: View, over: Layout, route: Route, from: nat, to: nat)
    requires Growing(v0, v, over, route, from, to) && SafeReuse(|v0.pool|, route, from, to)
    ensures v.Shape(map[])
  {
    forall p | p in v.at ensures LinkedAt(v.cells, v.at, map[], p) {
      assert LinkedAt(v.cells, v.at, over, p);
      if p in over { SafeAt(v0, v, over, route, from, to, p); }
    }
  }

  /** The level at which a stale link survives. */
  lemma UnsafeLevel(v0: View, v: View, over: Layout, route: Route, from: nat, to: nat) returns (i: nat)
    requires Growing(v0, v, over, route, from, to) && !SafeReuse(|v0.pool|, route, from, to)
    ensures from < i <= to && i - from < |v0.pool| && (i < to ==> !route[i])
  {
    var j: nat :| from < j < from + |v0.pool| && !(j < to && route[j]);
    i := if j < to then j else to;
  }

  lemma UnsafeIsCorrupt(v0: View, v: View, over: Layout, route: Route, from: nat, to: nat)
    requires Growing(v0, v, over, route, from, to) && !SafeReuse(|v0.pool|, route, from, to)
    requires Closed(v0.at) && forall i: nat :: from < i <= to ==> Walk(route, i) !in v0.at
    ensures Corrupt(v)
  {
    var i := UnsafeLevel(v0, v, over, route, from, to);
    var p := Walk(route, i);
    assert Left(v0, v, over, route, from, to, i);
    FollowFinds(v, over, p);
    assert LinkedAt(v.cells, v.at, over, p);
    NothingBelow(v0.at, p);
    assert Step(p, true) !in v.at;
    if i < to {
      assert Walk(route, i + 1) == Step(p, false);
      assert OnRoute(route, Walk(route, i + 1), from, to);
    }
    assert CorruptAt(v, p);
  }
}
