/** What a whole insertion leaves: a trie with the new value, or, when a stale link survives, a heap on which
    addresses stray. */
module TrieInsertion {
  import opened Words
  import opened LongestMatch
  import opened TrieShape
  import opened TrieSearch
  import opened TrieGrowth

  // ---- where a walk can get to on a grown heap

  /** A node met at level `d`: one that sits there, or a spare one. */
  ghost predicate Located(v: View, n: RadixNode?, d: nat) {
    n == null || n in v.pool || exists p :: p in v.at && p.Depth() == d && v.at[p] == n
  }

  lemma LocatedAt(v: View, p: Path)
    ensures Located(v, At(v.at, p), p.Depth())
  {
  }

  lemma TopIsLocated(v: View, d: nat)
    ensures Located(v, Top(v.pool), d)
  {
  }

  lemma OverIsLocated(v0: View, v: View, over: Layout, route: Route, from: nat, to: nat, p: Path)
    requires from <= to <= 32 && GrownPlaces(v0, v, over, route, from, to) && v.free == Top(v.pool) && p in over
    ensures Located(v, over[p], p.Depth() + 1)
  {
    var i := p.Depth();
    assert OnRoute(route, p, from, to);
    assert Left(v0, v, over, route, from, to, i);
    TopIsLocated(v, i + 1);
    if i < to { LocatedAt(v, Walk(route, i + 1)); }
  }

  /** Every link from a located node leads to one on the next level. */
  lemma NextIsLocated(v0: View, v: View, over: Layout, route: Route, from: nat, to: nat, n: RadixNode, d: nat)
    requires Growing(v0, v, over, route, from, to) && Located(v, n, d)
    ensures n in v.cells && Located(v, v.cells[n].left, d + 1) && Located(v, v.cells[n].right, d + 1)
    ensures d >= 32 ==> v.cells[n].left == null
  {
    if n in v.pool {
      var i: nat :| i < |v.pool| && v.pool[i] == n;
      assert ChainedAt(v.cells, v.pool, i);
    } else {
      var p :| p in v.at && p.Depth() == d && v.at[p] == n;
      assert LinkedAt(v.cells, v.at, over, p);
      LocatedAt(v, Step(p, false));
      LocatedAt(v, Step(p, true));
      if p in over { OverIsLocated(v0, v, over, route, from, to, p); }
      if Step(p, false) in v.at { assert ClosedAt(v.at, Step(p, false)); }
    }
  }

  lemma {:induction false} FollowIsLocated(v0: View, v: View, over: Layout, route: Route, from: nat, to: nat, p: Path)
    requires Growing(v0, v, over, route, from, to)
    ensures Located(v, Follow(v, p), p.Depth())
  {
    match p
    case Root => LocatedAt(v, Root);
    case Step(q, _) =>
      FollowIsLocated(v0, v, over, route, from, to, q);
      if Follow(v, q) != null { NextIsLocated(v0, v, over, route, from, to, Follow(v, q), q.Depth()); }
  }

  /** The search for every address ends, stale links or not. */
  lemma GrownEnds(v0: View, v: View, over: Layout, route: Route, from: nat, to: nat, r: Route)
    requires Growing(v0, v, over, route, from, to)
    ensures Ends(v, r)
  {
    forall d: nat {:trigger Walk(r, d)} | d <= 32
      ensures Known(v, Follow(v, Walk(r, d))) && (d == 32 && Follow(v, Walk(r, d)) != null ==> v.cells[Follow(v, Walk(r, d))].left == null)
    {
      var n := Follow(v, Walk(r, d));
      FollowIsLocated(v0, v, over, route, from, to, Walk(r, d));
      if n != null { NextIsLocated(v0, v, over, route, from, to, n, d); }
    }
  }

  // ---- straying

  /** A level whose node went left and came with a link to the right that is not overwritten: both its links lead
      to the next node of the route. */
  ghost predicate SharedLevel(spare: nat, route: Route, from: nat, to: nat, i: nat) {
    from < i < to && i - from < spare && i < 32 && !route[i]
  }

  /** The first `d` turns of `r` are those of the route, but for shared levels, where it may turn either way. */
  ghost predicate Reaches(r: Route, route: Route, spare: nat, from: nat, to: nat, d: nat) {
    d <= 32 && forall j: nat {:trigger SharedLevel(spare, route, from, to, j)} ::
      j < d ==> r[j] == route[j] || SharedLevel(spare, route, from, to, j)
  }

  lemma ReachesOneMore(r: Route, route: Route, spare: nat, from: nat, to: nat, d: nat)
    requires d < 32 && Reaches(r, route, spare, from, to, d) && (r[d] == route[d] || SharedLevel(spare, route, from, to, d))
    ensures Reaches(r, route, spare, from, to, d + 1)
  {
  }

  lemma ReachesBefore(r: Route, route: Route, spare: nat, from: nat, to: nat, d: nat, e: nat)
    requires e <= d && Reaches(r, route, spare, from, to, d)
    ensures Reaches(r, route, spare, from, to, e)
    ensures forall j: nat :: e <= j < d ==> r[j] == route[j] || SharedLevel(spare, route, from, to, j)
  {
  }

  lemma {:induction false} SameWalk(r: Route, route: Route, d: nat)
    requires d <= 32 && forall j :: 0 <= j < d ==> r[j] == route[j]
    ensures Walk(r, d) == Walk(route, d)
  {
    if d > 0 { SameWalk(r, route, d - 1); }
  }

  lemma {:induction false} SameTurns(r: Route, route: Route, d: nat)
    requires d <= 32 && Walk(r, d) == Walk(route, d)
    ensures forall j :: 0 <= j < d ==> r[j] == route[j]
  {
    if d > 0 { SameTurns(r, route, d - 1); }
  }

  lemma GrownBranch(v: View, over: Layout, q: Path, b: bool)
    requires v.Shape(over) && q in v.at && Step(q, b) in v.at
    ensures v.at[q] in v.cells && (if b then v.cells[v.at[q]].right else v.cells[v.at[q]].left) == v.at[Step(q, b)]
  {
    assert LinkedAt(v.cells, v.at, over, q);
  }

  lemma OnTheRoute(v0: View, v: View, over: Layout, route: Route, from: nat, to: nat, j: nat)
    requires Growing(v0, v, over, route, from, to) && Walk(route, from) in v0.at && j <= to
    ensures Walk(route, j) in v.at
  {
    assert v.Shape(over);
    if j <= from { RouteIsClosed(v.at, route, from, j); } else { assert OnRoute(route, Walk(route, j), from, to); }
  }

  /** A new node has no child beside the route. */
  lemma NothingBeside(v0: View, v: View, route: Route, from: nat, to: nat, i: nat)
    requires i < 32 && to <= 32 && Closed(v0.at) && Walk(route, i) !in v0.at
    requires forall p :: p in v.at <==> p in v0.at || OnRoute(route, p, from, to)
    ensures Step(Walk(route, i), !route[i]) !in v.at
  {
    var p := Step(Walk(route, i), !route[i]);
    NothingBelow(v0.at, Walk(route, i));
    assert p.Depth() == i + 1 && Walk(route, i + 1) == Step(Walk(route, i), route[i]);
  }

  /** What lies beside the route below a new node: the route's next node at a shared level, nothing elsewhere. */
  lemma BesideTheRoute(v0: View, v: View, over: Layout, route: Route, from: nat, to: nat, i: nat)
    requires Growing(v0, v, over, route, from, to) && Walk(route, from) in v0.at && Closed(v0.at)
    requires from < i < to && Walk(route, i) !in v0.at
    ensures Walk(route, i) in v.at && Walk(route, i + 1) in v.at && v.at[Walk(route, i)] in v.cells
    ensures var cell := v.cells[v.at[Walk(route, i)]];
            (if route[i] then cell.left else cell.right) ==
            if SharedLevel(|v0.pool|, route, from, to, i) then v.at[Walk(route, i + 1)] else null
  {
    OnTheRoute(v0, v, over, route, from, to, i);
    OnTheRoute(v0, v, over, route, from, to, i + 1);
    NothingBeside(v0, v, route, from, to, i);
    assert LinkedAt(v.cells, v.at, over, Walk(route, i));
    assert Left(v0, v, over, route, from, to, i);
  }

  /** An address that strays meets the same nodes as the route. */
  lemma {:induction false} StraysAlong(v0: View, v: View, over: Layout, route: Route, from: nat, to: nat, r: Route, j: nat)
    requires Growing(v0, v, over, route, from, to) && Walk(route, from) in v0.at && Closed(v0.at)
    requires (forall i: nat :: from < i <= to ==> Walk(route, i) !in v0.at) && j <= to && Reaches(r, route, |v0.pool|, from, to, j)
    ensures Walk(route, j) in v.at && Follow(v, Walk(r, j)) == v.at[Walk(route, j)]
  {
    OnTheRoute(v0, v, over, route, from, to, j);
    if j == 0 {
      FollowFinds(v, over, Root);
    } else {
      ReachesBefore(r, route, |v0.pool|, from, to, j, j - 1);
      StraysAlong(v0, v, over, route, from, to, r, j - 1);
      if r[j - 1] == route[j - 1] {
        GrownBranch(v, over, Walk(route, j - 1), route[j - 1]);
      } else {
        assert SharedLevel(|v0.pool|, route, from, to, j - 1);
        BesideTheRoute(v0, v, over, route, from, to, j - 1);
      }
    }
  }

  // ---- everything that can be met

  /** A walk's node at level `d`: the one that belongs there, one of the route's when it strayed, or anything once
      it has passed the end of the route. */
  ghost predicate Met(v: View, route: Route, r: Route, spare: nat, from: nat, to: nat, d: nat)
    requires d <= 32
  {
    var n := Follow(v, Walk(r, d));
    || n == null
    || (Walk(r, d) in v.at && n == v.at[Walk(r, d)])
    || (from < d <= to && Reaches(r, route, spare, from, to, d) && Walk(route, d) in v.at && n == v.at[Walk(route, d)])
    || (to < d && Reaches(r, route, spare, from, to, to))
  }

  lemma MetFromPlace(v0: View, v: View, over: Layout, route: Route, from: nat, to: nat, r: Route, d: nat)
    requires Growing(v0, v, over, route, from, to) && Walk(route, from) in v0.at && Closed(v0.at) && d < 32
    requires Walk(r, d) in v.at && Follow(v, Walk(r, d)) == v.at[Walk(r, d)]
    ensures Met(v, route, r, |v0.pool|, from, to, d + 1)
  {
    var p := Walk(r, d);
    assert LinkedAt(v.cells, v.at, over, p);
    assert Walk(r, d + 1) == Step(p, r[d]);
    if r[d] && Step(p, true) !in v.at && p in over {
      assert OnRoute(route, p, from, to);
      assert Left(v0, v, over, route, from, to, d);
      SameTurns(r, route, d);
      if d < to {
        OnTheRoute(v0, v, over, route, from, to, d + 1);
        assert Walk(route, d + 1) == Step(p, route[d]);
        ReachesOneMore(r, route, |v0.pool|, from, to, d);
      }
    }
  }

  lemma MetFromRoute(v0: View, v: View, over: Layout, route: Route, from: nat, to: nat, r: Route, d: nat)
    requires Growing(v0, v, over, route, from, to) && Walk(route, from) in v0.at && Closed(v0.at)
    requires from < d < to && Walk(route, d) !in v0.at && Reaches(r, route, |v0.pool|, from, to, d)
    requires Walk(route, d) in v.at && Follow(v, Walk(r, d)) == v.at[Walk(route, d)]
    ensures Met(v, route, r, |v0.pool|, from, to, d + 1)
  {
    OnTheRoute(v0, v, over, route, from, to, d + 1);
    BesideTheRoute(v0, v, over, route, from, to, d);
    if r[d] == route[d] {
      GrownBranch(v, over, Walk(route, d), route[d]);
      ReachesOneMore(r, route, |v0.pool|, from, to, d);
    } else if SharedLevel(|v0.pool|, route, from, to, d) {
      ReachesOneMore(r, route, |v0.pool|, from, to, d);
    }
  }

  lemma MetNothing(v: View, route: Route, r: Route, spare: nat, from: nat, to: nat, d: nat)
    requires d < 32 && (Follow(v, Walk(r, d)) == null || (to <= d && Reaches(r, route, spare, from, to, to)))
    ensures Met(v, route, r, spare, from, to, d + 1)
  {
  }

  lemma MetNext(v0: View, v: View, over: Layout, route: Route, from: nat, to: nat, r: Route, d: nat)
    requires Growing(v0, v, over, route, from, to) && Walk(route, from) in v0.at && Closed(v0.at) && d < 32
    requires d <= to ==> d <= from || Walk(route, d) !in v0.at
    requires Met(v, route, r, |v0.pool|, from, to, d)
    ensures Met(v, route, r, |v0.pool|, from, to, d + 1)
  {
    var n := Follow(v, Walk(r, d));
    if n == null {
      MetNothing(v, route, r, |v0.pool|, from, to, d);
    } else if Walk(r, d) in v.at && n == v.at[Walk(r, d)] {
      MetFromPlace(v0, v, over, route, from, to, r, d);
    } else if d < to {
      MetFromRoute(v0, v, over, route, from, to, r, d);
    } else {
      MetNothing(v, route, r, |v0.pool|, from, to, d);
    }
  }

  lemma MetRoot(v: View, over: Layout, route: Route, r: Route, spare: nat, from: nat, to: nat)
    requires v.Shape(over)
    ensures Met(v, route, r, spare, from, to, 0)
  {
    FollowFinds(v, over, Root);
  }

  lemma {:induction false} AllMet(v0: View, v: View, over: Layout, route: Route, from: nat, to: nat, r: Route, d: nat)
    requires Growing(v0, v, over, route, from, to) && Walk(route, from) in v0.at && Closed(v0.at) && d <= 32
    requires forall i: nat :: from < i <= to ==> Walk(route, i) !in v0.at
    ensures Met(v, route, r, |v0.pool|, from, to, d)
  {
    if d == 0 {
      MetRoot(v, over, route, r, |v0.pool|, from, to);
    } else {
      AllMet(v0, v, over, route, from, to, r, d - 1);
      MetNext(v0, v, over, route, from, to, r, d - 1);
    }
  }

  // ---- the value at the end

  lemma ValueKeepsEnds(v: View, p: Path, value: string, r: Route)
    requires p in v.at && v.at[p] in v.cells && Ends(v, r)
    ensures Ends(WithValue(v, p, value), r)
  {
    var w := WithValue(v, p, value);
    forall d: nat {:trigger Walk(r, d)} | d <= 32
      ensures Known(w, Follow(w, Walk(r, d))) && (d == 32 && Follow(w, Walk(r, d)) != null ==> w.cells[Follow(w, Walk(r, d))].left == null)
    {
      ValueKeepsFollow(v, p, value, Walk(r, d));
      assert Known(v, Follow(v, Walk(r, d)));
    }
  }

  lemma StraysIsAnswered(v0: View, v: View, over: Layout, route: Route, from: nat, to: nat, value: string, r: Route)
    requires Growing(v0, v, over, route, from, to) && Walk(route, from) in v0.at && Closed(v0.at)
    requires (forall i: nat :: from < i <= to ==> Walk(route, i) !in v0.at) && Reaches(r, route, |v0.pool|, from, to, to)
    requires Walk(route, to) in v.at && v.at[Walk(route, to)] in v.cells && value != NO_VALUE
    ensures Seen(WithValue(v, Walk(route, to), value), r, 33) != NO_VALUE
  {
    var p := Walk(route, to);
    var w := WithValue(v, p, value);
    StraysAlong(v0, v, over, route, from, to, r, to);
    ValueKeepsFollow(v, p, value, Walk(r, to));
    assert ValueAt(w, Follow(w, Walk(r, to))) == value;
    SeenLasts(w, r, to + 1, 33);
  }

  /** What is stored on an address's own way is met. */
  lemma StoredIsAnswered(v: View, over: Layout, p: Path, value: string, r: Route, d: nat)
    requires v.Shape(over) && p in v.at && v.at[p] in v.cells && d <= 32
    requires Walk(r, d) in Store(WithValue(v, p, value))
    ensures Seen(WithValue(v, p, value), r, 33) != NO_VALUE
  {
    var w := WithValue(v, p, value);
    FollowFinds(v, over, Walk(r, d));
    ValueKeepsFollow(v, p, value, Walk(r, d));
    assert ValueAt(w, Follow(w, Walk(r, d))) != NO_VALUE;
    SeenLasts(w, r, d + 1, 33);
  }

  /** A value that is met is stored on the address's own way, or the address has strayed to the end of the route. */
  lemma MetValue(v0: View, v: View, over: Layout, route: Route, from: nat, to: nat, value: string, r: Route, d: nat)
    requires Growing(v0, v, over, route, from, to) && Walk(route, from) in v0.at && Closed(v0.at) && d <= 32
    requires (forall i: nat :: from < i <= to ==> Walk(route, i) !in v0.at)
    requires Walk(route, to) in v.at && v.at[Walk(route, to)] in v.cells && value != NO_VALUE
    requires var w := WithValue(v, Walk(route, to), value); ValueAt(w, Follow(w, Walk(r, d))) != NO_VALUE
    ensures StoredAt(Store(WithValue(v, Walk(route, to), value)), r, d) || Reaches(r, route, |v0.pool|, from, to, to)
  {
    var p := Walk(route, to);
    var w := WithValue(v, p, value);
    WithValueStore(v, p, value);
    ValueKeepsFollow(v, p, value, Walk(r, d));
    AllMet(v0, v, over, route, from, to, r, d);
    if from < d <= to && Walk(route, d) in v.at && Follow(v, Walk(r, d)) == v.at[Walk(route, d)] {
      assert Walk(route, d) in Store(w);
      assert Walk(route, d).Depth() == d && p.Depth() == to;
    }
  }

  lemma {:induction false} SeenSomewhere(v: View, r: Route, k: nat) returns (d: nat)
    requires k <= 33 && Seen(v, r, k) != NO_VALUE
    ensures d < k && ValueAt(v, Follow(v, Walk(r, d))) != NO_VALUE
  {
    d := k - 1;
    if ValueAt(v, Follow(v, Walk(r, d))) == NO_VALUE { d := SeenSomewhere(v, r, k - 1); }
  }

  /** The search for every address ends; it ends with something exactly when a stored prefix covers the address or
      it strays to the end of the route. */
  ghost predicate Answers(w: View, spare: nat, route: Route, from: nat, to: nat) {
    forall r {:trigger Ends(w, r)} ::
      Ends(w, r) && (Seen(w, r, 33) != NO_VALUE <==> Best(Store(w), r, 33) != NO_VALUE || Reaches(r, route, spare, from, to, to))
  }

  // ---- the end of an insertion

  lemma AnsweredIff(v0: View, v: View, over: Layout, route: Route, from: nat, to: nat, value: string, r: Route)
    requires Growing(v0, v, over, route, from, to) && Walk(route, from) in v0.at && Closed(v0.at)
    requires Walk(route, to) in v.at && v.at[Walk(route, to)] in v.cells && value != NO_VALUE
    requires forall i: nat :: from < i <= to ==> Walk(route, i) !in v0.at
    ensures var w := WithValue(v, Walk(route, to), value);
            Seen(w, r, 33) != NO_VALUE <==> Best(Store(w), r, 33) != NO_VALUE || Reaches(r, route, |v0.pool|, from, to, to)
  {
    var p := Walk(route, to);
    var w := WithValue(v, p, value);
    BestIsNothing(Store(w), r, 33);
    if Seen(w, r, 33) != NO_VALUE {
      var d := SeenSomewhere(w, r, 33);
      MetValue(v0, v, over, route, from, to, value, r, d);
    }
    if Best(Store(w), r, 33) != NO_VALUE {
      var d: nat :| d < 33 && StoredAt(Store(w), r, d);
      StoredIsAnswered(v, over, p, value, r, d);
    }
    if Reaches(r, route, |v0.pool|, from, to, to) {
      StraysIsAnswered(v0, v, over, route, from, to, value, r);
    }
  }

  lemma AllAnswered(v0: View, v: View, over: Layout, route: Route, from: nat, to: nat, value: string)
    requires Growing(v0, v, over, route, from, to) && Walk(route, from) in v0.at && Closed(v0.at)
    requires Walk(route, to) in v.at && v.at[Walk(route, to)] in v.cells && value != NO_VALUE
    requires forall i: nat :: from < i <= to ==> Walk(route, i) !in v0.at
    ensures Answers(WithValue(v, Walk(route, to), value), |v0.pool|, route, from, to)
  {
    var w := WithValue(v, Walk(route, to), value);
    forall r {:trigger Ends(w, r)}
      ensures Ends(w, r) && (Seen(w, r, 33) != NO_VALUE <==> Best(Store(w), r, 33) != NO_VALUE || Reaches(r, route, |v0.pool|, from, to, to))
    {
      GrownEnds(v0, v, over, route, from, to, r);
      ValueKeepsEnds(v, Walk(route, to), value, r);
      AnsweredIff(v0, v, over, route, from, to, value, r);
    }
  }

  /** `v` has the route's position, `w` also its value. */
  lemma Finish(v0: View, v: View, w: View, over: Layout, route: Route, from: nat, to: nat, value: string)
    requires Growing(v0, v, over, route, from, to) && Walk(route, to) in v.at && v.at[Walk(route, to)] in v.cells
    requires w == WithValue(v, Walk(route, to), value)
    requires Closed(v0.at) && Walk(route, from) in v0.at && forall i: nat :: from < i <= to ==> Walk(route, i) !in v0.at
    ensures Inserted(v0, w, route, from, to, value)
  {
    var p := Walk(route, to);
    WithValueStore(v, p, value);
    if value != NO_VALUE { AllAnswered(v0, v, over, route, from, to, value); }
    if Tight(v0) && value != NO_VALUE { FinishTight(v, p, value); }
    if SafeReuse(|v0.pool|, route, from, to) {
      SafeIsShape(v0, v, over, route, from, to);
      WithValueShape(v, map[], p, value);
    } else {
      UnsafeIsCorrupt(v0, v, over, route, from, to);
      ValueKeepsCorrupt(v, p, value);
    }
  }

  ghost predicate Inserted(v0: View, w: View, route: Route, from: nat, to: nat, value: string)
    requires to <= 32
  {
    && (SafeReuse(|v0.pool|, route, from, to) ==> w.Shape(map[]))
    && (!SafeReuse(|v0.pool|, route, from, to) ==> Corrupt(w))
    && (value != NO_VALUE ==> Answers(w, |v0.pool|, route, from, to))
    && Store(w) == Put(Store(v0), Walk(route, to), value)
    && (Tight(v0) && value != NO_VALUE ==> Tight(w))
    && (forall p :: p in w.at <==> p in v0.at || OnRoute(route, p, from, to))
    && |w.pool| == (if |v0.pool| < to - from then 0 else |v0.pool| - (to - from))
    && Allocated(v0, w, to - from)
  }

  /** What `insert` does, in terms of the key and mask it is given. */
  ghost predicate InsertDone(v0: View, w: View, key: Word, mask: Word, value: string) {
    forall n: nat {:trigger Reach(v0.at.Keys, Bits(key), n)} :: n == LeadingOnes(mask) ==>
      Inserted(v0, w, Bits(key), Reach(v0.at.Keys, Bits(key), n), n, value)
  }

  lemma FinishTight(v: View, p: Path, value: string)
    requires Placed(v.at, v.pool, v.slot) && p in v.at && v.at[p] in v.cells && TightBut(v, p) && value != NO_VALUE
    ensures Tight(WithValue(v, p, value))
  {
    var w := WithValue(v, p, value);
    WithValueStore(v, p, value);
    forall q | q in w.at && q != Root ensures TightAt(w, q) {
      if q != p { assert TightAt(v, q); }
    }
  }

  lemma {:induction false} ValueKeepsFollow(v: View, p: Path, value: string, q: Path)
    requires p in v.at && v.at[p] in v.cells
    ensures Follow(WithValue(v, p, value), q) == Follow(v, q)
  {
    if q.Step? { ValueKeepsFollow(v, p, value, q.up); }
  }

  lemma ValueKeepsCorrupt(v: View, p: Path, value: string)
    requires p in v.at && v.at[p] in v.cells && Corrupt(v)
    ensures Corrupt(WithValue(v, p, value))
  {
    var q :| CorruptAt(v, q);
    ValueKeepsFollow(v, p, value, q);
    assert CorruptAt(WithValue(v, p, value), q);
  }
}
