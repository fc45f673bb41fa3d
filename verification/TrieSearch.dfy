/** `search` seen from outside, on a heap of any shape: the nodes met on the way down and the last value among them. */
module TrieSearch {
  import opened Words
  import opened LongestMatch
  import opened TrieShape

  ghost function ValueAt(v: View, n: RadixNode?): string {
    if n != null && n in v.cells then v.cells[n].value else NO_VALUE
  }

  /** The value held after looking at the nodes of the first `d` levels. */
  ghost function Seen(v: View, route: Route, d: nat): string
    requires d <= 33
  {
    if d == 0 then NO_VALUE
    else
      var value := ValueAt(v, Follow(v, Walk(route, d - 1)));
      if value != NO_VALUE then value else Seen(v, route, d - 1)
  }

  ghost predicate Known(v: View, n: RadixNode?) {
    n != null ==> n in v.cells
  }

  /** The way down stays among known nodes, and at level 32, where every bit is 0, there is no left child. */
  ghost predicate Ends(v: View, route: Route) {
    && (forall d: nat {:trigger Walk(route, d)} :: d <= 32 ==> Known(v, Follow(v, Walk(route, d))))
    && var n := Follow(v, Walk(route, 32)); n != null ==> v.cells[n].left == null
  }

  /** Having looked at `d` levels: the node to look at next and the value so far. */
  ghost predicate Scanning(v: View, route: Route, node: RadixNode?, value: string, d: nat) {
    && d <= 33
    && value == Seen(v, route, d)
    && (d <= 32 ==> node == Follow(v, Walk(route, d)))
    && (d == 33 ==> node == null)
  }

  lemma ScanStep(v: View, route: Route, node: RadixNode, value: string, d: nat)
    requires Ends(v, route) && Scanning(v, route, node, value, d)
    ensures d <= 32 && node in v.cells
    ensures var next := if d < 32 && route[d] then v.cells[node].right else v.cells[node].left;
            var value' := if v.cells[node].value != NO_VALUE then v.cells[node].value else value;
            Scanning(v, route, next, value', d + 1)
  {
    assert Known(v, Follow(v, Walk(route, d)));
    if d < 32 { assert Walk(route, d + 1) == Step(Walk(route, d), route[d]); }
  }

  lemma {:induction false} NothingBelowNothing(v: View, route: Route, d: nat, e: nat)
    requires d <= e <= 32 && Follow(v, Walk(route, d)) == null
    ensures Follow(v, Walk(route, e)) == null
  {
    if d < e { NothingBelowNothing(v, route, d, e - 1); }
  }

  lemma {:induction false} SeenNoMore(v: View, route: Route, d: nat, e: nat)
    requires d <= e <= 33 && (d <= 32 ==> Follow(v, Walk(route, d)) == null)
    ensures Seen(v, route, e) == Seen(v, route, d)
  {
    if d < e {
      NothingBelowNothing(v, route, d, e - 1);
      SeenNoMore(v, route, d, e - 1);
    }
  }

  lemma {:induction false} SeenLasts(v: View, route: Route, d: nat, e: nat)
    requires d <= e <= 33 && Seen(v, route, d) != NO_VALUE
    ensures Seen(v, route, e) != NO_VALUE
  {
    if d < e { SeenLasts(v, route, d, e - 1); }
  }

  // ---- on a trie

  lemma FollowIsAt(v: View, p: Path)
    requires v.Shape(map[])
    ensures Follow(v, p) == At(v.at, p)
  {
    if p in v.at { FollowFinds(v, map[], p); } else if Follow(v, p) != null { FollowStays(v, p); }
  }

  lemma TrieEnds(v: View, route: Route)
    requires v.Shape(map[])
    ensures Ends(v, route)
  {
    forall d: nat {:trigger Walk(route, d)} | d <= 32 ensures Known(v, Follow(v, Walk(route, d))) {
      FollowIsAt(v, Walk(route, d));
      if Walk(route, d) in v.at { assert LinkedAt(v.cells, v.at, map[], Walk(route, d)); }
    }
    var p := Walk(route, 32);
    FollowIsAt(v, p);
    if p in v.at {
      assert LinkedAt(v.cells, v.at, map[], p);
      assert Step(p, false) in v.at ==> ClosedAt(v.at, Step(p, false));
    }
  }

  lemma {:induction false} SeenIsBest(v: View, route: Route, d: nat)
    requires v.Shape(map[]) && d <= 33
    ensures Seen(v, route, d) == Best(Store(v), route, d)
  {
    if d > 0 {
      var p := Walk(route, d - 1);
      SeenIsBest(v, route, d - 1);
      FollowIsAt(v, p);
      if p in v.at { assert LinkedAt(v.cells, v.at, map[], p); }
    }
  }

  /** On a trie the walk ends, and its value is the longest match. */
  lemma TrieSearches(v: View, route: Route)
    requires IsTrie(v)
    ensures Ends(v, route) && Seen(v, route, 33) == Best(Store(v), route, 33)
  {
    assert v.Shape(map[]);
    TrieEnds(v, route);
    SeenIsBest(v, route, 33);
  }
}
