/** `delete` seen from outside: what is found, and the branch taken away. */
module TriePruning {
  import opened Words
  import opened TrieShape
  import opened TrieGrowth

  datatype DeleteResult = Removed | Missing | NilParent

  lemma NothingFurther(v: View, route: Route, d: nat, n: nat)
    requires IsTrie(v) && d <= n <= 32 && Walk(route, d) !in v.at
    ensures Walk(route, n) !in v.at
  {
    assert v.Shape(map[]);
    if Walk(route, n) in v.at { RouteIsClosed(v.at, route, n, d); }
  }

  lemma FoundNode(v: View, p: Path)
    requires IsTrie(v) && p in v.at
    ensures v.at[p] in v.cells && v.at[p] in v.slot
    ensures Childless(v.at, p) <==> v.cells[v.at[p]].right == null && v.cells[v.at[p]].left == null
    ensures v.cells[v.at[p]].parent == null <==> p == Root
  {
    assert v.Shape(map[]);
    assert LinkedAt(v.cells, v.at, map[], p) && ClosedAt(v.at, p);
  }

  /** Which way `delete` goes at position `p`. */
  ghost function Verdict(v: View, p: Path): DeleteResult {
    if p !in v.at then Missing
    else if Childless(v.at, p) then (if p == Root then NilParent else Removed)
    else if p in Store(v) then Removed else Missing
  }

  /** What is left after a deletion, whatever it removed. */
  ghost predicate Deleted(v0: View, w: View, p: Path) {
    && IsTrie(w)
    && Store(w) == Store(v0) - {p}
    && (Tight(v0) ==> Tight(w))
    && w.at.Keys <= v0.at.Keys
    && w.slot.Keys == v0.slot.Keys
  }

  lemma ClearValue(v: View, p: Path)
    requires IsTrie(v) && p in v.at && v.at[p] in v.cells && !Childless(v.at, p)
    ensures Deleted(v, WithValue(v, p, NO_VALUE), p)
  {
    var w := WithValue(v, p, NO_VALUE);
    assert v.Shape(map[]);
    WithValueShape(v, map[], p, NO_VALUE);
    assert IsTrie(w);
    WithValueStore(v, p, NO_VALUE);
    if Tight(v) {
      forall q | q in w.at && q != Root ensures TightAt(w, q) {
        assert TightAt(v, q);
      }
    }
  }

  /** The head of the pruning loop: `q` is a childless node about to go; what was stored at it is gone too. */
  ghost predicate Pruning(v0: View, v: View, p: Path, q: Path) {
    && v.Shape(map[])
    && q in v.at && q.Step? && Childless(v.at, q)
    && Store(v) - {q} == Store(v0) - {p}
    && (Tight(v0) ==> TightBut(v, q))
    && v.at.Keys <= v0.at.Keys
    && v.slot.Keys == v0.slot.Keys
  }

  ghost predicate PruningAt(v0: View, v: View, p: Path, q: Path) {
    forall r {:trigger Pruning(v0, v, p, r)} :: r == q ==> Pruning(v0, v, p, r)
  }

  lemma PruningStart(v: View, p: Path)
    requires IsTrie(v) && p in v.at && p.Step? && Childless(v.at, p)
    ensures PruningAt(v, v, p, p)
  {
    assert v.Shape(map[]);
  }

  /** What the body of the loop may rely on. */
  lemma PruningNode(v0: View, v: View, p: Path, q: Path)
    requires PruningAt(v0, v, p, q)
    ensures q.Step? && q in v.at && q.up in v.at && CanPrune(v, q.up, q.right)
    ensures v.at[q] in v.slot && v.at[q.up] in v.slot
    ensures v.cells[v.at[q]].parent == v.at[q.up] && v.cells[v.at[q]].left == null
    ensures v.cells[v.at[q.up]].right == v.at[q] <==> q.right
    ensures !q.right ==> v.cells[v.at[q.up]].left == v.at[q]
  {
    assert Pruning(v0, v, p, q);
    assert ClosedAt(v.at, q);
    assert q == Step(q.up, q.right);
    assert LinkedAt(v.cells, v.at, map[], q) && LinkedAt(v.cells, v.at, map[], q.up);
  }

  lemma PruningStep(v0: View, v: View, p: Path, q: Path)
    requires PruningAt(v0, v, p, q) && q.Step? && q.up in v.at && CanPrune(v, q.up, q.right)
    ensures var w, u := Pruned(v, q.up, q.right), q.up;
            && u in w.at && w.at[u] in w.cells
            && w.cells[w.at[u]].left == At(w.at, Step(u, false)) && w.cells[w.at[u]].right == At(w.at, Step(u, true))
            && (w.cells[w.at[u]].parent == null <==> u == Root)
            && (w.cells[w.at[u]].parent != null && Childless(w.at, u) && w.cells[w.at[u]].value == NO_VALUE ==> PruningAt(v0, w, p, u))
            && (u == Root || !Childless(w.at, u) || w.cells[w.at[u]].value != NO_VALUE ==> Deleted(v0, w, p))
  {
    var w, u := Pruned(v, q.up, q.right), q.up;
    assert Pruning(v0, v, p, q);
    assert q == Step(u, q.right);
    PruneShape(v, u, q.right);
    PruneStore(v, u, q.right);
    if Tight(v0) { PruneTight(v, u, q.right); }
    assert LinkedAt(w.cells, w.at, map[], u) && ClosedAt(w.at, u);
    assert w.slot.Keys == v.slot.Keys;
    if u == Root || !Childless(w.at, u) || w.cells[w.at[u]].value != NO_VALUE {
      if Tight(v0) { TightAgain(w, u); }
    }
  }

  lemma TightAgain(w: View, u: Path)
    requires TightBut(w, u) && (u in w.at ==> TightAt(w, u))
    ensures Tight(w)
  {
    forall p | p in w.at && p != Root ensures TightAt(w, p) {
    }
  }

  /** In a tight trie the verdict is whether the position was stored. */
  lemma VerdictIsStored(v: View, p: Path)
    requires IsTrie(v) && Tight(v) && Verdict(v, p) != NilParent
    ensures Verdict(v, p) == Removed <==> p in Store(v)
  {
    if p in v.at && p != Root { assert TightAt(v, p); }
  }
}
