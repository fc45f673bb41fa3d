module TrieShape {
  import opened Words

  const NO_VALUE: string := ""

  datatype Slot = InTrie(path: Path) | Spare(height: nat)

  class RadixNode {
    var right: RadixNode?
    var left: RadixNode?
    var parent: RadixNode?
    var value: string

    constructor (right: RadixNode?, left: RadixNode?, parent: RadixNode?, value: string)
      ensures this.right == right && this.left == left && this.parent == parent && this.value == value
    {
      this.right, this.left, this.parent, this.value := right, left, parent, value;
    }

    ghost function Fields(): Cell
      reads this
    {
      Cell(right, left, parent, value)
    }
  }

  datatype Cell = Cell(right: RadixNode?, left: RadixNode?, parent: RadixNode?, value: string)
  type Layout = map<Path, RadixNode>

  ghost function At(at: Layout, p: Path): RadixNode? {
    if p in at then at[p] else null
  }

  /** The node under the top of the free stack, or under any of its nodes: the next one down. */
  ghost function Top(pool: seq<RadixNode>): RadixNode? {
    if |pool| == 0 then null else pool[|pool| - 1]
  }

  ghost function Popped(pool: seq<RadixNode>): seq<RadixNode> {
    if |pool| == 0 then [] else pool[..|pool| - 1]
  }

  ghost function RightOf(at: Layout, over: Layout, p: Path): RadixNode? {
    if Step(p, true) in at then at[Step(p, true)] else At(over, p)
  }

  ghost predicate ClosedAt(at: Layout, p: Path) {
    p.Depth() <= 32 && (p.Step? ==> p.up in at)
  }

  ghost predicate Closed(at: Layout) {
    Root in at && forall p {:trigger ClosedAt(at, p)} :: p in at ==> ClosedAt(at, p)
  }

  ghost predicate AccountedFor(at: Layout, pool: seq<RadixNode>, slot: map<RadixNode, Slot>, n: RadixNode) {
    && n in slot
    && match slot[n]
       case InTrie(p) => p in at && at[p] == n
       case Spare(h) => h < |pool| && pool[h] == n
  }

  ghost predicate Placed(at: Layout, pool: seq<RadixNode>, slot: map<RadixNode, Slot>) {
    && (forall p {:trigger at[p]} :: p in at ==> at[p] in slot && slot[at[p]] == InTrie(p))
    && (forall i {:trigger pool[i]} :: 0 <= i < |pool| ==> pool[i] in slot && slot[pool[i]] == Spare(i))
    && (forall n {:trigger AccountedFor(at, pool, slot, n)} :: n in slot ==> AccountedFor(at, pool, slot, n))
  }

  ghost predicate LinkedAt(cells: map<RadixNode, Cell>, at: Layout, over: Layout, p: Path) {
    && p in at
    && at[p] in cells
    && cells[at[p]].left == At(at, Step(p, false))
    && cells[at[p]].right == RightOf(at, over, p)
    && cells[at[p]].parent == if p.Step? then At(at, p.up) else null
  }

  ghost predicate Linked(cells: map<RadixNode, Cell>, at: Layout, over: Layout) {
    forall p {:trigger LinkedAt(cells, at, over, p)} :: p in at ==> LinkedAt(cells, at, over, p)
  }

  ghost predicate ChainedAt(cells: map<RadixNode, Cell>, pool: seq<RadixNode>, i: nat) {
    && i < |pool|
    && pool[i] in cells
    && cells[pool[i]].left == null
    && cells[pool[i]].right == if i == 0 then null else pool[i - 1]
  }

  ghost predicate Chained(cells: map<RadixNode, Cell>, pool: seq<RadixNode>) {
    forall i: nat {:trigger ChainedAt(cells, pool, i)} :: i < |pool| ==> ChainedAt(cells, pool, i)
  }

  /** Which node sits where: the trie by position, the free stack (top last), and the inverse of both. */
  datatype Plan = Plan(at: Layout, pool: seq<RadixNode>, slot: map<RadixNode, Slot>)

  datatype View = View(root: RadixNode, free: RadixNode?, cells: map<RadixNode, Cell>, plan: Plan)
  {
    ghost const at := plan.at
    ghost const pool := plan.pool
    ghost const slot := plan.slot

    ghost predicate Shape(over: Layout) {
      && cells.Keys == slot.Keys
      && Closed(at)
      && Placed(at, pool, slot)
      && root == at[Root]
      && free == Top(pool)
      && Linked(cells, at, over)
      && Chained(cells, pool)
    }
  }

  ghost function Taken(v: View, p: Path, node: RadixNode, cell: Cell): View {
    View(v.root, Top(Popped(v.pool)), v.cells[node := cell], Plan(v.at[p := node], Popped(v.pool), v.slot[node := InTrie(p)]))
  }

  ghost function Attached(v: View, node: RadixNode, b: bool, next: RadixNode): View
    requires node in v.cells && next in v.cells && node != next
  {
    var cell := v.cells[node];
    View(v.root, v.free, v.cells[next := v.cells[next].(parent := node, value := NO_VALUE)]
                                [node := if b then cell.(right := next) else cell.(left := next)], v.plan)
  }

  ghost function Grown(v: View, q: Path, b: bool, next: RadixNode): View
    requires q in v.at && v.at[q] in v.cells
  {
    var node := v.at[q];
    var cell := v.cells[node];
    View(v.root, Top(Popped(v.pool)),
         v.cells[next := Cell(Top(Popped(v.pool)), null, node, NO_VALUE)]
                [node := if b then cell.(right := next) else cell.(left := next)],
         Plan(v.at[Step(q, b) := next], Popped(v.pool), v.slot[next := InTrie(Step(q, b))]))
  }

  lemma TakenThenAttached(v: View, q: Path, b: bool, next: RadixNode, cell: Cell)
    requires q in v.at && v.at[q] in v.cells && next != v.at[q]
    requires cell.right == Top(Popped(v.pool)) && cell.left == null
    ensures Attached(Taken(v, Step(q, b), next, cell), v.at[q], b, next) == Grown(v, q, b, next)
  {
  }

  ghost function GrownOver(v: View, q: Path, b: bool, over: Layout): Layout {
    if |v.pool| > 1 then over[Step(q, b) := v.pool[|v.pool| - 2]] else over
  }

  lemma GrowPlaced(at: Layout, pool: seq<RadixNode>, slot: map<RadixNode, Slot>, p: Path, next: RadixNode)
    requires Placed(at, pool, slot) && p !in at
    requires if |pool| == 0 then next !in slot else next == Top(pool)
    ensures Placed(at[p := next], Popped(pool), slot[next := InTrie(p)])
  {
    var at', pool', slot' := at[p := next], Popped(pool), slot[next := InTrie(p)];
    forall n | n in slot' ensures AccountedFor(at', pool', slot', n) {
      assert n in slot ==> AccountedFor(at, pool, slot, n);
    }
  }

  ghost predicate CanGrow(v: View, over: Layout, q: Path, b: bool, next: RadixNode) {
    && v.Shape(over) && over.Keys <= v.at.Keys
    && q in v.at && q.Depth() < 32 && Step(q, b) !in v.at
    && if |v.pool| == 0 then next !in v.cells else next == Top(v.pool)
  }

  lemma NothingBelow(at: Layout, p: Path)
    requires Closed(at) && p !in at
    ensures Step(p, false) !in at && Step(p, true) !in at
  {
    assert forall c :: Step(p, c) in at ==> ClosedAt(at, Step(p, c));
  }

  lemma GrowNewNode(v: View, over: Layout, q: Path, b: bool, next: RadixNode)
    requires Closed(v.at) && over.Keys <= v.at.Keys
    requires q in v.at && v.at[q] in v.cells && v.at[q] != next && Step(q, b) !in v.at
    ensures var w := Grown(v, q, b, next); LinkedAt(w.cells, w.at, GrownOver(v, q, b, over), Step(q, b))
  {
    NothingBelow(v.at, Step(q, b));
    assert Grown(v, q, b, next).cells[next] == Cell(Top(Popped(v.pool)), null, v.at[q], NO_VALUE);
  }

  lemma GrowParent(v: View, over: Layout, q: Path, b: bool, next: RadixNode)
    requires CanGrow(v, over, q, b, next)
    ensures var w := Grown(v, q, b, next); LinkedAt(w.cells, w.at, GrownOver(v, q, b, over), q)
  {
    assert LinkedAt(v.cells, v.at, over, q) && ClosedAt(v.at, q);
    assert v.at[q] != next;
  }

  lemma GrowOther(v: View, over: Layout, q: Path, b: bool, next: RadixNode, p: Path)
    requires CanGrow(v, over, q, b, next)
    requires p in v.at && p != q
    ensures var w := Grown(v, q, b, next); LinkedAt(w.cells, w.at, GrownOver(v, q, b, over), p)
  {
    assert LinkedAt(v.cells, v.at, over, p) && ClosedAt(v.at, p);
    assert v.at[p] != next && v.at[p] != v.at[q];
  }

  lemma GrowClosed(at: Layout, q: Path, b: bool, next: RadixNode)
    requires Closed(at) && q in at && q.Depth() < 32
    ensures Closed(at[Step(q, b) := next])
  {
    var w := at[Step(q, b) := next];
    forall p | p in w ensures ClosedAt(w, p) {
      assert p in at ==> ClosedAt(at, p);
    }
  }

  lemma GrowChained(v: View, over: Layout, q: Path, b: bool, next: RadixNode)
    requires CanGrow(v, over, q, b, next)
    ensures var w := Grown(v, q, b, next); Chained(w.cells, w.pool)
  {
    var w := Grown(v, q, b, next);
    forall i: nat | i < |w.pool| ensures ChainedAt(w.cells, w.pool, i) {
      assert ChainedAt(v.cells, v.pool, i);
    }
  }

  lemma GrowShape(v: View, over: Layout, q: Path, b: bool, next: RadixNode)
    requires CanGrow(v, over, q, b, next)
    ensures Grown(v, q, b, next).Shape(GrownOver(v, q, b, over))
  {
    var w := Grown(v, q, b, next);
    GrowPlaced(v.at, v.pool, v.slot, Step(q, b), next);
    GrowClosed(v.at, q, b, next);
    GrowChained(v, over, q, b, next);
    forall p | p in w.at ensures LinkedAt(w.cells, w.at, GrownOver(v, q, b, over), p) {
      if p == Step(q, b) {
        GrowNewNode(v, over, q, b, next);
      } else if p == q {
        GrowParent(v, over, q, b, next);
      } else {
        GrowOther(v, over, q, b, next, p);
      }
    }
  }

  /** What popping the free list hands out: a node of the tree, its `right` still on the next spare one. */
  lemma TopOfPool(v: View, over: Layout)
    requires v.Shape(over) && v.free != null
    ensures |v.pool| > 0 && v.free == v.pool[|v.pool| - 1] && v.free in v.cells
    ensures v.cells[v.free].right == Top(Popped(v.pool)) && v.cells[v.free].left == null
    ensures v.free !in v.at.Values
  {
    assert ChainedAt(v.cells, v.pool, |v.pool| - 1);
  }

  /** A trie in good order. Unfolded only where its shape is itself mentioned. */
  ghost predicate IsTrie(v: View) {
    forall over {:trigger v.Shape(over)} :: over == map[] ==> v.Shape(over)
  }

  // ---- pruning one childless node

  ghost predicate Childless(at: Layout, p: Path) {
    Step(p, false) !in at && Step(p, true) !in at
  }

  /** The links of a branch cut off and pushed on the free list, before it is recorded as spare. */
  ghost function Cut(v: View, node: RadixNode, parent: RadixNode, b: bool): View
    requires node in v.cells && parent in v.cells && node != parent
  {
    var cell := v.cells[parent];
    View(v.root, node, v.cells[parent := if b then cell.(right := null) else cell.(left := null)]
                              [node := v.cells[node].(right := v.free)], v.plan)
  }

  ghost function Pruned(v: View, u: Path, b: bool): View
    requires u in v.at && v.at[u] in v.cells && Step(u, b) in v.at && v.at[Step(u, b)] in v.cells
  {
    var node, parent := v.at[Step(u, b)], v.at[u];
    var cell := v.cells[parent];
    View(v.root, node,
         v.cells[parent := if b then cell.(right := null) else cell.(left := null)]
                [node := v.cells[node].(right := v.free)],
         Plan(v.at - {Step(u, b)}, v.pool + [node], v.slot[node := Spare(|v.pool|)]))
  }

  ghost predicate CanPrune(v: View, u: Path, b: bool) {
    && v.Shape(map[])
    && u in v.at && Step(u, b) in v.at && Childless(v.at, Step(u, b))
    && v.at[u] in v.cells && v.at[Step(u, b)] in v.cells && v.at[u] != v.at[Step(u, b)]
  }

  lemma PrunePlaced(at: Layout, pool: seq<RadixNode>, slot: map<RadixNode, Slot>, p: Path)
    requires Placed(at, pool, slot) && p in at
    ensures Placed(at - {p}, pool + [at[p]], slot[at[p] := Spare(|pool|)])
  {
    var at', pool', slot' := at - {p}, pool + [at[p]], slot[at[p] := Spare(|pool|)];
    forall n | n in slot' ensures AccountedFor(at', pool', slot', n) {
      assert n in slot ==> AccountedFor(at, pool, slot, n);
    }
  }

  lemma PruneClosed(at: Layout, p: Path)
    requires Closed(at) && p != Root && Childless(at, p)
    ensures Closed(at - {p})
  {
    forall r | r in at - {p} ensures ClosedAt(at - {p}, r) {
      assert ClosedAt(at, r);
      assert r.Step? ==> r == Step(r.up, r.right);
    }
  }

  lemma PruneParent(v: View, u: Path, b: bool)
    requires CanPrune(v, u, b)
    ensures var w := Pruned(v, u, b); LinkedAt(w.cells, w.at, map[], u)
  {
    assert LinkedAt(v.cells, v.at, map[], u) && ClosedAt(v.at, u);
  }

  lemma PruneOther(v: View, u: Path, b: bool, p: Path)
    requires CanPrune(v, u, b)
    requires p in v.at && p != u && p != Step(u, b)
    ensures var w := Pruned(v, u, b); LinkedAt(w.cells, w.at, map[], p)
  {
    assert LinkedAt(v.cells, v.at, map[], p) && ClosedAt(v.at, p);
    assert v.at[p] != v.at[u] && v.at[p] != v.at[Step(u, b)];
    assert p.Step? ==> p == Step(p.up, p.right);
  }

  lemma PruneChained(v: View, u: Path, b: bool)
    requires CanPrune(v, u, b)
    ensures var w := Pruned(v, u, b); Chained(w.cells, w.pool)
  {
    var w := Pruned(v, u, b);
    assert LinkedAt(v.cells, v.at, map[], Step(u, b));
    forall i: nat | i < |w.pool| ensures ChainedAt(w.cells, w.pool, i) {
      assert i < |v.pool| ==> ChainedAt(v.cells, v.pool, i) && v.pool[i] == w.pool[i];
    }
  }

  lemma PruneShape(v: View, u: Path, b: bool)
    requires CanPrune(v, u, b)
    ensures Pruned(v, u, b).Shape(map[])
  {
    var w := Pruned(v, u, b);
    PrunePlaced(v.at, v.pool, v.slot, Step(u, b));
    PruneClosed(v.at, Step(u, b));
    PruneChained(v, u, b);
    forall p | p in w.at ensures LinkedAt(w.cells, w.at, map[], p) {
      if p == u {
        PruneParent(v, u, b);
      } else {
        PruneOther(v, u, b, p);
      }
    }
  }

  // ---- values: the table a trie stands for

  /** Every non-empty value, under its position. */
  ghost function Store(v: View): map<Path, string> {
    map p | p in v.at && v.at[p] in v.cells && v.cells[v.at[p]].value != NO_VALUE :: v.cells[v.at[p]].value
  }

  ghost function Put(store: map<Path, string>, p: Path, value: string): map<Path, string> {
    if value == NO_VALUE then store - {p} else store[p := value]
  }

  ghost function WithValue(v: View, p: Path, value: string): View
    requires p in v.at && v.at[p] in v.cells
  {
    v.(cells := v.cells[v.at[p] := v.cells[v.at[p]].(value := value)])
  }

  lemma WithValueShape(v: View, over: Layout, p: Path, value: string)
    requires v.Shape(over) && p in v.at && v.at[p] in v.cells
    ensures WithValue(v, p, value).Shape(over)
  {
    var w := WithValue(v, p, value);
    forall r | r in w.at ensures LinkedAt(w.cells, w.at, over, r) {
      assert LinkedAt(v.cells, v.at, over, r);
    }
    forall i: nat | i < |w.pool| ensures ChainedAt(w.cells, w.pool, i) {
      assert ChainedAt(v.cells, v.pool, i);
    }
  }

  lemma WithValueStore(v: View, p: Path, value: string)
    requires Placed(v.at, v.pool, v.slot) && p in v.at && v.at[p] in v.cells
    ensures Store(WithValue(v, p, value)) == Put(Store(v), p, value)
  {
    assert forall r :: r in v.at && r != p ==> v.at[r] != v.at[p];
  }

  lemma GrowStore(v: View, q: Path, b: bool, next: RadixNode)
    requires Placed(v.at, v.pool, v.slot) && q in v.at && v.at[q] in v.cells && next != v.at[q] && next !in v.at.Values
    requires Step(q, b) !in v.at
    ensures Store(Grown(v, q, b, next)) == Store(v)
  {
    assert forall r :: r in v.at ==> v.at[r] != next;
  }

  lemma PruneStore(v: View, u: Path, b: bool)
    requires Placed(v.at, v.pool, v.slot)
    requires u in v.at && v.at[u] in v.cells && Step(u, b) in v.at && v.at[Step(u, b)] in v.cells
    ensures Store(Pruned(v, u, b)) == Store(v) - {Step(u, b)}
  {
    var w := Pruned(v, u, b);
    forall r | r in w.at ensures v.at[r] in w.cells ==> v.at[r] in v.cells && w.cells[v.at[r]].value == v.cells[v.at[r]].value {
      assert v.at[r] != v.at[Step(u, b)];
    }
  }

  // ---- no dead branches

  ghost predicate TightAt(v: View, p: Path) {
    p == Root || !Childless(v.at, p) || p in Store(v)
  }

  /** Every childless node other than the root, and other than `q`, holds a value. */
  ghost predicate TightBut(v: View, q: Path) {
    forall p {:trigger TightAt(v, p)} :: p in v.at && p != q ==> TightAt(v, p)
  }

  ghost predicate Tight(v: View) {
    TightBut(v, Root)
  }

  lemma GrowTight(v: View, q: Path, b: bool, next: RadixNode)
    requires Placed(v.at, v.pool, v.slot) && q in v.at && v.at[q] in v.cells && next != v.at[q] && next !in v.at.Values
    requires Step(q, b) !in v.at && TightBut(v, q)
    ensures TightBut(Grown(v, q, b, next), Step(q, b))
  {
    var w := Grown(v, q, b, next);
    GrowStore(v, q, b, next);
    forall p | p in w.at && p != Step(q, b) ensures TightAt(w, p) {
      if p == q {
        assert Step(q, b) in w.at;
      } else {
        assert TightAt(v, p);
      }
    }
  }

  lemma PruneTight(v: View, u: Path, b: bool)
    requires CanPrune(v, u, b) && TightBut(v, Step(u, b))
    ensures TightBut(Pruned(v, u, b), u)
  {
    var w := Pruned(v, u, b);
    PruneStore(v, u, b);
    forall p | p in w.at && p != u ensures TightAt(w, p) {
      assert TightAt(v, p);
      assert forall c :: Step(p, c) in v.at ==> Step(p, c) in w.at;
    }
  }

  /** `q` lies on the way from the root to `p`. */
  ghost predicate OnTheWay(q: Path, p: Path) {
    q == p || (p.Step? && OnTheWay(q, p.up))
  }

  lemma {:induction false} WayTransitive(p: Path, q: Path, r: Path)
    requires OnTheWay(p, q) && OnTheWay(q, r)
    ensures OnTheWay(p, r)
  {
    if q != r { WayTransitive(p, q, r.up); }
  }

  lemma {:induction false} WayIsOccupied(v: View, p: Path, s: Path)
    requires Closed(v.at) && s in v.at && OnTheWay(p, s)
    ensures p in v.at
  {
    if p != s {
      assert ClosedAt(v.at, s);
      WayIsOccupied(v, p, s.up);
    }
  }

  lemma {:induction false} DescendToValue(v: View, p: Path) returns (s: Path)
    requires Closed(v.at) && Tight(v) && p in v.at && p != Root
    ensures s in Store(v) && OnTheWay(p, s)
    decreases 32 - p.Depth()
  {
    assert ClosedAt(v.at, p) && TightAt(v, p);
    if p in Store(v) {
      s := p;
    } else {
      var c := Step(p, true) in v.at;
      assert ClosedAt(v.at, Step(p, c));
      s := DescendToValue(v, Step(p, c));
      WayTransitive(p, Step(p, c), s);
    }
  }

  /** The set of occupied positions is determined by the stored prefixes alone: exactly their ancestors. */
  lemma OccupiedIffNeeded(v: View, p: Path)
    requires Closed(v.at) && Tight(v)
    ensures p in v.at <==> p == Root || exists s :: s in Store(v) && OnTheWay(p, s)
  {
    if p in v.at && p != Root {
      var s := DescendToValue(v, p);
    }
    if s :| s in Store(v) && OnTheWay(p, s) {
      WayIsOccupied(v, p, s);
    }
  }

  // ---- what following the pointers finds

  ghost function Follow(v: View, p: Path): RadixNode? {
    match p
    case Root => v.root
    case Step(q, b) =>
      var n := Follow(v, q);
      if n == null || n !in v.cells then null else if b then v.cells[n].right else v.cells[n].left
  }

  lemma {:induction false} FollowFinds(v: View, over: Layout, p: Path)
    requires v.Shape(over) && p in v.at
    ensures Follow(v, p) == v.at[p]
  {
    if p.Step? {
      assert ClosedAt(v.at, p);
      FollowFinds(v, over, p.up);
      assert LinkedAt(v.cells, v.at, over, p.up);
    }
  }

  lemma {:induction false} FollowStays(v: View, p: Path)
    requires v.Shape(map[]) && Follow(v, p) != null
    ensures p in v.at && Follow(v, p) == v.at[p]
  {
    if p.Step? {
      FollowStays(v, p.up);
      assert LinkedAt(v.cells, v.at, map[], p.up);
    }
  }

  /** At `p` two branches share a node, or a branch runs into the free list. */
  ghost predicate CorruptAt(v: View, p: Path) {
    var n := Follow(v, p);
    n != null && n in v.cells && v.cells[n].right != null && (v.cells[n].right == v.cells[n].left || v.cells[n].right == v.free)
  }

  ghost predicate Corrupt(v: View) {
    exists p :: CorruptAt(v, p)
  }

  lemma TrieIsNotCorrupt(v: View, p: Path)
    requires v.Shape(map[])
    ensures !CorruptAt(v, p)
  {
    var n := Follow(v, p);
    if n != null && n in v.cells && v.cells[n].right != null {
      FollowStays(v, p);
      assert LinkedAt(v.cells, v.at, map[], p);
      assert v.slot[v.cells[n].right] == InTrie(Step(p, true));
    }
  }

  /** Such a heap is not a trie with a free list beside it, however its nodes are assigned to positions. */
  lemma CorruptIsNoTrie(v: View, plan: Plan)
    requires Corrupt(v)
    ensures !v.(plan := plan).Shape(map[])
  {
    var w := v.(plan := plan);
    var p :| CorruptAt(v, p);
    SameFollow(v, w, p);
    if w.Shape(map[]) { TrieIsNotCorrupt(w, p); }
  }

  lemma {:induction false} SameFollow(v: View, w: View, p: Path)
    requires v.root == w.root && v.cells == w.cells
    ensures Follow(v, p) == Follow(w, p)
  {
    if p.Step? { SameFollow(v, w, p.up); }
  }
}
