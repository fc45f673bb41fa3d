module RadixTree {
  import opened Words
  import opened TrieShape
  import opened TrieSearch
  import opened TrieGrowth
  import opened TrieInsertion
  import opened TriePruning
  import opened LongestMatch
  import opened Text
  import opened Inet
  import opened Rules
  import opened TrieRules

  class RadixTree {
    var root: RadixNode
    var free: RadixNode?
    var Record: map<string, bool>
    ghost var plan: Plan

    ghost function Now(): View
      reads `root, `free, `plan, plan.slot.Keys
    {
      View(root, free, map n | n in plan.slot :: n.Fields(), plan)
    }

    ghost predicate Valid()
      reads `root, `free, `plan, plan.slot.Keys
    {
      IsTrie(Now())
    }

    constructor ()
      ensures Valid() && fresh(plan.slot.Keys)
      ensures Store(Now()) == map[] && Tight(Now()) && plan.pool == [] && Record == map[]
    {
      root := new RadixNode(null, null, null, NO_VALUE);
      free := null;
      Record := map[];
      new;
      plan := Plan(map[Root := root], [], map[root := InTrie(Root)]);
    }

    /** Takes the head of the free list as it is, or allocates. `p` names the position it is meant for. */
    method NewNode(ghost p: Path) returns (node: RadixNode)
      requires free == null ==> |plan.pool| == 0
      requires free != null ==> free in plan.slot && free.left == null && free.right == Top(Popped(plan.pool))
      modifies `free, `plan
      ensures old(free) == null ==> fresh(node)
      ensures old(free) != null ==> node == old(free)
      ensures node.left == null && node.right == Top(Popped(old(plan.pool)))
      ensures Now() == Taken(old(Now()), p, node, node.Fields())
    {
      ghost var v := Now();
      if free != null {
        node := free;
        free := free.right;
      } else {
        node := new RadixNode(null, null, null, NO_VALUE);
      }
      plan := Plan(plan.at[p := node], Popped(plan.pool), plan.slot[node := InTrie(p)]);
      assert Now().cells == v.cells[node := node.Fields()];
    }

    method Attach(node: RadixNode, b: bool, next: RadixNode)
      requires next != node && next in plan.slot && node in plan.slot
      modifies node, next
      ensures Now() == Attached(old(Now()), node, b, next)
    {
      ghost var w := Attached(Now(), node, b, next);
      next.parent := node;
      next.value := NO_VALUE;
      if b {
        node.right := next;
      } else {
        node.left := next;
      }
      assert node.Fields() == w.cells[node];
      assert Now().cells == w.cells;
    }

    /** One turn of the second loop of `insert`: hang a node below `node` on side `b`. */
    method AddChild(node: RadixNode, b: bool, ghost q: Path) returns (next: RadixNode)
      requires Pickable(Now(), q) && node == plan.at[q]
      modifies `free, `plan, plan.slot.Keys
      ensures if old(free) == null then fresh(next) else next == old(free)
      ensures next != node && Now() == Grown(old(Now()), q, b, next)
    {
      ghost var v := Now();
      next := NewNode(Step(q, b));
      TakenThenAttached(v, q, b, next, next.Fields());
      Attach(node, b, next);
    }

    /** One turn of the second loop of `insert`. */
    method Turn(node: RadixNode, right: bool, ghost route: Route, ghost v0: View, ghost v: View, ghost over: Layout, ghost from: nat, ghost d: nat)
      returns (next: RadixNode, ghost w: View, ghost over': Layout)
      requires Now() == v && GrownTo(v0, v, over, route, from, d)
      requires d < 32 && right == route[d] && Walk(route, d + 1) !in v0.at
      requires Walk(route, d) in v.at && node == v.at[Walk(route, d)]
      modifies `free, `plan, plan.slot.Keys
      ensures Now() == w && GrownTo(v0, w, over', route, from, d + 1)
      ensures Walk(route, d + 1) in w.at && next == w.at[Walk(route, d + 1)]
      ensures forall m :: m in plan.slot && m !in old(plan.slot) ==> fresh(m)
    {
      assert Growing(v0, v, over, route, from, d);
      Steppable(v0, v, over, route, from, d);
      next := AddChild(node, right, Walk(route, d));
      w := Grown(v, Walk(route, d), right, next);
      over' := GrowingStep(v0, v, w, over, route, from, d, next);
    }

    /** The second loop of `insert`: new nodes down to level `n`. */
    method Extend(start: RadixNode, startBit: Word, key: Word, mask: Word,
                  ghost route: Route, ghost n: nat, ghost v0: View, ghost from: nat)
      returns (node: RadixNode, ghost v: View, ghost over: Layout)
      requires v0 == Now() && IsTrie(v0)
      requires Spells(key, route) && Ones(mask, n) && from < n && IsBit(startBit, from)
      requires Walk(route, from) in v0.at && start == v0.at[Walk(route, from)]
      requires forall i: nat :: from < i <= n ==> Walk(route, i) !in v0.at
      modifies `free, `plan, plan.slot.Keys
      ensures Now() == v && GrownTo(v0, v, over, route, from, n)
      ensures Walk(route, n) in v.at && node == v.at[Walk(route, n)]
      ensures forall m :: m in plan.slot && m !in old(plan.slot) ==> fresh(m)
    {
      ghost var d := from;
      node, v, over := start, v0, GrowingStart(v0, route, from);
      var bit := startBit;
      var more := UnderMask(bit, mask, n, d);
      while more
        invariant from <= d <= n && IsBit(bit, d) && (more <==> d < n)
        invariant Now() == v && GrownTo(v0, v, over, route, from, d)
        invariant Walk(route, d) in v.at && node == v.at[Walk(route, d)]
        invariant forall m :: m in plan.slot && m !in old(plan.slot) ==> fresh(m)
        decreases n - d
      {
        var right := GoesRight(key, bit, route, d);
        node, v, over := Turn(node, right, route, v0, v, over, from, d);
        bit := NextBit(bit, d);
        d := d + 1;
        more := UnderMask(bit, mask, n, d);
      }
    }

    /** The assignment that ends an insertion, on either of its two ways. */
    method Settle(node: RadixNode, value: string, ghost route: Route, ghost v0: View, ghost v: View, ghost over: Layout, ghost from: nat, ghost to: nat)
      returns (ghost w: View)
      requires Now() == v && to <= 32 && GrownTo(v0, v, over, route, from, to)
      requires Walk(route, to) in v.at && node == v.at[Walk(route, to)]
      requires from <= to && IsTrie(v0) && Walk(route, from) in v0.at && forall i: nat :: from < i <= to ==> Walk(route, i) !in v0.at
      modifies `free, `plan, plan.slot.Keys
      ensures Now() == w && Inserted(v0, w, route, from, to, value)
      ensures plan == old(plan)
    {
      assert Growing(v0, v, over, route, from, to) && v0.Shape(map[]);
      AlwaysPickable(v, over, Walk(route, to));
      SetValue(node, value, Walk(route, to));
      w := WithValue(v, Walk(route, to), value);
      Finish(v0, v, w, over, route, from, to, value);
    }

    method SetValue(node: RadixNode, value: string, ghost p: Path)
      requires p in plan.at && node == plan.at[p] && node in plan.slot
      modifies node`value
      ensures Now() == WithValue(old(Now()), p, value)
    {
      ghost var w := WithValue(Now(), p, value);
      node.value := value;
      assert Now().cells == w.cells;
    }

    method Branch(node: RadixNode, right: bool, ghost v: View, ghost route: Route, ghost d: nat) returns (next: RadixNode?)
      requires Now() == v && IsTrie(v) && d < 32 && right == route[d]
      requires Walk(route, d) in v.at && node == v.at[Walk(route, d)]
      ensures next == At(v.at, Walk(route, d + 1))
    {
      assert v.Shape(map[]);
      StepDown(v, route, d);
      if right {
        next := node.right;
      } else {
        next := node.left;
      }
    }

    /** The first loop of `insert`: down the path while it exists. */
    method Descend(key: Word, mask: Word, ghost v: View, ghost route: Route, ghost n: nat)
      returns (node: RadixNode, next: RadixNode?, bit: Word, ghost d: nat)
      requires Now() == v && IsTrie(v) && Spells(key, route) && Ones(mask, n)
      ensures d <= n && IsBit(bit, d) && Walk(route, d) in v.at && node == v.at[Walk(route, d)]
      ensures d < n <==> next == null
      ensures d < n ==> Walk(route, d + 1) !in v.at
    {
      node, next, bit, d := root, root, 0x8000_0000, 0;
      TopBit();
      assert v.Shape(map[]);
      var more := UnderMask(bit, mask, n, d);
      while more
        invariant d <= n && IsBit(bit, d) && (more <==> d < n)
        invariant Walk(route, d) in v.at && node == v.at[Walk(route, d)] && next == node
        decreases n - d
      {
        var right := GoesRight(key, bit, route, d);
        next := Branch(node, right, v, route, d);
        if next == null { break; }
        bit := NextBit(bit, d);
        node := next;
        d := d + 1;
        more := UnderMask(bit, mask, n, d);
      }
    }

    /** `insert`, along a route of which the mask lets `n` levels through. */
    method InsertAlong(key: Word, mask: Word, value: string, ghost route: Route, ghost n: nat, ghost v0: View)
      returns (ghost w: View)
      requires Now() == v0 && IsTrie(v0) && Spells(key, route) && Ones(mask, n)
      modifies `free, `plan, plan.slot.Keys
      ensures Now() == w && Inserted(v0, w, route, Reach(v0.at.Keys, route, n), n, value)
      ensures forall m :: m in plan.slot && m !in v0.slot ==> fresh(m)
    {
      ghost var d;
      var node, next, bit;
      node, next, bit, d := Descend(key, mask, v0, route, n);
      ReachIs(v0, route, n, d);
      if next != null {
        w := Settle(node, value, route, v0, v0, GrowingStart(v0, route, d), d, n);
        assert plan == old(plan);
        return;
      }
      w := Grow(node, bit, key, mask, value, route, n, v0, d);
    }

    /** The second loop and the assignment after it. */
    method Grow(start: RadixNode, startBit: Word, key: Word, mask: Word, value: string,
                ghost route: Route, ghost n: nat, ghost v0: View, ghost from: nat)
      returns (ghost w: View)
      requires v0 == Now() && IsTrie(v0)
      requires Spells(key, route) && Ones(mask, n) && from < n && IsBit(startBit, from)
      requires Walk(route, from) in v0.at && start == v0.at[Walk(route, from)]
      requires forall i: nat :: from < i <= n ==> Walk(route, i) !in v0.at
      modifies `free, `plan, plan.slot.Keys
      ensures Now() == w && Inserted(v0, w, route, from, n, value)
      ensures forall m :: m in plan.slot && m !in v0.slot ==> fresh(m)
    {
      ghost var v, over;
      var node;
      node, v, over := Extend(start, startBit, key, mask, route, n, v0, from);
      ghost var grown := plan;
      w := Settle(node, value, route, v0, v, over, from, n);
      assert plan == grown;
    }

    method InsertKey(key: Word, mask: Word, value: string)
      requires Valid()
      modifies `free, `plan, plan.slot.Keys
      ensures InsertDone(old(Now()), Now(), key, mask, value)
      ensures old(plan.slot.Keys) <= plan.slot.Keys && fresh(plan.slot.Keys - old(plan.slot.Keys))
    {
      RouteAndLength(key, mask);
      ghost var v0 := Now();
      ghost var w;
      w := InsertAlong(key, mask, value, Bits(key), LeadingOnes(mask), v0);
      assert InsertDone(v0, w, key, mask, value);
    }

    /** `search`, on every heap that the walk for this key ends on. */
    method SearchKey(key: Word) returns (value: string)
      requires Ends(Now(), Bits(key))
      ensures value == Seen(Now(), Bits(key), 33)
      ensures Valid() ==> value == Lookup(Store(Now()), key)
    {
      ghost var v, route, d := Now(), Bits(key), 0;
      RouteAndLength(key, 0);
      TopBit();
      var bit: Word := 0x8000_0000;
      var node: RadixNode? := root;
      value := NO_VALUE;
      while node != null
        invariant Scanning(v, route, node, value, d) && IsBit(bit, if d < 32 then d else 32)
        decreases 33 - d
      {
        node, value, bit := SearchTurn(key, bit, node, value, v, route, d);
        d := d + 1;
      }
      SeenNoMore(v, route, d, 33);
      if Valid() { TrieSearches(v, route); }
    }

    /** One turn of the loop of `search`. */
    method SearchTurn(key: Word, bit: Word, node: RadixNode, best: string, ghost v: View, ghost route: Route, ghost d: nat)
      returns (next: RadixNode?, value: string, shifted: Word)
      requires Now() == v && Ends(v, route) && Scanning(v, route, node, best, d) && d <= 32
      requires Spells(key, route) && IsBit(bit, d)
      ensures Scanning(v, route, next, value, d + 1) && IsBit(shifted, if d < 32 then d + 1 else 32)
    {
      ScanStep(v, route, node, best, d);
      value := best;
      if node.value != NO_VALUE {
        value := node.value;
      }
      var right := GoesRight(key, bit, route, d);
      if right {
        next := node.right;
      } else {
        next := node.left;
      }
      shifted := NextBit(bit, d);
    }

    /** The loop of `delete` that finds the node; it may run off the trie. */
    method Find(key: Word, mask: Word, ghost v: View, ghost route: Route, ghost n: nat) returns (node: RadixNode?)
      requires Now() == v && IsTrie(v) && Spells(key, route) && Ones(mask, n)
      ensures node == At(v.at, Walk(route, n))
    {
      ghost var d := 0;
      var bit: Word := 0x8000_0000;
      TopBit();
      node := root;
      assert v.Shape(map[]);
      var more := UnderMask(bit, mask, n, d);
      while node != null && more
        invariant d <= n && IsBit(bit, d) && (more <==> d < n)
        invariant node == At(v.at, Walk(route, d))
        decreases n - d
      {
        var right := GoesRight(key, bit, route, d);
        node := Branch(node, right, v, route, d);
        bit := NextBit(bit, d);
        d := d + 1;
        more := UnderMask(bit, mask, n, d);
      }
      if node == null { NothingFurther(v, route, d, n); }
    }

    /** Takes a childless node off its parent and puts it on the free list. */
    method Unlink(node: RadixNode, parent: RadixNode, ghost v: View, ghost u: Path, ghost b: bool)
      requires Now() == v && u in v.at && Step(u, b) in v.at && v.at[u] == parent && v.at[Step(u, b)] == node && node != parent
      requires node in plan.slot && parent in plan.slot
      requires (parent.right == node) == b
      modifies `free, `plan, plan.slot.Keys
      ensures Now() == Pruned(v, u, b)
    {
      CutOff(node, parent, b);
      ghost var cut := Now();
      plan := Pruned(v, u, b).plan;
      assert Now().cells == cut.cells;
    }

    method CutOff(node: RadixNode, parent: RadixNode, ghost b: bool)
      requires node in plan.slot && parent in plan.slot && node != parent && (parent.right == node) == b
      modifies `free, node, parent
      ensures Now() == Cut(old(Now()), node, parent, b)
    {
      if parent.right == node {
        parent.right := null;
      } else {
        parent.left := null;
      }
      node.right := free;
      free := node;
      assert forall n :: n in plan.slot && n != node && n != parent ==> n.Fields() == old(Now()).cells[n];
      IsCut(old(Now()), Now(), node, parent, b);
    }

    /** One turn of the upward loop of `delete`: the node goes, and its parent may be next. */
    method PruneTurn(node: RadixNode, ghost v0: View, ghost v: View, ghost p: Path, ghost q: Path)
      returns (parent: RadixNode, more: bool, ghost w: View)
      requires Now() == v && PruningAt(v0, v, p, q) && q in v.at && node == v.at[q]
      modifies `free, `plan, plan.slot.Keys
      ensures q.Step? && Now() == w && q.up in w.at && parent == w.at[q.up] && plan.slot.Keys == old(plan.slot.Keys)
      ensures if more then PruningAt(v0, w, p, q.up) else Deleted(v0, w, p)
    {
      PruningNode(v0, v, p, q);
      parent := node.parent;
      Unlink(node, parent, v, q.up, q.right);
      PruningStep(v0, v, p, q);
      w := Pruned(v, q.up, q.right);
      more := parent.right == null && parent.left == null && parent.value == NO_VALUE && parent.parent != null;
    }

    /** The upward loop of `delete`. */
    method Prune(start: RadixNode, ghost v0: View, ghost p: Path) returns (ghost w: View)
      requires Now() == v0 && PruningAt(v0, v0, p, p) && p in v0.at && start == v0.at[p]
      modifies `free, `plan, plan.slot.Keys
      ensures Now() == w && Deleted(v0, w, p)
      ensures plan.slot.Keys == old(plan.slot.Keys)
    {
      ghost var q, v := p, v0;
      var node := start;
      while true
        invariant Now() == v && PruningAt(v0, v, p, q) && q in v.at && node == v.at[q]
        invariant plan.slot.Keys == old(plan.slot.Keys)
        decreases q
      {
        var parent, more;
        parent, more, v := PruneTurn(node, v0, v, p, q);
        node := parent;
        q := q.up;
        if !more { break; }
      }
      w := v;
    }

    method DeleteKey(key: Word, mask: Word) returns (result: DeleteResult)
      requires Valid()
      modifies `free, `plan, plan.slot.Keys
      ensures result == Verdict(old(Now()), Target(key, mask))
      ensures result != Removed ==> Now() == old(Now())
      ensures result == Removed ==> Deleted(old(Now()), Now(), Target(key, mask))
      ensures plan.slot.Keys == old(plan.slot.Keys)
    {
      ghost var v0 := Now();
      RouteAndLength(key, mask);
      result := DeleteAlong(key, mask, v0, Bits(key), LeadingOnes(mask));
    }
    
    method DeleteAlong(key: Word, mask: Word, ghost v0: View, ghost route: Route, ghost n: nat) returns (result: DeleteResult)
      requires Now() == v0 && IsTrie(v0) && Spells(key, route) && Ones(mask, n)
      modifies `free, `plan, plan.slot.Keys
      ensures result == Verdict(v0, Walk(route, n))
      ensures result != Removed ==> Now() == v0
      ensures result == Removed ==> Deleted(v0, Now(), Walk(route, n))
      ensures plan.slot.Keys == old(plan.slot.Keys)
    {
      ghost var p := Walk(route, n);
      var node := Find(key, mask, v0, route, n);
      if node == null {
        return Missing;
      }
      FoundNode(v0, p);
      if node.right != null || node.left != null {
        if node.value != NO_VALUE {
          SetValue(node, NO_VALUE, p);
          ClearValue(v0, p);
          return Removed;
        }
        return Missing;
      }
      if node.parent == null {
        return NilParent;
      }
      PruningStart(v0, p);
      ghost var w := Prune(node, v0, p);
      return Removed;
    }

    // ---- rule texts

    method InsertRule(rule: Rule, value: string)
      requires Valid() && rule.Rule?
      modifies `free, `plan, plan.slot.Keys
      ensures RuleInserted(old(Now()), Now(), rule, value)
      ensures old(plan.slot.Keys) <= plan.slot.Keys && fresh(plan.slot.Keys - old(plan.slot.Keys))
    {
      InsertKey(rule.net, NetMask(rule.cidr), value);
    }

    method DeleteRule(rule: Rule) returns (result: DeleteResult)
      requires Valid() && rule.Rule?
      modifies `free, `plan, plan.slot.Keys
      ensures RuleDeleted(old(Now()), Now(), rule, result)
      ensures plan.slot.Keys == old(plan.slot.Keys)
    {
      result := DeleteKey(rule.net, NetMask(rule.cidr));
    }

    method Add(ipNet: string, value: string) returns (outcome: Outcome)
      requires Valid()
      modifies `free, `plan, `Record, plan.slot.Keys
      ensures outcome == OutcomeOf(ToAdd(ipNet))
      ensures outcome == InvalidAddress <==> !AddressShifts(ipNet) && (!AddressReads(ipNet) || |Split(ipNet, '/')| < 2)
      ensures outcome == InvalidLength <==> AddressReads(ipNet) && |Split(ipNet, '/')| >= 2 && LengthField(ipNet) == None
      ensures outcome == Done <==>
              AddressReads(ipNet) && LengthField(ipNet).Some? && -9_223_372_036_854_775_775 <= LengthField(ipNet).value <= 32
      ensures outcome in {InvalidAddress, InvalidLength, Done, Panic}
      ensures outcome != Done ==> Now() == old(Now()) && Record == old(Record)
      ensures outcome == Done ==>
                RuleInserted(old(Now()), Now(), ToAdd(ipNet), value) && Record == old(Record)[ipNet := true]
      ensures old(plan.slot.Keys) <= plan.slot.Keys && fresh(plan.slot.Keys - old(plan.slot.Keys))
    {
      AddReads(ipNet);
      var rule := ReadToAdd(ipNet);
      if !rule.Rule? {
        return OutcomeOf(rule);
      }
      InsertRule(rule, value);
      Record := Record[ipNet := true];
      return Done;
    }

    method Delete(ipNet: string) returns (outcome: Outcome, ghost result: DeleteResult)
      requires Valid()
      modifies `free, `plan, `Record, plan.slot.Keys
      ensures if ToDelete(ipNet).Rule? then RuleDeleted(old(Now()), Now(), ToDelete(ipNet), result)
              else Now() == old(Now())
      ensures outcome == if ToDelete(ipNet).Rule? then OutcomeOfDelete(result) else OutcomeOf(ToDelete(ipNet))
      ensures DeleteSays(ipNet, outcome)
      ensures Record == if outcome == Done then old(Record) - {ipNet} else old(Record)
      ensures plan.slot.Keys == old(plan.slot.Keys)
    {
      OutcomeReads(ipNet);
      result := Missing;
      var rule := ReadToDelete(ipNet);
      if !rule.Rule? {
        return OutcomeOf(rule), result;
      }
      var ret := DeleteRule(rule);
      result := ret;
      ghost var now := Now();
      if ret == Removed {
        Record := Record - {ipNet};
        assert Now() == now;
      }
      return OutcomeOfDelete(ret), result;
    }

    /** An address that does not parse is looked up as 0. */
    method Search(ip: string) returns (outcome: Outcome, value: string)
      requires Valid()
      ensures outcome == if ParseAddress(ip) == Unparsed(NegativeShift) then Panic else Done
      ensures outcome == Done ==> value == Lookup(Store(Now()), match ParseAddress(ip) case Parsed(n) => Low(n) case Unparsed(_) => 0)
    {
      var i := InetToi(ip);
      TrieSearches(Now(), Bits(match i case Parsed(n) => Low(n) case Unparsed(_) => 0));
      match i
      case Parsed(n) =>
        value := SearchKey(Low(n));
        outcome := Done;
      case Unparsed(NotANumber) =>
        value := SearchKey(0);
        outcome := Done;
      case Unparsed(NegativeShift) =>
        outcome, value := Panic, NO_VALUE;
    }
  }

  datatype Outcome = Done | InvalidAddress | InvalidLength | NotFound | Panic

  /** A nil parent is dereferenced when the root itself is childless. */
  /** How `Delete` ends on a text, as far as that can be read off its fields. */
  ghost predicate DeleteSays(text: string, outcome: Outcome) {
    && (outcome == InvalidAddress <==> !AddressShifts(text) && (!AddressReads(text) || |Split(text, '/')| < 2))
    && (outcome == InvalidLength <==>
          AddressReads(text) && |Split(text, '/')| >= 2 && (LengthField(text) == None || !(0 <= LengthField(text).value <= 32)))
    && (outcome in {Done, NotFound} ==> AddressReads(text) && LengthField(text).Some? && 0 <= LengthField(text).value <= 32)
  }

  lemma OutcomeReads(text: string)
    ensures !ToDelete(text).Rule? ==> DeleteSays(text, OutcomeOf(ToDelete(text)))
    ensures ToDelete(text).Rule? ==> forall result :: DeleteSays(text, OutcomeOfDelete(result))
  {
    DeleteReads(text);
  }

  lemma IsCut(v: View, w: View, node: RadixNode, parent: RadixNode, b: bool)
    requires node in v.cells && parent in v.cells && node != parent
    requires w.root == v.root && w.free == node && w.plan == v.plan && w.cells.Keys == v.cells.Keys
    requires w.cells[node] == v.cells[node].(right := v.free)
    requires w.cells[parent] == if b then v.cells[parent].(right := null) else v.cells[parent].(left := null)
    requires forall n :: n in v.cells && n != node && n != parent ==> w.cells[n] == v.cells[n]
    ensures w == Cut(v, node, parent, b)
  {
    assert w.cells == Cut(v, node, parent, b).cells;
  }

  function OutcomeOfDelete(result: DeleteResult): Outcome {
    match result
    case Removed => Done
    case Missing => NotFound
    case NilParent => Panic
  }

  function OutcomeOf(rule: Rule): Outcome {
    match rule
    case Rule(_, _) => Done
    case BadAddress => InvalidAddress
    case BadLength => InvalidLength
    case Panics => Panic
  }
}
