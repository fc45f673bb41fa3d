/** The access control list of a replica: log entries applied to the trie, and the trie rebuilt from a
    snapshot's record. */
module AclMachine {
  import opened TrieShape
  import opened Rules
  import opened Acl
  import opened TrieRules
  import opened RadixTree
  import opened Restore

  ghost predicate Holds(tree: RadixTree, s: Summary)
    reads tree, tree.plan.slot.Keys
  {
    IsList(tree.Now(), tree.Record.Keys, s)
  }

  /** `Holds`, kept closed: opened by asserting `Holds` for the summary. */
  ghost predicate Keeps(tree: RadixTree, s: Summary)
    reads tree, tree.plan.slot.Keys
  {
    forall t {:trigger Holds(tree, t)} :: t == s ==> Holds(tree, t)
  }

  method HandleDelete(tree: RadixTree, text: string, ghost s: Summary) returns (outcome: Outcome)
    requires Holds(tree, s)
    modifies tree, tree.plan.slot.Keys
    ensures SafeChange(s, Change(0, text)) ==> Holds(tree, Next(s, Change(0, text))) && outcome != Panic
    ensures !SafeChange(s, Change(0, text)) ==> Holds(tree, s) && outcome == Panic
    ensures tree.plan.slot.Keys == old(tree.plan.slot.Keys)
  {
    ghost var v0 := tree.Now();
    ghost var result;
    outcome, result := tree.Delete(text);
    if ToDelete(text).Rule? { DropStep(v0, tree.Now(), s.acl.record, s, text, result); }
  }

  method HandleAdd(tree: RadixTree, text: string, ghost s: Summary) returns (outcome: Outcome)
    requires Holds(tree, s)
    modifies tree, tree.plan.slot.Keys
    ensures SafeChange(s, Change(1, text)) ==> Holds(tree, Next(s, Change(1, text))) && outcome != Panic
    ensures !SafeChange(s, Change(1, text)) ==> if ToAdd(text).Rule? then Corrupt(tree.Now()) else Holds(tree, s) && outcome == Panic
    ensures AnswersAfter(tree.Now(), s, Change(1, text)) && outcome == OutcomeOf(ToAdd(text))
    ensures tree.Record.Keys == Added(s.acl, text).record
    ensures old(tree.plan.slot.Keys) <= tree.plan.slot.Keys && fresh(tree.plan.slot.Keys - old(tree.plan.slot.Keys))
  {
    ghost var v0, record := tree.Now(), tree.Record.Keys;
    outcome := tree.Add(text, text);
    AddHandled(v0, tree.Now(), record, tree.Record.Keys, s, text, outcome);
  }

  lemma AddHandled(v0: View, w: View, record: set<string>, record': set<string>, s: Summary, text: string, outcome: Outcome)
    requires IsList(v0, record, s) && outcome == OutcomeOf(ToAdd(text))
    requires if outcome == Done then RuleInserted(v0, w, ToAdd(text), text) && record' == record + {text} else w == v0 && record' == record
    ensures SafeChange(s, Change(1, text)) ==> IsList(w, record', Next(s, Change(1, text))) && outcome != Panic
    ensures !SafeChange(s, Change(1, text)) ==> if ToAdd(text).Rule? then Corrupt(w) else IsList(w, record', s) && outcome == Panic
    ensures AnswersAfter(w, s, Change(1, text)) && record' == Added(s.acl, text).record
  {
    if ToAdd(text).Rule? { AddStep(v0, w, record, record', s, text); } else { NothingToAdd(s, text); }
  }

  /** One logged change; a code other than 0 and 1 does nothing. A change that is not safe crashes the
      process, or, when it is a rule that recycles a stale link, leaves no trie behind. */
  method HandleAcl(tree: RadixTree, c: Change, ghost s: Summary) returns (outcome: Outcome)
    requires Holds(tree, s)
    modifies tree, tree.plan.slot.Keys
    ensures SafeChange(s, c) ==> Holds(tree, Next(s, c)) && outcome != Panic
    ensures !SafeChange(s, c) ==> if c.code == 1 && ToAdd(c.text).Rule? then Corrupt(tree.Now()) && outcome != Panic else outcome == Panic
    ensures AnswersAfter(tree.Now(), s, c)
    ensures outcome != Panic ==> tree.Record.Keys == Applied(s.acl, c).record
    ensures old(tree.plan.slot.Keys) <= tree.plan.slot.Keys && fresh(tree.plan.slot.Keys - old(tree.plan.slot.Keys))
  {
    outcome := Done;
    if c.code == 0 {
      outcome := HandleDelete(tree, c.text, s);
      assert c == Change(0, c.text);
    } else if c.code == 1 {
      outcome := HandleAdd(tree, c.text, s);
      assert c == Change(1, c.text);
    }
  }

  /** A safe log leaves the list that folding it gives. No node is lost on the way: those of before are still
      there, and the trie and the free list hold as many as the table needs and the summary calls spare. */
  method ReplayLog(tree: RadixTree, log: seq<Change>, ghost s: Summary)
    requires Keeps(tree, s) && SafeRun(s, log)
    modifies tree, tree.plan.slot.Keys
    ensures Keeps(tree, RunSummary(s, log))
    ensures RunSummary(s, log).acl == Run(s.acl, log)
    ensures old(tree.plan.slot.Keys) <= tree.plan.slot.Keys
    ensures forall node :: node in tree.plan.slot && node !in old(tree.plan.slot) ==> fresh(node)
    ensures |tree.plan.slot| == |Needed(Run(s.acl, log).table)| + RunSummary(s, log).spare
  {
    for i := 0 to |log|
      invariant Keeps(tree, RunSummary(s, log[..i]))
      invariant old(tree.plan.slot.Keys) <= tree.plan.slot.Keys
      invariant forall node :: node in tree.plan.slot && node !in old(tree.plan.slot) ==> fresh(node)
    {
      SafeRunAt(s, log, i);
      assert Holds(tree, RunSummary(s, log[..i]));
      var _ := HandleAcl(tree, log[i], RunSummary(s, log[..i]));
    }
    assert log[..|log|] == log;
    RunSummaryIsRun(s, log);
    assert Holds(tree, RunSummary(s, log));
    NodesOfList(tree.Now(), tree.Record.Keys, RunSummary(s, log));
  }

  /** The trie of a snapshot: every recorded text added to an empty trie, in an order nothing is said about; a text
      that `Add` panics on ends it. No node is ever recycled on the way. */
  method Rebuild(record: set<string>) returns (tree: RadixTree, crashed: bool, ghost order: seq<string>)
    ensures crashed <==> exists text :: text in record && ToAdd(text) == Panics
    ensures !crashed ==> IsOrder(order, record) && Keeps(tree, Summary(AddAll(EMPTY, order), 0))
    ensures !crashed ==> forall acl: Acl :: Tied(acl) && acl.record == record ==> Keeps(tree, Summary(acl, 0))
  {
    tree := new RadixTree();
    order := [];
    crashed := false;
    var rest := record;
    while rest != {}
      invariant rest <= record && IsOrder(order, record - rest)
      invariant fresh(tree) && fresh(tree.plan.slot.Keys)
      invariant Keeps(tree, Summary(AddAll(EMPTY, order), 0))
      invariant forall text :: text in record - rest ==> ToAdd(text) != Panics
      decreases |rest|
    {
      var key :| key in rest;
      var outcome := AddNext(tree, key, order);
      if outcome == Panic { return tree, true, order; }
      OrderGrows(order, record, rest, key);
      order := order + [key];
      rest := rest - {key};
    }
    RebuiltIsTied(order, record);
  }

  method AddNext(tree: RadixTree, key: string, ghost order: seq<string>) returns (outcome: Outcome)
    requires Keeps(tree, Summary(AddAll(EMPTY, order), 0))
    modifies tree, tree.plan.slot.Keys
    ensures outcome == Panic <==> ToAdd(key) == Panics
    ensures outcome != Panic ==> Keeps(tree, Summary(AddAll(EMPTY, order + [key]), 0))
    ensures old(tree.plan.slot.Keys) <= tree.plan.slot.Keys && fresh(tree.plan.slot.Keys - old(tree.plan.slot.Keys))
  {
    ghost var s := Summary(AddAll(EMPTY, order), 0);
    assert Holds(tree, s);
    AddAllSnoc(order, key);
    outcome := HandleAdd(tree, key, s);
    if ToAdd(key) == Panics { NothingToAdd(s, key); }
  }

  lemma OrderGrows(order: seq<string>, record: set<string>, rest: set<string>, key: string)
    requires IsOrder(order, record - rest) && key in rest && rest <= record
    ensures IsOrder(order + [key], record - (rest - {key}))
  {
  }

  lemma RebuiltIsTied(order: seq<string>, record: set<string>)
    requires IsOrder(order, record)
    ensures forall acl: Acl :: Tied(acl) && acl.record == record ==> AddAll(EMPTY, order) == acl
  {
    forall acl: Acl | Tied(acl) && acl.record == record ensures AddAll(EMPTY, order) == acl { TiedRestores(acl, order); }
  }

  lemma AddAllSnoc(order: seq<string>, key: string)
    ensures AddAll(EMPTY, order + [key]) == Added(AddAll(EMPTY, order), key)
    ensures ToAdd(key) != Panics ==>
              SafeChange(Summary(AddAll(EMPTY, order), 0), Change(1, key)) &&
              Next(Summary(AddAll(EMPTY, order), 0), Change(1, key)) == Summary(AddAll(EMPTY, order + [key]), 0)
  {
    assert (order + [key])[..|order|] == order;
  }
}
