/** Which addresses a list answers wrongly once a rule was added to it over recycled nodes: exactly those that stray. */
module Straying {
  import opened Words
  import opened LongestMatch
  import opened Rules
  import opened Acl
  import opened TrieShape
  import opened TrieSearch
  import opened TrieGrowth
  import opened TrieInsertion
  import opened TrieRules
  import opened RadixTree
  import opened AclMachine
  import opened Denial

  /** A level at which the rule's node keeps a link, to the right, that its own next node is on the left of. */
  ghost predicate Shared(s: Summary, rule: Rule, i: nat)
    requires rule.Rule?
  {
    SharedLevel(s.spare, Bits(rule.net), Matched(s.acl.table, rule), LeadingOnes(NetMask(rule.cidr)), i)
  }

  /** No stored network lies on the way to the rule, as far as the trie went before it. */
  ghost predicate NothingOnTheWay(s: Summary, rule: Rule)
    requires rule.Rule?
  {
    forall d: nat :: d <= Matched(s.acl.table, rule) ==> !StoredAt(s.acl.table, Bits(rule.net), d)
  }

  // ---- what the rules say of an address that strays

  lemma {:induction false} AncestorsClosed(p: Path, q: Path)
    requires q in Ancestors(p) && q.Step?
    ensures q.up in Ancestors(p)
  {
    if q == p { assert q.up in Ancestors(q.up) by { SelfAncestor(q.up); } } else { AncestorsClosed(p.up, q); }
  }

  lemma SelfAncestor(p: Path)
    ensures p in Ancestors(p)
  {
  }

  lemma NeededClosed(table: Table, p: Path)
    requires p in Needed(table) && p.Step?
    ensures p.up in Needed(table)
  {
    var s :| s in table && p in Ancestors(s);
    AncestorsClosed(s, p);
  }

  lemma {:induction false} NeededBelow(table: Table, route: Route, d: nat, e: nat)
    requires d <= e <= 32 && Walk(route, e) in Needed(table)
    ensures Walk(route, d) in Needed(table)
  {
    if d < e {
      NeededClosed(table, Walk(route, e));
      NeededBelow(table, route, d, e - 1);
    }
  }

  lemma {:induction false} ReachedNoFurther(table: Table, route: Route, n: nat, e: nat)
    requires n <= 32 && Reach(Needed(table), route, n) < e <= n
    ensures Walk(route, e) !in Needed(table)
  {
    if Walk(route, n) in Needed(table) {
    } else if e < n {
      ReachedNoFurther(table, route, n - 1, e);
    }
  }

  lemma StoredIsNeeded(table: Table, p: Path)
    requires p in table
    ensures p in Needed(table)
  {
    SelfAncestor(p);
  }

  lemma {:induction false} FirstTurn(r: Route, route: Route, n: nat) returns (i: nat)
    requires n <= 32 && Walk(r, n) != Walk(route, n)
    ensures i < n && r[i] != route[i] && forall j :: 0 <= j < i ==> r[j] == route[j]
  {
    if Walk(r, n - 1) != Walk(route, n - 1) {
      i := FirstTurn(r, route, n - 1);
    } else {
      i := n - 1;
      SameTurns(r, route, n - 1);
    }
  }

  /** Walks that part at a level do not meet again. */
  lemma {:induction false} Turned(r: Route, route: Route, i: nat, d: nat)
    requires i < d <= 32 && r[i] != route[i]
    ensures Walk(r, d) != Walk(route, d)
  {
    if i < d - 1 { Turned(r, route, i, d - 1); }
  }

  /** On its own way an address that leaves the rule's way at a new node has the stored networks that lie on the way
      to the rule, and no other. */
  lemma LeftStored(s: Summary, rule: Rule, key: Word, i: nat, d: nat)
    requires rule.Rule? && d <= 32 && Matched(s.acl.table, rule) < i < LeadingOnes(NetMask(rule.cidr))
    requires Bits(key)[i] != Bits(rule.net)[i] && forall j :: 0 <= j < i ==> Bits(key)[j] == Bits(rule.net)[j]
    ensures StoredAt(s.acl.table, Bits(key), d) <==> d <= Matched(s.acl.table, rule) && StoredAt(s.acl.table, Bits(rule.net), d)
    ensures Walk(Bits(key), d) != rule.Position()
  {
    var table, route, r := s.acl.table, Bits(rule.net), Bits(key);
    var n := LeadingOnes(NetMask(rule.cidr));
    if d <= i {
      SameWalk(r, route, d);
      if Walk(route, d) in table {
        StoredIsNeeded(table, Walk(route, d));
        if d > Matched(table, rule) { ReachedNoFurther(table, route, n, d); }
      }
    } else {
      SameWalk(r, route, i);
      ReachedNoFurther(table, route, n, i);
      if Walk(r, d) in table {
        StoredIsNeeded(table, Walk(r, d));
        NeededBelow(table, r, i, d);
      }
    }
    if d == n { Turned(r, route, i, d); }
  }

  /** The rules, the new one included, say nothing of such an address exactly when none lies on the way to the new one. */
  lemma LeftByRules(s: Summary, text: string, key: Word, i: nat)
    requires Tied(s.acl) && ToAdd(text).Rule?
    requires Matched(s.acl.table, ToAdd(text)) < i < LeadingOnes(NetMask(ToAdd(text).cidr))
    requires Bits(key)[i] != Bits(ToAdd(text).net)[i] && forall j :: 0 <= j < i ==> Bits(key)[j] == Bits(ToAdd(text).net)[j]
    ensures Lookup(Added(s.acl, text).table, key) == NOTHING <==> NothingOnTheWay(s, ToAdd(text))
  {
    var rule := ToAdd(text);
    var table := Added(s.acl, text).table;
    forall p | p in table ensures table[p] != NOTHING { if p in s.acl.table { assert TiedEntry(s.acl, p); } }
    BestIsNothing(table, Bits(key), 33);
    forall d: nat ensures StoredAt(table, Bits(key), d) <==> d <= Matched(s.acl.table, rule) && StoredAt(s.acl.table, Bits(rule.net), d) {
      if d <= 32 { LeftStored(s, rule, key, i, d); }
    }
  }

  /** An address that ends on the rule's own position is covered. */
  lemma CoveredByRule(s: Summary, text: string, key: Word)
    requires Tied(s.acl) && ToAdd(text).Rule?
    requires Walk(Bits(key), LeadingOnes(NetMask(ToAdd(text).cidr))) == ToAdd(text).Position()
    ensures Lookup(Added(s.acl, text).table, key) != NOTHING
  {
    var table := Added(s.acl, text).table;
    forall p | p in table ensures table[p] != NOTHING { if p in s.acl.table { assert TiedEntry(s.acl, p); } }
    BestIsNothing(table, Bits(key), 33);
    assert StoredAt(table, Bits(key), LeadingOnes(NetMask(ToAdd(text).cidr)));
  }

  /** The rules say nothing of a straying address exactly when it does not end on the new rule's position and no rule
      lies on the way there; it has then turned at a shared level. */
  lemma StrayedByRules(s: Summary, text: string, key: Word) returns (i: nat)
    requires Tied(s.acl) && ToAdd(text).Rule? && StraysFrom(s, ToAdd(text), key)
    ensures Lookup(Added(s.acl, text).table, key) == NOTHING <==>
            NothingOnTheWay(s, ToAdd(text)) && Walk(Bits(key), LeadingOnes(NetMask(ToAdd(text).cidr))) != ToAdd(text).Position()
    ensures Lookup(Added(s.acl, text).table, key) == NOTHING ==> Shared(s, ToAdd(text), i)
  {
    var rule := ToAdd(text);
    var n := LeadingOnes(NetMask(rule.cidr));
    i := 0;
    if Walk(Bits(key), n) == rule.Position() {
      CoveredByRule(s, text, key);
    } else {
      i := FirstTurn(Bits(key), Bits(rule.net), n);
      assert Shared(s, rule, i) <==> SharedLevel(s.spare, Bits(rule.net), Matched(s.acl.table, rule), n, i);
      LeftByRules(s, text, key, i);
    }
  }

  // ---- an address for every shared level

  lemma StraysBy(s: Summary, rule: Rule, key: Word)
    requires rule.Rule? && forall j :: 0 <= j < 32 && Bits(key)[j] != Bits(rule.net)[j] ==> Shared(s, rule, j)
    ensures StraysFrom(s, rule, key)
  {
    var n := LeadingOnes(NetMask(rule.cidr));
    forall j: nat {:trigger SharedLevel(s.spare, Bits(rule.net), Matched(s.acl.table, rule), n, j)} | j < n
      ensures Bits(key)[j] == Bits(rule.net)[j] || SharedLevel(s.spare, Bits(rule.net), Matched(s.acl.table, rule), n, j)
    {
      assert Bits(key)[j] != Bits(rule.net)[j] ==> Shared(s, rule, j);
    }
  }

  /** The rule's network with the bit of a shared level turned over strays. */
  lemma SomeStrays(s: Summary, text: string, i: nat) returns (key: Word)
    requires Tied(s.acl) && ToAdd(text).Rule? && Shared(s, ToAdd(text), i) && NothingOnTheWay(s, ToAdd(text))
    ensures StraysFrom(s, ToAdd(text), key) && Lookup(Added(s.acl, text).table, key) == NOTHING
  {
    key := Toggled(ToAdd(text).net, i);
    StraysBy(s, ToAdd(text), key);
    LeftByRules(s, text, key, i);
  }

  /** Some address strays that no rule covers exactly when there is a shared level and nothing lies on the way. */
  lemma WrongIff(s: Summary, text: string)
    requires Tied(s.acl) && ToAdd(text).Rule?
    ensures (exists key :: StraysFrom(s, ToAdd(text), key) && Lookup(Added(s.acl, text).table, key) == NOTHING) <==>
            (exists i :: Shared(s, ToAdd(text), i)) && NothingOnTheWay(s, ToAdd(text))
  {
    if key :| StraysFrom(s, ToAdd(text), key) && Lookup(Added(s.acl, text).table, key) == NOTHING {
      var i := StrayedByRules(s, text, key);
    }
    if (exists i :: Shared(s, ToAdd(text), i)) && NothingOnTheWay(s, ToAdd(text)) {
      var i :| Shared(s, ToAdd(text), i);
      var key := SomeStrays(s, text, i);
    }
  }

  // ---- the denials of a list that a rule was added to

  /** Every address is answered with something exactly when the rules have something for it. */
  ghost predicate AnswersRightly(w: View, table: Table) {
    forall key {:trigger Bits(key)} :: Seen(w, Bits(key), 33) != NO_VALUE <==> Lookup(table, key) != NOTHING
  }

  /** For every addition, safe or not: the list answers rightly exactly when there is no shared level, or some rule
      lies on the way to the new one. */
  lemma AnswersRightlyIff(w: View, s: Summary, text: string)
    requires Tied(s.acl) && ToAdd(text).Rule? && AddedAnswers(w, s, text)
    ensures AnswersRightly(w, Added(s.acl, text).table) <==>
            !((exists i :: Shared(s, ToAdd(text), i)) && NothingOnTheWay(s, ToAdd(text)))
  {
    WrongIff(s, text);
    var table := Added(s.acl, text).table;
    forall key {:trigger Bits(key)}
      ensures Seen(w, Bits(key), 33) != NO_VALUE <==> Lookup(table, key) != NOTHING || StraysFrom(s, ToAdd(text), key)
    {
      assert Ends(w, Bits(key));
    }
    if AnswersRightly(w, table) {
      forall key | StraysFrom(s, ToAdd(text), key) ensures Lookup(table, key) != NOTHING { var r := Bits(key); }
    }
  }

  /** Every address is denied exactly when some recorded rule covers it. */
  ghost predicate DeniesRightly(w: View, acl: Acl) {
    forall key {:trigger Bits(key)} :: Seen(w, Bits(key), 33) != NO_VALUE <==> exists t :: t in acl.record && RuleCovers(t, key)
  }

  lemma DeniesRightlyIff(w: View, s: Summary, text: string)
    requires Tied(s.acl) && Tied(Added(s.acl, text)) && ToAdd(text).Rule? && AddedAnswers(w, s, text)
    ensures DeniesRightly(w, Added(s.acl, text)) <==>
            !((exists i :: Shared(s, ToAdd(text), i)) && NothingOnTheWay(s, ToAdd(text)))
  {
    var acl := Added(s.acl, text);
    AnswersRightlyIff(w, s, text);
    forall key {:trigger Bits(key)} ensures Lookup(acl.table, key) != NOTHING <==> exists t :: t in acl.record && RuleCovers(t, key) {
      AnswerIffCovered(acl, key);
    }
  }

  /** How a tree answers for one address, kept closed. */
  ghost predicate AnswersSo(tree: RadixTree, key: Word, something: bool)
    reads tree, tree.plan.slot.Keys
  {
    Ends(tree.Now(), Bits(key)) && (Seen(tree.Now(), Bits(key), 33) != NO_VALUE <==> something)
  }

  lemma AnsweredSo(tree: RadixTree, text: string, key: Word, s: Summary)
    requires ToAdd(text).Rule? && AddedAnswers(tree.Now(), s, text)
    ensures AnswersSo(tree, key, Lookup(Added(s.acl, text).table, key) != NOTHING || StraysFrom(s, ToAdd(text), key))
  {
    assert Ends(tree.Now(), Bits(key));
  }

  method AddRule(tree: RadixTree, text: string, ghost key: Word, ghost s: Summary, ghost something: bool)
    requires Keeps(tree, s) && ToAdd(text).Rule?
    requires something <==> Lookup(Added(s.acl, text).table, key) != NOTHING || StraysFrom(s, ToAdd(text), key)
    modifies tree, tree.plan.slot.Keys
    ensures AnswersSo(tree, key, something) && tree.Record.Keys == s.acl.record + {text}
  {
    assert Holds(tree, s);
    var _ := HandleAdd(tree, text, s);
    assert AddedAnswers(tree.Now(), s, text);
    AnsweredSo(tree, text, key, s);
  }

  /** Adding a rule, safely or not, and looking an address up. */
  method AddAndAsk(tree: RadixTree, text: string, key: Word, ghost s: Summary) returns (answer: string)
    requires Keeps(tree, s) && ToAdd(text).Rule?
    modifies tree, tree.plan.slot.Keys
    ensures answer != NOTHING <==> Lookup(Added(s.acl, text).table, key) != NOTHING || StraysFrom(s, ToAdd(text), key)
    ensures tree.Record.Keys == s.acl.record + {text}
  {
    ghost var something := Lookup(Added(s.acl, text).table, key) != NOTHING || StraysFrom(s, ToAdd(text), key);
    AddRule(tree, text, key, s, something);
    answer := tree.SearchKey(key);
  }
}
