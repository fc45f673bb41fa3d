/** How soon a recycled node can spoil the trie: already the addition after one deletion. */
module Recycling {
  import opened Words
  import opened TrieGrowth
  import opened Rules
  import opened Acl
  import opened TrieRules

  lemma {:induction false} AncestorsShallower(p: Path, q: Path)
    requires q in Ancestors(p)
    ensures q.Depth() <= p.Depth()
  {
    if p.Step? && q != p { AncestorsShallower(p.up, q); }
  }

  lemma {:induction false} AncestorCount(p: Path)
    ensures |Ancestors(p)| == p.Depth() + 1 && Root in Ancestors(p)
  {
    if p.Step? {
      AncestorCount(p.up);
      if p in Ancestors(p.up) { AncestorsShallower(p.up, p); }
    }
  }

  lemma NeededOfOne(p: Path, value: string)
    ensures |Needed(map[p := value])| == p.Depth() + 1
  {
    AncestorCount(p);
    assert Needed(map[p := value]) == Ancestors(p);
  }

  lemma NeededOfNone()
    ensures Needed(map[]) == {Root}
  {
  }

  lemma ReachOfNone(taken: set<Path>, route: Route, n: nat)
    requires n <= 32 && taken == {Root}
    ensures Reach(taken, route, n) == 0
  {
    if n > 0 {
      assert Walk(route, n).Depth() == n;
      ReachOfNone(taken, route, n - 1);
    }
  }

  ghost const START := Summary(EMPTY, 0)

  lemma AfterAdd(text: string, p: Path)
    requires ToAdd(text).Rule? && p == ToAdd(text).Position()
    ensures Next(START, Change(1, text)) == Summary(Acl(map[p := text], {text}), 0)
  {
  }

  lemma AfterDelete(text: string, p: Path)
    requires ToDelete(text).Rule? && p == ToDelete(text).Position() && ToDelete(text).cidr == p.Depth()
    ensures Next(Summary(Acl(map[p := text], {text}), 0), Change(0, text)) == Summary(EMPTY, ToDelete(text).cidr)
  {
    NeededOfOne(p, text);
    NeededOfNone();
    assert map[p := text] - {p} == map[] && {text} - {text} == {};
  }

  lemma AfterAddAndDelete(text: string)
    requires ToDelete(text).Rule?
    ensures RunSummary(START, [Change(1, text), Change(0, text)]) == Summary(EMPTY, ToDelete(text).cidr)
  {
    var p := ToAdd(text).Position();
    LengthOfMask(ToDelete(text).cidr);
    AfterAdd(text, p);
    AfterDelete(text, p);
    RunOfTwo(START, Change(1, text), Change(0, text));
  }

  lemma RunOfTwo(s: Summary, c: Change, d: Change)
    ensures RunSummary(s, [c, d]) == Next(Next(s, c), d)
  {
    assert [c, d][..1] == [c] && [c][..0] == [];
    assert RunSummary(s, []) == s;
    assert RunSummary(s, [c]) == Next(s, c);
  }

  /** Put a network of length at least 1 into an empty list and take it out again: its nodes are spare.
      The next rule is added correctly exactly when it has length 0, or is at least as long with every
      bit set from the second to that length. */
  lemma NextAddAfterDelete(text: string, next: string)
    requires ToDelete(text).Rule? && ToDelete(text).cidr >= 1 && ToDelete(next).Rule?
    ensures var len := ToDelete(text).cidr;
            SafeChange(RunSummary(START, [Change(1, text), Change(0, text)]), Change(1, next)) <==>
            ToDelete(next).cidr == 0 || (len <= ToDelete(next).cidr && forall i :: 0 < i < len ==> Bits(ToDelete(next).net)[i])
  {
    AfterAddAndDelete(text);
    SafeIntoBareTrie(ToDelete(text).cidr, ToDelete(next));
  }

  lemma SafeIntoBareTrie(len: nat, rule: Rule)
    requires rule.Rule? && 1 <= len <= 32 && 0 <= rule.cidr <= 32
    ensures SafeRule(Summary(EMPTY, len), rule) <==>
            rule.cidr == 0 || (len <= rule.cidr && forall i :: 0 < i < len ==> Bits(rule.net)[i])
  {
    LengthOfMask(rule.cidr);
    NeededOfNone();
    ReachOfNone(Needed(map[]), Bits(rule.net), rule.cidr);
    BareReuse(len, Bits(rule.net), rule.cidr);
  }

  lemma BareReuse(len: nat, route: Route, to: nat)
    requires 1 <= len <= 32 && to <= 32
    ensures SafeReuse(len, route, 0, to) <==> to == 0 || (len <= to && forall i :: 0 < i < len ==> route[i])
  {
    if 0 < to < len {
      var beyond := route[to];
      assert !SafeReuse(len, route, 0, to);
    } else if to > 0 && SafeReuse(len, route, 0, to) {
      forall i | 0 < i < len ensures route[i] { var b := route[i]; }
    }
  }
}
