/** Insertion and deletion by rule: what the pointer operations mean for the table of rules, and for
    the number of spare nodes, over whole runs. */
module TrieRules {
  import opened Words
  import opened Text
  import opened LongestMatch
  import opened TrieShape
  import opened TrieSearch
  import opened TrieGrowth
  import opened TrieInsertion
  import opened TriePruning
  import opened Rules
  import opened Acl

  /** `InsertDone` for a rule; unfolded only where it is mentioned. */
  ghost predicate RuleInserted(v0: View, w: View, rule: Rule, value: string) {
    && rule.Rule?
    && forall mask {:trigger InsertDone(v0, w, rule.net, mask, value)} ::
         mask == NetMask(rule.cidr) ==> InsertDone(v0, w, rule.net, mask, value)
  }

  ghost predicate DeleteDone(v0: View, w: View, p: Path, result: DeleteResult) {
    && result == Verdict(v0, p)
    && (if result == Removed then Deleted(v0, w, p) else w == v0)
  }

  ghost predicate RuleDeleted(v0: View, w: View, rule: Rule, result: DeleteResult) {
    && rule.Rule?
    && forall p {:trigger DeleteDone(v0, w, p, result)} :: p == rule.Position() ==> DeleteDone(v0, w, p, result)
  }

  // ---- how many nodes a table needs

  ghost function Ancestors(p: Path): set<Path> {
    match p
    case Root => {Root}
    case Step(q, _) => {p} + Ancestors(q)
  }

  /** The positions a tight trie for this table occupies. */
  ghost function Needed(table: Table): set<Path> {
    {Root} + set s, p | s in table && p in Ancestors(s) :: p
  }

  lemma {:induction false} AncestorsOnTheWay(p: Path, s: Path)
    ensures p in Ancestors(s) <==> OnTheWay(p, s)
  {
    if s.Step? { AncestorsOnTheWay(p, s.up); }
  }

  lemma OccupiesNeeded(v: View)
    requires IsTrie(v) && Tight(v)
    ensures v.at.Keys == Needed(Store(v))
  {
    assert v.Shape(map[]);
    forall p ensures p in v.at <==> p in Needed(Store(v)) {
      OccupiedIffNeeded(v, p);
      forall s | s in Store(v) ensures p in Ancestors(s) <==> OnTheWay(p, s) { AncestorsOnTheWay(p, s); }
    }
  }

  lemma {:induction false} InjectiveSize<K, V>(m: map<K, V>)
    requires forall j, k :: j in m && k in m && j != k ==> m[j] != m[k]
    ensures |m.Values| == |m|
    decreases |m|
  {
    if |m| > 0 {
      var k :| k in m;
      var rest := m - {k};
      InjectiveSize(rest);
      forall v | v in m.Values ensures v in rest.Values + {m[k]} {
        var j :| j in m && m[j] == v;
        if j != k { assert j in rest && rest[j] == v; }
      }
      assert m.Values == rest.Values + {m[k]};
    } else {
      assert m.Values == {};
    }
  }

  lemma NodesApart(at: Layout, pool: seq<RadixNode>, slot: map<RadixNode, Slot>)
    requires Placed(at, pool, slot)
    ensures at.Values !! (set n | n in pool)
  {
    forall n | n in at.Values ensures n !in pool {
      var p :| p in at && at[p] == n;
      assert slot[n] == InTrie(p);
    }
  }

  lemma NodesTogether(at: Layout, pool: seq<RadixNode>, slot: map<RadixNode, Slot>)
    requires Placed(at, pool, slot)
    ensures slot.Keys == at.Values + (set n | n in pool)
  {
    forall n | n in slot ensures n in at.Values || n in pool { assert AccountedFor(at, pool, slot, n); }
    forall n | n in at.Values ensures n in slot {
      var p :| p in at && at[p] == n;
    }
  }

  lemma PlacedSize(at: Layout, pool: seq<RadixNode>, slot: map<RadixNode, Slot>)
    requires Placed(at, pool, slot)
    ensures |at.Values| == |at| && |set n | n in pool| == |pool|
  {
    assert forall j, k :: j in at && k in at && j != k ==> at[j] != at[k];
    InjectiveSize(at);
    assert forall i, j :: 0 <= i < j < |pool| ==> pool[i] != pool[j];
    DistinctSize(pool);
  }

  /** Every node ever allocated is at one position of the trie or once on the free list. */
  lemma NodesAreConserved(v: View)
    requires IsTrie(v)
    ensures |v.slot| == |v.at| + |v.pool|
  {
    assert v.Shape(map[]);
    NodesApart(v.at, v.pool, v.slot);
    NodesTogether(v.at, v.pool, v.slot);
    PlacedSize(v.at, v.pool, v.slot);
    assert |v.slot| == |v.slot.Keys|;
  }

  // ---- one change, on the table and the number of spare nodes

  datatype Summary = Summary(acl: Acl, spare: nat)

  ghost function Matched(table: Table, rule: Rule): nat
    requires rule.Rule?
  {
    Reach(Needed(table), Bits(rule.net), LeadingOnes(NetMask(rule.cidr)))
  }

  /** Whether adding a rule overwrites every stale link it recycles. */
  ghost predicate SafeRule(s: Summary, rule: Rule)
    requires rule.Rule?
  {
    SafeReuse(s.spare, Bits(rule.net), Matched(s.acl.table, rule), LeadingOnes(NetMask(rule.cidr)))
  }

  ghost function SpareAfterAdd(s: Summary, rule: Rule): nat
    requires rule.Rule?
  {
    var made := LeadingOnes(NetMask(rule.cidr)) - Matched(s.acl.table, rule);
    if s.spare < made then 0 else s.spare - made
  }

  /** The trie, its record and the summary describe one list. */
  ghost predicate IsList(v: View, record: set<string>, s: Summary) {
    IsTrie(v) && Tight(v) && Acl(Store(v), record) == s.acl && |v.pool| == s.spare
  }

  /** How many nodes there are: one for each position the table needs, and the spare ones. */
  lemma NodesOfList(v: View, record: set<string>, s: Summary)
    requires IsList(v, record, s)
    ensures |v.slot| == |Needed(s.acl.table)| + s.spare
  {
    NodesAreConserved(v);
    OccupiesNeeded(v);
    assert |v.at| == |v.at.Keys|;
  }

  /** An address strays from the rule when it keeps to the rule's way but for shared levels; those that do not
      leave it at all are covered by the rule. */
  ghost predicate StraysFrom(s: Summary, rule: Rule, key: Word)
    requires rule.Rule?
  {
    var n := LeadingOnes(NetMask(rule.cidr));
    Reaches(Bits(key), Bits(rule.net), s.spare, Matched(s.acl.table, rule), n, n)
  }

  /** How a heap answers that the rule was added to, in the state `s`: every search ends, and with something exactly
      when the table has something for the address or the address strays. */
  ghost predicate AnswersBut(w: View, table: Table, s: Summary, rule: Rule)
    requires rule.Rule?
  {
    forall key {:trigger Ends(w, Bits(key))} ::
      Ends(w, Bits(key)) && (Seen(w, Bits(key), 33) != NO_VALUE <==> Lookup(table, key) != NOTHING || StraysFrom(s, rule, key))
  }

  ghost predicate InsertedBy(v0: View, w: View, rule: Rule, s: Summary, value: string)
    requires rule.Rule?
  {
    && (SafeRule(s, rule) ==> IsTrie(w) && Tight(w) && |w.pool| == SpareAfterAdd(s, rule))
    && (!SafeRule(s, rule) ==> Corrupt(w))
    && Store(w) == Store(v0)[rule.Position() := value]
    && AnswersBut(w, Store(w), s, rule)
  }

  lemma InsertedMeans(v0: View, w: View, rule: Rule, value: string, record: set<string>, s: Summary)
    requires IsList(v0, record, s) && RuleInserted(v0, w, rule, value) && value != NO_VALUE
    ensures InsertedBy(v0, w, rule, s, value)
  {
    var mask := NetMask(rule.cidr);
    assert InsertDone(v0, w, rule.net, mask, value);
    var n := LeadingOnes(mask);
    var d := Reach(v0.at.Keys, Bits(rule.net), n);
    OccupiesNeeded(v0);
    assert Inserted(v0, w, Bits(rule.net), d, n, value);
    AnsweredBut(w, s, rule, |v0.pool|, d, n);
  }

  lemma AnsweredBut(w: View, s: Summary, rule: Rule, spare: nat, from: nat, n: nat)
    requires rule.Rule? && spare == s.spare && n == LeadingOnes(NetMask(rule.cidr)) && from == Matched(s.acl.table, rule)
    requires Answers(w, spare, Bits(rule.net), from, n)
    ensures AnswersBut(w, Store(w), s, rule)
  {
    forall key {:trigger Ends(w, Bits(key))}
      ensures Ends(w, Bits(key)) && (Seen(w, Bits(key), 33) != NO_VALUE <==> Lookup(Store(w), key) != NOTHING || StraysFrom(s, rule, key))
    {
      assert Ends(w, Bits(key));
    }
  }

  // ---- runs of logged changes

  ghost predicate SafeChange(s: Summary, c: Change) {
    && (c.code == 1 ==> ToAdd(c.text) != Panics && (ToAdd(c.text).Rule? ==> SafeRule(s, ToAdd(c.text))))
    && (c.code == 0 ==> ToDelete(c.text) != Panics && (ToDelete(c.text).Rule? ==> !BareRoot(s.acl.table, ToDelete(c.text))))
  }

  /** Deleting the empty prefix from a trie that is only its root goes through a nil parent. */
  ghost predicate BareRoot(table: Table, rule: Rule)
    requires rule.Rule?
  {
    rule.Position() == Root && table.Keys <= {Root}
  }

  ghost function Next(s: Summary, c: Change): Summary {
    var acl := Applied(s.acl, c);
    var spare :=
      if c.code == 1 && ToAdd(c.text).Rule? then SpareAfterAdd(s, ToAdd(c.text))
      else if |Needed(acl.table)| <= |Needed(s.acl.table)| then s.spare + |Needed(s.acl.table)| - |Needed(acl.table)|
      else s.spare;
    Summary(acl, spare)
  }

  ghost function RunSummary(s: Summary, log: seq<Change>): Summary {
    if log == [] then s else Next(RunSummary(s, log[..|log| - 1]), log[|log| - 1])
  }

  /** No change of the run meets a nil parent, an impossible shift or a stale link. */
  ghost predicate SafeRun(s: Summary, log: seq<Change>) {
    log == [] || (SafeRun(s, log[..|log| - 1]) && SafeChange(RunSummary(s, log[..|log| - 1]), log[|log| - 1]))
  }

  lemma FrontOfFront<T>(log: seq<T>, i: nat)
    requires i < |log|
    ensures log[..|log| - 1][..i] == log[..i]
  {
  }

  lemma SafeRunEnd(s: Summary, log: seq<Change>)
    requires SafeRun(s, log) && log != []
    ensures var n := |log| - 1;
            SafeRun(s, log[..n]) && SafeChange(RunSummary(s, log[..n]), log[n]) && RunSummary(s, log) == Next(RunSummary(s, log[..n]), log[n])
  {
  }

  lemma SafeRunSnoc(s: Summary, log: seq<Change>, c: Change)
    ensures SafeRun(s, log + [c]) <==> SafeRun(s, log) && SafeChange(RunSummary(s, log), c)
    ensures RunSummary(s, log + [c]) == Next(RunSummary(s, log), c)
  {
    assert (log + [c])[..|log|] == log;
  }

  /** Every change of a safe run is safe where it is made. */
  lemma {:induction false} SafeRunAt(s: Summary, log: seq<Change>, i: nat)
    requires SafeRun(s, log) && i < |log|
    ensures SafeRun(s, log[..i]) && SafeChange(RunSummary(s, log[..i]), log[i])
    ensures RunSummary(s, log[..i + 1]) == Next(RunSummary(s, log[..i]), log[i])
  {
    SafeRunEnd(s, log);
    if i == |log| - 1 {
      Whole(log);
    } else {
      FrontOfFront(log, i);
      FrontOfFront(log, i + 1);
      SafeRunAt(s, log[..|log| - 1], i);
    }
  }

  lemma Whole<T>(s: seq<T>)
    ensures s[..|s|] == s
  {
  }

  lemma {:induction false} RunSummaryIsRun(s: Summary, log: seq<Change>)
    ensures RunSummary(s, log).acl == Run(s.acl, log)
  {
    if log != [] { RunSummaryIsRun(s, log[..|log| - 1]); }
  }

  lemma AddStep(v0: View, w: View, record: set<string>, record': set<string>, s: Summary, text: string)
    requires IsList(v0, record, s) && ToAdd(text).Rule? && RuleInserted(v0, w, ToAdd(text), text) && record' == record + {text}
    ensures if SafeChange(s, Change(1, text)) then IsList(w, record', Next(s, Change(1, text))) else Corrupt(w)
    ensures AnswersBut(w, Added(s.acl, text).table, s, ToAdd(text))
  {
    InsertedMeans(v0, w, ToAdd(text), text, record, s);
  }

  ghost predicate AddedAnswers(w: View, s: Summary, text: string) {
    ToAdd(text).Rule? ==> AnswersBut(w, Added(s.acl, text).table, s, ToAdd(text))
  }

  /** `AddedAnswers` when the change added a rule, safely or not; opened by asserting it for the text. */
  ghost predicate AnswersAfter(w: View, s: Summary, c: Change) {
    forall text {:trigger AddedAnswers(w, s, text)} :: c == Change(1, text) ==> AddedAnswers(w, s, text)
  }

  lemma NothingToAdd(s: Summary, text: string)
    requires !ToAdd(text).Rule?
    ensures Next(s, Change(1, text)) == s && (SafeChange(s, Change(1, text)) <==> ToAdd(text) != Panics)
  {
  }

  lemma BareRootVerdict(v: View, rule: Rule)
    requires IsTrie(v) && Tight(v) && rule.Rule?
    ensures Verdict(v, rule.Position()) == NilParent <==> BareRoot(Store(v), rule)
  {
    assert v.Shape(map[]);
    OccupiesNeeded(v);
    if Childless(v.at, Root) {
      forall p | p in Store(v) ensures p == Root { OnlyRoot(v, p); }
    } else {
      var c := Step(Root, true) in v.at;
      var s := DescendToValue(v, Step(Root, c));
      assert OnTheWay(Step(Root, c), s);
      assert s != Root;
    }
  }

  lemma {:induction false} OnlyRoot(v: View, p: Path)
    requires Closed(v.at) && Childless(v.at, Root) && p in v.at
    ensures p == Root
  {
    if p.Step? {
      assert ClosedAt(v.at, p);
      OnlyRoot(v, p.up);
    }
  }

  lemma DropStep(v0: View, w: View, record: set<string>, s: Summary, text: string, result: DeleteResult)
    requires IsList(v0, record, s) && ToDelete(text).Rule? && RuleDeleted(v0, w, ToDelete(text), result)
    ensures result == NilParent <==> BareRoot(s.acl.table, ToDelete(text))
    ensures result == NilParent ==> w == v0
    ensures result != NilParent ==>
              IsList(w, if result == Removed then record - {text} else record, Next(s, Change(0, text)))
  {
    var rule := ToDelete(text);
    var p := rule.Position();
    assert DeleteDone(v0, w, p, result);
    BareRootVerdict(v0, rule);
    if result != NilParent { VerdictIsStored(v0, p); }
    DropSpare(v0, w, p, result);
  }

  lemma DropSpare(v0: View, w: View, p: Path, result: DeleteResult)
    requires IsTrie(v0) && Tight(v0) && DeleteDone(v0, w, p, result)
    ensures IsTrie(w) && Tight(w)
    ensures |Needed(Store(w))| <= |Needed(Store(v0))| && |w.pool| == |v0.pool| + |Needed(Store(v0))| - |Needed(Store(w))|
  {
    NodesAreConserved(v0);
    NodesAreConserved(w);
    OccupiesNeeded(v0);
    OccupiesNeeded(w);
    assert |v0.at| == |v0.at.Keys| && |w.at| == |w.at.Keys|;
    assert |v0.slot| == |v0.slot.Keys| && |w.slot| == |w.slot.Keys|;
    SubsetSize(w.at.Keys, v0.at.Keys);
  }

  lemma {:induction false} SubsetSize<T>(a: set<T>, b: set<T>)
    requires a <= b
    ensures |a| <= |b|
  {
    assert b == a + (b - a);
  }
}
