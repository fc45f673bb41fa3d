/** Rebuilding a list from the texts in its record, in whatever order they come. */
module Restore {
  import opened Text
  import opened Rules
  import opened Acl

  ghost predicate IsOrder(order: seq<string>, texts: set<string>) {
    && (forall t :: t in texts <==> t in order)
    && NoRepeats(order)
  }

  ghost function AddAll(acl: Acl, order: seq<string>): Acl {
    if order == [] then acl else Added(AddAll(acl, order[..|order| - 1]), order[|order| - 1])
  }

  ghost predicate AllRules(texts: set<string>) {
    forall t :: t in texts ==> ToAdd(t).Rule?
  }

  lemma AddAllLast(order: seq<string>)
    requires order != [] && ToAdd(order[|order| - 1]).Rule?
    ensures AddAll(EMPTY, order).record == AddAll(EMPTY, order[..|order| - 1]).record + {order[|order| - 1]}
  {
  }

  lemma {:induction false} AddAllRecord(order: seq<string>)
    requires forall i :: 0 <= i < |order| ==> ToAdd(order[i]).Rule?
    ensures AddAll(EMPTY, order).record == set t | t in order
  {
    if order != [] {
      var n := |order| - 1;
      AddAllLast(order);
      AddAllRecord(order[..n]);
      LastApart(order);
    }
  }

  /** Every entry of the rebuilt table is one of the texts, at its position; and each text has an entry there. */
  lemma {:induction false} AddAllTable(order: seq<string>)
    requires forall i :: 0 <= i < |order| ==> ToAdd(order[i]).Rule?
    ensures forall p :: p in AddAll(EMPTY, order).table ==>
              AddAll(EMPTY, order).table[p] in order && ToAdd(AddAll(EMPTY, order).table[p]).Rule?
              && ToAdd(AddAll(EMPTY, order).table[p]).Position() == p
    ensures forall t :: t in order ==> ToAdd(t).Position() in AddAll(EMPTY, order).table
  {
    if order != [] {
      var n := |order| - 1;
      AddAllTable(order[..n]);
      LastApart(order);
    }
  }

  /** A tied list is rebuilt by every order. */
  lemma TiedRestores(acl: Acl, order: seq<string>)
    requires Tied(acl) && IsOrder(order, acl.record)
    ensures AddAll(EMPTY, order) == acl
  {
    forall i | 0 <= i < |order| ensures ToAdd(order[i]).Rule? { assert order[i] in acl.record; assert TiedText(acl, order[i]); }
    AddAllRecord(order);
    AddAllTable(order);
    var built := AddAll(EMPTY, order);
    assert built.record == acl.record;
    forall p | p in built.table ensures p in acl.table && acl.table[p] == built.table[p] {
      assert TiedText(acl, built.table[p]);
    }
    forall p | p in acl.table ensures p in built.table {
      assert TiedEntry(acl, p);
    }
  }

  /** Some order of a finite set, with a chosen text at its end. */
  lemma {:induction false} OrderEndingWith(texts: set<string>, last: string) returns (order: seq<string>)
    requires last in texts
    ensures IsOrder(order, texts) && |order| > 0 && order[|order| - 1] == last
  {
    var front := OrderOf(texts - {last});
    order := front + [last];
  }

  lemma {:induction false} OrderOf(texts: set<string>) returns (order: seq<string>)
    ensures IsOrder(order, texts)
    decreases |texts|
  {
    if texts == {} {
      order := [];
    } else {
      var t :| t in texts;
      var rest := OrderOf(texts - {t});
      order := rest + [t];
    }
  }

  /** A list whose recorded texts are rules is rebuilt by every order exactly when it is tied. */
  lemma RestoreIffTied(acl: Acl)
    requires AllRules(acl.record)
    ensures Tied(acl) <==> forall order :: IsOrder(order, acl.record) ==> AddAll(EMPTY, order) == acl
  {
    if Tied(acl) {
      forall order | IsOrder(order, acl.record) ensures AddAll(EMPTY, order) == acl { TiedRestores(acl, order); }
    }
    if forall order :: IsOrder(order, acl.record) ==> AddAll(EMPTY, order) == acl {
      forall t | t in acl.record ensures TiedText(acl, t) {
        var order := OrderEndingWith(acl.record, t);
        assert AddAll(EMPTY, order) == acl;
      }
      var order := OrderOf(acl.record);
      assert AddAll(EMPTY, order) == acl;
      AddAllTable(order);
      forall p | p in acl.table ensures TiedEntry(acl, p) {
      }
    }
  }
}
