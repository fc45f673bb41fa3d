/** The access control list as a table of rules beside the texts it was given, without pointers:
    what one change does, and what replicated and restored lists agree on. */
module Acl {
  import opened Words
  import opened LongestMatch
  import opened Rules

  /** `table` is what lookups see; `record` is the set of rule texts that a snapshot keeps. */
  datatype Acl = Acl(table: Table, record: set<string>)

  const EMPTY := Acl(map[], {})

  /** A rule is stored under its network, its text being the value. */
  ghost function Added(acl: Acl, text: string): Acl {
    match ToAdd(text)
    case Rule(net, cidr) => Acl(acl.table[Target(net, NetMask(cidr)) := text], acl.record + {text})
    case _ => acl
  }

  ghost function Dropped(acl: Acl, text: string): Acl {
    match ToDelete(text)
    case Rule(net, cidr) =>
      var p := Target(net, NetMask(cidr));
      if p in acl.table then Acl(acl.table - {p}, acl.record - {text}) else acl
    case _ => acl
  }

  /** A logged change: operation code and rule text. */
  datatype Change = Change(code: nat, text: string)

  /** What a replica does on a logged change: codes other than 0 and 1 are passed over. */
  ghost function Applied(acl: Acl, c: Change): Acl {
    if c.code == 0 then Dropped(acl, c.text) else if c.code == 1 then Added(acl, c.text) else acl
  }

  /** What the leader's own handler does: every code but 0 adds. */
  ghost function Handled(acl: Acl, c: Change): Acl {
    if c.code == 0 then Dropped(acl, c.text) else Added(acl, c.text)
  }

  ghost function Run(acl: Acl, changes: seq<Change>): Acl {
    if changes == [] then acl else Applied(Run(acl, changes[..|changes| - 1]), changes[|changes| - 1])
  }

  // ---- the texts and the table

  /** Each recorded text is the stored spelling of its network, and each stored value is recorded. */
  ghost predicate TiedText(acl: Acl, t: string) {
    ToAdd(t).Rule? && ToAdd(t).Position() in acl.table && acl.table[ToAdd(t).Position()] == t
  }

  ghost predicate TiedEntry(acl: Acl, p: Path) {
    p in acl.table && acl.table[p] in acl.record && ToAdd(acl.table[p]).Rule? && ToAdd(acl.table[p]).Position() == p
  }

  ghost predicate Tied(acl: Acl) {
    && (forall t {:trigger TiedText(acl, t)} :: t in acl.record ==> TiedText(acl, t))
    && (forall p {:trigger TiedEntry(acl, p)} :: p in acl.table ==> TiedEntry(acl, p))
  }

  /** Adding keeps the tie exactly when the network is new or already has this spelling. */
  lemma AddedTied(acl: Acl, text: string)
    requires Tied(acl) && ToAdd(text).Rule?
    ensures var p := ToAdd(text).Position(); Tied(Added(acl, text)) <==> (p in acl.table ==> acl.table[p] == text)
  {
    var p := ToAdd(text).Position();
    var w := Added(acl, text);
    if p in acl.table && acl.table[p] != text {
      assert TiedEntry(acl, p);
      assert !TiedText(w, acl.table[p]);
    } else {
      forall t | t in w.record ensures TiedText(w, t) {
        if t != text { assert TiedText(acl, t); }
      }
      forall q | q in w.table ensures TiedEntry(w, q) {
        if q != p { assert TiedEntry(acl, q); }
      }
    }
  }

  /** Deleting keeps it exactly when the network is absent or has this spelling. */
  lemma DroppedTied(acl: Acl, text: string)
    requires Tied(acl) && ToDelete(text).Rule?
    ensures var p := ToAdd(text).Position(); Tied(Dropped(acl, text)) <==> (p in acl.table ==> acl.table[p] == text)
  {
    var p := ToAdd(text).Position();
    var w := Dropped(acl, text);
    if p in acl.table && acl.table[p] != text {
      assert TiedEntry(acl, p);
      assert !TiedText(w, acl.table[p]);
    } else {
      forall t | t in w.record ensures TiedText(w, t) {
        assert TiedText(acl, t);
      }
      forall q | q in w.table ensures TiedEntry(w, q) {
        assert TiedEntry(acl, q);
        assert TiedText(acl, acl.table[q]);
      }
    }
  }

  ghost predicate SameSpelling(s: string, t: string) {
    ToAdd(s).Rule? && ToAdd(t).Rule? && ToAdd(s).Position() == ToAdd(t).Position() ==> s == t
  }

  /** No network is written in two ways, in the list or in the changes. */
  ghost predicate OneSpelling(acl: Acl, changes: seq<Change>) {
    && (forall i, j {:trigger SameSpelling(changes[i].text, changes[j].text)} ::
          0 <= i < |changes| && 0 <= j < |changes| ==> SameSpelling(changes[i].text, changes[j].text))
    && (forall i, t {:trigger SameSpelling(changes[i].text, t)} ::
          0 <= i < |changes| && t in acl.record ==> SameSpelling(changes[i].text, t))
  }

  /** What a text in the list can be: an old one or one that was added. */
  ghost predicate Known(acl: Acl, changes: seq<Change>, t: string) {
    t in acl.record || exists i :: 0 <= i < |changes| && changes[i].text == t
  }

  lemma {:induction false} RunTied(acl: Acl, changes: seq<Change>)
    requires Tied(acl) && OneSpelling(acl, changes)
    ensures Tied(Run(acl, changes))
    ensures forall t :: t in Run(acl, changes).record ==> Known(acl, changes, t)
  {
    if changes != [] {
      var n := |changes| - 1;
      var before, c := Run(acl, changes[..n]), changes[n];
      assert OneSpelling(acl, changes[..n]) by {
        assert forall i, j :: 0 <= i < n && 0 <= j < n ==> SameSpelling(changes[i].text, changes[j].text);
        assert forall i, t :: 0 <= i < n && t in acl.record ==> SameSpelling(changes[i].text, t);
      }
      RunTied(acl, changes[..n]);
      forall t | t in before.record ensures SameSpelling(c.text, t) && Known(acl, changes, t) {
        assert Known(acl, changes[..n], t);
        if t !in acl.record {
          var i :| 0 <= i < n && changes[..n][i].text == t;
          assert changes[i].text == t && SameSpelling(changes[n].text, changes[i].text);
        } else {
          assert SameSpelling(changes[n].text, t);
        }
      }
      LastTied(before, c);
      assert Known(acl, changes, c.text);
    }
  }

  lemma LastTied(before: Acl, c: Change)
    requires Tied(before) && forall t :: t in before.record ==> SameSpelling(c.text, t)
    ensures Tied(Applied(before, c))
    ensures forall t :: t in Applied(before, c).record ==> t in before.record || t == c.text
  {
    if c.code <= 1 && ToAdd(c.text).Rule? {
      var p := ToAdd(c.text).Position();
      if p in before.table {
        assert TiedEntry(before, p);
        assert SameSpelling(c.text, before.table[p]);
      }
      if c.code == 1 {
        AddedTied(before, c.text);
      } else if ToDelete(c.text).Rule? {
        DroppedTied(before, c.text);
      }
    }
  }

  /** Tied lists with the same table have the same record. */
  lemma TiedRecord(a: Acl, b: Acl)
    requires Tied(a) && Tied(b) && a.table == b.table
    ensures a == b
  {
    forall t | t in a.record ensures t in b.record { assert TiedText(a, t); assert TiedEntry(b, ToAdd(t).Position()); }
    forall t | t in b.record ensures t in a.record { assert TiedText(b, t); assert TiedEntry(a, ToAdd(t).Position()); }
  }
}
