/** What a lookup in a table of prefixes is meant to return (RFC 4632, section 5.1). */
module LongestMatch {
  import opened Words

  type Table = map<Path, string>

  const NOTHING: string := ""

  /** The value of the deepest position on the route among its first `k` (lengths 0 to k-1). */
  ghost function Best(table: Table, route: Route, k: nat): string
    requires k <= 33
  {
    if k == 0 then NOTHING
    else if Walk(route, k - 1) in table then table[Walk(route, k - 1)]
    else Best(table, route, k - 1)
  }

  ghost function Lookup(table: Table, key: Word): string {
    Best(table, Bits(key), 33)
  }

  /** A network is stored when its first `len` bits designate an occupied entry of the table. */
  ghost predicate Stored(table: Table, net: Word, len: nat)
    requires len <= 32
  {
    Walk(Bits(net), len) in table
  }

  ghost function ValueOf(table: Table, net: Word, len: nat): string
    requires len <= 32 && Stored(table, net, len)
  {
    table[Walk(Bits(net), len)]
  }

  /** The address comparison a netmask stands for. */
  ghost predicate Covers(net: Word, len: nat, key: Word)
    requires len <= 32
  {
    (key ^ net) & NetMask(len) == 0
  }

  lemma {:induction false} BestIsDeepest(table: Table, route: Route, k: nat, len: nat)
    requires len < k <= 33 && Walk(route, len) in table
    requires forall i: nat :: len < i < k ==> Walk(route, i) !in table
    ensures Best(table, route, k) == table[Walk(route, len)]
  {
    if len < k - 1 { BestIsDeepest(table, route, k - 1, len); }
  }

  lemma {:induction false} BestOfNone(table: Table, route: Route, k: nat, from: nat)
    requires from <= k <= 33
    requires forall i: nat :: from <= i < k ==> Walk(route, i) !in table
    ensures Best(table, route, k) == Best(table, route, from)
  {
    if from < k { BestOfNone(table, route, k - 1, from); }
  }

  lemma {:induction false} Deepest(table: Table, route: Route, k: nat) returns (found: bool, len: nat)
    requires k <= 33
    ensures found ==> len < k && Walk(route, len) in table && forall i: nat :: len < i < k ==> Walk(route, i) !in table
    ensures !found ==> forall i: nat :: i < k ==> Walk(route, i) !in table
  {
    if k == 0 {
      found, len := false, 0;
    } else if Walk(route, k - 1) in table {
      found, len := true, k - 1;
    } else {
      found, len := Deepest(table, route, k - 1);
    }
  }

  /** A lookup answers with a stored network covering the address and at least as long as every other
      stored network that covers it. */
  lemma LookupIsLongestCover(table: Table, key: Word, net: Word, len: nat) returns (best: nat)
    requires len <= 32 && Stored(table, net, len) && Covers(net, len, key)
    ensures len <= best <= 32 && Stored(table, key, best) && Covers(key, best, key)
    ensures Lookup(table, key) == ValueOf(table, key, best)
  {
    CoversIsPrefix(key, net, len);
    var found;
    found, best := Deepest(table, Bits(key), 33);
    BestIsDeepest(table, Bits(key), 33, best);
    CoversIsPrefix(key, key, best);
  }

  /** Without a covering network the lookup answers nothing; with values that are not empty, only then. */
  lemma LookupOfUncovered(table: Table, key: Word)
    requires forall p :: p in table ==> table[p] != NOTHING
    ensures Lookup(table, key) == NOTHING <==>
            forall net: Word, len: nat :: len <= 32 && Stored(table, net, len) ==> !Covers(net, len, key)
  {
    var found, best := Deepest(table, Bits(key), 33);
    if found {
      BestIsDeepest(table, Bits(key), 33, best);
      CoversIsPrefix(key, key, best);
      assert Stored(table, key, best) && Covers(key, best, key);
    } else {
      BestOfNone(table, Bits(key), 33, 0);
      forall net: Word, len: nat | len <= 32 && Stored(table, net, len) ensures !Covers(net, len, key) {
        CoversIsPrefix(key, net, len);
      }
    }
  }

  ghost predicate StoredAt(table: Table, route: Route, d: nat) {
    d <= 32 && Walk(route, d) in table
  }

  lemma {:induction false} BestIsNothing(table: Table, route: Route, k: nat)
    requires k <= 33 && forall p :: p in table ==> table[p] != NOTHING
    ensures Best(table, route, k) == NOTHING <==> forall d: nat :: d < k ==> !StoredAt(table, route, d)
  {
    if k > 0 {
      BestIsNothing(table, route, k - 1);
      assert StoredAt(table, route, k - 1) <==> Walk(route, k - 1) in table;
    }
  }
}
