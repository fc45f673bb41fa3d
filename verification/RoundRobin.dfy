/** The round-robin balancer, and how evenly it deals. */
module RoundRobin {
  import opened Text

  /** The counter is an unsigned 64-bit integer. */
  const WRAP := 0x1_0000_0000_0000_0000

  function WithoutFirst(s: seq<string>, x: string): seq<string> {
    if s == [] then [] else if s[0] == x then s[1..] else [s[0]] + WithoutFirst(s[1..], x)
  }

  lemma WithoutAbsent(s: seq<string>, x: string)
    requires x !in s
    ensures WithoutFirst(s, x) == s
  {
  }

  /** The index at which the host is found. */
  ghost predicate IsFirst(s: seq<string>, x: string, i: int) {
    0 <= i < |s| && s[i] == x && x !in s[..i]
  }

  lemma OneFirst(s: seq<string>, x: string, i: int, j: int)
    requires IsFirst(s, x, i) && IsFirst(s, x, j)
    ensures i == j
  {
  }

  lemma {:induction false} WithoutAt(s: seq<string>, x: string, i: nat)
    requires IsFirst(s, x, i)
    ensures WithoutFirst(s, x) == s[..i] + s[i + 1..]
  {
    if i > 0 {
      assert s[0] == s[..i][0];
      assert s[1..][..i - 1] == s[..i][1..];
      WithoutAt(s[1..], x, i - 1);
    }
  }

  lemma CutOut(s: seq<string>, i: nat)
    requires i < |s| && NoRepeats(s)
    ensures var w := s[..i] + s[i + 1..]; NoRepeats(w) && forall y :: y in w <==> y in s && y != s[i]
  {
    var w := s[..i] + s[i + 1..];
    assert forall k :: 0 <= k < |w| ==> w[k] == s[if k < i then k else k + 1];
    forall y | y in s && y != s[i] ensures y in w {
      var k :| 0 <= k < |s| && s[k] == y;
      assert w[if k < i then k else k - 1] == y;
    }
  }

  /** A list without repeats loses the host and keeps every other one, in its order. */
  lemma WithoutOne(s: seq<string>, x: string)
    requires NoRepeats(s)
    ensures NoRepeats(WithoutFirst(s, x)) && forall y :: y in WithoutFirst(s, x) <==> y in s && y != x
  {
    if x in s {
      var i := FirstOf(s, x);
      WithoutAt(s, x, i);
      CutOut(s, i);
    } else {
      WithoutAbsent(s, x);
    }
  }

  lemma FirstOf(s: seq<string>, x: string) returns (i: nat)
    requires x in s
    ensures IsFirst(s, x, i)
  {
    i := 0;
    while s[i] != x
      invariant i < |s| && x !in s[..i]
      decreases |s| - i
    {
      i := i + 1;
    }
  }

  class RoundRobin {
    var idx: nat
    var hosts: seq<string>

    ghost predicate Valid()
      reads this
    {
      idx < WRAP
    }

    constructor (hosts: seq<string>)
      ensures Valid() && this.hosts == hosts && idx == 0
    {
      this.idx, this.hosts := 0, hosts;
    }

    method Add(host: string)
      requires Valid()
      modifies this
      ensures Valid() && idx == old(idx)
      ensures hosts == if host in old(hosts) then old(hosts) else old(hosts) + [host]
    {
      for i := 0 to |hosts|
        invariant hosts == old(hosts) && idx == old(idx) && host !in hosts[..i]
      {
        if hosts[i] == host {
          return;
        }
      }
      hosts := hosts + [host];
    }

    method Remove(host: string)
      requires Valid()
      modifies this
      ensures Valid() && idx == old(idx)
      ensures hosts == WithoutFirst(old(hosts), host)
      ensures host !in old(hosts) ==> hosts == old(hosts)
      ensures forall i :: IsFirst(old(hosts), host, i) ==> hosts == old(hosts)[..i] + old(hosts)[i + 1..]
    {
      for i := 0 to |hosts|
        invariant hosts == old(hosts) && idx == old(idx) && host !in hosts[..i]
      {
        if hosts[i] == host {
          WithoutAt(hosts, host, i);
          forall j | IsFirst(hosts, host, j) ensures j == i { OneFirst(hosts, host, i, j); }
          hosts := hosts[..i] + hosts[i + 1..];
          return;
        }
      }
      WithoutAbsent(hosts, host);
    }

    method Balance() returns (host: Option<string>)
      requires Valid()
      modifies this
      ensures Valid() && hosts == old(hosts)
      ensures hosts == [] ==> host == None && idx == old(idx)
      ensures hosts != [] ==> host == Some(hosts[old(idx) % |hosts|]) && idx == (old(idx) + 1) % WRAP
    {
      if |hosts| == 0 {
        return None;
      }
      host := Some(hosts[idx % |hosts|]);
      idx := (idx + 1) % WRAP;
    }

    /** A run of picks with no change of hosts between them: each host is dealt as often as its index comes up. */
    method Deal(count: nat) returns (picks: seq<string>)
      requires Valid() && hosts != [] && NoRepeats(hosts)
      modifies this
      ensures Valid() && hosts == old(hosts) && |picks| == count
      ensures forall i :: 0 <= i < |hosts| ==> multiset(picks)[hosts[i]] == Turns(old(idx), count, |hosts|, i)
    {
      picks := [];
      for k := 0 to count
        invariant Valid() && hosts == old(hosts) && |picks| == k && idx == (old(idx) + k) % WRAP
        invariant forall i :: 0 <= i < |hosts| ==> multiset(picks)[hosts[i]] == Turns(old(idx), k, |hosts|, i)
      {
        var host := Balance();
        assert idx == (old(idx) + (k + 1)) % WRAP by { NextCounter(old(idx), k); }
        picks := picks + [host.value];
      }
    }
  }

  lemma NextCounter(start: nat, k: nat)
    ensures ((start + k) % WRAP + 1) % WRAP == (start + (k + 1)) % WRAP
  {
  }

  // ---- fairness

  /** The index the counter picks after `x` picks in all: the counter wraps, then is reduced. */
  ghost function Index(x: nat, n: nat): nat
    requires n > 0
  {
    x % WRAP % n
  }

  /** How many of `count` picks from counter `start` on fall on index `r` of `n`. */
  ghost function Turns(start: nat, count: nat, n: nat, r: nat): nat
    requires n > 0
  {
    if count == 0 then 0
    else Turns(start, count - 1, n, r) + (if Index(start + count - 1, n) == r then 1 else 0)
  }

  /** No index is ahead of another by more than one. */
  ghost predicate Even(start: nat, count: nat, n: nat)
    requires n > 0
  {
    forall r: nat, s: nat {:trigger Turns(start, count, n, r), Turns(start, count, n, s)} ::
      r < n && s < n ==> Turns(start, count, n, r) <= Turns(start, count, n, s) + 1
  }

  /** How many numbers below `x` leave remainder `r`. */
  ghost function Below(x: nat, n: nat, r: nat): nat
    requires n > 0
  {
    x / n + (if x % n > r then 1 else 0)
  }

  lemma Division(x: nat, n: nat, q: nat, m: nat)
    requires n > 0 && x == q * n + m && m < n
    ensures x / n == q && x % n == m
  {
    var q', m' := x / n, x % n;
    assert q' * n + m' == q * n + m;
    Apart(q', q, n);
    Apart(q, q', n);
  }

  lemma Apart(p: nat, q: nat, n: nat)
    requires n > 0
    ensures p < q ==> q * n >= p * n + n
  {
    if p < q {
      var d: nat := q - p - 1;
      assert q * n == p * n + n + d * n;
      assert d * n >= 0;
    }
  }

  lemma BelowIs(x: nat, n: nat, r: nat, q: nat, m: nat)
    requires n > 0 && x == q * n + m && m < n
    ensures Below(x, n, r) == q + (if m > r then 1 else 0) && (x % n == r <==> m == r)
  {
    Division(x, n, q, m);
  }

  lemma OneMore(q: nat, c: nat, n: nat)
    ensures (q + c) * n == q * n + c * n && (q + c + 1) * n == q * n + c * n + n
  {
  }

  lemma BelowNext(x: nat, n: nat, r: nat)
    requires n > 0 && r < n
    ensures Below(x + 1, n, r) == Below(x, n, r) + (if x % n == r then 1 else 0)
  {
    var q, m := x / n, x % n;
    OneMore(q, 0, n);
    BelowIs(x, n, r, q, m);
    if m + 1 < n {
      BelowIs(x + 1, n, r, q, m + 1);
    } else {
      BelowIs(x + 1, n, r, q + 1, 0);
    }
  }

  /** The wrapped counter names the index an unbounded one would. */
  ghost predicate Unwrapped(x: nat, n: nat)
    requires n > 0
  {
    Index(x, n) == x % n
  }

  lemma {:induction false} TurnsAreBelow(start: nat, count: nat, n: nat, r: nat)
    requires n > 0 && r < n && forall x: nat :: start <= x < start + count ==> Unwrapped(x, n)
    ensures Turns(start, count, n, r) == Below(start + count, n, r) - Below(start, n, r)
  {
    if count > 0 {
      TurnsAreBelow(start, count - 1, n, r);
      BelowNext(start + count - 1, n, r);
      assert Unwrapped(start + count - 1, n);
    }
  }

  lemma BelowAddsTo(start: nat, count: nat, n: nat, r: nat, q: nat, m: nat, c: nat, d: nat)
    requires n > 0 && r < n && m < n && d < n && start == q * n + m && count == c * n + d
    ensures c <= Below(start + count, n, r) - Below(start, n, r) <= c + 1
    ensures d == 0 ==> Below(start + count, n, r) - Below(start, n, r) == c
  {
    OneMore(q, c, n);
    BelowIs(start, n, r, q, m);
    if m + d < n {
      BelowIs(start + count, n, r, q + c, m + d);
    } else {
      BelowIs(start + count, n, r, q + c + 1, m + d - n);
    }
  }

  lemma Divided(x: nat, n: nat) returns (q: nat, m: nat)
    requires n > 0
    ensures x == q * n + m && m < n && q == x / n && m == x % n
  {
    q, m := x / n, x % n;
  }

  /** Each of `n` indices is dealt its share of `count` picks, rounded down or up. */
  lemma Share(start: nat, count: nat, n: nat, r: nat)
    requires n > 0 && r < n && forall x: nat :: start <= x < start + count ==> Unwrapped(x, n)
    ensures count / n <= Turns(start, count, n, r) <= count / n + 1
    ensures count % n == 0 ==> Turns(start, count, n, r) == count / n
  {
    TurnsAreBelow(start, count, n, r);
    var q, m := Divided(start, n);
    var c, d := Divided(count, n);
    BelowAddsTo(start, count, n, r, q, m, c, d);
  }

  /** While the counter is as good as unbounded, dealing is even, and whole rounds deal every index alike. */
  lemma EvenWhenUnwrapped(start: nat, count: nat, n: nat)
    requires n > 0 && forall x: nat :: start <= x < start + count ==> Unwrapped(x, n)
    ensures Even(start, count, n)
    ensures count % n == 0 ==> forall r: nat :: r < n ==> Turns(start, count, n, r) == count / n
  {
    var share := count / n;
    forall r: nat | r < n
      ensures share <= Turns(start, count, n, r) <= share + 1 && (count % n == 0 ==> Turns(start, count, n, r) == share)
    {
      Share(start, count, n, r);
    }
  }

  lemma SameIndex(x: nat, n: nat)
    requires n > 0 && (x < WRAP || WRAP % n == 0)
    ensures Unwrapped(x, n)
  {
    if x >= WRAP {
      var y := x % WRAP;
      Regroup(x / WRAP, WRAP / n, n, y / n, y % n);
      Division(x, n, x / WRAP * (WRAP / n) + y / n, y % n);
    }
  }

  lemma Regroup(q: nat, w: nat, n: nat, c: nat, d: nat)
    ensures q * (w * n) + (c * n + d) == (q * w + c) * n + d
  {
  }

  /** A window that does not run over the end of the counter is dealt evenly, whatever the number of hosts. */
  lemma EvenBeforeTheEnd(start: nat, count: nat, n: nat)
    requires n > 0 && start + count <= WRAP
    ensures Even(start, count, n)
    ensures count % n == 0 ==> forall r: nat :: r < n ==> Turns(start, count, n, r) == count / n
  {
    forall x: nat | start <= x < start + count ensures Unwrapped(x, n) { SameIndex(x, n); }
    EvenWhenUnwrapped(start, count, n);
  }

  /** Every window is dealt evenly exactly when the number of hosts divides the range of the counter. */
  lemma EvenIffDivides(n: nat)
    requires 0 < n < WRAP
    ensures WRAP % n == 0 <==> forall start: nat, count: nat :: start < WRAP ==> Even(start, count, n)
  {
    if WRAP % n == 0 {
      forall start: nat, count: nat | start < WRAP ensures Even(start, count, n) {
        forall x: nat | start <= x < start + count ensures Unwrapped(x, n) { SameIndex(x, n); }
        EvenWhenUnwrapped(start, count, n);
      }
    } else {
      UnevenAtTheEnd(n);
    }
  }

  lemma IndexAfterWrap(k: nat, n: nat)
    requires 0 < n < WRAP && k < n
    ensures Index(WRAP - 1 + k, n) == if k == 0 then (WRAP - 1) % n else k - 1
  {
    if k > 0 {
      Division(WRAP - 1 + k, WRAP, 1, k - 1);
      Division(k - 1, n, 0, k - 1);
    } else {
      Division(WRAP - 1, WRAP, 0, WRAP - 1);
    }
  }

  lemma {:induction false} TurnsAfterWrap(k: nat, n: nat, r: nat)
    requires 0 < n < WRAP && k < n && r < n
    ensures Turns(WRAP - 1, k + 1, n, r) == (if (WRAP - 1) % n == r then 1 else 0) + (if r < k then 1 else 0)
  {
    IndexAfterWrap(k, n);
    if k > 0 { TurnsAfterWrap(k - 1, n, r); } else { assert Turns(WRAP - 1, 0, n, r) == 0; }
  }

  /** Otherwise the `n` picks that start with the last counter value deal one index twice and the last one never. */
  lemma UnevenAtTheEnd(n: nat)
    requires 0 < n < WRAP && WRAP % n != 0
    ensures !Even(WRAP - 1, n, n)
  {
    var q, c := WRAP / n, WRAP % n;
    Division(WRAP - 1, n, q, c - 1);
    TurnsAfterWrap(n - 1, n, c - 1);
    TurnsAfterWrap(n - 1, n, n - 1);
    assert Turns(WRAP - 1, n, n, c - 1) == 2 && Turns(WRAP - 1, n, n, n - 1) == 0;
  }
}
