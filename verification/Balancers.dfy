/** The two balancers a proxy can have, by what they hold. */
module Balancers {
  import opened Text
  import opened Ring
  import opened RingHistory

  datatype Balancer = Hashing(ring: Ring) | Rotating(hosts: seq<string>)

  const ALGORITHMS := {"consistence-hash", "round-robin"}

  /** The balancer of an algorithm, with these hosts. */
  function BalancerOf(hash: Hash, replicas: nat, mode: string, hosts: seq<string>): Balancer
    requires mode in ALGORITHMS
  {
    if mode == "consistence-hash" then Hashing(AddedAll(hash, replicas, hosts)) else Rotating(hosts)
  }

  /** The ring takes a host as often as it is added, the rotation once. */
  function WithHost(hash: Hash, replicas: nat, b: Balancer, host: string): Balancer {
    match b
    case Hashing(ring) => Hashing(Added(ring, Points(hash, replicas, host), host))
    case Rotating(hosts) => Rotating(if host in hosts then hosts else hosts + [host])
  }

  /** `after` is `before` with the host; opened by mentioning `WithHost`. */
  ghost predicate Gained(hash: Hash, replicas: nat, before: Balancer, after: Balancer, host: string) {
    forall h {:trigger WithHost(hash, replicas, before, h)} :: h == host ==> after == WithHost(hash, replicas, before, h)
  }

  /** A host added to a proxy behaves as if it had been in the list from the start, unless it was. */
  lemma AddedLater(hash: Hash, replicas: nat, mode: string, hosts: seq<string>, host: string)
    requires mode in ALGORITHMS
    ensures mode == "consistence-hash" || host !in hosts ==>
              WithHost(hash, replicas, BalancerOf(hash, replicas, mode, hosts), host) == BalancerOf(hash, replicas, mode, hosts + [host])
  {
    assert (hosts + [host])[..|hosts|] == hosts;
  }

  /** What a balancer made from a list of hosts is: the list itself to be gone round, or, for the hash, the ring of the
      hosts, if none is named twice and no points collide. */
  ghost predicate MadeFrom(hash: Hash, replicas: nat, b: Balancer, mode: string, hosts: seq<string>) {
    && (mode == "round-robin" ==> b == Rotating(hosts))
    && (mode == "consistence-hash" ==>
          && b.Hashing?
          && (replicas > 0 && CollisionFree(hash, replicas, Named(hosts)) ==>
                (IsRing(hash, replicas, Named(hosts), b.ring) <==> NoRepeats(hosts))))
  }

  lemma MadeFromHosts(hash: Hash, replicas: nat, mode: string, hosts: seq<string>)
    requires mode in ALGORITHMS
    ensures MadeFrom(hash, replicas, BalancerOf(hash, replicas, mode, hosts), mode, hosts)
    ensures mode == "round-robin" || mode == "consistence-hash"
  {
    if replicas > 0 && CollisionFree(hash, replicas, Named(hosts)) { AddedAllIsRingIff(hash, replicas, hosts); }
  }

  /** What adding a host does to a balancer: a rotation takes it at its end, unless it is there; the ring of some hosts
      becomes the ring of one more, and picks as before if the host was one of them. */
  ghost predicate Extended(hash: Hash, replicas: nat, before: Balancer, after: Balancer, host: string) {
    && (before.Rotating? ==> after == Rotating(if host in before.hosts then before.hosts else before.hosts + [host]))
    && (before.Hashing? ==>
          && after.Hashing?
          && (forall names: set<string> {:trigger IsRing(hash, replicas, names, before.ring)} ::
                IsRing(hash, replicas, names, before.ring) ==>
                && (host !in names && CollisionFree(hash, replicas, names + {host}) ==> IsRing(hash, replicas, names + {host}, after.ring))
                && (host in names ==> forall x :: Balanced(after.ring, x) == Balanced(before.ring, x))))
  }

  lemma WithHostExtends(hash: Hash, replicas: nat, b: Balancer, host: string)
    ensures Extended(hash, replicas, b, WithHost(hash, replicas, b, host), host)
  {
    if b.Hashing? {
      forall names: set<string> {:trigger IsRing(hash, replicas, names, b.ring)} | IsRing(hash, replicas, names, b.ring)
        ensures host !in names && CollisionFree(hash, replicas, names + {host}) ==>
                  IsRing(hash, replicas, names + {host}, WithHost(hash, replicas, b, host).ring)
        ensures host in names ==> forall x :: Balanced(WithHost(hash, replicas, b, host).ring, x) == Balanced(b.ring, x)
      {
        if host in names {
          forall x ensures Balanced(WithHost(hash, replicas, b, host).ring, x) == Balanced(b.ring, x) {
            AddedTwiceIsUnseen(hash, replicas, names, b.ring, host, x);
          }
        } else if CollisionFree(hash, replicas, names + {host}) {
          AddedIsRing(hash, replicas, names, b.ring, host);
        }
      }
    }
  }
}
