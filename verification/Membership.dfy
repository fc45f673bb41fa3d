/** Hosts of one proxy: each is added by a sequence of statements and then watched by a checker of its own,
    which flips the host's flag and edits the balancer. All of these interleave statement by statement,
    with one another and with shutdown. */
module Membership {
  import opened Text
  import opened Ring
  import opened RingHistory

  /** Where a host's own goroutine is: still being added, at rest in the `select`, or inside one tick. */
  datatype Place =
    | Listed | Flagged | Wired | Enrolled          // being added: in HostMap, in Alive, in HostsShutDown, in the balancer
    | AtRest
    | FirstProbe | FoundDown | Unflag | Withdraw    // the first condition and its branch
    | SecondProbe | FoundUp | Flag | Enlist         // the second condition and its branch
    | Gone

  datatype Shutdown = Open | Closing(pending: set<string>) | Waiting(host: string, pending: set<string>) | Closed

  datatype Proxy = Proxy(hostMap: set<string>, alive: map<string, bool>, channels: set<string>, ring: Ring, crashed: bool,
                         at: map<string, Place>, removed: set<string>, shutdown: Shutdown)

  datatype Action =
    | Begin(host: string)               // AddProxy of a host never seen before
    | Run(host: string, up: bool)       // the next statement of the host's goroutine; `up` answers a probe
    | RemoveHost(host: string)          // its signal is received at rest
    | Signal                            // RemoveProxy reaches shutDownCheck
    | Choose(host: string)              // shutDownCheck turns to the next host
    | Deliver                           // ... and its signal is received at rest
    | Finish

  ghost predicate BeingAdded(p: Place) {
    p.Listed? || p.Flagged? || p.Wired? || p.Enrolled?
  }

  ghost predicate Enabled(s: Proxy, a: Action) {
    !s.crashed &&
    match a
    case Begin(h) => h !in s.at && s.shutdown.Open?
    case Run(h, _) => h in s.at && s.at[h] != Gone
    case RemoveHost(h) => h in s.at && s.at[h] == AtRest && h in s.channels && s.shutdown.Open?
    case Signal => s.shutdown.Open? && forall h :: h in s.at ==> !BeingAdded(s.at[h])
    case Choose(h) => s.shutdown.Closing? && h in s.shutdown.pending
    case Deliver => s.shutdown.Waiting? && s.shutdown.host in s.at && s.at[s.shutdown.host] == AtRest
    case Finish => s.shutdown.Closing? && s.shutdown.pending == {}
  }

  /** The next place of a goroutine. */
  ghost function NextPlace(p: Place, alive: bool, up: bool): Place {
    match p
    case Listed => Flagged
    case Flagged => Wired
    case Wired => Enrolled
    case Enrolled => AtRest
    case AtRest => FirstProbe
    case FirstProbe => if up then SecondProbe else FoundDown
    case FoundDown => if alive then Unflag else SecondProbe
    case Unflag => Withdraw
    case Withdraw => AtRest
    case SecondProbe => if up then FoundUp else AtRest
    case FoundUp => if alive then AtRest else Flag
    case Flag => Enlist
    case Enlist => AtRest
    case Gone => Gone
  }

  ghost function AliveIn(s: Proxy, h: string): bool {
    h in s.alive && s.alive[h]
  }

  /** The statement a goroutine executes, its effect on the balancer apart. */
  ghost function Moved(s: Proxy, h: string, up: bool): Proxy
    requires h in s.at
  {
    var p := s.at[h];
    var t := s.(at := s.at[h := NextPlace(p, AliveIn(s, h), up)]);
    if p.Listed? || p.Flag? then t.(alive := s.alive[h := true])
    else if p.Unflag? then t.(alive := s.alive[h := false])
    else if p.Flagged? then t.(channels := s.channels + {h})
    else t
  }

  ghost function Ran(hash: Hash, replicas: nat, s: Proxy, h: string, up: bool): Proxy
    requires h in s.at
  {
    var t := Moved(s, h, up);
    match s.at[h]
    case Wired => t.(ring := Added(s.ring, Points(hash, replicas, h), h))
    case Enlist => t.(ring := Added(s.ring, Points(hash, replicas, h), h))
    case Withdraw =>
      (match Removed(s.ring, Points(hash, replicas, h))
       case None => t.(crashed := true)
       case Some(ring) => t.(ring := ring))
    case _ => t
  }

  ghost function Next(hash: Hash, replicas: nat, s: Proxy, a: Action): Proxy
    requires Enabled(s, a)
  {
    match a
    case Begin(h) => s.(hostMap := s.hostMap + {h}, at := s.at[h := Listed])
    case Run(h, up) => Ran(hash, replicas, s, h, up)
    case RemoveHost(h) => s.(at := s.at[h := Gone], hostMap := s.hostMap - {h}, removed := s.removed + {h})
    case Signal => s.(shutdown := Closing(s.channels))
    case Choose(h) => s.(shutdown := Waiting(h, s.shutdown.pending - {h}))
    case Deliver => s.(at := s.at[s.shutdown.host := Gone], shutdown := Closing(s.shutdown.pending))
    case Finish => s.(shutdown := Closed)
  }

  // ---- the invariant

  /** Whether a host is in the balancer, by the place of its goroutine. */
  ghost predicate Member(s: Proxy, h: string) {
    h in s.at &&
    match s.at[h]
    case Listed => false
    case Flagged => false
    case Wired => false
    case Enrolled => true
    case Unflag => true
    case Withdraw => true
    case Flag => false
    case Enlist => false
    case _ => AliveIn(s, h)
  }

  ghost function Members(s: Proxy): set<string> {
    set h | h in s.at && Member(s, h)
  }

  /** What a goroutine knows of its own flag, and which tables it has written. */
  ghost predicate Consistent(s: Proxy, h: string) {
    h in s.at ==>
      && (h in s.alive <==> !s.at[h].Listed?)
      && (h in s.channels <==> !s.at[h].Listed? && !s.at[h].Flagged?)
      && (s.at[h].Flagged? || s.at[h].Wired? || s.at[h].Enrolled? || s.at[h].Unflag? || s.at[h].Enlist? ==> AliveIn(s, h))
      && (s.at[h].Withdraw? || s.at[h].Flag? ==> !AliveIn(s, h))
      && (h in s.removed ==> s.at[h].Gone?)
      && (s.at[h].Gone? && s.shutdown.Open? ==> h in s.removed)
  }

  ghost predicate Inv(hash: Hash, replicas: nat, universe: set<string>, s: Proxy) {
    && !s.crashed
    && s.at.Keys <= universe && s.removed <= s.channels <= s.at.Keys && s.alive.Keys <= s.at.Keys
    && s.hostMap == s.at.Keys - s.removed
    && (forall h {:trigger Consistent(s, h)} :: Consistent(s, h))
    && IsRing(hash, replicas, Members(s), s.ring)
  }

  /** A proxy as it is created from a list of hosts: every one listed, flagged, wired, in the balancer, its
      checker at rest. */
  ghost function Started(hash: Hash, replicas: nat, hosts: seq<string>): Proxy {
    Proxy(Named(hosts), map h | h in Named(hosts) :: true, Named(hosts), AddedAll(hash, replicas, hosts), false,
          map h | h in Named(hosts) :: AtRest, {}, Open)
  }

  /** The invariant holds at the start exactly when no host is named twice. */
  lemma StartInv(hash: Hash, replicas: nat, universe: set<string>, hosts: seq<string>)
    requires Named(hosts) <= universe && CollisionFree(hash, replicas, universe) && replicas > 0
    ensures Inv(hash, replicas, universe, Started(hash, replicas, hosts)) <==> NoRepeats(hosts)
  {
    FreeWithin(hash, replicas, universe, Named(hosts));
    AddedAllIsRingIff(hash, replicas, hosts);
    StartedInv(hash, replicas, universe, Named(hosts), Started(hash, replicas, hosts));
  }

  lemma StartedInv(hash: Hash, replicas: nat, universe: set<string>, hosts: set<string>, s: Proxy)
    requires hosts <= universe
    requires s == Proxy(hosts, map h | h in hosts :: true, hosts, s.ring, false, map h | h in hosts :: AtRest, {}, Open)
    ensures Inv(hash, replicas, universe, s) <==> IsRing(hash, replicas, hosts, s.ring)
  {
    assert Members(s) == hosts;
  }

  /** So it holds in whatever state a proxy created from distinct hosts gets into. */
  lemma ReachableInv(hash: Hash, replicas: nat, universe: set<string>, hosts: seq<string>, actions: seq<Action>)
    requires Named(hosts) <= universe && CollisionFree(hash, replicas, universe) && replicas > 0 && NoRepeats(hosts)
    requires CanRun(hash, replicas, Started(hash, replicas, hosts), actions) && Within(universe, actions)
    ensures Inv(hash, replicas, universe, After(hash, replicas, Started(hash, replicas, hosts), actions))
  {
    StartInv(hash, replicas, universe, hosts);
    RunInv(hash, replicas, universe, Started(hash, replicas, hosts), actions);
  }

  lemma MembersWithin(hash: Hash, replicas: nat, universe: set<string>, s: Proxy)
    requires Inv(hash, replicas, universe, s) && CollisionFree(hash, replicas, universe)
    ensures Members(s) <= s.at.Keys <= universe
    ensures forall h :: h in s.at ==> CollisionFree(hash, replicas, Members(s) + {h})
  {
    forall h | h in s.at ensures CollisionFree(hash, replicas, Members(s) + {h}) {
      FreeWithin(hash, replicas, universe, Members(s) + {h});
    }
  }

  /** The balancer's `Add` is only ever called with an absent host, its `Remove` with a present one. */
  lemma BalancerCallsAreSound(hash: Hash, replicas: nat, universe: set<string>, s: Proxy, h: string)
    requires Inv(hash, replicas, universe, s) && h in s.at
    ensures s.at[h].Wired? || s.at[h].Enlist? ==> h !in Members(s)
    ensures s.at[h].Withdraw? ==> h in Members(s)
  {
  }

  lemma MovedOther(s: Proxy, h: string, up: bool, g: string)
    requires h in s.at && g != h
    ensures Member(Moved(s, h, up), g) <==> Member(s, g)
    ensures Consistent(s, g) ==> Consistent(Moved(s, h, up), g)
  {
    var t := Moved(s, h, up);
    assert AliveIn(t, g) == AliveIn(s, g);
  }

  lemma MovedSelf(s: Proxy, h: string, up: bool)
    requires h in s.at && s.at[h] != Gone && Consistent(s, h)
    ensures Member(Moved(s, h, up), h) <==> s.at[h].Wired? || s.at[h].Enlist? || (Member(s, h) && !s.at[h].Withdraw?)
  {
  }

  lemma MovedSelfConsistent(s: Proxy, h: string, up: bool)
    requires h in s.at && s.at[h] != Gone && Consistent(s, h)
    ensures Consistent(Moved(s, h, up), h)
  {
  }

  lemma MovedMembers(s: Proxy, h: string, up: bool)
    requires h in s.at && s.at[h] != Gone && Consistent(s, h)
    ensures Members(Moved(s, h, up)) ==
            if s.at[h].Wired? || s.at[h].Enlist? then Members(s) + {h}
            else if s.at[h].Withdraw? then Members(s) - {h} else Members(s)
  {
    MovedSelf(s, h, up);
    forall g | g != h ensures Member(Moved(s, h, up), g) <==> Member(s, g) { MovedOther(s, h, up, g); }
  }

  lemma SameMembers(s: Proxy, t: Proxy)
    requires s.at == t.at && s.alive == t.alive
    ensures Members(s) == Members(t)
  {
    forall g ensures Member(s, g) <==> Member(t, g) { assert AliveIn(s, g) == AliveIn(t, g); }
  }

  lemma RanIsMoved(hash: Hash, replicas: nat, s: Proxy, h: string, up: bool)
    requires h in s.at
    ensures var t, m := Ran(hash, replicas, s, h, up), Moved(s, h, up);
            && t.at == m.at && t.alive == m.alive && t.channels == m.channels && t.removed == m.removed
            && t.hostMap == m.hostMap && t.shutdown == m.shutdown
  {
  }

  lemma RanConsistent(hash: Hash, replicas: nat, s: Proxy, h: string, up: bool, g: string)
    requires h in s.at && s.at[h] != Gone && Consistent(s, g) && Consistent(s, h)
    ensures Consistent(Ran(hash, replicas, s, h, up), g)
  {
    RanIsMoved(hash, replicas, s, h, up);
    if g == h { MovedSelfConsistent(s, h, up); } else { MovedOther(s, h, up, g); }
    SameConsistent(Moved(s, h, up), Ran(hash, replicas, s, h, up), g);
  }

  lemma SameConsistent(s: Proxy, t: Proxy, g: string)
    requires s.at == t.at && s.alive == t.alive && s.channels == t.channels && s.removed == t.removed && s.shutdown == t.shutdown
    ensures Consistent(s, g) <==> Consistent(t, g)
  {
    assert AliveIn(s, g) == AliveIn(t, g);
  }

  lemma RanRing(hash: Hash, replicas: nat, universe: set<string>, s: Proxy, h: string, up: bool)
    requires Inv(hash, replicas, universe, s) && CollisionFree(hash, replicas, universe) && h in s.at && s.at[h] != Gone
    ensures var t := Ran(hash, replicas, s, h, up); !t.crashed && IsRing(hash, replicas, Members(t), t.ring)
  {
    MembersWithin(hash, replicas, universe, s);
    BalancerCallsAreSound(hash, replicas, universe, s, h);
    assert Consistent(s, h);
    MovedMembers(s, h, up);
    RanIsMoved(hash, replicas, s, h, up);
    SameMembers(Moved(s, h, up), Ran(hash, replicas, s, h, up));
    if s.at[h].Wired? || s.at[h].Enlist? {
      AddedIsRing(hash, replicas, Members(s), s.ring, h);
    } else if s.at[h].Withdraw? {
      assert Members(s) + {h} == Members(s);
      RemovedIsRing(hash, replicas, Members(s), s.ring, h);
    }
  }

  lemma RanInv(hash: Hash, replicas: nat, universe: set<string>, s: Proxy, h: string, up: bool)
    requires Inv(hash, replicas, universe, s) && CollisionFree(hash, replicas, universe) && h in s.at && s.at[h] != Gone
    ensures Inv(hash, replicas, universe, Ran(hash, replicas, s, h, up))
  {
    var t := Ran(hash, replicas, s, h, up);
    RanRing(hash, replicas, universe, s, h, up);
    RanIsMoved(hash, replicas, s, h, up);
    forall g ensures Consistent(t, g) {
      assert Consistent(s, g) && Consistent(s, h);
      RanConsistent(hash, replicas, s, h, up, g);
    }
  }

  lemma StepInv(hash: Hash, replicas: nat, universe: set<string>, s: Proxy, a: Action)
    requires Inv(hash, replicas, universe, s) && CollisionFree(hash, replicas, universe)
    requires Enabled(s, a) && (a.Begin? ==> a.host in universe)
    ensures Inv(hash, replicas, universe, Next(hash, replicas, s, a))
  {
    var t := Next(hash, replicas, s, a);
    if a.Run? {
      RanInv(hash, replicas, universe, s, a.host, a.up);
    } else {
      forall g ensures Consistent(t, g) { assert Consistent(s, g); }
      assert Members(t) == Members(s);
    }
  }

  // ---- runs

  ghost predicate CanRun(hash: Hash, replicas: nat, s: Proxy, actions: seq<Action>)
    decreases |actions|
  {
    actions == [] || (Enabled(s, actions[0]) && CanRun(hash, replicas, Next(hash, replicas, s, actions[0]), actions[1..]))
  }

  ghost function After(hash: Hash, replicas: nat, s: Proxy, actions: seq<Action>): Proxy
    requires CanRun(hash, replicas, s, actions)
    decreases |actions|
  {
    if actions == [] then s else After(hash, replicas, Next(hash, replicas, s, actions[0]), actions[1..])
  }

  ghost predicate Within(universe: set<string>, actions: seq<Action>) {
    forall i :: 0 <= i < |actions| && actions[i].Begin? ==> actions[i].host in universe
  }

  /** The invariant holds in every state of every interleaving; in particular nothing ever crashes. */
  lemma {:induction false} RunInv(hash: Hash, replicas: nat, universe: set<string>, s: Proxy, actions: seq<Action>)
    requires Inv(hash, replicas, universe, s) && CollisionFree(hash, replicas, universe)
    requires CanRun(hash, replicas, s, actions) && Within(universe, actions)
    ensures Inv(hash, replicas, universe, After(hash, replicas, s, actions))
    decreases |actions|
  {
    if actions != [] {
      StepInv(hash, replicas, universe, s, actions[0]);
      RunInv(hash, replicas, universe, Next(hash, replicas, s, actions[0]), actions[1..]);
    }
  }

  /** A host whose checker is at rest is in the balancer exactly when its flag is set, and it is listed. */
  lemma RestAgrees(hash: Hash, replicas: nat, universe: set<string>, s: Proxy, h: string)
    requires Inv(hash, replicas, universe, s) && h in s.at && s.at[h] == AtRest
    ensures h in s.alive && (h in Members(s) <==> s.alive[h])
    ensures h in s.hostMap
  {
    assert Consistent(s, h);
  }

  /** Every pick is a key of HostMap exactly when no individually removed host was left in the balancer. */
  lemma PicksAreListed(hash: Hash, replicas: nat, universe: set<string>, s: Proxy)
    requires Inv(hash, replicas, universe, s) && replicas > 0
    ensures (forall x :: Balanced(s.ring, x).Some? ==> Balanced(s.ring, x).value in s.hostMap) <==>
            Members(s) !! s.removed
  {
    forall x | Balanced(s.ring, x).Some? ensures Balanced(s.ring, x).value in Members(s) {
      BalancedIsSuccessor(hash, replicas, Members(s), s.ring, x);
    }
    if h :| h in Members(s) && h in s.removed {
      OwnPointIsOwn(hash, replicas, Members(s), s.ring, h);
      assert Balanced(s.ring, Point(hash, 0, h)) == Some(h);
    }
  }

  /** Removing one host leaves every pick listed exactly when its flag was off at that moment. */
  lemma RemovalLeavesPicks(hash: Hash, replicas: nat, universe: set<string>, s: Proxy, h: string)
    requires Inv(hash, replicas, universe, s) && Enabled(s, RemoveHost(h)) && Members(s) !! s.removed
    ensures var t := Next(hash, replicas, s, RemoveHost(h)); Members(t) !! t.removed <==> !AliveIn(s, h)
  {
    var t := Next(hash, replicas, s, RemoveHost(h));
    assert Members(t) == Members(s) by {
      forall g ensures Member(t, g) <==> Member(s, g) { assert AliveIn(t, g) == AliveIn(s, g); }
    }
    assert h in Members(s) <==> AliveIn(s, h);
  }

  // ---- what the probes lead to

  /** The checker of the host executes its next statement. */
  ghost predicate IsOwn(a: Action, h: string) {
    a.Run? && a.host == h
  }

  /** In a run, the first probe of the host is answered `first` and the second `second`, as often as each is made. */
  ghost predicate Answers(hash: Hash, replicas: nat, s: Proxy, h: string, run: seq<Action>, first: bool, second: bool)
    requires CanRun(hash, replicas, s, run)
    decreases |run|
  {
    run != [] ==>
      && (IsOwn(run[0], h) && s.at[h] == FirstProbe ==> run[0].up == first)
      && (IsOwn(run[0], h) && s.at[h] == SecondProbe ==> run[0].up == second)
      && Answers(hash, replicas, Next(hash, replicas, s, run[0]), h, run[1..], first, second)
  }

  /** How often the host's checker leaves its rest. */
  ghost function TicksOf(hash: Hash, replicas: nat, s: Proxy, h: string, run: seq<Action>): nat
    requires CanRun(hash, replicas, s, run)
    decreases |run|
  {
    if run == [] then 0
    else (if IsOwn(run[0], h) && s.at[h] == AtRest then 1 else 0) + TicksOf(hash, replicas, Next(hash, replicas, s, run[0]), h, run[1..])
  }

  /** The actions of others leave a host's flag alone, and its place unless they end its checker. */
  lemma OthersLeave(hash: Hash, replicas: nat, s: Proxy, a: Action, h: string)
    requires Enabled(s, a) && h in s.at && !IsOwn(a, h)
    ensures var t := Next(hash, replicas, s, a); h in t.at && (t.at[h] == s.at[h] || t.at[h] == Gone) && AliveIn(t, h) == AliveIn(s, h)
  {
    if a.Run? { RanIsMoved(hash, replicas, s, a.host, a.up); }
  }

  /** Its own statement sets the flag when it is added or found up, and takes it off when it is found down. */
  lemma OwnMoves(hash: Hash, replicas: nat, s: Proxy, h: string, up: bool)
    requires h in s.at && s.at[h] != Gone
    ensures var t := Ran(hash, replicas, s, h, up);
            h in t.at && t.at[h] == NextPlace(s.at[h], AliveIn(s, h), up)
            && AliveIn(t, h) == (s.at[h].Listed? || s.at[h].Flag? || (AliveIn(s, h) && !s.at[h].Unflag?))
  {
    RanIsMoved(hash, replicas, s, h, up);
  }

  /** How far a tick has come that finds the flag at `flag` and is answered `first` and `second`. */
  ghost predicate Ticking(p: Place, alive: bool, ticksLeft: nat, flag: bool, first: bool, second: bool) {
    match p
    case AtRest => (ticksLeft == 1 && alive == flag) || (ticksLeft == 0 && alive == if flag then first else second)
    case FirstProbe => ticksLeft == 0 && alive == flag
    case FoundDown => ticksLeft == 0 && alive == flag && !first
    case Unflag => ticksLeft == 0 && alive && flag && !first
    case Withdraw => ticksLeft == 0 && !alive && flag && !first
    case SecondProbe => ticksLeft == 0 && alive == flag && (flag ==> first)
    case FoundUp => ticksLeft == 0 && alive == flag && (flag ==> first) && second
    case Flag => ticksLeft == 0 && !alive && !flag && second
    case Enlist => ticksLeft == 0 && alive && !flag && second
    case Gone => true
    case _ => false
  }

  lemma {:induction false} TickEnds(hash: Hash, replicas: nat, s: Proxy, h: string, run: seq<Action>, flag: bool, first: bool, second: bool)
    requires CanRun(hash, replicas, s, run) && h in s.at && Answers(hash, replicas, s, h, run, first, second)
    requires Ticking(s.at[h], AliveIn(s, h), TicksOf(hash, replicas, s, h, run), flag, first, second)
    ensures var t := After(hash, replicas, s, run); h in t.at && Ticking(t.at[h], AliveIn(t, h), 0, flag, first, second)
    decreases |run|
  {
    if run != [] {
      var t := Next(hash, replicas, s, run[0]);
      if IsOwn(run[0], h) { OwnMoves(hash, replicas, s, h, run[0].up); } else { OthersLeave(hash, replicas, s, run[0], h); }
      TickEnds(hash, replicas, t, h, run[1..], flag, first, second);
    }
  }

  /** One tick of a checker from rest to rest, whatever the others do meanwhile: the first probe decides about a flag that
      was set, the second about one that was not, and the host is in the balancer exactly when the flag is set. */
  lemma TickLaw(hash: Hash, replicas: nat, universe: set<string>, s: Proxy, h: string, run: seq<Action>, first: bool, second: bool)
    requires Inv(hash, replicas, universe, s) && CollisionFree(hash, replicas, universe) && h in s.at && s.at[h] == AtRest
    requires CanRun(hash, replicas, s, run) && Within(universe, run) && Answers(hash, replicas, s, h, run, first, second)
    requires TicksOf(hash, replicas, s, h, run) == 1
    ensures var t := After(hash, replicas, s, run);
            h in t.at && (t.at[h] == AtRest ==>
              h in s.alive && h in t.alive && t.alive[h] == (if s.alive[h] then first else second) && (h in Members(t) <==> t.alive[h]))
  {
    assert Consistent(s, h);
    TickEnds(hash, replicas, s, h, run, s.alive[h], first, second);
    RunInv(hash, replicas, universe, s, run);
    var t := After(hash, replicas, s, run);
    if t.at[h] == AtRest { RestAgrees(hash, replicas, universe, t, h); }
  }

  /** Flag and place of a host that has settled as up, or as down. */
  ghost predicate Settled(p: Place, alive: bool, up: bool) {
    alive == up && (p == AtRest || p == FirstProbe || p == SecondProbe || p == Gone || if up then p == FoundUp else p == FoundDown)
  }

  /** A host in the balancer all of whose probes answer is never withdrawn, and one out of it none of whose probes answer is
      never put back: so it is in every state of every run. */
  lemma {:induction false} SteadyHost(hash: Hash, replicas: nat, s: Proxy, h: string, run: seq<Action>, up: bool)
    requires CanRun(hash, replicas, s, run) && h in s.at && Answers(hash, replicas, s, h, run, up, up)
    requires Settled(s.at[h], AliveIn(s, h), up)
    ensures var t := After(hash, replicas, s, run); h in t.at && Settled(t.at[h], AliveIn(t, h), up) && (h in Members(t) <==> up)
    decreases |run|
  {
    if run != [] {
      var t := Next(hash, replicas, s, run[0]);
      if IsOwn(run[0], h) { OwnMoves(hash, replicas, s, h, run[0].up); } else { OthersLeave(hash, replicas, s, run[0], h); }
      SteadyHost(hash, replicas, t, h, run[1..], up);
    }
  }

  /** A host that is being added has its flag as soon as that is written. */
  ghost predicate Joining(p: Place, alive: bool) {
    p == Listed || p == Gone || ((p == Flagged || p == Wired || p == Enrolled || p == AtRest) && alive)
  }

  lemma {:induction false} JoiningStill(hash: Hash, replicas: nat, s: Proxy, h: string, run: seq<Action>)
    requires CanRun(hash, replicas, s, run) && h in s.at && Joining(s.at[h], AliveIn(s, h)) && TicksOf(hash, replicas, s, h, run) == 0
    ensures var t := After(hash, replicas, s, run); h in t.at && Joining(t.at[h], AliveIn(t, h))
    decreases |run|
  {
    if run != [] {
      var t := Next(hash, replicas, s, run[0]);
      if IsOwn(run[0], h) { OwnMoves(hash, replicas, s, h, run[0].up); } else { OthersLeave(hash, replicas, s, run[0], h); }
      JoiningStill(hash, replicas, t, h, run[1..]);
    }
  }

  /** A new host whose statements have been executed, its checker not having ticked yet, is up, in the balancer and listed. */
  lemma NewHostJoins(hash: Hash, replicas: nat, universe: set<string>, s: Proxy, h: string, run: seq<Action>)
    requires Inv(hash, replicas, universe, s) && CollisionFree(hash, replicas, universe) && Enabled(s, Begin(h)) && h in universe
    requires var t := Next(hash, replicas, s, Begin(h));
             CanRun(hash, replicas, t, run) && Within(universe, run) && TicksOf(hash, replicas, t, h, run) == 0
    ensures var t := After(hash, replicas, Next(hash, replicas, s, Begin(h)), run);
            h in t.at && (t.at[h] == AtRest ==> AliveIn(t, h) && h in Members(t) && h in t.hostMap && h in t.channels)
  {
    StepInv(hash, replicas, universe, s, Begin(h));
    var t := Next(hash, replicas, s, Begin(h));
    RunInv(hash, replicas, universe, t, run);
    JoiningStill(hash, replicas, t, h, run);
    assert Consistent(After(hash, replicas, t, run), h);
  }

  // ---- shutdown

  ghost predicate IsTick(s: Proxy, a: Action) {
    a.Run? && a.host in s.at && s.at[a.host] == AtRest
  }

  /** How many statements a goroutine is away from rest, at most. */
  ghost function Cost(p: Place): nat {
    match p
    case Listed => 4 case Flagged => 3 case Wired => 2 case Enrolled => 1
    case AtRest => 0
    case FirstProbe => 6 case FoundDown => 5 case Unflag => 2 case Withdraw => 1
    case SecondProbe => 4 case FoundUp => 3 case Flag => 2 case Enlist => 1
    case Gone => 0
  }

  ghost function Rank(s: Proxy): nat {
    match s.shutdown
    case Open => 0
    case Closing(p) => 2 * |p| + 1
    case Waiting(_, p) => 2 * |p| + 2
    case Closed => 0
  }

  ghost predicate Undelivered(s: Proxy, h: string) {
    (s.shutdown.Closing? && h in s.shutdown.pending) || (s.shutdown.Waiting? && (h in s.shutdown.pending || h == s.shutdown.host))
  }

  /** The hosts still to be signalled have live checkers, the others have none. */
  ghost predicate ClosableAt(s: Proxy, h: string) {
    && (Undelivered(s, h) ==> h in s.channels)
    && (h in s.channels <==> h in s.at)
    && (h in s.at ==> (Undelivered(s, h) <==> s.at[h] != Gone))
  }

  /** Shutdown is under way and can be carried to its end. */
  ghost predicate Closable(s: Proxy) {
    && !s.shutdown.Open?
    && (s.shutdown.Waiting? ==> s.shutdown.host !in s.shutdown.pending)
    && forall h {:trigger ClosableAt(s, h)} :: ClosableAt(s, h)
  }

  /** From there some run without a further tick ends with every checker gone. */
  lemma {:induction false} Drain(hash: Hash, replicas: nat, universe: set<string>, s: Proxy) returns (actions: seq<Action>)
    requires Inv(hash, replicas, universe, s) && CollisionFree(hash, replicas, universe) && Closable(s)
    ensures CanRun(hash, replicas, s, actions)
    ensures var t := After(hash, replicas, s, actions); AllGone(t)
    decreases Rank(s), WaitingCost(s)
  {
    if s.shutdown.Closed? {
      actions := [];
      forall h | h in s.at ensures s.at[h] == Gone { assert ClosableAt(s, h); }
      return;
    }
    var a := DrainStep(hash, replicas, universe, s);
    StepInv(hash, replicas, universe, s, a);
    var rest := Drain(hash, replicas, universe, Next(hash, replicas, s, a));
    actions := [a] + rest;
    assert actions[1..] == rest;
  }

  ghost function WaitingCost(s: Proxy): nat {
    if s.shutdown.Waiting? && s.shutdown.host in s.at then Cost(s.at[s.shutdown.host]) else 0
  }

  /** One step towards the end: an enabled one that is no tick. */
  lemma DrainStep(hash: Hash, replicas: nat, universe: set<string>, s: Proxy) returns (a: Action)
    requires Inv(hash, replicas, universe, s) && Closable(s) && !s.shutdown.Closed?
    ensures Enabled(s, a) && !a.Begin? && !IsTick(s, a)
    ensures var t := Next(hash, replicas, s, a); Closable(t) && (Rank(t) < Rank(s) || (Rank(t) == Rank(s) && WaitingCost(t) < WaitingCost(s)))
  {
    match s.shutdown
    case Closing(p) =>
      if p == {} {
        a := Finish;
      } else {
        var h :| h in p;
        assert ClosableAt(s, h);
        a := Choose(h);
      }
      forall g ensures ClosableAt(Next(hash, replicas, s, a), g) { assert ClosableAt(s, g); }
    case Waiting(h, p) =>
      assert ClosableAt(s, h) && Undelivered(s, h) && Consistent(s, h);
      if s.at[h] == AtRest {
        a := Deliver;
        forall g ensures ClosableAt(Next(hash, replicas, s, a), g) { assert ClosableAt(s, g); }
      } else {
        a := Run(h, true);
        RanCloser(hash, replicas, s, h);
      }
  }

  lemma RanCloser(hash: Hash, replicas: nat, s: Proxy, h: string)
    requires Closable(s) && s.shutdown.Waiting? && s.shutdown.host == h && h in s.at && s.at[h] != Gone && s.at[h] != AtRest
    requires h in s.channels && Consistent(s, h)
    ensures var t := Ran(hash, replicas, s, h, true); Closable(t) && Rank(t) == Rank(s) && WaitingCost(t) < WaitingCost(s)
  {
    var t := Ran(hash, replicas, s, h, true);
    RanIsMoved(hash, replicas, s, h, true);
    CostFalls(s, h, true);
    forall g ensures ClosableAt(t, g) {
      assert ClosableAt(s, g);
      MovedClosable(s, h, true, g);
      SameClosable(Moved(s, h, true), t, g);
    }
  }

  /** Away from rest every statement of a goroutine brings it closer to rest. */
  lemma CostFalls(s: Proxy, h: string, up: bool)
    requires h in s.at && s.at[h] != Gone && s.at[h] != AtRest
    ensures Moved(s, h, up).at == s.at[h := NextPlace(s.at[h], AliveIn(s, h), up)]
    ensures Cost(NextPlace(s.at[h], AliveIn(s, h), up)) < Cost(s.at[h])
    ensures Moved(s, h, up).shutdown == s.shutdown
  {
  }

  lemma MovedClosable(s: Proxy, h: string, up: bool, g: string)
    requires h in s.at && s.at[h] != Gone && h in s.channels && ClosableAt(s, g)
    ensures ClosableAt(Moved(s, h, up), g)
  {
    var t := Moved(s, h, up);
    assert t.at == s.at[h := NextPlace(s.at[h], AliveIn(s, h), up)] && t.channels == s.channels && t.shutdown == s.shutdown;
    assert Undelivered(t, g) <==> Undelivered(s, g);
  }

  lemma SameClosable(s: Proxy, t: Proxy, g: string)
    requires s.at == t.at && s.channels == t.channels && s.shutdown == t.shutdown && ClosableAt(s, g)
    ensures ClosableAt(t, g)
  {
  }

  /** A signal is owed to a checker that no longer exists. */
  ghost predicate Owed(s: Proxy, h: string) {
    h in s.at && s.at[h] == Gone && Undelivered(s, h)
  }

  lemma OwedStill(hash: Hash, replicas: nat, s: Proxy, h: string, a: Action)
    requires Owed(s, h) && Enabled(s, a)
    ensures Owed(Next(hash, replicas, s, a), h)
  {
    if a.Run? {
      RanIsMoved(hash, replicas, s, a.host, a.up);
      MovedPlace(s, a.host, a.up);
    }
  }

  lemma {:induction false} OwedForever(hash: Hash, replicas: nat, s: Proxy, h: string, actions: seq<Action>)
    requires Owed(s, h) && CanRun(hash, replicas, s, actions)
    ensures Owed(After(hash, replicas, s, actions), h)
    decreases |actions|
  {
    if actions != [] {
      OwedStill(hash, replicas, s, h, actions[0]);
      OwedForever(hash, replicas, Next(hash, replicas, s, actions[0]), h, actions[1..]);
    }
  }

  lemma RanClosable(hash: Hash, replicas: nat, s: Proxy, h: string, up: bool)
    requires Closable(s) && h in s.at && s.at[h] != Gone
    ensures Closable(Ran(hash, replicas, s, h, up))
  {
    var t := Ran(hash, replicas, s, h, up);
    RanIsMoved(hash, replicas, s, h, up);
    MovedPlace(s, h, up);
    assert ClosableAt(s, h);
    forall g ensures ClosableAt(t, g) {
      assert ClosableAt(s, g);
      MovedClosable(s, h, up, g);
      SameClosable(Moved(s, h, up), t, g);
    }
  }

  lemma ClosableStill(hash: Hash, replicas: nat, s: Proxy, a: Action)
    requires Closable(s) && Enabled(s, a)
    ensures Closable(Next(hash, replicas, s, a))
  {
    if a.Run? {
      RanClosable(hash, replicas, s, a.host, a.up);
    } else {
      var t := Next(hash, replicas, s, a);
      forall g ensures ClosableAt(t, g) { assert ClosableAt(s, g); }
    }
  }

  lemma {:induction false} ClosableRun(hash: Hash, replicas: nat, universe: set<string>, s: Proxy, actions: seq<Action>)
    requires Inv(hash, replicas, universe, s) && CollisionFree(hash, replicas, universe) && Closable(s) && CanRun(hash, replicas, s, actions)
    ensures var t := After(hash, replicas, s, actions); Inv(hash, replicas, universe, t) && Closable(t)
    decreases |actions|
  {
    if actions != [] {
      ClosableStill(hash, replicas, s, actions[0]);
      StepInv(hash, replicas, universe, s, actions[0]);
      ClosableRun(hash, replicas, universe, Next(hash, replicas, s, actions[0]), actions[1..]);
    }
  }

  lemma SignalIsClosable(hash: Hash, replicas: nat, universe: set<string>, s: Proxy)
    requires Inv(hash, replicas, universe, s) && Enabled(s, Signal) && s.removed == {}
    ensures Closable(Next(hash, replicas, s, Signal))
  {
    forall h ensures ClosableAt(Next(hash, replicas, s, Signal), h) { assert Consistent(s, h); }
  }

  /** Some run from here ends with the shutdown complete and every checker gone. */
  ghost predicate CanComplete(hash: Hash, replicas: nat, s: Proxy) {
    exists rest :: CanRun(hash, replicas, s, rest) && AllGone(After(hash, replicas, s, rest))
  }

  /** Wherever a run has brought it, it can still be completed. */
  ghost predicate NeverStuck(hash: Hash, replicas: nat, s: Proxy) {
    forall run :: CanRun(hash, replicas, s, run) ==> CanComplete(hash, replicas, After(hash, replicas, s, run))
  }

  ghost predicate AllGone(s: Proxy) {
    s.shutdown.Closed? && forall h :: h in s.at ==> s.at[h] == Gone
  }

  /** Once signalled, shutdown can be completed from wherever a run has brought it exactly when no host was
      individually removed before; otherwise it waits for ever for a checker that is gone. */
  lemma ShutdownCompletesIff(hash: Hash, replicas: nat, universe: set<string>, s: Proxy)
    requires Inv(hash, replicas, universe, s) && CollisionFree(hash, replicas, universe) && Enabled(s, Signal)
    ensures var t := Next(hash, replicas, s, Signal);
            s.removed == {} <==> NeverStuck(hash, replicas, t)
    ensures s.removed == {} <==> CanComplete(hash, replicas, Next(hash, replicas, s, Signal))
  {
    var t := Next(hash, replicas, s, Signal);
    StepInv(hash, replicas, universe, s, Signal);
    var none: seq<Action> := [];
    assert CanRun(hash, replicas, t, none) && After(hash, replicas, t, none) == t;
    if s.removed == {} {
      SignalIsClosable(hash, replicas, universe, s);
      forall run | CanRun(hash, replicas, t, run) ensures CanComplete(hash, replicas, After(hash, replicas, t, run)) {
        ClosableRun(hash, replicas, universe, t, run);
        var rest := Drain(hash, replicas, universe, After(hash, replicas, t, run));
      }
    } else {
      var h :| h in s.removed;
      assert Consistent(s, h);
      forall rest | CanRun(hash, replicas, t, rest) ensures !AllGone(After(hash, replicas, t, rest)) {
        OwedForever(hash, replicas, t, h, rest);
      }
      assert !CanComplete(hash, replicas, After(hash, replicas, t, none));
    }
  }

  // ---- a measure for every run after the signal

  ghost function Costs(s: Proxy, order: seq<string>): nat {
    if order == [] then 0
    else (if order[0] in s.at then Cost(s.at[order[0]]) else 0) + Costs(s, order[1..])
  }

  /** Undelivered signals first, then the statements of every goroutine that is inside a tick. */
  ghost function Weight(s: Proxy, order: seq<string>): nat {
    Rank(s) + Costs(s, order)
  }

  lemma {:induction false} CostsOfMoved(s: Proxy, t: Proxy, h: string, order: seq<string>)
    requires h in s.at && h in t.at && t.at == s.at[h := t.at[h]]
    requires NoRepeats(order)
    ensures Costs(t, order) == Costs(s, order) + if h in order then Cost(t.at[h]) - Cost(s.at[h]) else 0
  {
    if order != [] {
      CostsOfMoved(s, t, h, order[1..]);
      assert order == [order[0]] + order[1..];
    }
  }

  lemma {:induction false} CostsOfSame(s: Proxy, t: Proxy, order: seq<string>)
    requires t.at == s.at
    ensures Costs(t, order) == Costs(s, order)
  {
    if order != [] { CostsOfSame(s, t, order[1..]); }
  }

  ghost function Ticks(hash: Hash, replicas: nat, s: Proxy, run: seq<Action>): nat
    requires CanRun(hash, replicas, s, run)
    decreases |run|
  {
    if run == [] then 0
    else (if IsTick(s, run[0]) then 1 else 0) + Ticks(hash, replicas, Next(hash, replicas, s, run[0]), run[1..])
  }

  ghost predicate OrderOf(s: Proxy, order: seq<string>) {
    NoRepeats(order) && (forall h :: h in order <==> h in s.at)
  }

  lemma RunWeight(s: Proxy, t: Proxy, h: string, up: bool, order: seq<string>)
    requires h in s.at && s.at[h] != Gone && OrderOf(s, order)
    requires t.shutdown == s.shutdown && t.at == s.at[h := NextPlace(s.at[h], AliveIn(s, h), up)]
    ensures OrderOf(t, order) && Weight(t, order) + 1 <= Weight(s, order) + if s.at[h] == AtRest then 7 else 0
  {
    CostsOfMoved(s, t, h, order);
    assert h in order;
    assert Rank(t) == Rank(s);
  }

  lemma MovedPlace(s: Proxy, h: string, up: bool)
    requires h in s.at
    ensures Moved(s, h, up).at == s.at[h := NextPlace(s.at[h], AliveIn(s, h), up)]
    ensures Moved(s, h, up).shutdown == s.shutdown
  {
  }

  lemma DeliverWeight(hash: Hash, replicas: nat, s: Proxy, order: seq<string>)
    requires Enabled(s, Deliver) && OrderOf(s, order)
    ensures var t := Next(hash, replicas, s, Deliver); OrderOf(t, order) && Weight(t, order) + 1 == Weight(s, order)
  {
    CostsOfMoved(s, Next(hash, replicas, s, Deliver), s.shutdown.host, order);
  }

  lemma ChooseWeight(hash: Hash, replicas: nat, s: Proxy, h: string, order: seq<string>)
    requires Enabled(s, Choose(h)) && OrderOf(s, order)
    ensures var t := Next(hash, replicas, s, Choose(h)); OrderOf(t, order) && Weight(t, order) + 1 == Weight(s, order)
  {
    var t := Next(hash, replicas, s, Choose(h));
    CostsOfSame(s, t, order);
    assert |s.shutdown.pending| == |s.shutdown.pending - {h}| + 1;
  }

  /** Every step lowers the measure, except that a tick may raise it by six. */
  lemma WeightFalls(hash: Hash, replicas: nat, s: Proxy, a: Action, order: seq<string>)
    requires !s.shutdown.Open? && Enabled(s, a) && OrderOf(s, order)
    ensures var t := Next(hash, replicas, s, a);
            OrderOf(t, order) && Weight(t, order) + 1 <= Weight(s, order) + if IsTick(s, a) then 7 else 0
  {
    if a.Run? {
      RanIsMoved(hash, replicas, s, a.host, a.up);
      MovedPlace(s, a.host, a.up);
      RunWeight(s, Ran(hash, replicas, s, a.host, a.up), a.host, a.up, order);
    } else if a.Deliver? {
      DeliverWeight(hash, replicas, s, order);
    } else if a.Choose? {
      ChooseWeight(hash, replicas, s, a.host, order);
    } else {
      CostsOfSame(s, Next(hash, replicas, s, a), order);
    }
  }

  /** After the signal a run of any interleaving is at most as long as the measure allows its ticks. */
  lemma {:induction false} RunsAreBounded(hash: Hash, replicas: nat, s: Proxy, run: seq<Action>, order: seq<string>)
    requires Closable(s) && CanRun(hash, replicas, s, run) && OrderOf(s, order)
    ensures |run| <= Weight(s, order) + 7 * Ticks(hash, replicas, s, run)
    decreases |run|
  {
    if run != [] {
      var t := Next(hash, replicas, s, run[0]);
      WeightFalls(hash, replicas, s, run[0], order);
      ClosableStill(hash, replicas, s, run[0]);
      RunsAreBounded(hash, replicas, t, run[1..], order);
    }
  }

  /** A run that can only go on by ticking has completed the shutdown. */
  lemma OnlyTicksLeft(hash: Hash, replicas: nat, universe: set<string>, s: Proxy)
    requires Inv(hash, replicas, universe, s) && Closable(s)
    ensures (forall a :: Enabled(s, a) ==> IsTick(s, a)) <==> AllGone(s)
  {
    if !s.shutdown.Closed? {
      var a := DrainStep(hash, replicas, universe, s);
    } else {
      forall h | h in s.at ensures s.at[h] == Gone { assert ClosableAt(s, h); }
    }
  }
}
