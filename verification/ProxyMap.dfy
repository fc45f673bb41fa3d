/** The proxies behind the routes, with the tables that are kept in step with them; and their reconstruction
    from a snapshot. */
module ProxyMap {
  import opened Text
  import opened Ring
  import opened Balancers
  import opened Limits
  import opened LimitsHistory
  import opened Router
  import opened StateMachine

  datatype Reply = Ok | ParseOrAlgorithmError | LimiterTypeNotSupported | LimiterAlreadyExists | NoSuchPattern
                 | ShutDownTimeout | Panic

  /** What the first lines of a request do about its path: an entry is made for it, or a token is asked for,
      waiting so many nanoseconds at most. */
  datatype Asked = Entered(reply: Reply) | Take | TakeWithTimeout(wait: int)

  class HTTPProxy {
    const pattern: string
    var lb: Balancer
    var hostMap: map<string, string>          // the target each host forwards to
    var alive: map<string, bool>
    var hostsShutDown: set<string>            // hosts with a shutdown channel
    var checkers: multiset<string>            // running health checks
    var signalled: bool                       // the shutdown check has taken its signal
    var methods: Methods
    var proxyMap: ProxyMap?

    constructor (pattern: string, lb: Balancer, hostMap: map<string, string>, alive: map<string, bool>, channels: set<string>)
      ensures this.pattern == pattern && this.lb == lb && this.hostMap == hostMap && this.alive == alive && hostsShutDown == channels
      ensures checkers == multiset{} && !signalled && methods == map[] && proxyMap == null
    {
      this.pattern, this.lb := pattern, lb;
      this.hostMap, this.alive, hostsShutDown := hostMap, alive, channels;
      checkers, signalled, methods, proxyMap := multiset{}, false, map[], null;
    }

    /** Every listed host has a channel and a checker. */
    ghost predicate Watched()
      reads this
    {
      forall h :: h in hostMap ==> h in hostsShutDown && h in checkers
    }

    /** As a location describes it: its balancer, an entry in each table for each host, no settings. */
    ghost predicate IsMade(parse: Parse, hash: Hash, replicas: nat, l: Location)
      reads `lb, `hostMap, `alive, `hostsShutDown, `methods
    {
      && pattern == l.pattern
      && MadeFrom(hash, replicas, lb, l.balanceMode, HostList(parse, l.proxyPass))
      && (forall h :: h in hostMap <==> h in HostList(parse, l.proxyPass))
      && (forall h :: h in hostMap ==> hostMap[h] in l.proxyPass && parse(hostMap[h]) == Some(h))
      && alive == (map h | h in hostMap :: true) && hostsShutDown == hostMap.Keys && methods == map[]
    }

    /** `IsMade`, kept closed: opened by asserting it. */
    ghost predicate Made(parse: Parse, hash: Hash, replicas: nat, l: Location)
      reads `lb, `hostMap, `alive, `hostsShutDown, `methods
    {
      forall k {:trigger IsMade(parse, hash, replicas, k)} :: k == l ==> IsMade(parse, hash, replicas, k)
    }

    /** A host in every table, in the balancer, and with a checker of its own. */
    method Enter(hash: Hash, replicas: nat, host: string, target: string)
      requires Watched()
      modifies `hostMap, `alive, `hostsShutDown, `lb, `checkers
      ensures Watched()
      ensures hostMap == old(hostMap)[host := target] && alive == old(alive)[host := true] && hostsShutDown == old(hostsShutDown) + {host}
      ensures hostMap.Keys == old(hostMap).Keys + {host}
      ensures Gained(hash, replicas, old(lb), lb, host) && Extended(hash, replicas, old(lb), lb, host)
      ensures checkers == old(checkers) + multiset{host}
    {
      hostMap := hostMap[host := target];
      alive := alive[host := true];
      hostsShutDown := hostsShutDown + {host};
      WithHostExtends(hash, replicas, lb, host);
      lb := WithHost(hash, replicas, lb, host);
      checkers := checkers + multiset{host};
    }

    /** A checker of the host takes the signal, if there is one, and the host leaves the table of hosts. */
    method Leave(host: string) returns (received: bool)
      requires Watched()
      modifies `hostMap, `checkers
      ensures Watched() && hostMap == old(hostMap) - {host}
      ensures received <==> host in hostsShutDown && host in old(checkers)
      ensures checkers == if received then old(checkers) - multiset{host} else old(checkers)
    {
      if host !in hostsShutDown || host !in checkers {
        assert host !in hostMap;
        assert hostMap == hostMap - {host};
        return false;
      }
      checkers := checkers - multiset{host};
      hostMap := hostMap - {host};
      return true;
    }

    /** Starts a checker for each host. */
    method HealthCheck()
      modifies this`checkers
      ensures checkers == old(checkers) + multiset(hostMap.Keys)
    {
      var rest := hostMap.Keys;
      while rest != {}
        invariant rest <= hostMap.Keys && checkers + multiset(rest) == old(checkers) + multiset(hostMap.Keys)
        decreases |rest|
      {
        var host :| host in rest;
        OneTaken(rest, host);
        checkers := checkers + multiset{host};
        rest := rest - {host};
      }
    }

    method SetRateLimiter(info: LimiterInfo) returns (reply: Reply)
      requires proxyMap != null
      modifies this`methods, proxyMap`limiters
      ensures reply == if info.limiterType == "qps" then Ok else LimiterTypeNotSupported
      ensures methods == Put(old(methods), info)
      ensures reply == Ok ==> info.pathName in methods && IsSettingFor(methods[info.pathName], info)
      ensures proxyMap.limiters == if reply == Ok then Appended(old(proxyMap.limiters), pattern, info) else old(proxyMap.limiters)
    {
      SettingReads(info);
      if info.limiterType != "qps" { return LimiterTypeNotSupported; }
      var limiter := Setting(None, -1);
      if info.speed != 0 { limiter := limiter.(rate := Some(Rate(Quotient(SECOND, info.speed), info.volumn))); }
      if info.duration != 0 { limiter := limiter.(timeout := Wrapped(info.duration * MILLISECOND)); }
      methods := methods[info.pathName := limiter];
      proxyMap.limiters := Appended(proxyMap.limiters, pattern, info);
      return Ok;
    }

    method ConfigRate(path: string) returns (reply: Reply)
      requires proxyMap != null
      modifies this`methods, proxyMap`limiters
      ensures reply == if path in old(methods) then LimiterAlreadyExists else Ok
      ensures methods == if path in old(methods) then old(methods) else Put(old(methods), DefaultInfo(path))
      ensures reply == Ok ==> methods == old(methods)[path := Setting(None, -1)] && Wait(methods[path]) == 0
      ensures proxyMap.limiters ==
              if reply == Ok then Appended(old(proxyMap.limiters), pattern, LimiterInfo("", path, "qps", -1, 0, -1, 0))
              else old(proxyMap.limiters)
    {
      if path in methods { return LimiterAlreadyExists; }
      methods := methods[path := Setting(None, -1)];
      proxyMap.limiters := Appended(proxyMap.limiters, pattern, LimiterInfo("", path, "qps", -1, 0, -1, 0));
      return Ok;
    }
  }

  /** The hosts that the targets name, in order. */
  function HostList(parse: Parse, targets: seq<string>): (hosts: seq<string>)
    ensures |hosts| == |targets|
    ensures forall i :: 0 <= i < |targets| && parse(targets[i]).Some? ==> hosts[i] == parse(targets[i]).value
  {
    seq(|targets|, (i: int) requires 0 <= i < |targets| => if parse(targets[i]).Some? then parse(targets[i]).value else "")
  }

  /** A proxy is made when every target parses and the algorithm is known: one entry a host in each table, and
      a balancer of all of them. */
  method NewHTTPProxy(parse: Parse, hash: Hash, replicas: nat, pattern: string, targetHosts: seq<string>, algo: string)
    returns (proxy: HTTPProxy?)
    ensures proxy != null <==> Builds(parse, Location(pattern, targetHosts, algo))
    ensures proxy != null ==>
              && fresh(proxy) && proxy.pattern == pattern && proxy.methods == map[] && proxy.hostsShutDown == proxy.hostMap.Keys
              && proxy.Made(parse, hash, replicas, Location(pattern, targetHosts, algo))
              && proxy.proxyMap == null && proxy.checkers == multiset{} && !proxy.signalled
              && proxy.lb == BalancerOf(hash, replicas, algo, HostList(parse, targetHosts))
              && proxy.hostMap.Keys == HostsOf(parse, Location(pattern, targetHosts, algo))
  {
    var ok, hostMap, alive, channels, hosts := ReadTargets(parse, targetHosts);
    if !ok || algo !in ALGORITHMS { return null; }
    TargetsParsed(parse, Location(pattern, targetHosts, algo), hosts);
    assert hostMap.Keys == HostsOf(parse, Location(pattern, targetHosts, algo));
    MadeFromHosts(hash, replicas, algo, hosts);
    proxy := new HTTPProxy(pattern, BalancerOf(hash, replicas, algo, hosts), hostMap, alive, channels);
  }

  /** The loop over the targets. */
  method ReadTargets(parse: Parse, targetHosts: seq<string>)
    returns (ok: bool, hostMap: map<string, string>, alive: map<string, bool>, channels: set<string>, hosts: seq<string>)
    ensures ok <==> forall i :: 0 <= i < |targetHosts| ==> parse(targetHosts[i]).Some?
    ensures ok ==> hosts == HostList(parse, targetHosts) && forall i :: 0 <= i < |targetHosts| ==> parse(targetHosts[i]) == Some(hosts[i])
    ensures forall h :: h in hostMap <==> h in hosts
    ensures forall h :: h in hostMap ==> hostMap[h] in targetHosts && parse(hostMap[h]) == Some(h)
    ensures alive == (map h | h in hostMap :: true) && channels == hostMap.Keys
  {
    hostMap, alive, channels, hosts := map[], map[], {}, [];
    for n := 0 to |targetHosts|
      invariant |hosts| == n && forall i :: 0 <= i < n ==> parse(targetHosts[i]) == Some(hosts[i])
      invariant forall h :: h in hostMap <==> h in hosts
      invariant forall h :: h in hostMap ==> hostMap[h] in targetHosts && parse(hostMap[h]) == Some(h)
      invariant alive == (map h | h in hostMap :: true) && channels == hostMap.Keys
    {
      var parsed := parse(targetHosts[n]);
      if parsed == None { return false, hostMap, alive, channels, hosts; }
      var host := parsed.value;
      alive := alive[host := true];
      hostMap := hostMap[host := targetHosts[n]];
      hosts := hosts + [host];
      channels := channels + {host};
    }
    ok := true;
  }

  lemma OneTaken(rest: set<string>, host: string)
    requires host in rest
    ensures multiset(rest) == multiset{host} + multiset(rest - {host})
  {
  }

  lemma TargetsParsed(parse: Parse, l: Location, hosts: seq<string>)
    requires |hosts| == |l.proxyPass| && forall i :: 0 <= i < |l.proxyPass| ==> parse(l.proxyPass[i]) == Some(hosts[i])
    ensures forall h :: h in HostsOf(parse, l) <==> h in hosts
  {
    forall i | 0 <= i < |hosts| ensures hosts[i] in HostsOf(parse, l) { assert parse(l.proxyPass[i]) == Some(hosts[i]); }
  }

  class ProxyMap {
    const hash: Hash
    const replicas: nat
    const router: DefaultRouter<HTTPProxy>
    var relations: map<string, HTTPProxy>
    var locations: map<string, Location>
    var limiters: map<string, seq<LimiterInfo>>

    constructor (hash: Hash, replicas: nat, router: DefaultRouter<HTTPProxy>, locations: map<string, Location>,
                 limiters: map<string, seq<LimiterInfo>>)
      ensures this.hash == hash && this.replicas == replicas && this.router == router
      ensures relations == map[] && this.locations == locations && this.limiters == limiters
    {
      this.hash, this.replicas, this.router := hash, replicas, router;
      relations, this.locations, this.limiters := map[], locations, limiters;
    }

    /** The proxy of a pattern knows its pattern and its map, is the one that the router finds, has its hosts
        watched and has not been told to shut down. */
    ghost predicate InStep(p: string)
      requires p in relations
      reads this, router, relations.Values
    {
      var proxy := relations[p];
      && proxy.pattern == p && proxy.proxyMap == this
      && p in router.hosts && router.hosts[p] == proxy
      && proxy.Watched() && !proxy.signalled
    }

    ghost predicate Valid()
      reads this, router, relations.Values
    {
      forall p {:trigger InStep(p)} :: p in relations ==> InStep(p)
    }

    ghost function Settings(): map<string, Methods>
      reads this, relations.Values
    {
      map p | p in relations :: relations[p].methods
    }

    ghost function Now(): Tables
      reads this, router, relations.Values
    {
      Tables(locations, Settings(), limiters, router.hosts.Keys)
    }

    ghost function Hosts(): map<string, set<string>>
      reads this, relations.Values
    {
      map p | p in relations :: relations[p].hostMap.Keys
    }

    lemma Apart(pattern: string)
      requires Valid() && pattern in relations
      ensures InStep(pattern)
      ensures forall p :: p in relations && p != pattern ==> relations[p] != relations[pattern]
    {
      assert InStep(pattern);
      forall p | p in relations && p != pattern ensures relations[p] != relations[pattern] { assert InStep(p); }
    }

    /** A change to one proxy is seen under its pattern only. */
    twostate lemma OneChanged(pattern: string)
      requires old(Valid()) && relations == old(relations) && pattern in relations && router.hosts == old(router.hosts)
      requires forall p :: p in relations && p != pattern ==> unchanged(relations[p])
      requires InStep(pattern)
      ensures Valid()
      ensures Settings() == old(Settings())[pattern := relations[pattern].methods]
      ensures Hosts() == old(Hosts())[pattern := relations[pattern].hostMap.Keys]
      ensures locations == old(locations) && limiters == old(limiters) && relations[pattern].methods == old(relations[pattern].methods)
              ==> Now() == old(Now())
      ensures relations[pattern].hostMap == old(relations[pattern].hostMap) ==> Hosts() == old(Hosts())
    {
      forall p | p in relations && p != pattern ensures InStep(p) { assert old(InStep(p)); }
    }

    twostate lemma StillInStep(pattern: string, new proxy: HTTPProxy)
      requires old(Valid()) && relations == old(relations)[pattern := proxy] && router.hosts == old(router.hosts)[pattern := proxy]
      requires forall p :: p in old(relations) ==> unchanged(old(relations)[p])
      requires InStep(pattern)
      ensures Valid()
    {
      forall p | p in relations && p != pattern ensures InStep(p) { assert old(InStep(p)); }
    }

    /** Registering a new proxy adds its own settings and hosts to those of the others. */
    twostate lemma OneMore(l: Location, new proxy: HTTPProxy)
      requires relations == old(relations)[l.pattern := proxy] && router.hosts == old(router.hosts)[l.pattern := proxy]
      requires locations == old(locations)[l.pattern := l] && limiters == old(limiters) && proxy.methods == map[]
      requires forall p :: p in old(relations) ==>
                 old(relations)[p].methods == old(relations[p].methods) && old(relations)[p].hostMap == old(relations[p].hostMap)
      ensures Now() == Opened(old(Now()), l)
      ensures Hosts() == old(Hosts())[l.pattern := proxy.hostMap.Keys]
    {
      assert Settings() == old(Settings())[l.pattern := map[]];
    }

    /** Taking a proxy out leaves the others' settings and hosts. */
    twostate lemma OneLess(pattern: string)
      requires old(Valid()) && relations == old(relations) - {pattern} && router.hosts == old(router.hosts) - {pattern}
      requires forall p :: p in relations ==> unchanged(relations[p])
      ensures Valid()
      ensures Settings() == old(Settings()) - {pattern}
      ensures Hosts() == old(Hosts()) - {pattern}
    {
      forall p | p in relations ensures InStep(p) { assert old(InStep(p)); }
    }

    method AddRelations(pattern: string, proxy: HTTPProxy, location: Location)
      requires Valid() && proxy.pattern == pattern == location.pattern && proxy !in relations.Values
      requires proxy.hostsShutDown == proxy.hostMap.Keys && !proxy.signalled && proxy.methods == map[]
      modifies this, router, proxy`proxyMap, proxy`checkers
      ensures relations == old(relations)[pattern := proxy] && router.hosts == old(router.hosts)[pattern := proxy]
      ensures locations == old(locations)[pattern := location] && limiters == old(limiters)
      ensures proxy.checkers == old(proxy.checkers) + multiset(proxy.hostMap.Keys)
      ensures Valid() && Now() == Opened(old(Now()), location)
      ensures Hosts() == old(Hosts())[pattern := proxy.hostMap.Keys]
    {
      proxy.proxyMap := this;
      relations := relations[pattern := proxy];
      locations := locations[pattern := location];
      router.Add(pattern, proxy);
      proxy.HealthCheck();
      StillInStep(pattern, proxy);
      OneMore(location, proxy);
    }

    /** The proxy of a location, new, with a checker for each host. */
    ghost predicate Serving(parse: Parse, l: Location)
      reads this, relations.Values
    {
      && l.pattern in relations
      && relations[l.pattern].Made(parse, hash, replicas, l)
      && relations[l.pattern].checkers == multiset(relations[l.pattern].hostMap.Keys)
    }

    method AddProxyWithLocation(parse: Parse, l: Location) returns (reply: Reply)
      requires Valid()
      modifies this, router
      ensures Valid()
      ensures reply == if Builds(parse, l) then Ok else ParseOrAlgorithmError
      ensures Now() == if reply == Ok then Opened(old(Now()), l) else old(Now())
      ensures Hosts() == if reply == Ok then old(Hosts())[l.pattern := HostsOf(parse, l)] else old(Hosts())
      ensures reply == Ok ==> Serving(parse, l)
      ensures forall q :: q in relations.Values && q !in old(relations.Values) ==> fresh(q)
      ensures relations == if reply == Ok then old(relations)[l.pattern := relations[l.pattern]] else old(relations)
    {
      assert l == Location(l.pattern, l.proxyPass, l.balanceMode);
      var proxy := NewHTTPProxy(parse, hash, replicas, l.pattern, l.proxyPass, l.balanceMode);
      if proxy == null { return ParseOrAlgorithmError; }
      AddRelations(l.pattern, proxy, l);
      assert proxy.Made(parse, hash, replicas, l);
      return Ok;
    }

    /** Signals the proxy to shut down; the limiter entries of the pattern are left where they are. */
    method RemoveProxy(pattern: string) returns (reply: Reply)
      requires Valid()
      modifies this, router, relations.Values`signalled
      ensures Valid()
      ensures reply == if pattern in old(relations) then Ok else NoSuchPattern
      ensures reply == Ok ==> old(relations)[pattern].signalled
      ensures relations == old(relations) - {pattern}
      ensures reply == Ok ==> router.hosts == old(router.hosts) - {pattern} && locations == old(locations) - {pattern}
      ensures Now() == if reply == Ok then Limits.Removed(old(Now()), pattern) else old(Now())
      ensures Hosts() == old(Hosts()) - {pattern} && relations.Values <= old(relations.Values)
    {
      if pattern !in relations {
        assert Hosts() - {pattern} == Hosts();
        return NoSuchPattern;
      }
      Apart(pattern);
      relations[pattern].signalled := true;
      router.Remove(pattern);
      relations := relations - {pattern};
      locations := locations - {pattern};
      OneLess(pattern);
      return Ok;
    }

    /** The host is in every table of the proxy and in its balancer, and has a checker more; other proxies stay as they were. */
    twostate predicate HostJoined(parse: Parse, pattern: string, target: string, reply: Reply)
      requires relations == old(relations)
      reads this, relations.Values
    {
      && reply == (if pattern !in relations then NoSuchPattern else if parse(target) == None then ParseOrAlgorithmError else Ok)
      && (forall p :: p in relations && (p != pattern || reply != Ok) ==> unchanged(relations[p]))
      && (reply == Ok ==>
            var proxy, host := relations[pattern], parse(target).value;
            && proxy.hostMap == old(proxy.hostMap)[host := target] && proxy.alive == old(proxy.alive)[host := true]
            && proxy.hostsShutDown == old(proxy.hostsShutDown) + {host} && proxy.checkers == old(proxy.checkers) + multiset{host}
            && proxy.methods == old(proxy.methods)
            && Gained(hash, replicas, old(proxy.lb), proxy.lb, host)
            && Extended(hash, replicas, old(proxy.lb), proxy.lb, host)
            && Hosts() == old(Hosts())[pattern := old(Hosts())[pattern] + {host}])
      && (reply != Ok ==> Hosts() == old(Hosts()))
    }

    method AddProxy(parse: Parse, pattern: string, target: string) returns (reply: Reply)
      requires Valid()
      modifies relations.Values
      ensures Valid() && Now() == old(Now())
      ensures relations == old(relations) && HostJoined(parse, pattern, target, reply)
    {
      if pattern !in relations { return NoSuchPattern; }
      var parsed := parse(target);
      if parsed == None { return ParseOrAlgorithmError; }
      Apart(pattern);
      ghost var hosts := Hosts()[pattern];
      assert hosts == relations[pattern].hostMap.Keys;
      relations[pattern].Enter(hash, replicas, parsed.value, target);
      assert locations == old(locations) && limiters == old(limiters);
      OneChanged(pattern);
      return Ok;
    }

    /** The host is in the table of hosts no longer, with a checker less if one took the signal; nothing else changes. */
    twostate predicate HostLeft(pattern: string, host: string, reply: Reply)
      requires relations == old(relations)
      reads this, relations.Values
    {
      && (reply == Panic <==> pattern !in relations)
      && (forall p :: p in relations && p != pattern ==> unchanged(relations[p]))
      && Hosts() == (if pattern in relations then old(Hosts())[pattern := old(Hosts())[pattern] - {host}] else old(Hosts()))
      && (pattern in relations ==>
            var proxy := relations[pattern];
            && (reply == Ok <==> host in old(proxy.hostsShutDown) && host in old(proxy.checkers))
            && proxy.checkers == (if reply == Ok then old(proxy.checkers) - multiset{host} else old(proxy.checkers))
            && proxy.lb == old(proxy.lb) && proxy.alive == old(proxy.alive) && proxy.hostsShutDown == old(proxy.hostsShutDown)
            && proxy.methods == old(proxy.methods) && proxy.hostMap == old(proxy.hostMap) - {host})
    }

    /** A checker of the host takes the signal and ends; without one the wait times out. The missing proxy of an
        unknown pattern is used before it is looked at. The balancer is left alone. */
    method RemoveHost(pattern: string, host: string) returns (reply: Reply)
      requires Valid()
      modifies relations.Values
      ensures Valid() && Now() == old(Now())
      ensures relations == old(relations) && HostLeft(pattern, host, reply)
    {
      if pattern !in relations { return Panic; }
      Apart(pattern);
      ghost var hosts := Hosts()[pattern];
      assert hosts == relations[pattern].hostMap.Keys;
      var received := relations[pattern].Leave(host);
      assert locations == old(locations) && limiters == old(limiters);
      OneChanged(pattern);
      return if received then Ok else ShutDownTimeout;
    }
  }

  // ---- log entries

  ghost predicate Serves(m: ProxyMap, s: System)
    reads m, m.router, m.relations.Values
  {
    m.Valid() && m.Now() == s.tables && m.Hosts() == s.hosts
  }

  method DoNewHttpProxy(m: ProxyMap, parse: Parse, l: Location, ghost s: System)
    requires Serves(m, s)
    modifies m, m.router
    ensures Serves(m, Perform(parse, s, NewProxy(l)).value)
    ensures forall q :: q in m.relations.Values && q !in old(m.relations.Values) ==> fresh(q)
    ensures forall p :: p in old(m.relations) ==> p in m.relations && m.relations[p] == old(m.relations)[p]
    ensures l.pattern in old(m.relations) || !Builds(parse, l) ==> m.Now() == old(m.Now()) && m.Hosts() == old(m.Hosts())
    ensures l.pattern !in old(m.relations) && Builds(parse, l) ==>
              && m.Now() == Opened(old(m.Now()), l) && m.Hosts() == old(m.Hosts())[l.pattern := HostsOf(parse, l)]
              && m.Serving(parse, l)
  {
    if l.pattern !in m.relations {
      var _ := m.AddProxyWithLocation(parse, l);
    }
  }

  method DoRemoveProxy(m: ProxyMap, parse: Parse, pattern: string, ghost s: System) returns (reply: Reply)
    requires Serves(m, s)
    modifies m, m.router, m.relations.Values
    ensures Serves(m, Perform(parse, s, RemoveProxy(pattern)).value)
    ensures m.relations.Values <= old(m.relations.Values)
    ensures reply == if pattern in old(m.relations) then Ok else NoSuchPattern
    ensures forall p :: p in old(m.relations) && p !in m.relations ==> p == pattern && old(m.relations)[p].signalled
    ensures m.relations == old(m.relations) - {pattern}
    ensures reply == Ok ==>
              && m.Now() == Limits.Removed(old(m.Now()), pattern)
              && m.router.hosts == old(m.router.hosts) - {pattern} && m.locations == old(m.locations) - {pattern}
    ensures m.Hosts() == old(m.Hosts()) - {pattern}
  {
    reply := m.RemoveProxy(pattern);
  }

  method DoSetRateLimiter(m: ProxyMap, parse: Parse, info: LimiterInfo, ghost s: System) returns (reply: Reply)
    requires Serves(m, s)
    modifies m, m.relations.Values
    ensures Serves(m, Perform(parse, s, SetRateLimiter(info)).value) && m.relations == old(m.relations)
    ensures reply == if info.prefix !in m.relations then NoSuchPattern else if info.limiterType != "qps" then LimiterTypeNotSupported else Ok
    ensures reply == Ok ==>
              && m.Now() == Limited(old(m.Now()), info.prefix, info)
              && info.pathName in m.relations[info.prefix].methods && IsSettingFor(m.relations[info.prefix].methods[info.pathName], info)
    ensures reply != Ok ==> m.Now() == old(m.Now())
    ensures m.Hosts() == old(m.Hosts())
  {
    if info.prefix !in m.relations { return NoSuchPattern; }
    m.Apart(info.prefix);
    reply := m.relations[info.prefix].SetRateLimiter(info);
    m.OneChanged(info.prefix);
  }

  method DoRemoveHost(m: ProxyMap, parse: Parse, pattern: string, host: string, ghost s: System) returns (reply: Reply)
    requires Serves(m, s)
    modifies m.relations.Values
    ensures m.relations == old(m.relations)
    ensures reply == Panic <==> Perform(parse, s, RemoveHost(pattern, host)) == None
    ensures reply != Panic ==> Serves(m, Perform(parse, s, RemoveHost(pattern, host)).value)
    ensures m.HostLeft(pattern, host, reply)
  {
    reply := m.RemoveHost(pattern, host);
  }

  method DoAddHost(m: ProxyMap, parse: Parse, pattern: string, target: string, ghost s: System) returns (reply: Reply)
    requires Serves(m, s)
    modifies m.relations.Values
    ensures m.relations == old(m.relations)
    ensures Serves(m, Perform(parse, s, AddHost(pattern, target)).value)
    ensures m.HostJoined(parse, pattern, target, reply)
  {
    reply := m.AddProxy(parse, pattern, target);
  }

  /** A request routed to the pattern: the first visit of a path writes a default entry for it, later ones ask
      its limiter. */
  method InvaildToken(m: ProxyMap, parse: Parse, pattern: string, api: string) returns (asked: Asked)
    requires m.Valid() && pattern in m.relations
    modifies m, m.relations.Values
    ensures m.Valid() && m.Now() == Step(parse, old(m.Now()), Visit(pattern, api)) && m.relations == old(m.relations)
    ensures var before := old(m.relations[pattern].methods);
            asked == if api !in before then Entered(Ok)
                     else if Wait(before[api]) == 0 then Take else TakeWithTimeout(Wait(before[api]))
    ensures m.limiters == if api in old(m.relations[pattern].methods) then old(m.limiters)
                          else Appended(old(m.limiters), pattern, LimiterInfo("", api, "qps", -1, 0, -1, 0))
    ensures m.relations[pattern].methods ==
            if api in old(m.relations[pattern].methods) then old(m.relations[pattern].methods)
            else old(m.relations[pattern].methods)[api := Setting(None, -1)]
  {
    var methods := m.relations[pattern].methods;
    if api !in methods {
      m.Apart(pattern);
      var reply := m.relations[pattern].ConfigRate(api);
      m.OneChanged(pattern);
      return Entered(reply);
    }
    var timeout := Wait(methods[api]);
    return if timeout == 0 then Take else TakeWithTimeout(timeout);
  }

  // ---- restoring a snapshot

  ghost function Built(parse: Parse, locations: map<string, Location>): set<string> {
    set p | p in locations && Builds(parse, locations[p])
  }

  ghost function HalfMethods(built: set<string>, limiters: map<string, seq<LimiterInfo>>, done: set<string>): map<string, Methods> {
    map p | p in built :: if p in done then Replay(map[], Entries(limiters, p)) else map[]
  }

  ghost function HalfEntries(built: set<string>, limiters: map<string, seq<LimiterInfo>>, done: set<string>): map<string, seq<LimiterInfo>> {
    map p | p in limiters :: if p in built && p in done then limiters[p] + Usable(limiters[p]) else limiters[p]
  }

  /** The tables on the way: proxies made for all locations, limiters replayed for the patterns `done`. */
  ghost function Halfway(parse: Parse, locations: map<string, Location>, limiters: map<string, seq<LimiterInfo>>,
                         routes: set<string>, done: set<string>): Tables
  {
    var built := Built(parse, locations);
    Tables(locations, HalfMethods(built, limiters, done), HalfEntries(built, limiters, done), routes + built)
  }

  /** The tables while the proxies are made: all but those of the patterns `rest`. */
  ghost function Making(parse: Parse, locations: map<string, Location>, limiters: map<string, seq<LimiterInfo>>,
                        routes: set<string>, rest: set<string>): Tables
  {
    Tables(locations, map p | p in Built(parse, locations) - rest :: map[], limiters, routes + (Built(parse, locations) - rest))
  }

  lemma MadeOne(parse: Parse, locations: map<string, Location>, limiters: map<string, seq<LimiterInfo>>, routes: set<string>,
                rest: set<string>, key: string)
    requires key in rest && key in locations && locations[key].pattern == key
    ensures var t := Making(parse, locations, limiters, routes, rest);
            Making(parse, locations, limiters, routes, rest - {key}) == if Builds(parse, locations[key]) then Opened(t, locations[key]) else t
  {
    var b := Built(parse, locations);
    if Builds(parse, locations[key]) {
      assert b - (rest - {key}) == (b - rest) + {key};
      assert locations[key := locations[key]] == locations;
    } else {
      assert b - (rest - {key}) == b - rest;
    }
  }

  lemma MakingToHalfway(parse: Parse, locations: map<string, Location>, limiters: map<string, seq<LimiterInfo>>, routes: set<string>)
    ensures Making(parse, locations, limiters, routes, {}) == Halfway(parse, locations, limiters, routes, {})
    ensures Making(parse, locations, limiters, routes, locations.Keys) == Tables(locations, map[], limiters, routes)
  {
    assert Built(parse, locations) - {} == Built(parse, locations);
    assert Built(parse, locations) - locations.Keys == {};
  }

  lemma HalfwayToRestored(parse: Parse, t: Tables, routes: set<string>)
    ensures Halfway(parse, t.locations, t.limiters, routes, t.limiters.Keys) == Restored(parse, t, routes)
  {
  }

  /** The tables of a new map from the locations and limiter entries of a snapshot, whatever order either is
      gone through in. */
  method Restore(parse: Parse, hash: Hash, replicas: nat, ghost t: Tables, locations: map<string, Location>, limiters: map<string, seq<LimiterInfo>>,
                 router: DefaultRouter<HTTPProxy>) returns (m: ProxyMap)
    requires t.locations == locations && t.limiters == limiters
    requires forall p :: p in locations ==> locations[p].pattern == p
    modifies router
    ensures fresh(m) && m.router == router && m.Valid()
    ensures m.Now() == Restored(parse, t, old(router.hosts.Keys))
  {
    ghost var routes := router.hosts.Keys;
    m := new ProxyMap(hash, replicas, router, locations, limiters);
    RestoreProxies(parse, m, locations);
    RestoreAllLimiters(parse, m, limiters, locations, routes);
    HalfwayToRestored(parse, t, routes);
  }

  method RestoreAllLimiters(parse: Parse, m: ProxyMap, limiters: map<string, seq<LimiterInfo>>, ghost locations: map<string, Location>,
                            ghost routes: set<string>)
    requires m.Valid() && m.Now() == Halfway(parse, locations, limiters, routes, {})
    modifies m, m.relations.Values
    ensures m.Valid() && m.Now() == Halfway(parse, locations, limiters, routes, limiters.Keys)
  {
    var rest := limiters.Keys;
    ghost var done := {};
    while rest != {}
      invariant rest + done == limiters.Keys && rest !! done
      invariant m.relations == old(m.relations) && m.Valid()
      invariant m.Now() == Halfway(parse, locations, limiters, routes, done)
      decreases |rest|
    {
      var key :| key in rest;
      RestoreLimiters(parse, m, key, locations, limiters, routes, done);
      rest := rest - {key};
      done := done + {key};
    }
    assert done == limiters.Keys;
  }

  method RestoreProxies(parse: Parse, m: ProxyMap, locations: map<string, Location>)
    requires forall p :: p in locations ==> locations[p].pattern == p
    requires m.relations == map[] && m.locations == locations
    modifies m, m.router
    ensures m.Valid() && fresh(m.relations.Values)
    ensures m.Now() == Halfway(parse, locations, old(m.limiters), old(m.router.hosts.Keys), {})
  {
    ghost var routes := m.router.hosts.Keys;
    var rest := locations.Keys;
    MakingToHalfway(parse, locations, m.limiters, routes);
    while rest != {}
      invariant rest <= locations.Keys
      invariant m.Valid() && fresh(m.relations.Values)
      invariant m.Now() == Making(parse, locations, old(m.limiters), routes, rest)
      decreases |rest|
    {
      var key :| key in rest;
      MadeOne(parse, locations, old(m.limiters), routes, rest, key);
      var _ := m.AddProxyWithLocation(parse, locations[key]);
      rest := rest - {key};
    }
  }

  lemma HalfMethodsStep(built: set<string>, limiters: map<string, seq<LimiterInfo>>, done: set<string>, key: string)
    requires key in limiters && key !in done
    ensures var t, u := HalfMethods(built, limiters, done), HalfMethods(built, limiters, done + {key});
            if key !in built then u == t
            else t[key] == map[] && u == t[key := Replay(map[], limiters[key])]
  {
  }

  lemma OneEntry<V>(t: map<string, V>, u: map<string, V>, key: string)
    requires t.Keys == u.Keys && forall p :: p in t && p != key ==> u[p] == t[p]
    ensures key in t ==> u == t[key := u[key]]
    ensures key !in t ==> u == t
  {
  }

  lemma HalfEntriesStep(built: set<string>, limiters: map<string, seq<LimiterInfo>>, done: set<string>, key: string)
    requires key in limiters && key !in done
    ensures var t, u := HalfEntries(built, limiters, done), HalfEntries(built, limiters, done + {key});
            if key !in built then u == t
            else t[key] == limiters[key] && u == t[key := limiters[key] + Usable(limiters[key])]
  {
    OneEntry(HalfEntries(built, limiters, done), HalfEntries(built, limiters, done + {key}), key);
  }

  lemma HalfwayStep(parse: Parse, locations: map<string, Location>, limiters: map<string, seq<LimiterInfo>>, routes: set<string>,
                    done: set<string>, key: string)
    requires key in limiters && key !in done
    ensures var t, u := Halfway(parse, locations, limiters, routes, done), Halfway(parse, locations, limiters, routes, done + {key});
            if key !in t.methods then u == t
            else
              && t.methods[key] == map[] && t.limiters[key] == limiters[key]
              && u == t.(methods := t.methods[key := Replay(map[], limiters[key])],
                         limiters := t.limiters[key := limiters[key] + Usable(limiters[key])])
  {
    HalfMethodsStep(Built(parse, locations), limiters, done, key);
    HalfEntriesStep(Built(parse, locations), limiters, done, key);
  }

  method RestoreLimiters(parse: Parse, m: ProxyMap, key: string, ghost locations: map<string, Location>,
                         ghost limiters: map<string, seq<LimiterInfo>>, ghost routes: set<string>, ghost done: set<string>)
    requires m.Valid() && key in limiters && key !in done
    requires m.Now() == Halfway(parse, locations, limiters, routes, done)
    modifies m, m.relations.Values
    ensures m.Valid() && m.relations == old(m.relations) && m.router.hosts == old(m.router.hosts)
    ensures m.Now() == Halfway(parse, locations, limiters, routes, done + {key})
  {
    ghost var before := m.Now();
    HalfwayStep(parse, locations, limiters, routes, done, key);
    assert key in before.methods <==> key in m.relations;
    if key !in m.relations { return; }
    assert m.limiters == before.limiters && m.relations[key].methods == before.methods[key];
    m.Apart(key);
    var httpProxy := m.relations[key];
    ReplayInto(m, httpProxy, m.limiters[key]);
  }

  lemma UsableSnoc(list: seq<LimiterInfo>, i: nat)
    requires i < |list|
    ensures list + Usable(list[..i + 1]) ==
            if SettingOf(list[i]) == None then list + Usable(list[..i]) else list + Usable(list[..i]) + [list[i]]
  {
    assert list[..i + 1][..i] == list[..i];
  }

  /** The inner loop: every entry is set again, and so appended again to the list it comes from. */
  method ReplayInto(m: ProxyMap, httpProxy: HTTPProxy, list: seq<LimiterInfo>)
    requires m.Valid() && httpProxy.pattern in m.relations && m.relations[httpProxy.pattern] == httpProxy
    requires httpProxy.pattern in m.limiters && m.limiters[httpProxy.pattern] == list
    modifies m`limiters, httpProxy`methods
    ensures m.Valid()
    ensures m.Now() == old(m.Now()).(methods := old(m.Now()).methods[httpProxy.pattern := Replay(old(httpProxy.methods), list)],
                                     limiters := old(m.limiters)[httpProxy.pattern := list + Usable(list)])
  {
    m.Apart(httpProxy.pattern);
    ReplayEntries(m, httpProxy, list);
    m.OneChanged(httpProxy.pattern);
  }

  method ReplayEntries(m: ProxyMap, httpProxy: HTTPProxy, list: seq<LimiterInfo>)
    requires httpProxy.proxyMap == m && httpProxy.pattern in m.limiters && m.limiters[httpProxy.pattern] == list
    modifies m`limiters, httpProxy`methods
    ensures httpProxy.methods == Replay(old(httpProxy.methods), list)
    ensures m.limiters == old(m.limiters)[httpProxy.pattern := list + Usable(list)]
  {
    assert list + Usable(list[..0]) == list;
    for i := 0 to |list|
      invariant httpProxy.methods == Replay(old(httpProxy.methods), list[..i])
      invariant m.limiters == old(m.limiters)[httpProxy.pattern := list + Usable(list[..i])]
    {
      assert list[..i + 1][..i] == list[..i];
      UsableSnoc(list, i);
      var _ := httpProxy.SetRateLimiter(list[i]);
    }
    assert list[..|list|] == list;
  }
}
