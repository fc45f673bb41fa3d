/** The state machine of a replica over its real objects: log entries as bytes, snapshot and restore. */
module Fsm {
  import opened Text
  import opened Ring
  import opened LogEntry
  import opened Limits
  import opened StateMachine
  import opened TrieShape
  import Lists = Acl
  import opened Rules
  import opened TrieRules
  import opened RadixTree
  import AclMachine
  import opened Router
  import opened Rebuilding = Restore
  import ProxyMap

  class FSM {
    const codec: Codec
    const parse: Parse
    const proxyMap: ProxyMap.ProxyMap
    const accessControlList: RadixTree

    constructor (codec: Codec, parse: Parse, hash: Hash, replicas: nat, router: DefaultRouter<ProxyMap.HTTPProxy>)
      requires router.hosts == map[]
      ensures this.codec == codec && this.parse == parse
      ensures IsIn(System(NO_TABLES, map[], Summary(Lists.EMPTY, 0)))
    {
      this.codec, this.parse := codec, parse;
      proxyMap := new ProxyMap.ProxyMap(hash, replicas, router, map[], map[]);
      accessControlList := new RadixTree();
    }

    /** The tables with their proxies, the router, and the trie with its nodes. */
    ghost function Owned(): set<object>
      reads proxyMap, accessControlList
    {
      {proxyMap, proxyMap.router, accessControlList} + proxyMap.relations.Values + accessControlList.plan.slot.Keys
    }

    /** The objects represent the abstract state. */
    ghost predicate Represents(s: System)
      reads proxyMap, accessControlList, Owned()
    {
      ProxyMap.Serves(proxyMap, s) && AclMachine.Keeps(accessControlList, s.list)
    }

    /** The same, kept closed: opened by asserting `Represents` for the state. */
    ghost predicate IsIn(s: System)
      reads proxyMap, accessControlList, Owned()
    {
      forall t {:trigger Represents(t)} :: t == s ==> Represents(t)
    }

    /** What an entry leads to: the state it gives, or, if it gives none, a crash or a heap that is no trie. */
    ghost predicate LedTo(result: Option<System>, crashed: bool)
      reads proxyMap, accessControlList, Owned()
    {
      match result
      case Some(t) => !crashed && IsIn(t)
      case None => crashed || Corrupt(accessControlList.Now())
    }

    /** One log entry. */
    method Apply(bytes: seq<Byte>, ghost s: System) returns (crashed: bool)
      requires IsIn(s)
      modifies Owned()
      ensures LedTo(Execute(codec, parse, s, bytes), crashed)
      ensures fresh(Owned() - old(Owned()))
      ensures forall p :: p in old(proxyMap.relations) && p !in proxyMap.relations ==> old(proxyMap.relations)[p].signalled
    {
      if |bytes| < 2 { return true; }
      var hi: int, lo: int := bytes[0], bytes[1];
      crashed := Handle(Entry(hi * 0x100 + lo, bytes[2..]), s);
    }

    method Handle(entry: Entry, ghost s: System) returns (crashed: bool)
      requires IsIn(s)
      modifies Owned()
      ensures LedTo(Executed(codec, parse, s, entry), crashed)
      ensures fresh(Owned() - old(Owned()))
      ensures forall p :: p in old(proxyMap.relations) && p !in proxyMap.relations ==> old(proxyMap.relations)[p].signalled
    {
      if entry.opt == 3 {
        crashed := HandleList(entry, s);
      } else {
        crashed := HandleTables(entry, s);
      }
    }

    method HandleList(entry: Entry, ghost s: System) returns (crashed: bool)
      requires IsIn(s) && entry.opt == 3
      modifies Owned()
      ensures LedTo(Executed(codec, parse, s, entry), crashed)
      ensures fresh(Owned() - old(Owned()))
      ensures forall p :: p in old(proxyMap.relations) && p !in proxyMap.relations ==> old(proxyMap.relations)[p].signalled
    {
      assert Represents(s);
      crashed := ApplyToList(codec, parse, accessControlList, entry, s);
      ListLeavesTables(codec, parse, s, entry);
    }

    method HandleTables(entry: Entry, ghost s: System) returns (crashed: bool)
      requires IsIn(s) && entry.opt != 3
      modifies Owned()
      ensures LedTo(Executed(codec, parse, s, entry), crashed)
      ensures fresh(Owned() - old(Owned()))
      ensures forall p :: p in old(proxyMap.relations) && p !in proxyMap.relations ==> old(proxyMap.relations)[p].signalled
    {
      assert Represents(s);
      crashed := ApplyToTables(codec, parse, proxyMap, entry, s);
      TablesLeaveList(codec, parse, s, entry);
    }

    /** A log, up to and with the first entry that gives no state. */
    method ApplyAll(log: seq<seq<Byte>>, ghost s: System) returns (crashed: bool)
      requires IsIn(s) && (log != [] ==> ExecuteAll(codec, parse, s, log[..|log| - 1]).Some?)
      modifies Owned()
      ensures LedTo(ExecuteAll(codec, parse, s, log), crashed)
      ensures fresh(Owned() - old(Owned()))
      decreases |log|
    {
      crashed := false;
      if log != [] {
        var n := |log| - 1;
        FrontExecutes(codec, parse, s, log[..n]);
        crashed := ApplyAll(log[..n], s);
        crashed := Apply(log[n], ExecuteAll(codec, parse, s, log[..n]).value);
      }
    }
  }

  lemma FrontExecutes(codec: Codec, parse: Parse, s: System, log: seq<seq<Byte>>)
    requires ExecuteAll(codec, parse, s, log).Some?
    ensures log != [] ==> ExecuteAll(codec, parse, s, log[..|log| - 1]).Some?
  {
  }

  /** A snapshot's tables and record, rebuilt in whatever order. The settings are those of the state the snapshot was
      taken in exactly when they were tied to their entries; a record tied to its rules gives the list it came from;
      a text that `Add` panics on stops the restoration. */
  method Restore(parse: Parse, hash: Hash, replicas: nat, locations: map<string, Location>, limiters: map<string, seq<LimiterInfo>>,
                 record: set<string>, router: DefaultRouter<ProxyMap.HTTPProxy>, ghost s: System)
    returns (m: ProxyMap.ProxyMap, tree: RadixTree, crashed: bool, ghost order: seq<string>)
    requires locations == s.tables.locations && limiters == s.tables.limiters && record == s.list.acl.record
    requires forall p :: p in locations ==> locations[p].pattern == p
    modifies router
    ensures m.Valid() && m.Now() == Restored(parse, s.tables, old(router.hosts.Keys))
    ensures Kept(parse, s.tables) ==>
              && (Kept(parse, m.Now()) <==> old(router.hosts.Keys) <= locations.Keys)
              && (m.Now().methods == s.tables.methods <==> Limits.Tied(s.tables))
    ensures crashed <==> exists text :: text in record && ToAdd(text) == Panics
    ensures !crashed ==> IsOrder(order, record) && AclMachine.Keeps(tree, Summary(AddAll(Lists.EMPTY, order), 0))
    ensures Lists.Tied(s.list.acl) ==> !crashed && AclMachine.Keeps(tree, Summary(s.list.acl, 0))
  {
    m := ProxyMap.Restore(parse, hash, replicas, s.tables, locations, limiters, router);
    ghost var now := m.Now();
    if Kept(parse, s.tables) {
      Limits.RestoreIffTied(parse, s.tables, old(router.hosts.Keys));
      RestoredKeeps(parse, s.tables, old(router.hosts.Keys));
    }
    tree, crashed, order := AclMachine.Rebuild(record);
    assert m.Now() == now;
    if Lists.Tied(s.list.acl) { TiedDoesNotPanic(s.list.acl); }
  }

  lemma TiedDoesNotPanic(acl: Lists.Acl)
    requires Lists.Tied(acl)
    ensures forall text :: text in acl.record ==> ToAdd(text) != Panics
  {
    forall text | text in acl.record ensures ToAdd(text) != Panics { assert Lists.TiedText(acl, text); }
  }

  /** The entries that are not about the access control list. */
  method ApplyToTables(codec: Codec, parse: Parse, m: ProxyMap.ProxyMap, e: Entry, ghost s: System) returns (crashed: bool)
    requires ProxyMap.Serves(m, s) && e.opt != 3
    modifies m, m.router, m.relations.Values
    ensures crashed <==> Executed(codec, parse, s, e).None?
    ensures !crashed ==> ProxyMap.Serves(m, Executed(codec, parse, s, e).value)
    ensures fresh(m.relations.Values - old(m.relations.Values))
    ensures forall p :: p in old(m.relations) && p !in m.relations ==> old(m.relations)[p].signalled
  {
    crashed := false;
    if e.opt == 1 {
      var l := codec.toLocation(e.data);
      if l.Some? { ProxyMap.DoNewHttpProxy(m, parse, l.value, s); }
    } else if e.opt == 2 {
      var info := codec.toInfo(e.data);
      if info.Some? { var _ := ProxyMap.DoSetRateLimiter(m, parse, info.value, s); }
    } else if e.opt == 4 {
      var _ := ProxyMap.DoRemoveProxy(m, parse, codec.toText(e.data), s);
    } else if e.opt == 5 {
      var h := codec.toHost(e.data);
      if h.Some? {
        var reply := ProxyMap.DoRemoveHost(m, parse, h.value.pattern, h.value.host, s);
        crashed := reply == ProxyMap.Panic;
      }
    } else if e.opt == 6 {
      var h := codec.toHost(e.data);
      if h.Some? { var _ := ProxyMap.DoAddHost(m, parse, h.value.pattern, h.value.host, s); }
    }
  }

  lemma TablesLeaveList(codec: Codec, parse: Parse, s: System, e: Entry)
    requires e.opt != 3
    ensures Executed(codec, parse, s, e).Some? ==> Executed(codec, parse, s, e).value.list == s.list
  {
  }

  /** The entries that are. */
  method ApplyToList(codec: Codec, parse: Parse, tree: RadixTree, e: Entry, ghost s: System) returns (crashed: bool)
    requires AclMachine.Keeps(tree, s.list) && e.opt == 3
    modifies tree, tree.plan.slot.Keys
    ensures Executed(codec, parse, s, e).Some? ==> !crashed && AclMachine.Keeps(tree, Executed(codec, parse, s, e).value.list)
    ensures Executed(codec, parse, s, e).None? ==> crashed || Corrupt(tree.Now())
    ensures fresh(tree.plan.slot.Keys - old(tree.plan.slot.Keys))
  {
    var change := codec.toChange(e.data);
    crashed := false;
    ListMeaning(codec, parse, s, e);
    if change.Some? {
      assert AclMachine.Holds(tree, s.list);
      var outcome := AclMachine.HandleAcl(tree, change.value, s.list);
      crashed := outcome == Panic;
    }
  }

  lemma ListMeaning(codec: Codec, parse: Parse, s: System, e: Entry)
    requires e.opt == 3
    ensures match codec.toChange(e.data)
            case None => Executed(codec, parse, s, e) == Some(s)
            case Some(c) => Executed(codec, parse, s, e) == if SafeChange(s.list, c) then Some(s.(list := Next(s.list, c))) else None
  {
  }

  lemma ListLeavesTables(codec: Codec, parse: Parse, s: System, e: Entry)
    requires e.opt == 3
    ensures var t := Executed(codec, parse, s, e); t.Some? ==> t.value.tables == s.tables && t.value.hosts == s.hosts
  {
  }
}
