/** The replicated state machine without its objects: logged operations, their encoding, and the execution
    of a log of bytes. */
module StateMachine {
  import opened Text
  import opened LogEntry
  import opened Limits
  import opened LimitsHistory
  import opened Acl
  import opened TrieRules

  datatype Operation =
    | NewProxy(location: Location)
    | SetRateLimiter(info: LimiterInfo)
    | HandleAcl(change: Change)
    | RemoveProxy(pattern: string)
    | RemoveHost(pattern: string, host: string)
    | AddHost(pattern: string, host: string)

  /** The tables, the hosts of each pattern, and the access control list. */
  datatype System = System(tables: Tables, hosts: map<string, set<string>>, list: Summary)

  datatype HostLog = HostLog(pattern: string, host: string)

  /** Serialisation of the payloads. */
  datatype Codec = Codec(
    fromLocation: Location -> seq<Byte>, toLocation: seq<Byte> -> Option<Location>,
    fromInfo: LimiterInfo -> seq<Byte>, toInfo: seq<Byte> -> Option<LimiterInfo>,
    fromChange: Change -> seq<Byte>, toChange: seq<Byte> -> Option<Change>,
    fromHost: HostLog -> seq<Byte>, toHost: seq<Byte> -> Option<HostLog>,
    fromText: string -> seq<Byte>, toText: seq<Byte> -> string)

  /** What is marshalled is unmarshalled to the same; a change's code is a byte. */
  ghost predicate Faithful(c: Codec) {
    && (forall x :: c.toLocation(c.fromLocation(x)) == Some(x))
    && (forall x :: c.toInfo(c.fromInfo(x)) == Some(x))
    && (forall x: Change :: x.code < 0x100 ==> c.toChange(c.fromChange(x)) == Some(x))
    && (forall x :: c.toHost(c.fromHost(x)) == Some(x))
    && (forall x :: c.toText(c.fromText(x)) == x)
  }

  function EntryOf(c: Codec, op: Operation): Entry {
    match op
    case NewProxy(l) => Entry(1, c.fromLocation(l))
    case SetRateLimiter(info) => Entry(2, c.fromInfo(info))
    case HandleAcl(change) => Entry(3, c.fromChange(change))
    case RemoveProxy(p) => Entry(4, c.fromText(p))
    case RemoveHost(p, h) => Entry(5, c.fromHost(HostLog(p, h)))
    case AddHost(p, h) => Entry(6, c.fromHost(HostLog(p, h)))
  }

  // ---- typed operations

  ghost function HostsOf(parse: Parse, l: Location): set<string> {
    set i | 0 <= i < |l.proxyPass| && parse(l.proxyPass[i]).Some? :: parse(l.proxyPass[i]).value
  }

  /** The effect of an operation; None is a crash, or a rule that recycles a stale link. */
  ghost function Perform(parse: Parse, s: System, op: Operation): Option<System> {
    match op
    case NewProxy(l) =>
      Some(s.(tables := Step(parse, s.tables, Open(l)),
              hosts := if l.pattern !in s.tables.methods && Builds(parse, l) then s.hosts[l.pattern := HostsOf(parse, l)] else s.hosts))
    case SetRateLimiter(info) => Some(s.(tables := Step(parse, s.tables, Limit(info))))
    case HandleAcl(change) => if SafeChange(s.list, change) then Some(s.(list := Next(s.list, change))) else None
    case RemoveProxy(p) => Some(s.(tables := Step(parse, s.tables, Close(p)), hosts := s.hosts - {p}))
    case RemoveHost(p, h) => if p in s.hosts then Some(s.(hosts := s.hosts[p := s.hosts[p] - {h}])) else None
    case AddHost(p, h) =>
      Some(if p in s.hosts && parse(h).Some? then s.(hosts := s.hosts[p := s.hosts[p] + {parse(h).value}]) else s)
  }

  ghost function Fold(parse: Parse, s: System, ops: seq<Operation>): Option<System> {
    if ops == [] then Some(s)
    else
      var before := Fold(parse, s, ops[..|ops| - 1]);
      if before == None then None else Perform(parse, before.value, ops[|ops| - 1])
  }

  // ---- logged bytes

  /** The operation that a code and payload stand for, if any. */
  ghost function Meaning(c: Codec, e: Entry): Option<Operation> {
    if e.opt == 1 then
      var x := c.toLocation(e.data); if x.Some? then Some(NewProxy(x.value)) else None
    else if e.opt == 2 then
      var x := c.toInfo(e.data); if x.Some? then Some(SetRateLimiter(x.value)) else None
    else if e.opt == 3 then
      var x := c.toChange(e.data); if x.Some? then Some(HandleAcl(x.value)) else None
    else if e.opt == 4 then Some(RemoveProxy(c.toText(e.data)))
    else if e.opt == 5 then
      var x := c.toHost(e.data); if x.Some? then Some(RemoveHost(x.value.pattern, x.value.host)) else None
    else if e.opt == 6 then
      var x := c.toHost(e.data); if x.Some? then Some(AddHost(x.value.pattern, x.value.host)) else None
    else None
  }

  /** Entries that stand for no operation are passed over. */
  ghost function Executed(c: Codec, parse: Parse, s: System, e: Entry): Option<System> {
    match Meaning(c, e)
    case None => Some(s)
    case Some(op) => Perform(parse, s, op)
  }

  /** Bytes that cannot be read are a crash. */
  ghost function Execute(c: Codec, parse: Parse, s: System, bytes: seq<Byte>): Option<System> {
    match Read(bytes)
    case None => None
    case Some(e) => Executed(c, parse, s, e)
  }

  ghost function ExecuteAll(c: Codec, parse: Parse, s: System, log: seq<seq<Byte>>): Option<System> {
    if log == [] then Some(s)
    else
      var before := ExecuteAll(c, parse, s, log[..|log| - 1]);
      if before == None then None else Execute(c, parse, before.value, log[|log| - 1])
  }

  ghost predicate Loggable(op: Operation) {
    op.HandleAcl? ==> op.change.code < 0x100
  }

  lemma MeaningOfEntry(c: Codec, op: Operation)
    requires Faithful(c) && Loggable(op)
    ensures Meaning(c, EntryOf(c, op)) == Some(op)
  {
    match op
    case NewProxy(l) => assert c.toLocation(c.fromLocation(l)) == Some(l);
    case SetRateLimiter(info) => assert c.toInfo(c.fromInfo(info)) == Some(info);
    case HandleAcl(change) => assert c.toChange(c.fromChange(change)) == Some(change);
    case RemoveProxy(p) => assert c.toText(c.fromText(p)) == p;
    case RemoveHost(p, h) => assert c.toHost(c.fromHost(HostLog(p, h))) == Some(HostLog(p, h));
    case AddHost(p, h) => assert c.toHost(c.fromHost(HostLog(p, h))) == Some(HostLog(p, h));
  }

  /** Executing a log of encoded entries is folding the typed operations, crashes included. */
  lemma {:induction false} ExecuteEncoded(c: Codec, parse: Parse, s: System, ops: seq<Operation>, log: seq<seq<Byte>>)
    requires Faithful(c) && |log| == |ops|
    requires forall i :: 0 <= i < |ops| ==> Loggable(ops[i]) && log[i] == Framed(EntryOf(c, ops[i]))
    ensures ExecuteAll(c, parse, s, log) == Fold(parse, s, ops)
  {
    if ops != [] {
      var n := |ops| - 1;
      ExecuteEncoded(c, parse, s, ops[..n], log[..n]);
      FramingRoundTrip(EntryOf(c, ops[n]), log[n]);
      MeaningOfEntry(c, ops[n]);
    }
  }

  // ---- what every log keeps

  /** The tables agree on their patterns, and so do the host tables. */
  ghost predicate SystemKept(parse: Parse, s: System) {
    Kept(parse, s.tables) && s.hosts.Keys == s.tables.methods.Keys
  }

  lemma PerformKept(parse: Parse, s: System, op: Operation)
    requires SystemKept(parse, s) && Perform(parse, s, op).Some?
    ensures SystemKept(parse, Perform(parse, s, op).value)
  {
    match op
    case NewProxy(l) => StepKept(parse, s.tables, Open(l));
    case SetRateLimiter(info) => StepKept(parse, s.tables, Limit(info));
    case RemoveProxy(p) => StepKept(parse, s.tables, Close(p));
    case _ =>
  }

  /** Whatever bytes the log holds, a state machine that survives it has tables that agree. */
  lemma {:induction false} LogKept(c: Codec, parse: Parse, s: System, log: seq<seq<Byte>>)
    requires SystemKept(parse, s)
    ensures ExecuteAll(c, parse, s, log).Some? ==> SystemKept(parse, ExecuteAll(c, parse, s, log).value)
  {
    if log != [] {
      var n := |log| - 1;
      LogKept(c, parse, s, log[..n]);
      var before := ExecuteAll(c, parse, s, log[..n]);
      if before.Some? && Read(log[n]).Some? && Meaning(c, Read(log[n]).value).Some? {
        var op := Meaning(c, Read(log[n]).value).value;
        if Perform(parse, before.value, op).Some? { PerformKept(parse, before.value, op); }
      }
    }
  }
}
