# Verification model of the Cheryl gateway

This project models the state of the gateway and proves properties of it over all inputs, runs and reachable states.
The pieces, from the bottom up:

- **Access control trie.** `Words` gives 32-bit words their meaning as routes of bits; `LongestMatch` is the table of
  networks that the trie stands for (longest match, section 5.1 of RFC 4632). `RadixTree` is the heap object: nodes with
  parent pointers, insertion in place, pruning deletion and the free list threaded through `right`. `TrieShape`,
  `TrieGrowth` and `TriePruning` describe its heap as a value (a *view*: every node ever allocated, and its place in the
  trie or on the free list) and state what one insertion and one deletion do to it; `TrieInsertion` puts the insertion
  together and says which addresses stray when a stale link survives; `TrieSearch` is the search on a heap of any shape.
- **From text to rules.** `Text`, `Inet` and `Rules` parse dotted quads and networks in the notation of section 3.1 of
  RFC 4632, error paths and panics included.
- **Lists over whole logs.** `Acl` is the list without pointers (table and record of texts); `TrieRules` adds the number
  of spare nodes, which decides when an addition is safe; `AclMachine` runs logs and snapshots on the trie;
  `Replication`, `Restore` and `Recycling` are theorems about leader and follower, about rebuilding, and about the first
  addition after a deletion. `Replicas` takes leader and follower to their tries, with `SerialRequests`, `Overlaps` and
  `Divergence` for requests that do and do not overlap; `Straying` says which addresses a list answers wrongly, and
  `Denial` goes from the text of an address to the texts of the rules. `TenSlashEight` is the example used throughout.
- **Balancers.** `Ring`, `RingHistory`, `RingCounts` and `ConsistentHash` are the consistent-hash ring with an unspecified hash;
  `RoundRobin` is the rotating index with its 64-bit counter; `Balancers` is what a proxy holds of either.
- **Hosts of a proxy.** `Membership` interleaves, statement by statement, the addition of hosts, one health checker a
  host, individual removals and the shutdown rendezvous.
- **Routes and limiters.** `Router`, `Limits`, `LimitsHistory` and `ProxyMap` are the router table, the tables kept
  beside it, the limiter settings and their recorded entries, snapshots and restorations.
- **The replicated state machine.** `LogEntry` frames entries, `StateMachine` gives the meaning of a log of bytes,
  `LogLaw` reads off the bytes of a whole log what it leaves, and `Fsm` executes it on the real objects.

Results that are not what the code's documentation leads one to expect, each with the condition it depends on:

- `newNode` hands out a freed node with the `right` link that threaded it into the free list, and `insert` does not
  clear it. The code is kept as it is. `TrieGrowth.SafeReuse` is the condition under which an insertion overwrites every
  stale link it takes over; an insertion keeps the trie if and only if it holds, and otherwise leaves a heap that is no
  trie under any reading (`RadixTree.RadixTree.InsertKey`, `TrieShape.CorruptIsNoTrie`).
  `Recycling.NextAddAfterDelete` shows how early it fails.
- So a request may be denied that no rule covers. After an addition, safe or not, denials are right exactly when no new
  node that turned left keeps its stale link, or some rule lies on the way to the new one
  (`Straying.AnswersRightlyIff`). Once 10.0.0.0/8 has been put in, taken out and put in again, 74.0.0.0 is denied.
- Leader and follower need not agree, even with operation codes 0 and 1 and one spelling per network. Their lists do, in
  every interleaving; but the leader makes each change twice, recycles nodes that a follower does not, and can lose its
  trie where the follower keeps one. Two overlapping requests that add and delete the same network do it
  (`Overlaps.OverlappingRequests`, `Divergence.AnswersAlikeIff`, each with the exact condition on the network): after
  the whole log, with the same record, the leader denies addresses that the follower lets through. Leader and follower
  agree when both runs of changes are safe, and at the first change of a run that is not safe the replica crashes or has
  no trie any more (`Replicas.RunReplicas`); with requests one at a time the leader's run is safe exactly when the log
  is (`SerialRequests.SerialIsSafeIff`).
- The leader's handler adds a rule for every operation code but 0, replicas only for code 1; the rules then agree exactly
  when the log itself makes every such addition that nothing comes after (`Replication.TablesConvergeIff`).
- Deleting the network of length 0 from a trie that is only its root dereferences a nil parent.
- `Add` accepts negative lengths, which act as 0 as long as 64-bit arithmetic can subtract them from 32, and panics on
  lengths above 32 or below that (`Rules.AddPanics`). An address panics on a negative shift exactly when it has five
  fields or more and the first five are numerals (`Inet.AddressCases`); one that is no number is looked up as 0.
- A host removed one by one while its flag is on stays in the balancer, and a shutdown after any such removal waits for
  ever.
- A proxy whose targets name a host twice starts with points of that host twice in its ring; nothing shows until the host
  is removed.
- Removing a proxy leaves its limiter entries behind, so a proxy added again under the same pattern starts without the
  settings that a restart then brings back (`LogLaw.RestartLaw`, with the exact condition on the log).
- The leader sets a limiter a second time after its log entry has committed; overlapping requests can leave it with
  another setting than its followers, exactly when for some path its last event is not the log's last entry in effect
  (`LimitsHistory.LimitersConvergeIff`).
- A limiter's timeout of so many milliseconds is waited for that many nanoseconds.
- Round robin is unfair across the end of its counter unless the number of hosts divides 2^64.

## Model

| member | source | states |
|---|---|---|
| `RadixTree.RadixTree.InsertKey` | acl/radix_tree.go:64-103 | with the safe-reuse condition the heap is again a trie whose stored prefixes are the old ones with this one set; without it the heap is corrupt and certain addresses stray; in either case every node of before is still accounted for and exactly as many were allocated as the free list was short of |
| `RadixTree.RadixTree.NewNode` | acl/radix_tree.go:54-62 | a node is popped from the free list with its stale right link, or allocated |
| `RadixTree.RadixTree.Extend` | acl/radix_tree.go:87-101 | the growing loop, against the states of `TrieGrowth.Growing` |
| `RadixTree.RadixTree.Descend` | acl/radix_tree.go:65-80 | the matching loop stops at the deepest occupied level of the route, or at the prefix's own length |
| `RadixTree.RadixTree.SearchKey` | acl/radix_tree.go:126-143 | on every heap on which it ends, the last value on the way down; on a trie the value that the longest-match table gives |
| `TrieSearch.TrieSearches` | acl/radix_tree.go:126-143 | on a trie the search for every address ends, and the last value met is the longest match |
| `RadixTree.RadixTree.DeleteKey` | acl/radix_tree.go:173-215 | true iff the prefix was stored; exactly it is removed, every other entry stays, the pruning loop terminates, and each childless node but the root still has a value; a childless root as the target is the nil dereference |
| `RadixTree.RadixTree.Prune` | acl/radix_tree.go:194-213 | the upward loop ends, by decreasing depth, in a tight trie, each node it passed being on the free list |
| `RadixTree.RadixTree.Add` | acl/radix_tree.go:105-124 | the outcome for every text, by its fields; a rule that can be read is inserted under its masked network and its text recorded; an error or a panic changes nothing; no node is lost |
| `RadixTree.RadixTree.Delete` | acl/radix_tree.go:150-171 | the outcome for every text, its refusals by its fields; trie and record change only when the rule was found |
| `RadixTree.RadixTree.Search` | acl/radix_tree.go:145-148 | the longest match of the parsed address, 0 standing for one that is not a number |
| `RadixTree.RadixTree.constructor` | acl/radix_tree.go:45-52 | an empty trie, no spare node, an empty record |
| `TrieGrowth.SafeIsShape` | acl/radix_tree.go:87-101 | when every stale link is overwritten the grown heap has no overridden right link left: it is a trie |
| `TrieGrowth.UnsafeIsCorrupt` | acl/radix_tree.go:54-62 | when one is not, two branches share a node or a branch runs into the free list |
| `TrieInsertion.GrownEnds` | acl/radix_tree.go:126-143 | stale links or not, the search for every address ends |
| `TrieInsertion.StraysIsAnswered` | acl/radix_tree.go:87-102 | an address that keeps to the route but for shared levels, nodes whose stale right link leads to the route's next node, is answered with a value, however many such levels it turns at |
| `TrieInsertion.AnsweredIff` | acl/radix_tree.go:64-143 | after any insertion, safe or not, the search for an address ends with something iff a stored prefix covers the address or it strays to the end of the route |
| `TrieShape.CorruptIsNoTrie` | acl/radix_tree.go:54-62 | a corrupt heap is no trie with a free list beside it, however its nodes are assigned to places |
| `TrieShape.GrowShape` | acl/radix_tree.go:88-98 | attaching a taken node keeps the heap's shape: closed positions, parents inverse to children, free chain, disjointness |
| `TrieShape.PruneShape` | acl/radix_tree.go:195-202 | unlinking a leaf and pushing it keeps the same |
| `TrieShape.OccupiedIffNeeded` | acl/radix_tree.go:194-213 | in a tight trie a position is occupied iff it is the root or on the way to a stored prefix |
| `TriePruning.VerdictIsStored` | acl/radix_tree.go:184-214 | what deletion finds by looking at nodes is whether the prefix is stored |
| `TrieRules.NodesAreConserved` | acl/radix_tree.go:54-62 | every node ever allocated is once in the trie or once on the free list: the sizes add up |
| `TrieRules.NodesOfList` | acl/radix_tree.go:54-62 | there are as many nodes as the stored prefixes need and the free list holds |
| `TrieRules.OccupiesNeeded` | acl/radix_tree.go:64-103 | the occupied positions are a function of the stored table alone |
| `TrieRules.AddStep` | acl/radix_tree.go:105-124 | one addition on list and spare count: the next list if it is safe, corruption iff it is not |
| `TrieRules.DropStep` | acl/radix_tree.go:150-171 | one deletion on list and spare count, the crash of the bare root apart |
| `Recycling.NextAddAfterDelete` | acl/radix_tree.go:54-62 | after a network is put into an empty list and taken out, the next rule is added correctly iff it has length 0, or is at least as long with every bit set from the second to that length |
| `Words.MaskBits` | acl/radix_tree.go:120 | for every length whose shift count is not negative, exactly the leading bits of the mask are set |
| `Words.LengthOfMask` | acl/radix_tree.go:120 | insert and delete walk exactly as many levels as the length says, none for negative lengths |
| `Words.CoversIsPrefix` | acl/radix_tree.go:68-80 | `(key ^ net) & mask == 0` iff the first bits agree, for every length 0 to 32 |
| `Words.BitsInjective` | acl/radix_tree.go:67-74 | addresses with the same route are the same |
| `LongestMatch.LookupIsLongestCover` | acl/radix_tree.go:126-143 | a lookup gives the value of a stored network covering the address and at least as long as any other that does |
| `LongestMatch.LookupOfUncovered` | acl/radix_tree.go:126-143 | with non-empty values, it gives nothing iff no stored network covers the address |
| `AclMachine.HandleAcl` | cheryl/fsm.go:143-160 | one logged change on the trie is one change of the list, or exactly the crash or corruption that its safety condition excludes; no node is lost |
| `AclMachine.ReplayLog` | cheryl/fsm.go:143-160 | after any safe log the trie is the list that folding the log gives; all nodes of before are still there, and there are as many as the table needs and the predicted number of spare ones |
| `AclMachine.Rebuild` | cheryl/fsm.go:96-101 | the recorded texts added to an empty trie in an arbitrary order: the list of that order, the list they came from if it was tied to its record, or the panic of a text that cannot be added |
| `Acl.AddedTied` | acl/radix_tree.go:121-122 | an addition keeps record and rules tied iff the network is new or has this spelling |
| `Acl.DroppedTied` | acl/radix_tree.go:163-167 | a deletion keeps them tied iff the network is absent or has this spelling |
| `Acl.RunTied` | acl/radix_tree.go:105-171 | with one spelling per network every log keeps them tied |
| `Acl.TiedRecord` | acl/radix_tree.go:122 | tied lists with the same rules have the same record |
| `Replication.RunLook` | cheryl/fsm.go:143-160 | after any log the last change that touches a network decides it |
| `Replication.TablesConvergeIff` | cheryl/http_server.go:374-394 | for every log and interleaving, the rules are the same iff each addition that was requested under another code, and that nothing comes after, is one the log makes too |
| `Replication.TablesConverge` | cheryl/http_server.go:374-394 | the lists behind the tries: with codes 0 and 1, whatever the interleaving, the leader has the rules of a follower that folded the log |
| `Replication.ReplicasConverge` | cheryl/fsm.go:143-160 | with one spelling per network rules and records agree under the same condition |
| `Replication.OtherCodesDiverge` | cheryl/http_server.go:374-388 | one request under any code: lists agree iff the code is 0 or 1, the rule cannot be added, or it is there already |
| `Replicas.HandleRequest` | cheryl/http_server.go:374-388 | a request on the leader's trie is one change of its list, or a crash or corruption, with the answers of every address after an addition |
| `Replicas.RunLeader` | cheryl/http_server.go:374-394 | the leader's events on its trie, requests and log entries, up to and with the first that is not safe, for every trace |
| `Replicas.FirstUnsafe` | cheryl/fsm.go:143-160 | a run that is not safe has a first change that is not |
| `Replicas.RunReplicas` | cheryl/http_server.go:374-394 | leader and follower on two tries, for every trace and log: when both runs are safe both are tries, search every address with the same answer and have the same record; a run that is not safe ends, at its first unsafe change, with a crash or without a trie |
| `Replicas.EndedMeans` | cheryl/http_server.go:374-394 | what a run ends with: the list it folds to iff it is safe throughout |
| `SerialRequests.SerialIsSafeIff` | cheryl/http_server.go:374-394 | with each request right before its log entry, the leader's run is safe iff the log is, and leaves the same list and as many spare nodes |
| `SerialRequests.SerialIsInterleaving` | cheryl/http_server.go:374-394 | such runs are among the interleavings |
| `Overlaps.OverlappingRequests` | cheryl/http_server.go:374-394 | a network added and deleted by overlapping requests: the follower's log is safe, the leader's run iff every bit from the second to the network's length is set |
| `Overlaps.OverlappingOnTen` | cheryl/http_server.go:374-394 | so the leader loses its trie over 10.0.0.0/8 and the follower does not |
| `Straying.StrayedByRules` | acl/radix_tree.go:87-102 | a straying address is covered by no rule iff it does not end on the new rule's position and no rule lies on the way there; it has then turned at a shared level |
| `Straying.WrongIff` | acl/radix_tree.go:87-102 | some uncovered address strays iff there is a shared level and no rule lies on the way |
| `Straying.AnswersRightlyIff` | acl/radix_tree.go:64-143 | for every addition to a tied list, every address is answered iff the rules cover it, exactly when there is no shared level or some rule lies on the way |
| `Straying.DeniesRightlyIff` | acl/radix_tree.go:225-234 | the same for denials and the recorded texts, while record and rules stay tied |
| `Straying.AddAndAsk` | acl/radix_tree.go:64-143 | adding a rule, safely or not, and searching: something is answered iff the rules cover the address or it strays |
| `Divergence.AnswerAfterReturn` | acl/radix_tree.go:54-62 | the same on a new trie for a rule put in, taken out and put in again |
| `Divergence.RunBoth` | cheryl/http_server.go:374-394 | a network deleted and added by overlapping requests, both replicas run to the end of the log: the same record, the follower answering what the rule covers, the leader also what strays |
| `Divergence.AnswersAlikeIff` | cheryl/http_server.go:374-394 | the two then deny the same addresses iff every bit of the network from the second to its length is set |
| `Divergence.TenDiverges` | cheryl/http_server.go:374-394 | with 10.0.0.0/8 the leader denies 74.0.0.0 and 106.0.0.0, the follower neither |
| `Denial.AnswerIsLongest` | acl/radix_tree.go:126-143 | with record and rules tied, the answer for a covered address is the text of the longest recorded rule that covers it |
| `Denial.AnswerIffCovered` | acl/radix_tree.go:126-143 | an address is answered iff some recorded rule covers it |
| `Denial.AccessControl` | acl/radix_tree.go:225-234 | a request is denied iff a recorded rule covers its address, the port cut off; a malformed address can panic |
| `Denial.AddressOfPrint` | acl/radix_tree.go:225-234 | a dotted address is looked up under its number, with any port or none |
| `Denial.RuleTextCovers` | acl/radix_tree.go:105-143 | the usual spelling of a network covers just the addresses with its leading bits |
| `Restore.TiedRestores` | cheryl/fsm.go:96-101 | every order of the record rebuilds a tied list |
| `Restore.RestoreIffTied` | cheryl/fsm.go:96-101 | a list is rebuilt by every order of its record iff it is tied |
| `Rules.ReadToAdd` | acl/radix_tree.go:106-120 | the parsing steps of `Add`, refusals and panics included; `Rules.AddReads` says by the fields which text ends how |
| `Rules.ReadToDelete` | acl/radix_tree.go:151-162 | those of `Delete`, which bounds the length; `Rules.DeleteReads` says by the fields which text ends how |
| `Rules.AddReads` | acl/radix_tree.go:105-120 | for every text, by its fields: the address is refused iff one of its first five fields is no numeral, or it has four at most and no slash follows; the length iff it is no numeral; the exact condition for a panic; otherwise the rule has the length read and the address read |
| `Rules.DeleteReads` | acl/radix_tree.go:150-162 | the same for the deleting reader, which refuses lengths outside 0 to 32 |
| `Rules.AddPanics` | acl/radix_tree.go:106-120 | the texts that `Add` panics on: five numerals in front of the address, or a numeral length whose shift count is negative |
| `Rules.RuleOfText` | acl/radix_tree.go:106-120 | the usual spelling of every network and length is understood as that network, by both |
| `Rules.OneUsualSpelling` | acl/radix_tree.go:122 | usual spellings without host bits that name the same network are equal |
| `Inet.InetToi` | utils/net.go:61-76 | the parsed address; a negative shift iff there are five fields and the first five are numerals; a refusal iff one of the first five is none |
| `Inet.AddressCases` | utils/net.go:61-76 | the same for the parsing function: the first five fields decide |
| `Inet.AddressBits` | utils/net.go:61-76 | an address of four fields or fewer has a bit set iff one of its fields, of any size or sign, has it set once weighted by its place and cut to 32 bits |
| `Inet.OrBits` | utils/net.go:72 | a bit of an or is set iff it is set on either side |
| `Inet.FromWordRound` | utils/net.go:63 | each word of 32 bits is the low part of the number it stands for |
| `Inet.InetOfDotted` | utils/net.go:61-76 | four octets are read as their big-endian value: the fields never overlap |
| `Inet.InetOfPrint` | utils/net.go:61-76 | parsing inverts dotted printing, for every address |
| `Inet.PrintOfInet` | utils/net.go:61-76 | printing inverts parsing, for every dotted quad of octets, so parsing is injective on them |
| `Text.SplitApart` | acl/radix_tree.go:106 | the fields of a text hold no separator, and put together again are the text |
| `Text.SplitIsOne` | acl/radix_tree.go:106 | no other fields are |
| `Text.AtoiOfSigned` | acl/radix_tree.go:116 | a numeral is read with its sign within 64 bits and refused beyond |
| `Ring.RemovedPresent` | balancer/consistence_hash.go:51-60 | removing points that are all there takes out just those, by search index, and keeps the order |
| `Ring.RemoveUndoesAdd` | balancer/consistence_hash.go:40-60 | removing what was added gives the ring back iff none of its points was owned before |
| `ConsistentHash.ConsistenceHash.constructor` | balancer/consistence_hash.go:27-38 | the hosts added in order; without collisions that is the ring of their set iff none is named twice |
| `ConsistentHash.ConsistenceHash.Add` | balancer/consistence_hash.go:40-49 | append, own and sort are one addition to the ring; the host then owns the hash of each replica number written before its name |
| `Ring.AddedPoints` | balancer/consistence_hash.go:40-49 | the points a host owns once added, by what is hashed |
| `ConsistentHash.ConsistenceHash.Remove` | balancer/consistence_hash.go:51-60 | search, cut and disown are one removal; it fails where the index is out of range |
| `ConsistentHash.ConsistenceHash.Balance` | balancer/consistence_hash.go:62-73 | the binary search finds the owner the ring sends the key to |
| `ConsistentHash.ConsistenceHash.Len` | balancer/consistence_hash.go:81 | the number of owned points: on the ring of a set of hosts, replicas times their number |
| `ConsistentHash.Search` | balancer/consistence_hash.go:56 | the first index not below the value |
| `RingHistory.RingIsUnique` | balancer/consistence_hash.go:15-21 | there is one ring for a set of hosts |
| `RingHistory.AddedIsRing` | balancer/consistence_hash.go:40-49 | adding an absent host gives the ring of the larger set |
| `RingHistory.RemovedIsRing` | balancer/consistence_hash.go:51-60 | removing a present host gives the ring of the smaller set, without running out of the array |
| `RingHistory.AddedAllIsRing` | balancer/consistence_hash.go:34-36 | adding distinct hosts one after the other gives the ring of their set |
| `RingHistory.AddedAllIsRingIff` | balancer/consistence_hash.go:34-36 | it gives that ring iff no host is named twice |
| `RingHistory.RunIsRing` | balancer/consistence_hash.go:40-60 | every history of valid additions and removals ends in the ring of its hosts |
| `RingHistory.HistoryDoesNotMatter` | balancer/consistence_hash.go:40-60 | histories that end with the same hosts end with the same keys and owners |
| `RingHistory.BalancedIsSuccessor` | balancer/consistence_hash.go:62-73 | the host picked owns the smallest point not below the hash, or the smallest of all; only an empty ring refuses |
| `RingHistory.MinimalDisruptionOnAdd` | balancer/consistence_hash.go:40-49 | adding a fresh host moves a key nowhere but to it |
| `RingHistory.MinimalDisruptionOnRemove` | balancer/consistence_hash.go:51-60 | removing a host moves only the keys it had |
| `RingHistory.OwnPointIsOwn` | balancer/consistence_hash.go:62-73 | a key that hashes to a host's own point is sent to that host |
| `RingHistory.AddedTwiceThenRemoved` | balancer/consistence_hash.go:40-73 | a host added while present and then removed leaves points that send keys to the empty name |
| `RingHistory.AddedTwiceIsUnseen` | balancer/consistence_hash.go:40-49 | adding a host that is there changes no pick |
| `RingCounts.RunIsCounted` | balancer/consistence_hash.go:40-60 | every history in which removals find a copy of their host runs through, each point being there as often as its host has copies, owned iff the host's last move was an addition |
| `RingCounts.UnownedIff` | cheryl/http_server.go:338-345 | so points without an owner are left iff some host has copies but its last move was a removal, as after a host was added by the handler and by the log entry |
| `RingHistory.RingSize` | balancer/consistence_hash.go:81 | keys and owners both number replicas times hosts |
| `RoundRobin.RoundRobin.Add` | balancer/round_robin.go:23-32 | appends an absent host, leaves the list alone for a present one |
| `RoundRobin.RoundRobin.Remove` | balancer/round_robin.go:34-43 | an absent host changes nothing; otherwise what stands before and after the first occurrence is left, in order |
| `RoundRobin.WithoutOne` | balancer/round_robin.go:34-43 | a list without repeats keeps every other host and no repeats |
| `RoundRobin.RoundRobin.Balance` | balancer/round_robin.go:45-54 | the host at the counter modulo the length; the counter wraps at 64 bits |
| `RoundRobin.RoundRobin.Deal` | balancer/round_robin.go:45-54 | over any run of picks each host is dealt as often as its index comes up |
| `RoundRobin.EvenBeforeTheEnd` | balancer/round_robin.go:45-54 | a window that does not cross the wrap deals hosts counts differing by one at most, whole rounds alike |
| `RoundRobin.EvenIffDivides` | balancer/round_robin.go:45-54 | all windows are even iff the number of hosts divides 2^64 |
| `Membership.StartInv` | reverse_proxy/http_proxy.go:45-95 | a proxy created from a list of hosts satisfies the invariant iff none is named twice |
| `Membership.BalancerCallsAreSound` | reverse_proxy/health_check.go:35-42 | the ring's Add is only reached for absent hosts, its Remove for present ones |
| `Membership.StepInv` | reverse_proxy/health_check.go:30-49 | every statement of every goroutine, every arrival, removal and shutdown step keeps the invariant: the ring is that of the hosts whose places say they are in it |
| `Membership.RunInv` | reverse_proxy/health_check.go:30-49 | so does every interleaving; no balancer call ever crashes |
| `Membership.ReachableInv` | reverse_proxy/health_check.go:30-49 | every state that a proxy created from distinct hosts gets into satisfies it |
| `Membership.RestAgrees` | reverse_proxy/health_check.go:35-42 | a host whose checker is at rest is in the balancer iff its flag is set |
| `Membership.TickLaw` | reverse_proxy/health_check.go:30-49 | from every state of the invariant, one tick of a checker from rest to rest with anything in between: a flag that was set is then what the first probe answered, one that was not what the second did, and the host is in the balancer iff its flag is set |
| `Membership.SteadyHost` | reverse_proxy/health_check.go:30-49 | in every run a host of the balancer all of whose probes answer is never withdrawn, and one outside it none of whose probes answer is never put in |
| `Membership.NewHostJoins` | reverse_proxy/proxyMap.go:88-114 | a new host whose statements have been executed, others in between, is up, in the balancer and in every table |
| `Membership.PicksAreListed` | reverse_proxy/http_proxy.go:103-114 | every pick is a key of HostMap iff no individually removed host is left in the balancer |
| `Membership.RemovalLeavesPicks` | reverse_proxy/proxyMap.go:131-147 | removing one host keeps it so iff that host's flag was off |
| `Membership.ShutdownCompletesIff` | reverse_proxy/http_proxy.go:204-214 | from every state reachable after the signal shutdown can still complete iff no host was individually removed |
| `Membership.Drain` | reverse_proxy/http_proxy.go:204-214 | the run that completes it, ending with every checker gone |
| `Membership.OwedForever` | reverse_proxy/http_proxy.go:209-211 | a signal owed to a checker that is gone is owed in every later state |
| `Membership.WeightFalls` | reverse_proxy/health_check.go:32-47 | undelivered signals and mid-tick positions lose at least one with every step that is no tick |
| `Membership.RunsAreBounded` | reverse_proxy/health_check.go:32-47 | so the length of every run after the signal is bounded by the measure and seven times its ticks |
| `Membership.OnlyTicksLeft` | reverse_proxy/http_proxy.go:204-214 | a state where only ticks are enabled is one where shutdown is complete and every checker gone, and conversely |
| `Router.DefaultRouter.Route` | reverse_proxy/default_router.go:100-126 | the longest registered pattern p with path = p + rest and rest starting with a slash, that rest, and nothing iff there is none |
| `Router.DefaultRouter.Add` | reverse_proxy/default_router.go:20-24 | the pattern is set |
| `Router.DefaultRouter.Remove` | reverse_proxy/default_router.go:26-30 | the pattern is gone |
| `Router.MatchesIsSplit` | reverse_proxy/default_router.go:107-119 | cutting at a slash is splitting into pattern and rest |
| `Router.RouteIsUnique` | reverse_proxy/default_router.go:100-126 | there is one such pattern at most |
| `Router.RouteOf` | reverse_proxy/default_router.go:100-126 | the longest registered pattern that matches, or none iff none does |
| `Router.RouteAfterAdd` | reverse_proxy/default_router.go:20-24 | a new pattern takes over exactly the paths it matches and no longer pattern did |
| `Router.RouteAfterRemove` | reverse_proxy/default_router.go:26-30 | removing a pattern reroutes exactly the paths it had |
| `Router.NothingLongerIsLeft` | reverse_proxy/default_router.go:116-119 | no registered pattern continues the chosen one along the rewritten path |
| `Limits.LastEntryWins` | reverse_proxy/http_proxy.go:130-143 | after replaying entries each path has the setting of its last usable entry |
| `Limits.ReplayTwice` | cheryl/fsm.go:90-93 | the doubled list reads like the list |
| `Limits.WaitsNanoseconds` | rate_limit/qps_limiter.go:63-67 | a timeout given in milliseconds is waited for as many nanoseconds, none is no wait |
| `Limits.SettingReads` | reverse_proxy/http_proxy.go:124-145 | for every entry: a setting iff the type is the registered one; no rate iff the speed is 0, otherwise the burst given and the whole nanoseconds between so many tokens a second; the timeout in 64-bit nanoseconds |
| `Limits.DefaultReads` | reverse_proxy/http_proxy.go:170-202 | the default entry is for the path, sets no rate and makes no request wait |
| `Limits.WaitReads` | rate_limit/qps_limiter.go:63-67 | the wait is the whole milliseconds of the timeout, cut towards 0 |
| `Limits.OpenedTied` | reverse_proxy/proxyMap.go:70-86 | a new proxy keeps settings tied to entries iff no entry of its pattern was left behind |
| `Limits.RestoredKeeps` | cheryl/fsm.go:70-94 | a restoration always leaves tied tables; the patterns agree iff the process had no other route |
| `Limits.RestoreIffTied` | cheryl/fsm.go:70-94 | the settings survive a restoration iff they were tied |
| `LimitsHistory.RunKept` | reverse_proxy/proxyMap.go:70-129 | relations, locations and router table have the same patterns after every history |
| `LimitsHistory.StepTied` | reverse_proxy/http_proxy.go:124-202 | each step keeps settings tied to entries iff it opens no pattern with entries left behind |
| `LimitsHistory.RunTied` | reverse_proxy/http_proxy.go:124-202 | every history without such a step keeps them tied |
| `LimitsHistory.RestartsAreInvisible` | cheryl/fsm.go:60-94 | any number of restarts anywhere in such a history leaves the settings, locations and routes of the history without them |
| `LimitsHistory.ReopenedThenRestarted` | reverse_proxy/proxyMap.go:124-127 | removing and adding a proxy loses its settings, a restart brings them back |
| `LimitsHistory.LimitersConvergeIff` | cheryl/http_server.go:163-176 | in whatever order the handlers finish, the leader has a follower's settings iff for each path its last usable event has the setting of the last usable entry |
| `LimitsHistory.LimitersConverge` | cheryl/http_server.go:163-176 | handlers that finish in log order leave the leader with a follower's settings |
| `LimitsHistory.OvertakenHandler` | cheryl/http_server.go:163-176 | two that finish the other way round agree with a follower iff the paths differ, the settings are equal or one fails |
| `ProxyMap.NewHTTPProxy` | reverse_proxy/http_proxy.go:45-95 | made iff every target parses and the algorithm is known; one host map, flag and channel entry a host; "round-robin" gives the rotation of the hosts in order, "consistence-hash" a ring, that of the named hosts iff none repeats |
| `Balancers.MadeFromHosts` | reverse_proxy/http_proxy.go:45-95 | what the balancer of each algorithm is, from the list of hosts |
| `Balancers.WithHostExtends` | reverse_proxy/proxyMap.go:88-114 | adding a host: a rotation takes it at the end unless it is there; the ring of some hosts becomes that of one more, and picks as before if it was one of them |
| `ProxyMap.HTTPProxy.HealthCheck` | reverse_proxy/health_check.go:24-28 | one checker more for each listed host |
| `ProxyMap.HTTPProxy.SetRateLimiter` | reverse_proxy/http_proxy.go:124-145 | the setting of the path is then the one the entry describes, and the entry is recorded; or the error of an unknown type and no change |
| `ProxyMap.HTTPProxy.ConfigRate` | reverse_proxy/http_proxy.go:170-202 | on a first visit the path has a setting without rate or wait, and its entry is recorded; the error of an existing one |
| `ProxyMap.ProxyMap.AddRelations` | reverse_proxy/proxyMap.go:70-76 | relation, location and route are set together, each host of the proxy gets a checker, and the tables of all other patterns stay |
| `ProxyMap.ProxyMap.AddProxyWithLocation` | reverse_proxy/proxyMap.go:78-86 | a proxy that can be built is opened in all tables, with the balancer, hosts, flags, channels and checkers of its location; otherwise nothing changes |
| `ProxyMap.ProxyMap.RemoveProxy` | reverse_proxy/proxyMap.go:116-129 | told to shut down and gone from all tables but the limiter entries |
| `ProxyMap.ProxyMap.AddProxy` | reverse_proxy/proxyMap.go:88-114 | the host is in host map, flags, channels and balancer, and has a checker; the other proxies stay as they were |
| `ProxyMap.ProxyMap.RemoveHost` | reverse_proxy/proxyMap.go:131-147 | the host leaves the host map, not the balancer, when it has a channel and a running checker to take the signal; an unknown pattern panics |
| `ProxyMap.InvaildToken` | reverse_proxy/http_proxy.go:147-167 | a first visit is entered, its path without rate or wait from then on; a later one asks the path's limiter for a token, with the wait that its timeout stands for |
| `ProxyMap.Restore` | cheryl/fsm.go:70-94 | the loops over locations and limiters, in any order, rebuild the restored tables |
| `Fsm.FSM.Apply` | cheryl/fsm.go:26-51 | one entry of bytes on the objects is its meaning on the abstract state; one without a meaning there crashes the process or leaves no trie; every proxy that is gone has been told to shut down |
| `Fsm.FSM.ApplyAll` | cheryl/fsm.go:26-51 | so is a whole log, up to and with the first entry that crashes or corrupts; `LogLaw` reads the state it leaves off its bytes |
| `Fsm.Restore` | cheryl/fsm.go:60-103 | the objects of a restored snapshot: settings as before iff they were tied, the list of the recorded texts in some order, the list as before if it was tied, or the panic of a text |
| `StateMachine.ExecuteEncoded` | cheryl/fsm.go:26-51 | executing a log of encoded entries is folding the typed operations, crashes included |
| `StateMachine.LogKept` | cheryl/fsm.go:26-51 | whatever bytes a log holds, tables that survive it agree on their patterns |
| `LogLaw.OpenLaw` | cheryl/fsm.go:26-51 | after every log that is survived, a pattern has a proxy, a location, a route and hosts iff the last entry that opens it, with targets that parse and a known algorithm, or removes it opens it |
| `LogLaw.LocationLaw` | cheryl/fsm.go:105-126 | its location is that of the first opening since the last removal |
| `LogLaw.HostsLaw` | cheryl/fsm.go:167-182 | its hosts are those that this location names or a later entry adds, and that no still later entry removes |
| `LogLaw.SettingsLaw` | cheryl/fsm.go:128-141 | a path has a setting iff some usable entry since the opening was for it, and it is the one that the last of them describes |
| `LogLaw.RecordLaw` | reverse_proxy/http_proxy.go:140-143 | the recorded entries of a pattern are the usable ones logged while it was open, those of removed proxies included |
| `LogLaw.RestartLaw` | cheryl/fsm.go:70-94 | a restart gives an open pattern its settings back iff every path that was set for an earlier proxy of the pattern has been set for this one |
| `LogLaw.SurvivalLaw` | cheryl/fsm.go:26-51 | a log is survived iff each entry has its two bytes, hosts are removed from open patterns only and the changes of the list are safe; the list is what those changes make of the empty one |
| `LogLaw.EntryAt` | cheryl/fsm.go:26-51 | what one entry, by its bytes, does to each pattern |
| `LogEntry.Encode` | cheryl/log_entry.go:23-33 | the bytes written are read back as the same entry |
| `LogEntry.FramingRoundTrip` | cheryl/log_entry.go:23-33 | reading and framing are inverse to each other, fewer than two bytes apart |

## Left out

- HTTP handlers, raft, transports, stores, listeners, forwarding, TCP probes and the filter chain are I/O or foreign libraries: a probe is an arbitrary answer, the log is an agreed sequence.
- JSON is a pair of functions assumed inverse to each other (`StateMachine.Faithful`); a snapshot carries its fields unchanged, relations excepted.
- Parsing of target URLs is an arbitrary function from text to host or error.
- The token bucket belongs to a library: a limiter is the interval, burst and timeout it is given. The `concurrent` limiter is a stub in the source and not registered.
- Locks and data races: balancer calls are atomic, as is the removal of a host from HostMap with the receipt of its signal. `ChangeLb`, which rebuilds a balancer from all hosts whatever their flags, is not modelled.
- Adding a host that is already there, or was removed before, is not among the steps of `Membership`. The leader's handler adds a host and the log entry adds it again: `RingHistory.AddedTwiceIsUnseen` and `RingCounts.UnownedIff` say what that does to a ring; the flag that two checkers of one host then share is not modelled.
- `Membership` lets no host arrive and none be removed individually once shutdown was signalled, and the signal waits until no host is in the middle of being added; fairness of the `select` between tick and signal is not assumed, so termination is stated by the measure.
- `Membership` uses the ring as its balancer; round robin's `Add` is already idempotent.
- RadixTree.RadixTree.InsertKey: after an unsafe insertion the corruption and the straying addresses are stated, not what later insertions and deletions do on such a heap.
- ProxyMap.ProxyMap.AddProxy: the new channel of a host that is there already does not cut off its old checker.
- ProxyMap.ProxyMap.RemoveHost: a running checker is taken to come to rest within the five seconds of the wait.
- ProxyMap.ProxyMap.RemoveProxy: the shutdown check takes the signal at once; what it does with it is in `Membership`.
- Fsm.Restore: says nothing of hosts that were added one by one, which no snapshot records.
- Replicas.RunReplicas: speaks of each replica up to its first unsafe change; what a trie answers that an addition has just corrupted is in `Straying`, what it does after further changes is not modelled.
- LimitsHistory.LimitersConvergeIff: speaks of the settings of one proxy. A handler that finishes after its proxy was removed and added again sets the limiter of the old one, and a first visit enters a default setting on the replica it reaches only.
- ConsistentHash.ConsistenceHash.Add: the library sort is a function with a sorted, permuted result.
- Strings are sequences of characters on which bytes and characters are not told apart; integers are unbounded except words, the round-robin counter, numerals beyond 64 bits and the limiter timeout, which wrap or are refused as in the source.
