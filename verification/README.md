# Protocols, stores and texts: a verified model

This project models the parts of a collection of network programs that are hard to get right, and proves what
they keep over every run and every input. `dafny verify dfyconfig.toml` checks all of it.

| files | what they model |
|---|---|
| `RingArithmetic`, `ChordNode`, `ChordProtocol`, `ChordRuns`, `ChordEarlyJoin`, `ChordMending` | a distributed hash table whose servers find their place on a 16-bit ring through join, notify and stabilize messages |
| `StringHash`, `HashTable`, `DistributedStore`, `StoreLaws` | the chained hash table on the heap, one server's request handling on it, the whole ring as one map, and what clients may rely on |
| `GoBackNMachines`, `GoBackNProtocol`, `GoBackNProgress`, `GoBackNTimers`, `GoBackNReturn` | the Go-Back-N sender and receiver, with two timers, over channels that lose and damage packets |
| `Topology`, `Dijkstra`, `NetworkStack`, `Forwarding` | the network graph, shortest paths, the routing tables made from them, and hop-by-hop forwarding |
| `JsonText`, `JsonStrings`, `JsonEscapes`, `Utf8Bits`, `JsonNumerals`, `JsonParser`, `JsonParserCode`, `JsonRoundTrip` | the JSON parser, as functions and as the loops that implement them, escapes and numbers, and parsing what was printed |
| `JsonGrammar`, `JsonLanguage` | exactly which texts the parser accepts, and as which trees |
| `CStrings`, `JsonPrinter`, `PowersOfTwo`, `JsonPrintBuffer`, `JsonLayout` | the two JSON printers: one string for every value, and one buffer that grows; and the layout they write |
| `JsonMinify`, `JsonMeaning`, `JsonComments` | the minifier that works in place, and what it does to printed and to arbitrary texts, and to texts with comments |
| `DataBuffer`, `FileTransfer` | the ring of packets that a file is read into, damage on the way, and the receiver that writes the file |

Code that updates state in place is a class or a method over arrays, proved equal to a function of the old state.
The protocols are then studied as steps on values made of those functions.

## How the protocols are modelled

*Ring.* A state holds every node's two links and the multiset of messages in flight; a step is a node that
comes up, or the handling of any one message. Messages arrive in any order and are neither lost nor duplicated,
ids are distinct, and a node that is not the creator handles join requests only after its first notify. The last
assumption is needed, and no more than is needed: `server.c` reads "no next" as "I am alone" (lines 254 and 55), and
by `JoinKeepsTheRingExactlyWhen` handling a request keeps the ring right in exactly the states it allows.

*Go-Back-N.* A state holds both machines, a FIFO queue each way, and the time. Any packet or ack in flight may be
lost or damaged at any moment. Safety and progress need nothing about time; the timer theorems are about runs in
which timers fire when they are due, with a timeout and an interval that are not negative.

*Forwarding.* Tables are those that recalculating every node's routes leaves behind on one strongly connected
graph (`RecalculateNetwork`), and a packet's journey is the composition of the nodes' own message handlers.

*File transfer.* What arrives is any sequence of copies of the file's packets: in any order, any number of times,
damaged or not.

## What the code does against expectation

- A joiner that handles a join request before its first notify breaks the ring, and no other handling of a request
  does (`JoinKeepsTheRingExactlyWhen`). The ring can then come to rest with no link to its creator
  (`JoinBeforeNotifyBreaksTheRing`).
- The Go-Back-N receiver stays silent about packets it already has. Losing one window of acks therefore stops the
  transfer for good (`StuckIsReachable`); `ProgressExactlyWhen` says exactly when it can go on.
- The assertion at `GoBackNSender.cc:212` fails when an ack is handled before an expiration timer that is due at the
  same moment, and the next packet's timeout is due then too (`RearmsAheadExactlyWhen`); with the timer set for later
  it never fails (`RearmsAheadBeforeExpiry`). Handling that ack first takes no unusual order of simultaneous events:
  in `RearmsAheadCanFail` it is on its way before the timer is set.
- `doDijkstra` runs into its assertion exactly when some node cannot be reached (`DoDijkstra`, `SearchCanFail`).
- The buffer printer of `cJSON.c` reuses the variable that remembers where an object starts (lines 1421 and 1511),
  so with formatting the pointer it returns is off by the start; at the top level both are zero (`Reported`,
  `ReportedElsewhere`, `PrintBuffered`).
- The parser accepts a literal at the end of the input without its closing quote; the minifier runs past the end of
  such a text. Of the accepted texts no other does that (`MinifyKeepsMeaning`, `OpenLiteralIsAccepted`).
- The minifier takes `/*/` for a whole comment (`ShortComment`), and runs past the end of a text whose comment does not
  end (`OpenBlockIsRefused`).
- The receiver's reject cannot be told from an acknowledgement: if the acknowledgements before it were lost, it moves
  the window and does not make the sender go back (`AckMovesOn`, `RejectGoesBack`).
- `resetTimers` of `DataBuffer.c` does nothing on a full buffer (`ResetTimers`), and the check in `freeBuffer` admits
  one packet too many, for which the unsigned count wraps around (`FreeBuffer`).

## Model

| member | source | states |
|---|---|---|
| RingArithmetic.Offset | Hash Table/server.c:63-66 | the 16-bit difference the range tests compute is the clockwise distance, wrap-around included |
| RingArithmetic.Admit | Hash Table/server.c:69-78 | a newcomer inside the arc from a node to its successor splits that arc in two, and every other node keeps its successor |
| RingArithmetic.SuccessorInjective | Hash Table/server.c:288-290 | on any set of ids two nodes never share a successor, so that one `prev` pointer is enough |
| ChordNode.DhtNode.SetNext | Hash Table/server.c:239-245 | `next` is replaced and exactly one stabilize goes to it |
| ChordNode.DhtNode.HandleJoin | Hash Table/server.c:247-267 | links and messages after a join request: alone, responsible, or forwarding it unchanged |
| ChordNode.DhtNode.HandleNotify | Hash Table/server.c:269-280 | a notify is taken without a link yet, or if the server it names is another node inside the arc to the link; then one stabilize goes to that server |
| ChordNode.DhtNode.HandleStabilize | Hash Table/server.c:282-294 | `prev` moves only forward to the sender, which is told the value that `prev` then has |
| ChordNode.DhtNode.Handle | Hash Table/server.c:315-324 | the dispatch on the action bits reaches the handler of that message |
| ChordProtocol.CreatedInv | Hash Table/server.c:51-51 | a ring of one fresh node satisfies the invariant |
| ChordProtocol.JoinIsForwarded | Hash Table/server.c:263-266 | a refused join request is the same request one hop further on, and nothing else changes |
| ChordProtocol.LinklessIsAlone | Hash Table/server.c:253-258 | a node that handles a join request without a link is the only member |
| ChordProtocol.OnlyTheRequest | Hash Table/server.c:189-208 | a node waiting outside has no links, exactly one join request in flight, and no notify addressed to it |
| ChordProtocol.JoinIsGranted | Hash Table/server.c:253-262 | granting a request adds one member, one link, one notify that carries the old successor and one stabilize |
| ChordProtocol.GrantLinksRight | Hash Table/server.c:253-262 | after a grant every link, in place or in flight, still leads to the next member clockwise |
| ChordProtocol.GrantLinksAnnounced | Hash Table/server.c:253-262 | after a grant every link is known to its target or announced by a stabilize in flight |
| ChordProtocol.FirstNotifyConnects | Hash Table/server.c:275-277 | the first notify gives the node exactly the link that was on its way |
| ChordProtocol.LaterNotifyIsIgnored | Hash Table/server.c:275-279 | in a state that satisfies the invariant a notify to a node with a link changes no link and sends nothing |
| ChordProtocol.StabilizeSettles | Hash Table/server.c:288-293 | a stabilize changes one `prev`, and exactly one notify to its sender takes its place |
| ChordProtocol.StabilizeLinksAnnounced | Hash Table/server.c:288-293 | a stabilize that is used up leaves its link known to the target |
| ChordProtocol.PrevIsKept | Hash Table/server.c:288-290 | the stabilize of the true predecessor wins, and no other one displaces it |
| ChordProtocol.StepInv | Hash Table/server.c:239-294 | every enabled step, a start or the handling of any message in any order, keeps the whole invariant |
| ChordRuns.ExecuteInv | Hash Table/server.c:239-294 | so does every run |
| ChordRuns.LinksAreSuccessors | Hash Table/server.c:239-294 | in a reachable state a member points, by its link or by its undelivered notify, exactly at its clockwise successor |
| ChordRuns.SingleClockwiseCycle | Hash Table/server.c:239-294 | in every reachable state the links form one cycle through all members, each once, in clockwise order |
| ChordRuns.OnlyFirstNotifyMatters | Hash Table/server.c:269-280 | in every reachable state only the first notify to a node changes a link |
| ChordRuns.LinkSymmetry | Hash Table/server.c:226-245 | in every reachable state the target of a link has the node as its `prev`, or its stabilize is in flight |
| ChordRuns.ForwardComesCloser | Hash Table/server.c:260-265 | each forward of a join request strictly lowers the clockwise distance to its sender |
| ChordRuns.DeliverLowers | Hash Table/server.c:247-294 | handling any message lowers one natural number that depends on the state alone |
| ChordRuns.RunsAreFinite | Hash Table/server.c:247-294 | without newcomers a run has no more steps than that number says |
| ChordRuns.SomeDeliveryEnabled | Hash Table/server.c:247-294 | while anything is in flight some message can be handled, also when requests wait for waiting nodes |
| ChordRuns.QuietIsComplete | Hash Table/server.c:239-294 | with nothing in flight all nodes are members, `next` is the clockwise successor and `prev` and `next` are inverses |
| ChordRuns.RingCompletes | Hash Table/server.c:239-294 | from every reachable state every run of deliveries is bounded, stops only when nothing is in flight, and has then completed the ring |
| ChordEarlyJoin.EarlyGrantBreaksLinks | Hash Table/server.c:253-258 | a node without a link that is not alone and handles a join request leaves a link that is no successor |
| ChordEarlyJoin.JoinKeepsTheRingExactlyWhen | Hash Table/server.c:253-262 | in every reachable state, handling a join request in flight keeps the links right, and the whole invariant, if and only if the node is the creator or has a link |
| ChordEarlyJoin.JoinBeforeNotifyBreaksTheRing | Hash Table/server.c:253-258 | a reachable state in which a node handles a join request before its own first notify, and a run of deliveries from there to a ring at rest, all nodes members, in which no link leads to the creator |
| ChordMending.StabilizeMends | Hash Table/server.c:269-294 | on any ring, right or not: if a link passes over a node that its target knows, the stabilize in flight is answered with that node, and the answer corrects the link and announces it |
| ChordMending.AnswersMend | Hash Table/server.c:269-294 | one answer after the other, until the target of the link knows no node in between; no other link changes |
| ChordMending.LinksOnlyShorten | Hash Table/server.c:253-280 | on any ring no step moves a link further away or takes it back |
| ChordMending.PrevsOnlyShorten | Hash Table/server.c:288-290 | nor a `prev` |
| ChordMending.LoopAdmitsAll | Hash Table/server.c:260-262 | a node linked to itself takes in whoever asks |
| ChordMending.OwnNameIsIgnored | Hash Table/server.c:275-279 | a node with a link drops a notify with its own name |
| ChordMending.StabilizeIsAnswered | Hash Table/server.c:288-293 | in every reachable state a stabilize is replaced by one notify to its sender that names the new `prev`, which is the nearer of the old one and the sender |
| StringHash.StringHash | Hash Table/hash_table.c:11-20 | the loop over signed chars computes the 16-bit hash function that the rest of the model uses |
| StringHash.HashIsSum | Hash Table/hash_table.c:11-20 | the hash is 5381 times 33^n plus the signed bytes, each times 33 to the number of bytes behind it, modulo 2^16 |
| DistributedStore.Server.Process | Hash Table/server.c:376-442 | the owner branch on the real table refines the same request on a map: delete, set, get in this order, failed bits flipped, acknowledgement bit flipped |
| DistributedStore.Server.HandleExtMsg | Hash Table/server.c:376-448 | a request is answered exactly when its hash is in range and otherwise goes to `next` with the table untouched |
| DistributedStore.DeleteKeepsTheOtherBits | Hash Table/server.c:378-404 | clearing one action bit leaves the tests of the others alone |
| DistributedStore.CompleteRingLinks | Hash Table/server.c:53-78 | on a complete ring the link of each node is the ring successor, and a join is admitted exactly by the owner of its id |
| DistributedStore.ExactlyOneOwner | Hash Table/server.c:53-67 | on a complete ring every 16-bit hash has exactly one owner |
| DistributedStore.OwnerIsNearest | Hash Table/server.c:53-67 | the owner is the last member at or before the hash, clockwise |
| DistributedStore.Route | Hash Table/server.c:376-448 | forwarding clockwise terminates at the owner |
| DistributedStore.RouteIsShort | Hash Table/server.c:443-448 | it takes no more hops than there are members strictly closer to the hash, hence fewer than there are members |
| DistributedStore.ServeIsLocal | Hash Table/server.c:376-436 | a request reads and changes nothing but its own key |
| DistributedStore.ServeAgrees | Hash Table/server.c:376-448 | one request entering anywhere leaves the union of the tables, each key only at its owner, and the reply as one map would |
| DistributedStore.RingIsOneMapFrom | Hash Table/server.c:376-448 | so does any sequence of requests, from any agreeing state |
| DistributedStore.RingIsOneMap | Hash Table/server.c:376-448 | a complete ring that starts empty answers every sequence of requests, entering anywhere, as one single map |
| DistributedStore.FollowIsRoute | Hash Table/server.c:443-448 | forwarding over the links that the nodes of a quiet ring really have ends at the owner |
| DistributedStore.JoinedRingIsOneMap | Hash Table/server.c:376-448 | after any run of joins, once nothing is in flight, the nodes answer every sequence of requests over their own links as one single map, each key held only by its owner |
| StoreLaws.LastSetStep | Hash Table/server.c:378-404 | how one more request changes which request set a key last: delete first, then set |
| StoreLaws.AfterHolds | Hash Table/server.c:378-404 | the map holds exactly the keys that were set and not deleted since, with the values last set |
| StoreLaws.ReplyBits | Hash Table/server.c:376-425 | transaction and other bits kept, acknowledgement bit flipped, delete and get bits cleared exactly when there was nothing to delete or get |
| StoreLaws.StoreKeepsItsPromise | Hash Table/server.c:376-448 | told by the requests alone: after any run of joins, every reply to every sequence of requests is right, a get with the last value set and not deleted since, and every key that is present stands at its owner with that value and nowhere else |
| HashTable.HashTable.constructor | Hash Table/hash_table.c:23-30 | an empty table of size 3 |
| HashTable.HashTable.FindIn | Hash Table/hash_table.c:43-50 | the list walk finds the node with the key, and the node before it, or there is none |
| HashTable.HashTable.Relink | Hash Table/hash_table.c:68-70 | one node moved to the front of a list, all other lists intact |
| HashTable.HashTable.MoveChain | Hash Table/hash_table.c:66-72 | relinking a whole list while walking it moves each of its nodes exactly once |
| HashTable.HashTable.Rehash | Hash Table/hash_table.c:61-73 | after all lists are moved every node stands in the list of its new index |
| HashTable.HashTable.Resize | Hash Table/hash_table.c:58-77 | doubling keeps the very same nodes and the map |
| HashTable.HashTable.GetValue | Hash Table/hash_table.c:40-55 | map lookup; nothing changes |
| HashTable.HashTable.Insert | Hash Table/hash_table.c:103-115 | a new node at the head of its list extends the map |
| HashTable.HashTable.SetValue | Hash Table/hash_table.c:80-118 | map update; the size doubles exactly when four times the count exceeds three times the size, so that 4*nElems <= 3*size+4 always |
| HashTable.HashTable.Unlink | Hash Table/hash_table.c:128-133 | a node taken out at the head or behind `prev` leaves all other nodes in their lists |
| HashTable.HashTable.DeleteKey | Hash Table/hash_table.c:121-147 | map removal; the result says whether the key was there |
| GoBackNMachines.GoBackNReceiver.HandleMessage | GoBackN/protsim/userapps/GoBackNReceiver.cc:73-98 | accepts and acknowledges exactly the next number, rejects the one after it if configured, and is silent about older and damaged packets |
| GoBackNMachines.GoBackNSender.constructor | GoBackN/protsim/userapps/GoBackNSender.cc:76-111 | the initial state; the first transmission is scheduled unless the sender is disabled |
| GoBackNMachines.GoBackNSender.GetDataPacket | GoBackN/protsim/userapps/GoBackNSender.cc:26-54 | a packet is looked up or created; its assertions hold from the oldest number to one past the newest inside the window |
| GoBackNMachines.GoBackNSender.FreeBuffers | GoBackN/protsim/userapps/GoBackNSender.cc:56-63 | exactly the given interval is erased, each number present |
| GoBackNMachines.GoBackNSender.ResetTimers | GoBackN/protsim/userapps/GoBackNSender.cc:65-73 | all stored timeouts and the expiration timer are cleared |
| GoBackNMachines.GoBackNSender.HandleSendTimer | GoBackN/protsim/userapps/GoBackNSender.cc:116-157 | the whole state after a transmission, both timers included |
| GoBackNMachines.GoBackNSender.HandleExpirationTimer | GoBackN/protsim/userapps/GoBackNSender.cc:158-175 | the whole state after going back |
| GoBackNMachines.GoBackNSender.HandleAck | GoBackN/protsim/userapps/GoBackNSender.cc:176-231 | the whole state after an ack or a reject, and exactly when the assertion that the new expiration lies ahead fails |
| GoBackNMachines.FireSendInv | GoBackN/protsim/userapps/GoBackNSender.cc:116-157 | a transmission keeps the buffer one interval within the window and the timers consistent |
| GoBackNMachines.FireExpirationInv | GoBackN/protsim/userapps/GoBackNSender.cc:158-175 | so does an expiry |
| GoBackNMachines.AckInv | GoBackN/protsim/userapps/GoBackNSender.cc:176-231 | so does an ack that does not go back |
| GoBackNProtocol.DeliverDataInv | GoBackN/protsim/userapps/GoBackNReceiver.cc:73-98 | delivering the oldest data packet keeps the invariant of the two machines and both channels |
| GoBackNProtocol.DeliverAckInv | GoBackN/protsim/userapps/GoBackNSender.cc:187-226 | delivering the oldest ack keeps it |
| GoBackNProtocol.ChannelInv | GoBackN/protsim/userapps/GoBackNReceiver.cc:73-98 | losing or damaging any packet or ack keeps it |
| GoBackNProtocol.StepInv | GoBackN/protsim/userapps/GoBackNSender.cc:114-234 | every enabled step keeps it |
| GoBackNProtocol.GoBackNSafety | GoBackN/protsim/userapps/GoBackNSender.cc:114-234 | over all runs with loss and damage the packets accepted are 0,1,2,... once each, lastAckSeqNo <= lastReceivedSeqNo+1 <= end of buffer <= lastAckSeqNo+window, and the buffer is the interval between |
| GoBackNProtocol.AssertionsNeverFail | GoBackN/protsim/userapps/GoBackNSender.cc:26-63 | the sequence-number assertions of sending, freeing and acknowledging hold in every reachable state |
| GoBackNProtocol.BytesAreConserved | GoBackN/protsim/userapps/GoBackNReceiver.cc:73-79 | ackBytes <= goodBytes <= totalBytes <= sentBytes in every reachable state |
| GoBackNReturn.SendsTheNext | GoBackN/protsim/userapps/GoBackNSender.cc:116-157 | in every reachable state a transmission sends the next number, gives it its timeout, keeps the earlier expiration, and plans the next transmission one interval later if the window has room |
| GoBackNReturn.RejectGoesBack | GoBackN/protsim/userapps/GoBackNSender.cc:189-197 | in every reachable state a reject makes the oldest unacknowledged packet the next one, makes sure that a transmission is pending, and changes no buffer, expiration timer or counter |
| GoBackNReturn.ExpiryGoesBack | GoBackN/protsim/userapps/GoBackNSender.cc:158-175 | so does an expiry, which also clears all timeouts and the expiration timer |
| GoBackNReturn.AckMovesOn | GoBackN/protsim/userapps/GoBackNSender.cc:199-226 | an ack of something new moves the window and re-arms the expiration timer, and never goes back |
| GoBackNReturn.AnswersOnlyTwo | GoBackN/protsim/userapps/GoBackNReceiver.cc:73-98 | exactly which packets are answered, always with the number awaited, and which are accepted |
| GoBackNReturn.LossIsRejected | GoBackN/protsim/userapps/GoBackNSender.cc:114-197 | when the successor of a lost packet arrives, the reject alone brings about that the lost one is the very next transmission, without an expiry |
| GoBackNReturn.LostPacketComesAgain | GoBackN/protsim/userapps/GoBackNSender.cc:114-197 | on schedule, for every window of two or more and every timeout of two intervals or more: the first packet is lost and sent again before any timer expires |
| GoBackNProgress.StuckForever | GoBackN/protsim/userapps/GoBackNReceiver.cc:82-92 | with the awaited number at the end of the window and no news in flight, lastAckSeqNo never moves again: old packets are not acknowledged again |
| GoBackNProgress.AwaitedGetsThrough | GoBackN/protsim/userapps/GoBackNSender.cc:158-231 | with the awaited number inside the window, a loss-free continuation moves lastAckSeqNo past it |
| GoBackNProgress.ProgressExactlyWhen | GoBackN/protsim/userapps/GoBackNSender.cc:158-231 | in every reachable state progress is possible exactly under that condition, and without it never happens |
| GoBackNProgress.StuckIsReachable | GoBackN/protsim/userapps/GoBackNReceiver.cc:82-92 | for every configuration losing one window of acks leads there |
| GoBackNTimers.StepClocked | GoBackN/protsim/userapps/GoBackNSender.cc:136-153 | every step on schedule keeps the stored timeouts in order and ahead of the clock |
| GoBackNTimers.TimersAlwaysRun | GoBackN/protsim/userapps/GoBackNSender.cc:136-153 | one timer is always pending; no send timer means an exhausted window; packets outstanding mean a finite expiration no later than any stored timeout, and those do not decrease |
| GoBackNTimers.RearmsAheadExactlyWhen | GoBackN/protsim/userapps/GoBackNSender.cc:209-214 | the assertion that the re-armed expiration lies ahead holds unless the stored timeout of the new oldest packet is due at this very moment |
| GoBackNTimers.RearmsAheadBeforeExpiry | GoBackN/protsim/userapps/GoBackNSender.cc:209-214 | it holds whenever the expiration timer is set for later; it fails only with that timer due at this very moment and all packets from the old oldest to the new oldest timing out together |
| GoBackNTimers.RearmsAheadCanFail | GoBackN/protsim/userapps/GoBackNSender.cc:209-214 | a run on schedule, with a positive interval, on which it fails: the ack was on its way before the timer was set for the moment of its arrival |
| Topology.GetMetric | GoBackN/protsim/support/DefaultMetric.cc:23-33 | a link weight is the configured cost if that is positive, else one |
| Topology.Topology.AddNodeFor | GoBackN/protsim/support/Topology.cc:104-110 | a node is added once; an existing one is kept with its links |
| Topology.Topology.AddLinkTo | GoBackN/protsim/support/Topology.cc:177-187 | a link is added or its weight replaced |
| Topology.Topology.Extract | GoBackN/protsim/support/Topology.cc:18-32 | the graph of the network, closed under links and with positive weights |
| Topology.GraphShowsNetwork | GoBackN/protsim/support/Topology.cc:18-32 | there is a link exactly where there is a channel, and the last of several channels between two nodes gives its weight |
| Dijkstra.RelaxLink | GoBackN/protsim/routing/Dijkstra.cc:47-58 | one link is relaxed; every finite distance stays the weight of a path whose first link is recorded |
| Dijkstra.RelaxLinks | GoBackN/protsim/routing/Dijkstra.cc:45-59 | all links of the current node are relaxed and no distance gets worse |
| Dijkstra.ClosestNode | GoBackN/protsim/routing/Dijkstra.cc:63-73 | the closest node not handled yet, or the previous one if none can be reached |
| Dijkstra.SettleCurrent | GoBackN/protsim/routing/Dijkstra.cc:36-61 | handling the closest node keeps all handled nodes no further away than the others |
| Dijkstra.NoWayIn | GoBackN/protsim/routing/Dijkstra.cc:39-41 | when the open nodes all have infinite distance no path leads to one |
| Dijkstra.DistanceIsLeast | GoBackN/protsim/routing/Dijkstra.cc:19-77 | at the end a distance is a lower bound for every path |
| Dijkstra.DoDijkstra | GoBackN/protsim/routing/Dijkstra.cc:19-77 | the assertion holds exactly when all nodes can be reached, and then every other node is mapped to a link of the source that begins a minimum-weight path to it |
| Dijkstra.SearchCanFail | GoBackN/protsim/routing/Dijkstra.cc:39-41 | a graph on which it does not hold: two nodes without a link |
| NetworkStack.NetworkStack.AddRoute | GoBackN/protsim/routing/FakedRoutingDaemon.cc:85-89 | one entry of the table is set |
| NetworkStack.FloodsEachGate | GoBackN/protsim/common/NetworkStack.cc:397-413 | a broadcast goes to exactly the neighbours, without the last hop if it is limited |
| NetworkStack.FloodsNoGateTwice | GoBackN/protsim/common/NetworkStack.cc:397-413 | and to none twice |
| NetworkStack.NetworkStack.SendOut | GoBackN/protsim/common/NetworkStack.cc:371-446 | header and action for every kind of destination: too many hops, none, both broadcasts, routed, no route |
| NetworkStack.DecisionTable | GoBackN/protsim/common/NetworkStack.cc:310-446 | which packets are delivered, dropped for which reason, sent over which gate and flooded, each by an if-and-only-if, and source, hops and last node of what leaves |
| NetworkStack.NeverStraightBack | GoBackN/protsim/common/NetworkStack.cc:386-413 | a limited broadcast never goes straight back over the link it came by |
| NetworkStack.NetworkStack.HandleMessage | GoBackN/protsim/common/NetworkStack.cc:310-347 | source and TTL stamped for local packets unless an alert has them, then delivery or sending |
| NetworkStack.CalculateRoutes | GoBackN/protsim/routing/FakedRoutingDaemon.cc:63-90 | every other node gets an entry whose next hop begins a shortest path; other entries are untouched |
| NetworkStack.RecalculateAll | GoBackN/protsim/routing/FakedRoutingDaemon.cc:145-147 | after all daemons have recalculated every table is so |
| Forwarding.HopIsCloser | GoBackN/protsim/routing/FakedRoutingDaemon.cc:85-89 | the hop that begins a shortest path has exactly the rest of the distance left |
| Forwarding.NextHop | GoBackN/protsim/common/NetworkStack.cc:422-429 | with all tables calculated each hop strictly lowers the remaining distance, by the weight of the link taken |
| Forwarding.NearerShrinks | GoBackN/protsim/common/NetworkStack.cc:422-429 | and the set of nodes nearer to the destination |
| Forwarding.TripIsShortest | GoBackN/protsim/common/NetworkStack.cc:422-429 | the whole trip is a minimum-weight path |
| Forwarding.TripFalls | GoBackN/protsim/common/NetworkStack.cc:422-429 | no node is met twice |
| Forwarding.JourneyFollowsTrip | GoBackN/protsim/common/NetworkStack.cc:336-346 | a packet takes the trip hop by hop until it arrives or its TTL runs out |
| Forwarding.DeliveredExactlyWhen | GoBackN/protsim/common/NetworkStack.cc:371-378 | a packet from an application is delivered exactly when the trip has at most maxTTL hops, fewer than there are nodes, without a loop and along a shortest path |
| Forwarding.RecalculateNetwork | GoBackN/protsim/routing/FakedRoutingDaemon.cc:145-147 | recalculating all daemons works out exactly on a strongly connected graph; the tables they then hold deliver a packet from any application to any other node exactly when the trip has at most maxTTL hops |
| JsonStrings.Utf8RoundTrip | Onion Movie Hash Table Databse/cJSON.c:596-635 | an independent strict reader (section 3 of RFC 3629) reads every code point back from what the encoder writes |
| JsonStrings.SurrogatesRoundTrip | Onion Movie Hash Table Databse/cJSON.c:593-593 | joining a surrogate pair is the inverse of the split in section 2.1 of RFC 2781 |
| Utf8Bits.SurrogateBits | Onion Movie Hash Table Databse/cJSON.c:593-593 | the masks and the shift join a surrogate pair as the model does |
| Utf8Bits.ShiftSix | Onion Movie Hash Table Databse/cJSON.c:620-621 | the shift divides and the mask takes the remainder, for every code point |
| Utf8Bits.EncodedIsUtf8 | Onion Movie Hash Table Databse/cJSON.c:599-635 | the bytes that the masks, marks and shifts of the switch make are the UTF-8 form, for every code point up to 0x10FFFF |
| JsonStrings.DecodeFits | Onion Movie Hash Table Databse/cJSON.c:494-509 | the decoder never writes more bytes than the first scan counted |
| JsonStrings.SpelledIsDecoded | Onion Movie Hash Table Databse/cJSON.c:520-643 | every spelling of plain bytes, short escapes, unicode escapes and surrogate pairs decodes to their meanings in order |
| JsonStrings.DecodedIsSpelled | Onion Movie Hash Table Databse/cJSON.c:520-643 | and every body that is accepted is such a spelling |
| JsonEscapes.HexRoundTrip | Onion Movie Hash Table Databse/cJSON.c:378-459 | four hexadecimal digits taken from either table, in any mix, are read as the number they write |
| JsonEscapes.HexIsWritten | Onion Movie Hash Table Databse/cJSON.c:378-459 | and nothing else is read as one |
| JsonEscapes.UnitIsDecoded | Onion Movie Hash Table Databse/cJSON.c:552-635 | a code point below 0x10000, spelled in either case, decodes to its UTF-8 form |
| JsonEscapes.PairIsDecoded | Onion Movie Hash Table Databse/cJSON.c:571-635 | so does one above, spelled by its two surrogates |
| JsonEscapes.OthersAreRefused | Onion Movie Hash Table Databse/cJSON.c:557-592 | zero, a lone low surrogate, a high one without a low one, and four characters that are no hexadecimal number are refused |
| JsonEscapes.ShortIsDecoded | Onion Movie Hash Table Databse/cJSON.c:526-550 | the eight letters and the codes they stand for |
| JsonEscapes.NoOtherLetter | Onion Movie Hash Table Databse/cJSON.c:526-550 | any other letter is refused |
| JsonEscapes.EscapeIsShortest | Onion Movie Hash Table Databse/cJSON.c:751-790 | of all bodies without raw quotes and control characters that mean a character, the printed one is a shortest one |
| JsonEscapes.ControlIsWritten | Onion Movie Hash Table Databse/cJSON.c:783-786 | a control character without a letter is written with four small hexadecimal digits |
| JsonNumerals.NumeralIsRead | Onion Movie Hash Table Databse/cJSON.c:152-219 | a number is the digits before and after the point, read as one natural number, times ten to the exponent less the digits after the point, with its sign |
| JsonNumerals.ReadIsNumeral | Onion Movie Hash Table Databse/cJSON.c:152-219 | what is read as a number is such a numeral, up to its end |
| JsonNumerals.DigitsAreDecimal | Onion Movie Hash Table Databse/cJSON.c:325-340 | the digits printed are the decimal ones, without a leading zero |
| JsonGrammar.SourceIsRead | Onion Movie Hash Table Databse/cJSON.c:907-952 | a tree is read from its tokens, however its numbers and literals are spelled and whatever white space is between them |
| JsonGrammar.ElementsAreRead | Onion Movie Hash Table Databse/cJSON.c:1034-1098 | the same for the rest of an array |
| JsonGrammar.EntriesAreRead | Onion Movie Hash Table Databse/cJSON.c:1270-1362 | the same for the rest of an object |
| JsonLanguage.TextIsRead | Onion Movie Hash Table Databse/cJSON.c:825-862 | every text made of the tokens of a tree and white space is accepted as that tree |
| JsonLanguage.ReadIsText | Onion Movie Hash Table Databse/cJSON.c:825-862 | no other C string is accepted, but for a single literal without its closing quote; so the accepted language and the tree of each text are known exactly |
| JsonParserCode.SkipFrom | Onion Movie Hash Table Databse/cJSON.c:814-822 | the loop skips exactly what the function skips |
| JsonParserCode.ParseNumberAt | Onion Movie Hash Table Databse/cJSON.c:152-219 | value and end of a number, with optional zero, fraction and exponent as lenient as the code |
| JsonParserCode.ScanBody | Onion Movie Hash Table Databse/cJSON.c:494-506 | end of a literal and the count for the buffer |
| JsonParserCode.WriteUtf8 | Onion Movie Hash Table Databse/cJSON.c:599-635 | the bytes written backwards are the UTF-8 form |
| JsonParserCode.DecodeUnicode | Onion Movie Hash Table Databse/cJSON.c:552-594 | exactly the valid escapes and pairs are taken, with their length |
| JsonParserCode.DecodeBody | Onion Movie Hash Table Databse/cJSON.c:517-644 | decoding into a buffer of the counted size, without overrun |
| JsonParserCode.ParseStringAt | Onion Movie Hash Table Databse/cJSON.c:477-651 | both passes together |
| JsonParserCode.ParseValueAt | Onion Movie Hash Table Databse/cJSON.c:907-952 | the dispatch on the first characters |
| JsonParserCode.ParseArrayAt | Onion Movie Hash Table Databse/cJSON.c:1034-1098 | the array loop is the recursive grammar: value, position after it, or failure |
| JsonParserCode.ParseObjectAt | Onion Movie Hash Table Databse/cJSON.c:1270-1362 | the object loop is the recursive grammar |
| JsonParserCode.ParseText | Onion Movie Hash Table Databse/cJSON.c:825-862 | the entry point, with or without requiring the end of the text |
| JsonRoundTrip.ParsesDecimal | Onion Movie Hash Table Databse/cJSON.c:152-219 | a printed int is read back, whatever stops it |
| JsonRoundTrip.DecodeUndoesEscape | Onion Movie Hash Table Databse/cJSON.c:517-643 | decoding undoes escaping for every NUL-free string |
| JsonRoundTrip.RoundTripValue | Onion Movie Hash Table Databse/cJSON.c:907-1033 | a printed tree is read back from the front of any text and the parser stops exactly at its end |
| JsonRoundTrip.RoundTripItems | Onion Movie Hash Table Databse/cJSON.c:1034-1267 | the same for the elements of an array |
| JsonRoundTrip.RoundTripMembers | Onion Movie Hash Table Databse/cJSON.c:1270-1643 | the same for the members of an object |
| JsonRoundTrip.ParseAfterPrint | Onion Movie Hash Table Databse/cJSON.c:825-879 | parsing a printed tree, formatted or not, gives the tree and leaves nothing |
| JsonLayout.FormattedIsLayout | Onion Movie Hash Table Databse/cJSON.c:955-1033 | the formatted text is laid out by its tokens: members and closing braces each on their own line, indented by the brackets open around them, a tab after a colon, a space after a comma between elements |
| JsonLayout.UnformattedIsPacked | Onion Movie Hash Table Databse/cJSON.c:955-1033 | without formatting the tokens follow each other directly |
| CStrings.MeasureString | Onion Movie Hash Table Databse/cJSON.c:683-732 | the flag and the exact length of the escaped body |
| CStrings.WriteEscaped | Onion Movie Hash Table Databse/cJSON.c:751-790 | the copying loop writes exactly the escaped body |
| CStrings.FillString | Onion Movie Hash Table Databse/cJSON.c:709-715 | the literal and its terminator, nothing before them changed |
| JsonPrinter.TextNulFree | Onion Movie Hash Table Databse/cJSON.c:955-1033 | no printed text contains a NUL, so measuring a rendered element with strlen is exact |
| JsonPrinter.DecimalFits | Onion Movie Hash Table Databse/cJSON.c:325-339 | 21 characters are more than enough for an int |
| JsonPrinter.PrintNumber | Onion Movie Hash Table Databse/cJSON.c:304-340 | a fresh string that holds the decimal text |
| JsonPrinter.PrintString | Onion Movie Hash Table Databse/cJSON.c:654-797 | a fresh string that holds the literal |
| JsonPrinter.PrintValue | Onion Movie Hash Table Databse/cJSON.c:955-1033 | a fresh string that holds the text of the tree |
| JsonPrinter.PrintItems | Onion Movie Hash Table Databse/cJSON.c:1198-1213 | the rendered elements and the sum of lengths that the array is allocated with |
| JsonPrinter.ItemsFit | Onion Movie Hash Table Databse/cJSON.c:1198-1218 | that sum covers the joined elements |
| JsonPrinter.PrintArray | Onion Movie Hash Table Databse/cJSON.c:1101-1267 | the joined array stays inside its precomputed length |
| JsonPrinter.MembersFit | Onion Movie Hash Table Databse/cJSON.c:1537-1562 | the sum of lengths covers the joined members |
| JsonPrinter.PrintObject | Onion Movie Hash Table Databse/cJSON.c:1365-1643 | the joined object stays inside its precomputed length |
| PowersOfTwo.Pow2gt | Onion Movie Hash Table Databse/cJSON.c:222-240 | the growth is to a power of two that is large enough |
| PowersOfTwo.Pow2gtIsLeast | Onion Movie Hash Table Databse/cJSON.c:222-240 | and to no larger one than needed |
| PowersOfTwo.SmearIsPow2gt | Onion Movie Hash Table Databse/cJSON.c:222-240 | for 1 <= x <= 2^30 the shifts and masks of the code compute that very power |
| JsonPrintBuffer.NeedBounds | Onion Movie Hash Table Databse/cJSON.c:955-1033 | a value never asks the buffer for less than its text and terminator nor for more than twenty beyond its text |
| JsonPrintBuffer.NeedBoundIsTight | Onion Movie Hash Table Databse/cJSON.c:304-340 | a number of one digit asks for twenty characters more than its text |
| JsonPrintBuffer.NeedIsExact | Onion Movie Hash Table Databse/cJSON.c:955-1033 | a tree without numbers but zero asks for exactly its text and terminator |
| JsonPrintBuffer.PrintBuffer.Ensure | Onion Movie Hash Table Databse/cJSON.c:251-288 | room is made exactly when the buffer has it or may grow to it, and everything in the old buffer is kept |
| JsonPrintBuffer.PrintBuffer.Update | Onion Movie Hash Table Databse/cJSON.c:291-301 | the offset moves to the end of the string that starts at it |
| JsonPrintBuffer.PrintBuffer.PrintString | Onion Movie Hash Table Databse/cJSON.c:734-797 | the literal appended, if and only if there is room |
| JsonPrintBuffer.PrintBuffer.PrintValue | Onion Movie Hash Table Databse/cJSON.c:963-1007 | succeeds exactly when the need of the tree fits; then the old text is followed by the text of the tree and a terminator |
| JsonPrintBuffer.PrintBuffer.PrintArray | Onion Movie Hash Table Databse/cJSON.c:1140-1187 | the same for arrays |
| JsonPrintBuffer.PrintBuffer.PrintObject | Onion Movie Hash Table Databse/cJSON.c:1418-1519 | the same for objects; with formatting the pointer returned is the depth, not the start |
| JsonPrintBuffer.ReportedElsewhere | Onion Movie Hash Table Databse/cJSON.c:1418-1519 | an object that starts at 4 and for which 1 is returned |
| JsonPrintBuffer.PrintBuffered | Onion Movie Hash Table Databse/cJSON.c:881-894 | whatever the initial size, the text is that of the other printer, and the pointer returned is its start |
| JsonPrintBuffer.PrintPreallocated | Onion Movie Hash Table Databse/cJSON.c:896-904 | succeeds exactly when the need of the tree fits into the caller's buffer |
| JsonMinify.LiteralIsBody | Onion Movie Hash Table Databse/cJSON.c:2238-2251 | a literal ends for the minifier where it ends for the parser |
| JsonMinify.MinifyValue | Onion Movie Hash Table Databse/cJSON.c:2199-2261 | minifying a printed tree, whatever follows it, gives its unformatted text |
| JsonMinify.MinifyAfterPrint | Onion Movie Hash Table Databse/cJSON.c:2199-2261 | minifying the formatted or the unformatted print of a tree gives exactly the unformatted print |
| JsonMinify.MinifyUnit | Onion Movie Hash Table Databse/cJSON.c:2202-2257 | one round of the loop, with the write position never past the read position |
| JsonMinify.MinifyInPlace | Onion Movie Hash Table Databse/cJSON.c:2199-2261 | the text rewritten in place is its minified form, for every text whose comments and literals end |
| JsonComments.LineIsDropped | Onion Movie Hash Table Databse/cJSON.c:2221-2228 | a comment to the end of the line is dropped and the rest of the text is not touched |
| JsonComments.BlockIsDropped | Onion Movie Hash Table Databse/cJSON.c:2229-2237 | so is one between marks |
| JsonComments.ShortComment | Onion Movie Hash Table Databse/cJSON.c:2229-2237 | /*/ is a whole comment |
| JsonComments.OpenBlockIsRefused | Onion Movie Hash Table Databse/cJSON.c:2229-2237 | without its closing mark the end of the text is run past |
| JsonComments.CommentedIsMinified | Onion Movie Hash Table Databse/cJSON.c:2199-2261 | a text with comments and white space between its tokens is reduced to its tokens |
| JsonComments.CommentedIsRead | Onion Movie Hash Table Databse/cJSON.c:2199-2261 | which are then parsed as the tree that was written |
| JsonLayout.CommentedPrintIsMinified | Onion Movie Hash Table Databse/cJSON.c:2199-2261 | a printed tree with comments and white space inserted is minified to its unformatted text |
| JsonLayout.MinifyCommented | Onion Movie Hash Table Databse/cJSON.c:2199-2261 | and so it is in place |
| JsonMeaning.KeepSkip | Onion Movie Hash Table Databse/cJSON.c:814-822 | what the parser skips before a token it still skips after minifying, although it knows more white space |
| JsonMeaning.NumberPart | Onion Movie Hash Table Databse/cJSON.c:152-219 | a number is read the same whatever ends it |
| JsonMeaning.KeepString | Onion Movie Hash Table Databse/cJSON.c:477-651 | a literal keeps its meaning |
| JsonMeaning.KeepValue | Onion Movie Hash Table Databse/cJSON.c:907-952 | a value is read from the minified text as from the text itself |
| JsonMeaning.ValueMinifies | Onion Movie Hash Table Databse/cJSON.c:907-952 | an accepted value that is no unclosed literal never lets the minifier run past the end: if what follows can be minified, so can the whole |
| JsonMeaning.MinifyKeepsMeaning | Onion Movie Hash Table Databse/cJSON.c:2199-2261 | of the C strings that the parser accepts as a whole, whoever wrote them, all but a single literal without its closing quote can be minified, and what is minified is accepted as the same tree |
| JsonMeaning.OpenLiteralIsAccepted | Onion Movie Hash Table Databse/cJSON.c:477-506 | a single quote is accepted as an empty string and cannot be minified |
| DataBuffer.DataBuffer.constructor | GoBackN/src.task/DataBuffer.c:16-24 | an empty ring |
| DataBuffer.DataBuffer.Contains | GoBackN/src.task/DataBuffer.c:45-48 | true exactly for the numbers stored |
| DataBuffer.DataBuffer.Get | GoBackN/src.task/DataBuffer.c:50-53 | the packet with that number, or nothing |
| DataBuffer.DataBuffer.Put | GoBackN/src.task/DataBuffer.c:55-64 | the four assertions hold exactly for the number that continues the sequence in a ring that is not full; then it is appended |
| DataBuffer.DataBuffer.FreeBuffer | GoBackN/src.task/DataBuffer.c:66-79 | the assertions pass exactly up to one past the last stored packet; just that end runs a round with nothing stored, every other drops exactly the interval |
| DataBuffer.DataBuffer.ResetTimers | GoBackN/src.task/DataBuffer.c:93-98 | all timeouts are reset, unless the ring is full: then none is |
| DataBuffer.SamePlace | GoBackN/src.task/DataBuffer.c:59-59 | two offsets below the capacity share a slot only if they are equal |
| FileTransfer.ChunksJoin | GoBackN/src.task/GoBackNSender.c:148-171 | cutting a file loses and adds nothing, and only the last packet is empty |
| FileTransfer.FitsExactly | GoBackN/src.task/GoBackNSender.c:46-46 | a file fits exactly up to 1023 full packets |
| FileTransfer.ReadIntoBuffer | GoBackN/src.task/GoBackNSender.c:148-171 | one packet read and stored, and whether there is more |
| FileTransfer.ReadFileIntoBuffer | GoBackN/src.task/GoBackNSender.c:173-186 | succeeds exactly for files that fit; then the ring holds the packets of the file, numbered from 0 |
| FileTransfer.FlipBits | GoBackN/protsim/techgi4/ErrorControlProxy.cc:153-154 | the exclusive-or of the low byte is the arithmetic of the model |
| FileTransfer.MessageStruct.Deliver | GoBackN/protsim/techgi4/ErrorControlProxy.cc:141-155 | the struct handed over carries the error flag whenever it was damaged, in its payload or in its number |
| FileTransfer.DamageShows | GoBackN/protsim/techgi4/ErrorControlProxy.cc:141-155 | a damaged packet says so and differs in exactly one byte of its payload or in the low byte of its number, all bits flipped |
| FileTransfer.FileReceiver.Handle | GoBackN/src.task/GoBackNReceiver.c:183-229 | the state and the ack after a packet |
| FileTransfer.WhatIsExpected | GoBackN/src.task/GoBackNReceiver.c:205-213 | of everything that can arrive exactly the undamaged packet with the awaited number is accepted |
| FileTransfer.RunInv | GoBackN/src.task/GoBackNReceiver.c:183-229 | after any arrivals the output is the join of the accepted chunks, the acks are 1,2,..., and the file is closed exactly after the end mark |
| FileTransfer.TotalCountsAll | GoBackN/src.task/GoBackNReceiver.c:183-196 | the total counts the payload of everything that arrived |
| FileTransfer.WrittenIsPrefix | GoBackN/src.task/GoBackNReceiver.c:204-229 | whatever arrives, the bytes written are a prefix of the file and equal it once the empty packet is accepted |
| FileTransfer.NothingAfterClose | GoBackN/src.task/GoBackNReceiver.c:226-229 | nothing is written or acknowledged after that |
| FileTransfer.CompletesExactlyWhen | GoBackN/src.task/GoBackNReceiver.c:204-229 | a transfer completes exactly when undamaged copies of all packets are among the arrivals in order |

## Left out

- Sockets, select, name lookup, argument parsing, console output, OMNeT++ scheduling internals, statistics and generated message classes: input and output, or code not part of this model. Messages, times, files and bit errors are parameters.
- Lost or duplicated ring messages, two servers with one id, and leaving nodes: no such code exists, and the ring cannot repair itself.
- Moving keys when a node joins: there is none, so the store theorems are about a complete ring on which no node joins meanwhile.
- ChordNode.DhtNode.HandleJoin: addresses and ports are left out; a server is its id, and the wire format of a message is not modelled.
- DistributedStore.Server.HandleExtMsg: the forwarder's copy of the reply (lines 449-472) is left out, because its length is taken from the request; claims about replies stop at what the owner builds. Requests come one at a time, as the code assumes.
- DistributedStore.RouteIsShort: one member is one hop; that a request is being forwarded while another waits is not modelled.
- HashTable.HashTable.SetValue: allocation failure and overflow of size_t are left out, as are `ht_destroy` and the near-identical copies of the table in other directories.
- GoBackNMachines.GoBackNSender.constructor: the runs studied are those of enabled senders, since a disabled one has no timer to start with; sequence numbers are unbounded.
- GoBackNTimers.TimersAlwaysRun: time is real, without the rounding of simulation time; neither the timeout nor the interval is negative.
- GoBackNProgress.ProgressExactlyWhen: possibility, not fairness; how often the channel must behave is not modelled.
- Dijkstra.DoDijkstra: weights are positive reals, without floating-point rounding, and two channels to one neighbour are one link, as in the original map. `Topology::copy` and the getters add nothing.
- Dijkstra.ClosestNode: ties are broken by the order of the original set; the model leaves the choice open among the closest.
- NetworkStack.NetworkStack.HandleMessage: the lookup of the local application, queue lengths, delays and copies of broadcast packets are left out; an action names where the packet goes.
- NetworkStack.CalculateRoutes: setting link weights from the metric is `Topology.Extract`; dumping the table is left out.
- JsonParserCode.ParseNumberAt: numbers are reals and exponents unbounded; rounding, infinities and the overflow of the int exponent and of `valueint` are left out.
- JsonParserCode.ParseText: the error pointer, NULL input, the depth of recursion and allocation failure are left out. Sibling links are a sequence.
- JsonPrinter.PrintNumber: integers of type int only; the formats for other numbers are left out.
- JsonPrinter.PrintValue: allocation failure, NULL strings and the overflow of int lengths are left out; strings and keys are NUL-free, as C strings are.
- JsonPrintBuffer.PrintBuffer.Ensure: allocation succeeds up to 2^30 characters; beyond that the next power of two is no int and is refused. After a failure nothing is said about the contents.
- JsonMinify.MinifyInPlace: for a comment or a literal that does not end the original runs past the terminator, so such texts are excluded.
- DataBuffer.DataBuffer.FreeBuffer: freed memory itself is not modelled, and nothing is promised about a buffer of capacity zero once a round divides by it.
- FileTransfer.ReadFileIntoBuffer: read errors and short reads before the end of the file are left out.
- FileTransfer.FileReceiver.Handle: write errors and truncated receives are left out, as are source and destination addresses.
- The retransmission loop in `main` of `src.task/GoBackNSender.c`: its lastAckSeqNo changes meaning from "next expected" to "last acknowledged"; the sender state machine modelled is the one of the simulator.
- The film database, the HTTP, time and quote clients, and option parsing: easy members, or I/O.
