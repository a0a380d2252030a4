# Proofs about the INET core library

A Dafny model of seven parts of the INET framework, and proofs of what they promise. Every part is modelled in the
form it has in the source: objects with fields and methods that change them, loops with invariants, and beside them
functions and lemmas that say what the methods compute.

- **Interval tree** (`IntervalTreeShape`, `IntervalTreeFixup`, `IntervalTreeQuery`, `IntervalTreeLinks`, `IntervalTree`):
  the red-black tree with parent pointers, two sentinels and a maximum in every node. The heap is tied to a value, a tree
  with the way from the root to the place where the code works; rotations, repairs, insertion and deletion are proved on
  values and carried over to the links. A query returns what a scan over all intervals returns.
- **Topology** (`Lists`, `ShortestPaths`, `Topology`): the weighted search with its sorted queue and the breadth-first
  search, proved to find the cheapest paths; and editing the graph, after which every link is listed once at each end.
- **DHCP** (`DhcpMessages`, `DhcpServer`, `DhcpClient`, `DhcpSystem`): server, clients with their timers, and a network
  that loses, repeats and reorders messages. No two clients ever have the same address, and every client that is bound is
  bound for the server's lease time.
- **128-bit integers** (`Words`, `Int128Words`, `Int128Text`, `Int128Arithmetic`, `Int128Rounds`, `Int128`): arithmetic on
  two machine words, bit-serial division, printing and parsing.
- **State machines** (`StateTrees`, `StateRuns`, `StateMachine`): the engine of hierarchical state machines. Entry and exit
  actions are well nested, histories and boxes follow them, and the machine rests where a relation of its own, with one
  clause for a transition and one for an event, says that it does.
- **Patterns** (`PatternLanguage`, `PatternMatcher`, `PatternRendering`, `PatternSyntax`): the glob matcher accepts exactly
  the language of its pattern, in spite of its shortcuts; a pattern is split into exactly the elements that a relation
  between texts and elements says it writes; and these lists are exactly those in normal form.
- **Bit streams** (`BitSequences`, `MemoryStreams`): what is written is read back.

`dafny verify dfyconfig.toml` checks everything.

## Where the code falls short

These are statements about the code that turned out false, each with an example and with the exact condition under which
it is true.

- A query of the interval tree returns what a scan over all intervals returns if and only if its way through the tree
  passes no hit over (`ExploreIsExact`), and it passes one over in two places only. One is to the right of a node without a
  left child, for a range that starts at the smallest time, which is the maximum of the empty subtree
  (`SmallestTimeMissesAHit`, `ExploreFromSmallestTime`). The other is a left subtree that stores an interval ending before
  it begins, which the comparison with the range does not rule out but the maximum does (`ImproperIntervalIsMissed`,
  `ExploreIsScanExactly`).
- A DHCP discovery that asks for an address gets it even if it is leased, and even outside the pool
  (`LeaseIsOverwritten`, `OwnersKeptExactly`, `TableOkExactly`). The client of the repository never asks.
- The DHCP client's lease timer never goes off: T2 is never later, and it cancels it (`LeaseNeverExpires`). A client is
  in a state in which it has an address but no lease timer after a timer has gone off if and only if it had an address and
  the timer was T2, the wait for an answer, or the start; it gets out of it by the acknowledgement it waits for, by a refusal while it rebinds or
  reboots, or by a restart or an association (`TimerExposes`, `MessageExposes`). So a client whose renewal or rebinding is
  not answered for a minute starts over and keeps its address on the interface, where section 4.4.5 of RFC 2131 wants it
  to rebind first, and to stop using the address when the lease ends (`AddressOutlivesLease`). With the times the server
  gives, a client rebinds at all only if its lease is not longer than 160 seconds (`RenewalTimesOut`, and
  `RenewalsTimeOut` for every run). The addresses stay
  unique because the server never gives one away.
- A DHCP client without a lease that is offered no address requests it all the same, which is an error; it handles every
  other message (`MessageIsHandled`).
- Comparing 128-bit integers with the same negative high word compares the low words as signed numbers (`LessIsWrong`,
  `LessIsNumeric`). Division never compares such numbers.
- Division ends if and only if the divisor is not the smallest 128-bit integer (`DivisionEnds`, `MinDivisorNeverEnds`).
  The smallest integer as dividend gives quotient zero, which is right for no divisor (`Div`, `MinIsNotDivided`), and it
  is printed as minus zero (`ToString`, `RoundTrip`).
- Parsing an integer takes one letter too many for a digit (`OneLetterTooMany`, `TenIsADecimalDigit`).
- In a pattern, a backslash takes away the meaning of the next character, unless that is a bracket that begins a numeric
  range, against the documentation in `PatternMatcher.h` (`EscapedCharacter`, `BracketIsNotEscaped`,
  `EscapedRangeMatchesNumbers`). So a text in which every special character is escaped stands for itself if and only if
  no bracket in it begins a numeric range (`QuotedMatchesItself`). With a backslash before every character it always does
  (`EscapedMatchesItself`).
- Reading more bits than are left delivers one false bit more than there are (`ReadBits`).
- Reading more bytes than are left is an error instead of a short read if and only if what is left is no whole number of
  bytes: the number of bits cannot be converted then (`ReadBytes`).

## What the models assume

- Times, weights and distances are mathematical reals, and a distance or weight may be infinite.
- The weighted search is given what the code asserts while it runs: of the nodes that can reach the target at a finite
  cost, none weighs less than nothing, and the links into them that can be used weigh more. The rest of the graph may have
  any weights.
- The times of intervals lie between minus the largest simulation time and the largest one; a query may ask for any range.
- A DHCP client draws a transaction id that no client has used before. The server does not stop. Clients may stop, crash and
  start again at any time, and may be associated again with a wireless network whenever they run.
- The server has an address, and its pool lies above address zero and below 2 to the 32nd.
- States of a machine are numbered so that superstates come first. User code is a list of reactions, one for each call; after
  the list it does nothing, so every finite run is covered.
- Bits of machine words are taken with `And` and `Or` on natural numbers, and shifts are products and quotients with powers of
  two; conversions cut off explicitly.
- Patterns and lines have no NUL character, and characters compare by their codes. A pattern does not end in a lone
  backslash: the code then takes the NUL for the escaped character and reads on behind it, with no defined result; the
  model makes this an error.
- A number of several bytes is read from a whole byte each time, as the code asserts: the stream may end within its last
  byte, or earlier if it ends with a whole byte.

## Model

| member | source | states |
|---|---|---|
| IntervalTrees.IntervalTree.constructor | inet/src/inet/common/IntervalTree.cc:58-77 | a new tree is empty, correctly linked, and its query stack is at rest |
| IntervalTrees.IntervalTree.LeftRotate | inet/src/inet/common/IntervalTree.cc:116-138 | the node with its right child, their parent and the inner subtree are relinked, and the two maxima recomputed, as in a left rotation; nothing else changes |
| IntervalTrees.IntervalTree.RightRotate | inet/src/inet/common/IntervalTree.cc:140-161 | the mirror image of the left rotation |
| IntervalTrees.IntervalTree.FixupMaxHigh | inet/src/inet/common/IntervalTree.cc:187-194 | the maxima on the way from a node to the root become exact; shape, order and colours stay |
| IntervalTrees.IntervalTree.RecursiveInsert | inet/src/inet/common/IntervalTree.cc:164-185 | the new node is hung as a leaf at the place where the order wants it, after the nodes with the same key |
| IntervalTrees.IntervalTree.InsertFixup | inet/src/inet/common/IntervalTree.cc:207-255 | the loop that repairs a red node below a red parent ends with a red-black tree with the same order and exact maxima |
| IntervalTrees.IntervalTree.Insert | inet/src/inet/common/IntervalTree.cc:196-257 | a valid tree stays valid (links both ways, order, colours, black height, exact maxima) and its nodes in order are the old ones with the new one inserted |
| IntervalTrees.IntervalTree.GetMinimum | inet/src/inet/common/IntervalTree.cc:259-264 | the first node of a subtree in order |
| IntervalTrees.IntervalTree.GetMaximum | inet/src/inet/common/IntervalTree.cc:266-271 | the last node of a subtree in order |
| IntervalTrees.IntervalTree.GetSuccessor | inet/src/inet/common/IntervalTree.cc:273-289 | the next node in order; of the last one, the root sentinel |
| IntervalTrees.IntervalTree.GetPredecessor | inet/src/inet/common/IntervalTree.cc:291-307 | the previous node in order; of the first one, the nil sentinel |
| IntervalTrees.IntervalTree.DeleteFixup | inet/src/inet/common/IntervalTree.cc:346-417 | the loop that repairs a subtree that is one black node short ends with a red-black tree with the same order and exact maxima |
| IntervalTrees.IntervalTree.DeleteNode | inet/src/inet/common/IntervalTree.cc:444-501 | exactly the given node goes, its interval is returned, and a valid tree stays valid, also when the successor takes the node's place |
| IntervalTrees.IntervalTree.DeleteInterval | inet/src/inet/common/IntervalTree.cc:419-424 | the first node in preorder that stores the interval goes; without one nothing changes |
| IntervalTrees.IntervalTree.RecursiveSearch | inet/src/inet/common/IntervalTree.cc:426-442 | the first node of a subtree in preorder that stores the interval, or nil |
| IntervalTrees.IntervalTree.Query | inet/src/inet/common/IntervalTree.cc:516-563 | for every tree and every range the result is the preorder list of all stored intervals that overlap it if and only if the way through the tree passes no hit over, which it does not if the range starts after the smallest time and no stored interval ends before it begins; the tree is unchanged, the stack is at rest again, and it is not enlarged if it is longer than the tree is high |
| IntervalTreeQuery.OverlapMeansCommonPoint | inet/src/inet/common/IntervalTree.cc:504-514 | for proper intervals the overlap test says that there is a common point |
| IntervalTreeQuery.ExploreIsScan | inet/src/inet/common/IntervalTree.cc:527-560 | for every range that starts after the smallest time, also one that ends before it begins, and a tree whose left subtrees have no keys above their maxima, the pruned traversal returns what a scan over all nodes returns: a left subtree whose maximum reaches the range and that has no hit shows that the right one has none |
| IntervalTreeQuery.ExploreIsExact | inet/src/inet/common/IntervalTree.cc:527-560 | for every tree and every range the pruned traversal returns what a scan over all nodes returns if and only if it passes no hit over: in a left subtree whose maximum does not reach the range, or to the right of an empty one whose maximum does |
| IntervalTreeQuery.FirstHolderIsFirst | inet/src/inet/common/IntervalTree.cc:426-442 | the node that the search returns stores the interval, and none before it in preorder does |
| IntervalTreeQuery.ScanOrderIrrelevant | inet/src/inet/common/IntervalTree.cc:516-563 | the scan finds the same multiset of intervals in order and in preorder |
| IntervalTreeQuery.ExploreFromSmallestTime | inet/src/inet/common/IntervalTree.cc:531-548 | for a range that starts at the smallest time or before it, whatever its end, the result is complete if and only if no node without a left child has a hit on its right |
| IntervalTreeQuery.SmallestTimeMissesAHit | inet/src/inet/common/IntervalTree.cc:531-548 | a tree of two nodes in which the query from the smallest time on misses a stored interval |
| IntervalTreeQuery.ExploreIsScanExactly | inet/src/inet/common/IntervalTree.cc:527-560 | it does so for every range that starts after the smallest time if and only if no left subtree has a key above its maximum |
| IntervalTreeQuery.ProperIsCovered | inet/src/inet/common/IntervalTree.cc:527-560 | which holds if no stored interval ends before it begins |
| IntervalTreeQuery.ImproperIntervalIsMissed | inet/src/inet/common/IntervalTree.cc:531-548 | a tree of two nodes with an interval that ends before it begins, which a query misses although its comparison would take it |
| IntervalTreeQuery.RestStep | inet/src/inet/common/IntervalTree.cc:526-548 | visiting a node keeps the sum of what has been found and what the pending frames will still find |
| IntervalTreeQuery.RestPop | inet/src/inet/common/IntervalTree.cc:550-560 | popping a frame, and going to the right subtree only if the flag of the frame says so, keeps that sum too |
| IntervalTreeShape.HeightIsLogarithmic | inet/src/inet/common/IntervalTree.cc:196-257 | 2 to the height of a red-black tree of n nodes is at most (n + 1) squared |
| IntervalTreeShape.SortedInsertKeepsOrder | inet/src/inet/common/IntervalTree.cc:164-185 | inserting by key keeps the nodes sorted |
| IntervalTreeShape.SortedInsertAdds | inet/src/inet/common/IntervalTree.cc:164-185 | inserting adds exactly the new node |
| IntervalTreeShape.RotateLeftOrder | inet/src/inet/common/IntervalTree.cc:116-138 | a left rotation keeps the order of the nodes |
| IntervalTreeShape.RotateRightOrder | inet/src/inet/common/IntervalTree.cc:140-161 | a right rotation keeps the order of the nodes |
| IntervalTreeShape.RotateLeftMax | inet/src/inet/common/IntervalTree.cc:136-137 | recomputing two maxima makes a left rotation's maxima exact |
| IntervalTreeFixup.OuterLeft | inet/src/inet/common/IntervalTree.cc:227-229 | recolouring and rotating at the grandparent ends the repair of an insertion |
| IntervalTreeFixup.RecolourLeft | inet/src/inet/common/IntervalTree.cc:213-219 | with a red uncle the violation moves two levels up |
| IntervalTreeFixup.RedSiblingLeft | inet/src/inet/common/IntervalTree.cc:356-362 | with a red sibling a rotation gives the short subtree a black one |
| IntervalTreeFixup.BlackNephewsLeft | inet/src/inet/common/IntervalTree.cc:363-367 | with two black nephews the shortage moves one level up |
| IntervalTreeFixup.OuterNephewLeft | inet/src/inet/common/IntervalTree.cc:377-381 | with a red outer nephew a rotation at the parent ends the shortage |
| IntervalTreeFixup.WithoutReplaced | inet/src/inet/common/IntervalTree.cc:450-481 | taking the successor out of the right subtree and putting it into the node's place removes exactly that node from the order |
| Topologies.Topology.CalculateWeightedSingleShortestPathsTo | inet/src/inet/common/Topology.cc:418-475 | if the weights that the search comes to are as the code asserts, whatever the others are, every node gets the cost of a cheapest usable path to the target, counting links and the nodes passed through, and infinity exactly if no path has a finite cost; its next link is the first one of such a path; without a target nothing changes |
| Topologies.Topology.CalculateUnweightedSingleShortestPathsTo | inet/src/inet/common/Topology.cc:378-416 | the same with every link counted as one and no charge for nodes |
| Topologies.Topology.RelaxLink | inet/src/inet/common/Topology.cc:443-473 | one incoming link does to distances, next links and queue what one step of the search does |
| Topologies.Topology.Improve | inet/src/inet/common/Topology.cc:459-472 | a node that gets nearer leaves its place in the queue, if it has one, and goes before the first node that is farther |
| ShortestPaths.RelaxedIsShortest | inet/src/inet/common/Topology.cc:418-475 | distances that no link can improve and that are all reached by kept paths are the shortest ones |
| ShortestPaths.ImprovedIsNotDone | inet/src/inet/common/Topology.cc:459-461 | a node that has been taken off the queue is never improved again, and an improved node with a finite distance is in the queue |
| ShortestPaths.RelaxingKeeps | inet/src/inet/common/Topology.cc:443-473 | looking at one link keeps the invariant of the search: queue sorted and apart from the nodes done, kept paths, links looked at relaxed |
| ShortestPaths.DequeuedKeeps | inet/src/inet/common/Topology.cc:436-438 | taking the nearest node off the queue keeps it too |
| ShortestPaths.SearchEnds | inet/src/inet/common/Topology.cc:436-475 | when the queue is empty the distances are the shortest ones |
| ShortestPaths.DistinctBounded | inet/src/inet/common/Topology.cc:436-475 | no more nodes are taken off the queue than there are, so the loop ends |
| ShortestPaths.PrunedShortest | inet/src/inet/common/Topology.cc:440-454 | the part of the graph whose weights the code does not assert anything of has no part in any shortest path of finite cost |
| ShortestPaths.DoneIsKept | inet/src/inet/common/Topology.cc:436-454 | nor does the search look at it: a node taken off the queue can reach the target at a finite cost |
| ShortestPaths.SearchFollows | inet/src/inet/common/Topology.cc:463-464 | along the kept next links the distance falls with every link, and it equals the cost of the way |
| ShortestPaths.WayDescends | inet/src/inet/common/Topology.cc:463-464 | following next links from any node with a finite distance reaches the target, always nearer |
| ShortestPaths.WayHasNoCycle | inet/src/inet/common/Topology.cc:463-464 | no way visits a node twice |
| ShortestPaths.ShortestIsUnique | inet/src/inet/common/Topology.cc:378-475 | there is only one assignment of shortest distances |
| ShortestPaths.UnitWeightsAgree | inet/src/inet/common/Topology.cc:378-475 | with unit links and free nodes both searches find the same distances |
| ShortestPaths.DiscoverIsRelaxing | inet/src/inet/common/Topology.cc:398-414 | on a graph of unit links the breadth-first step is the weighted step |
| Topologies.Topology.AddNode | inet/src/inet/common/Topology.cc:256-269 | the node goes to the end if it has no id, otherwise before the first node that is not less; the nodes stay sorted by unsigned id, and a node without links keeps the links of the graph in order |
| Topologies.Topology.DeleteNode | inet/src/inet/common/Topology.cc:271-295 | the node leaves the list, and exactly its links leave the lists of the others, which keep their order |
| Topologies.Topology.AddLink | inet/src/inet/common/Topology.cc:297-314 | the link leaves the lists of its old ends, joins those of the new ones at the end, and keeps a gate id only if that end stays |
| Topologies.Topology.DeleteLink | inet/src/inet/common/Topology.cc:339-344 | the link leaves the lists of both its ends |
| Topologies.Topology.UnlinkFromSourceNode | inet/src/inet/common/Topology.cc:346-352 | the first occurrence of the link leaves its source's list |
| Topologies.Topology.UnlinkFromDestNode | inet/src/inet/common/Topology.cc:354-360 | the first occurrence of the link leaves its destination's list |
| Topologies.Topology.LinkedIsWired | inet/src/inet/common/Topology.cc:297-314 | afterwards every link is once among its source's outgoing and once among its destination's incoming links, and nowhere else |
| Topologies.Topology.ClearedIsWired | inet/src/inet/common/Topology.cc:271-295 | the same after a node has been deleted |
| Topologies.Topology.GetNodeFor | inet/src/inet/common/Topology.cc:369-376 | the binary search finds what looking at one node after the other finds |
| Topologies.Topology.LowerBound | inet/src/inet/common/Topology.h:369-371 | the first node that is not less than the id as an unsigned number |
| Topologies.Unsigned | inet/src/inet/common/Topology.h:369-371 | as an unsigned 32-bit number the id -1 is the largest one, and the only one that large |
| Topologies.Topology.ValidIsSeen | inet/src/inet/common/Topology.cc:256-314 | every topology that editing can lead to is a graph the searches accept |
| DhcpServers.DhcpServer.GetLeaseByMac | inet/src/inet/applications/dhcp/DhcpServer.cc:457-470 | the lease of the MAC address with the smallest address, if there is one |
| DhcpServers.DhcpServer.GetAvailableLease | inet/src/inet/applications/dhcp/DhcpServer.cc:472-509 | the address asked for, whatever the table says, or the first free one of the pool |
| DhcpServers.DhcpServer.ProcessDhcpMessage | inet/src/inet/applications/dhcp/DhcpServer.cc:161-290 | the new table and the reply are those of the specification, for every message and interface; what it says is proved in DiscoverIsAnswered, RequestIsAnswered and OthersAreIgnored |
| DhcpServers.FirstFree | inet/src/inet/applications/dhcp/DhcpServer.cc:489-508 | a free address of the pool, and none exactly if all are leased |
| DhcpServers.ProcessKeeps | inet/src/inet/applications/dhcp/DhcpServer.cc:161-290 | if discoveries ask for no address, every message keeps the table in order (key and address equal, addresses from the pool, one per MAC), nobody loses an address, and a new client is refused exactly when the pool is exhausted |
| DhcpServers.TableIsBounded | inet/src/inet/applications/dhcp/DhcpServer.cc:489-508 | an orderly table holds no more leases than the pool has addresses |
| DhcpServers.NeverOnTheWrongNetwork | inet/src/inet/applications/dhcp/DhcpServer.cc:234-259 | the answer that the requested address is on the wrong network is never given |
| DhcpServers.OwnersKeptExactly | inet/src/inet/applications/dhcp/DhcpServer.cc:476-487 | a message takes an address away from its owner if and only if it is a discovery of an unknown client that asks for a leased address |
| DhcpServers.TableOkExactly | inet/src/inet/applications/dhcp/DhcpServer.cc:476-487 | a message leaves the table in order if and only if it is not a discovery of an unknown client that asks for an address outside the pool |
| DhcpServers.LeaseIsOverwritten | inet/src/inet/applications/dhcp/DhcpServer.cc:476-487 | a concrete discovery that takes a leased address away from another client |
| DhcpServers.DiscoverIsAnswered | inet/src/inet/applications/dhcp/DhcpServer.cc:176-203 | in an orderly table, every discovery is answered by an offer of the address that the client has, or else of the one it asks for, or without a wish of the lowest one of the pool that nobody has, for the configured lease time with T1 at a half and T2 at seven eighths of it, and then the address is the client's; there is no answer if and only if there is no such address |
| DhcpServers.RequestIsAnswered | inet/src/inet/applications/dhcp/DhcpServer.cc:204-278 | in an orderly table, a request is acknowledged, for those times, if and only if the address it is about has an entry, and if this server was selected, one of that client; otherwise it is refused, or not answered if it comes after a start, and nothing changes |
| DhcpServers.OthersAreIgnored | inet/src/inet/applications/dhcp/DhcpServer.cc:161-177 | messages that arrive elsewhere, and those that are neither discoveries nor requests, change nothing and get no answer |
| DhcpServers.DiscoveryChanges | inet/src/inet/applications/dhcp/DhcpServer.cc:178-203 | whatever is in the table, a discovery changes one entry at most: that of a client with an entry but for the transaction only; a client without one gets an allocated entry, of the free lease at the address or of a new one |
| DhcpServers.RequestChanges | inet/src/inet/applications/dhcp/DhcpServer.cc:204-278 | whatever is in the table, exactly a request whose entry is good for it is acknowledged, and changes just the transaction and the allocation of that entry |
| DhcpClients.DhcpClient.HandleDhcpMessage | inet/src/inet/applications/dhcp/DhcpClient.cc:395-501 | the new state, the message sent and the error are those of the specification, for every state and message; what it says is proved in MessageLeads and MessageFaults |
| DhcpClients.DhcpClient.HandleTimerExpiry | inet/src/inet/applications/dhcp/DhcpClient.cc:218-270 | the same for every timer, with TimerLeads, TimerFaults and ExpiryLeads |
| DhcpClients.DhcpClient.HandleAssociation | inet/src/inet/applications/dhcp/DhcpClient.cc:503-521 | the same for the association of a wireless interface, with AssociationLeads |
| DhcpClients.DhcpClient.Request | inet/src/inet/applications/dhcp/DhcpClient.cc:523-583 | the request of the state, under a new transaction id |
| DhcpClients.DhcpClient.Init | inet/src/inet/applications/dhcp/DhcpClient.cc:374-386 | all timers are cancelled, a discovery is sent and an offer waited for |
| DhcpClients.DhcpClient.Ack | inet/src/inet/applications/dhcp/DhcpClient.cc:645-652 | the lease takes the times of the acknowledgement and is bound, with T1, T2 and the lease timer running |
| DhcpClients.TimerIsHandled | inet/src/inet/applications/dhcp/DhcpClient.cc:218-270 | whichever timer goes off next is handled without an error, in particular T2 finds the client renewing, and the timers stay those the state waits for |
| DhcpClients.MessageIsHandled | inet/src/inet/applications/dhcp/DhcpClient.cc:395-501 | a running client handles a message without an error if and only if it is not an empty offer to a client without a lease; it keeps the address of its lease while bound, and its timers right if and only if it does not take over times that are out of order |
| DhcpClients.MessageLeads | inet/src/inet/applications/dhcp/DhcpClient.cc:395-501 | a message changes the state of a client if and only if it answers what the client has sent last and is an offer while it selects, or an acknowledgement or a refusal while it requests, renews, rebinds or reboots; otherwise it changes nothing. An offer is taken over and asked for; an acknowledgement binds the client for the times granted; a refusal makes it start over |
| DhcpClients.RefusalLeads | inet/src/inet/applications/dhcp/DhcpClient.cc:437-440 | whatever else the client is, a refusal while it requests, renews, rebinds or reboots leads to SELECTING under a new transaction id, with a discovery sent, only the wait for an offer pending, and no address unless it was requesting one |
| DhcpClients.MessageFaults | inet/src/inet/applications/dhcp/DhcpClient.cc:404-499 | whatever the client is, a message is an error if and only if it is an answer that comes before anything has been sent, an empty offer, or an acknowledgement without a lease |
| DhcpClients.TimerLeads | inet/src/inet/applications/dhcp/DhcpClient.cc:218-270 | whichever timer goes off next: a client that is to start asks for its old lease or discovers, one that gets no answer discovers, T1 makes it renew while T2 and the lease timer run on, and T2 rebind, each with the right message sent and the right timers pending |
| DhcpClients.TimerFaults | inet/src/inet/applications/dhcp/DhcpClient.cc:241-257 | whatever the client is, a timer is an error if and only if it is T2 and the client does not renew, or T1 or T2 and it has no lease |
| DhcpClients.ExpiryLeads | inet/src/inet/applications/dhcp/DhcpClient.cc:237-267 | whatever the client is, it discovers when a wait ends without an answer, and also when the lease ends, but then without its address |
| DhcpClients.AssociationLeads | inet/src/inet/applications/dhcp/DhcpClient.cc:503-521 | an association makes a running client give up its address and discover |
| DhcpClients.RequestSays | inet/src/inet/applications/dhcp/DhcpClient.cc:553-583 | a request that selects a server names it; it and one after a start ask for the address in the option, and one that renews or rebinds tells it as the address in use |
| DhcpClients.DiscoverySays | inet/src/inet/applications/dhcp/DhcpClient.cc:585-618 | a discovery asks for no particular address |
| DhcpClients.NeverStuck | inet/src/inet/applications/dhcp/DhcpClient.cc:218-270 | in every state some timer is pending |
| DhcpClients.LeaseNeverExpires | inet/src/inet/applications/dhcp/DhcpClient.cc:247-267 | the lease timer never goes off, because T2 comes first and cancels it |
| DhcpClients.TimerExposes | inet/src/inet/applications/dhcp/DhcpClient.cc:237-257 | when a timer goes off, the client afterwards has an address but no lease timer if and only if it has an address and the timer is T2, the wait for an answer, or the start |
| DhcpClients.MessageExposes | inet/src/inet/applications/dhcp/DhcpClient.cc:428-496 | when a message arrives, the client afterwards has an address but no lease timer if and only if it was so before and the message is neither the acknowledgement it waits for nor a refusal while it renews, rebinds or reboots |
| DhcpClients.AddressOutlivesLease | inet/src/inet/applications/dhcp/DhcpClient.cc:237-257 | a client that gets no answer while rebinding starts over and keeps the address on its interface without a lease timer |
| DhcpClients.RenewalTimesOut | inet/src/inet/applications/dhcp/DhcpClient.cc:237-257 | with T1 at a half and T2 at seven eighths of the lease, a renewal without an answer times out before T2 if and only if the lease is longer than 160 seconds; otherwise T2 comes first |
| DhcpClients.ClientSendsWhatItWaitsFor | inet/src/inet/applications/dhcp/DhcpClient.cc:523-618 | what a client sends is the discovery, or the request with the fields that section 4.3.6 of RFC 2131 prescribes, of the state it is in afterwards |
| DhcpSystems.AddressesAreUnique | inet/src/inet/applications/dhcp/DhcpServer.cc:161-290 | in every run of one server and any number of clients, with messages lost, repeated and reordered and clients restarted, there is no error, no two interfaces have the same address, and no two clients that are bound, renewing or rebinding hold the same lease |
| DhcpSystems.EventKeeps | inet/src/inet/applications/dhcp/DhcpClient.cc:218-270 | every event keeps the invariant: addresses and leases of clients belong to them in the server's table, and messages in the network fit the client that used their transaction id |
| DhcpSystems.ReplyFits | inet/src/inet/applications/dhcp/DhcpServer.cc:389-455 | what the server answers fits the invariant |
| DhcpSystems.MessageFits | inet/src/inet/applications/dhcp/DhcpClient.cc:395-501 | what a client does on a message fits it |
| DhcpSystems.TimerFits | inet/src/inet/applications/dhcp/DhcpClient.cc:218-270 | what a client does on a timer fits it |
| DhcpSystems.FourMessagesBind | inet/src/inet/applications/dhcp/DhcpServer.cc:176-232 | unless the server has no address for it, a client that has sent its discovery is bound by four deliveries, for exactly the server's lease time |
| DhcpSystems.TwoMessagesRenew | inet/src/inet/applications/dhcp/DhcpServer.cc:234-277 | a client that renews, rebinds or reboots is bound to the same address by two deliveries, for exactly the server's lease time |
| DhcpSystems.LeaseTimeIsGranted | inet/src/inet/applications/dhcp/DhcpServer.cc:346-348 | in every run, a client that is bound by a message has T1, T2 and the lease timer at a half, seven eighths and the whole of the server's lease time from its delivery |
| DhcpSystems.RenewalsTimeOut | inet/src/inet/applications/dhcp/DhcpClient.cc:237-257 | in every run, the wait of a client that renews ends before T2 if and only if the server's lease time is longer than 160 seconds; otherwise T2 comes first |
| Int128s.Int128.Negated | inet/src/inet/common/int128.cc:162-168 | the negation modulo 2 to the 128th |
| Int128s.Int128.Increment | inet/src/inet/common/int128.cc:170-177 | one more, modulo 2 to the 128th |
| Int128s.Int128.Decrement | inet/src/inet/common/int128.cc:179-186 | one less, modulo 2 to the 128th |
| Int128s.Int128.AddAssign | inet/src/inet/common/int128.cc:204-214 | the sum modulo 2 to the 128th, also with itself |
| Int128s.Int128.SubAssign | inet/src/inet/common/int128.h:128-131 | the difference modulo 2 to the 128th |
| Int128s.Int128.MulAssign | inet/src/inet/common/int128.cc:216-237 | the product modulo 2 to the 128th, for all signs |
| Int128s.Int128.ShiftLeftAssign | inet/src/inet/common/int128.cc:352-380 | the product with 2 to the n, modulo 2 to the 128th, for every n |
| Int128s.Int128.ShiftRightAssign | inet/src/inet/common/int128.cc:321-350 | the quotient by 2 to the n, rounded down, for every n |
| Int128s.Int128.SetBit | inet/src/inet/common/int128.cc:302-319 | one bit is set or cleared; beyond the 128th nothing happens |
| Int128s.Int128.BitIs | inet/src/inet/common/int128.cc:291-300 | the bit of the number in two's complement, for every place |
| Int128s.Int128.Div | inet/src/inet/common/int128.cc:239-289 | for a divisor that is neither zero nor the smallest number: the quotient truncated towards zero and a remainder smaller than the divisor with the sign of the dividend; the smallest number as dividend gives zero and itself |
| Int128s.Int128.DivMagnitudes | inet/src/inet/common/int128.cc:255-279 | the bit-serial division of a positive number by one not larger ends after some number of the rounds that are counted for DivisionEnds, with the right quotient and remainder |
| Int128s.Int128.FirstBits | inet/src/inet/common/int128.cc:255-265 | the first loop brings down bits until the remainder is not less than the divisor, with the counter wrapping below zero |
| Int128s.Int128.ModAssign | inet/src/inet/common/int128.h:140-144 | the remainder, although it is written over the dividend; the smallest number stays as it is |
| Int128s.Int128.DivAssign | inet/src/inet/common/int128.h:133-138 | the truncated quotient; zero for the smallest number |
| Int128Arithmetic.BringDown | inet/src/inet/common/int128.cc:259-275 | bringing down a bit keeps the invariant of the division, and the shifted remainder stays below 2 to the 127th |
| Int128Arithmetic.TakeAway | inet/src/inet/common/int128.cc:276-279 | subtracting the divisor and setting a bit of the quotient keeps it, and the bit was not set before |
| Int128Arithmetic.TruncatedIsUnique | inet/src/inet/common/int128.cc:239-289 | there is only one such quotient and remainder |
| Int128Arithmetic.MinIsNotDivided | inet/src/inet/common/int128.cc:249-253 | zero and the smallest number are not the quotient and remainder of the smallest number by any divisor |
| Int128Rounds.MinDivisorNeverEnds | inet/src/inet/common/int128.cc:246-279 | with the smallest number as divisor, for every dividend, the early exit is not taken, and after any number of rounds the remainder is zero or that number, and not less than the divisor |
| Int128Rounds.DivisionEnds | inet/src/inet/common/int128.cc:246-279 | for every dividend and divisor but zero the division returns at once or its loops end after some number of rounds if and only if the divisor is not the smallest number |
| Int128Words.LessIsNumeric | inet/src/inet/common/int128.cc:382-392 | the comparison is the numeric order if and only if it is not the case that both high words are the same negative one and exactly one low word has its top bit set |
| Int128Words.LessIsWrong | inet/src/inet/common/int128.cc:382-392 | two numbers that the comparison orders wrongly |
| Int128Words.AddWords | inet/src/inet/common/int128.cc:204-214 | adding words with the carry taken from the wrapped low sum is addition modulo 2 to the 128th |
| Int128Words.ShiftRightWords | inet/src/inet/common/int128.cc:335-347 | moving the low bits of the high word down is division rounded down |
| Int128Words.ShiftLeftWords | inet/src/inet/common/int128.cc:365-377 | moving the high bits of the low word up is multiplication modulo 2 to the 128th |
| Int128s.Int128.ToString | inet/src/inet/common/int128.cc:37-62 | the text of the number in every radix; the smallest number gives minus zero |
| Int128s.Int128.PutDigits | inet/src/inet/common/int128.cc:44-56 | all digits of every magnitude and radix fit the buffer, and its guard never stops the loop |
| Int128s.Int128.Set | inet/src/inet/common/int128.cc:64-109 | the number that the text is parsed as, modulo 2 to the 128th; which number that is, is proved in TextIsRead for every text |
| Int128s.RoundTrip | inet/src/inet/common/int128.cc:37-109 | printing in decimal and reading gives the number back, if and only if it is not the smallest one |
| Int128Text.DecimalRoundTrip | inet/src/inet/common/int128.cc:37-109 | the decimal text of every integer is parsed as that integer, zero as an octal number without digits |
| Int128Text.PrefixedRoundTrip | inet/src/inet/common/int128.cc:83-90 | hexadecimal text behind 0x and octal text behind 0, after a minus or not, are parsed as the number they are the text of, for every number |
| Int128Text.OneLetterTooMany | inet/src/inet/common/int128.cc:92-101 | the parser takes a character for a digit as large as the radix if and only if it is the letter after the last digit |
| Int128Text.TenIsADecimalDigit | inet/src/inet/common/int128.cc:92-101 | the decimal text 1a is parsed as twenty |
| Int128Text.DigitOfIs | inet/src/inet/common/int128.cc:92-101 | in every radix, the parser takes a character for a digit if and only if it is the decimal, small or capital character of that digit, or the letter after the last one |
| Int128Text.TextIsRead | inet/src/inet/common/int128.cc:64-109 | a text of a sign or none, a prefix that announces the radix, digits in any mixture of cases and a rest that begins with no digit is parsed as the positional sum of the digits, with the sign |
| Int128Text.EveryTextIsRead | inet/src/inet/common/int128.cc:64-109 | every text is such a text |
| Int128Text.DigitCharIs | inet/src/inet/common/int128.cc:52-56 | the printer writes the decimal or capital character of every digit |
| Int128Text.PrintedIsPositional | inet/src/inet/common/int128.cc:37-62 | a number is printed with capital digits below the radix, without leading zeros, and is their positional sum; zero is printed in every radix |
| StateMachines.Machine.Transit | inet/src/inet/common/Macho.cc:346-394 | one transition is a step of a run: it logs the exits and entries between the states, notes the histories, follows the boxes, and leaves pending what the initialisation of the target wants; it fails exactly if that is anything but a proper substate |
| StateMachines.Machine.Settle | inet/src/inet/common/Macho.cc:345-394 | transitions come to an end in the target or below it, by the steps of a run |
| StateMachines.Machine.RattleOn | inet/src/inet/common/Macho.cc:339-403 | the machine goes on by the steps of a run until nothing is pending or it fails; whatever user code asks for, the log stays well nested, its open states are those from the top to the current one, and histories and boxes stay in order |
| StateMachines.Machine.Start | inet/src/inet/common/Macho.cc:248-256 | the machine goes from the root to the state or below it: it ends where the run from there does |
| StateMachines.Machine.Dispatch | inet/src/inet/common/Macho.cc:395-402 | the event is handled, and the machine ends where the run that begins with the event does, with current state, log, histories, boxes and calls of user code as in that run |
| StateMachines.Machine.Shutdown | inet/src/inet/common/Macho.cc:268-278 | every open state is left, and noted in the histories, and nothing else happens |
| StateMachines.Machine.Exit | inet/src/inet/common/Macho.cc:156-173 | the exit actions from a state up to the first superstate of the next one |
| StateMachines.Machine.Entry | inet/src/inet/common/Macho.cc:139-154 | the entry actions down to a state from the first superstate that contains the previous one |
| StateMachines.Machine.Initialize | inet/src/inet/common/Macho.cc:175-187 | the history is gone into if it is asked for and there is one, otherwise the state decides; then it is forgotten |
| StateMachines.Machine.ClearHistoryDeep | inet/src/inet/common/Macho.cc:298-306 | exactly the state and its substates forget their histories |
| StateRuns.RunIsUnique | inet/src/inet/common/Macho.cc:339-403 | of the runs from the same beginning that come to rest or fail there is only one, so the relation says where the machine rests |
| StateRuns.HistoryReturns | inet/src/inet/common/Macho.cc:175-187 | in every run, a state that keeps a history, one of whose proper substates is left, and that is entered again with its history asked for, goes on to the substate on the way to the state left if it is shallow, and to that state if it is deep; no user code is called, and the history is forgotten |
| StateRuns.UserDecides | inet/src/inet/common/Macho.cc:175-187 | a state without a history, or not asked for it, goes on to where user code wants |
| StateTrees.TransitionLeads | inet/src/inet/common/Macho.cc:139-173 | the exits and entries of any transition are well nested and lead from the superstates of the source to those of the target, each state entered inside exactly its superstates |
| StateTrees.StaysIs | inet/src/inet/common/Macho.cc:156-173 | what is not left are exactly the common superstates of both ends except the target |
| StateTrees.SelfTransition | inet/src/inet/common/Macho.cc:156-173 | a transition to the current state or a superstate leaves the target and enters it again, and enters nothing else |
| StateTrees.HistoryIsRecorded | inet/src/inet/common/Macho.h:727-739 | a transition sets the history of exactly the proper superstates of the state it leaves that keep one: to the substate on the way if it is shallow, to the state left if it is deep |
| StateTrees.RecordedIsOk | inet/src/inet/common/Macho.h:275-297 | every history stays a proper substate, a direct one if it is shallow |
| StateTrees.BoxesFollow | inet/src/inet/common/Macho.h:913-923 | every open state has a box, and a box of its own exists only while the state is open |
| StateTrees.ExitsLead | inet/src/inet/common/Macho.cc:156-173 | the exit actions close the states from the inside out |
| StateTrees.EntriesLead | inet/src/inet/common/Macho.cc:139-154 | the entry actions open them from the outside in, beginning where the exits ended |
| PatternMatchers.PatternMatcher.SetPattern | inet/src/inet/common/PatternMatcher.cc:49-110 | the elements are those of the specification; an unclosed set is an error, and so, in the model, is a lone backslash at the end; splitting ends. Which elements these are, is proved in SplitExactlyIfWritten |
| PatternMatchers.PatternMatcher.ParseSet | inet/src/inet/common/PatternMatcher.cc:112-146 | the ranges of a set and where it ends |
| PatternMatchers.PatternMatcher.ParseLiteralString | inet/src/inet/common/PatternMatcher.cc:148-162 | a literal and where it ends, as LiteralIsRead says; a lone backslash at the end is an error in the model |
| PatternMatchers.PatternMatcher.ParseNumRange | inet/src/inet/common/PatternMatcher.cc:164-191 | the bounds of a numeric range and where it ends, or none |
| PatternMatchers.PatternMatcher.IsInSet | inet/src/inet/common/PatternMatcher.cc:245-256 | the character is in one of the ranges |
| PatternMatchers.PatternMatcher.DoMatch | inet/src/inet/common/PatternMatcher.cc:258-356 | the rest of the line matches the rest of the pattern if and only if it is in its language |
| PatternMatchers.PatternMatcher.MatchAnySeq | inet/src/inet/common/PatternMatcher.cc:317-334 | the shortcuts for a last ** and for ** before a last literal change nothing |
| PatternMatchers.PatternMatcher.Matches | inet/src/inet/common/PatternMatcher.cc:358-382 | a line matches if and only if it is in the language of the pattern, that is, can be cut into pieces that the elements stand for; comparing the last two characters first changes nothing |
| PatternRendering.RenderedIsRead | inet/src/inet/common/PatternMatcher.cc:49-110 | every list of elements in normal form can be written as a pattern that is split into just these elements |
| PatternRendering.SplitExactly | inet/src/inet/common/PatternMatcher.cc:49-110 | a list of elements is what some pattern is split into if and only if it is in normal form: no empty or adjacent literals, no * before * or **, sets with the closing brace first only, elements of the pattern's mode |
| PatternSyntax.SplitExactlyIfWritten | inet/src/inet/common/PatternMatcher.cc:49-191 | a pattern is split into a list of elements if and only if it can be cut into pieces that write them: wildcards, sets and numeric ranges in braces, numeric ranges in brackets, and literals whose characters are bare or behind a backslash and that end at the first bracket that begins a numeric range |
| PatternSyntax.RefusedExactlyIfBroken | inet/src/inet/common/PatternMatcher.cc:112-162 | a pattern is refused if and only if after some elements it goes on with a set that no brace closes, or with a literal that ends in a lone backslash, and the error says which |
| PatternSyntax.RangeExactly | inet/src/inet/common/PatternMatcher.cc:164-191 | a bracket or brace is taken for the beginning of a numeric range if and only if two numbers, either of which may be missing, with two dots between them and the closing character follow |
| PatternSyntax.LiteralIsRead | inet/src/inet/common/PatternMatcher.cc:148-162 | what is written as a literal is read as its text, up to where the literal ends |
| PatternSyntax.SetIsRead | inet/src/inet/common/PatternMatcher.cc:112-146 | what is written as a set is read as its ranges, up to the first closing brace that does not come first |
| PatternSyntax.BareRangeMatchesNumbers | inet/src/inet/common/PatternMatcher.cc:64-69 | a text without special characters, followed by a numeric range in brackets, matches exactly the text followed by a number of the range in brackets |
| PatternMatchers.FinishedMatches | inet/src/inet/common/PatternMatcher.cc:98-109 | for a match of the whole line the elements must stand for all of it, and for a match of a part for some part of it, whatever they begin and end with |
| PatternLanguage.TrailingAnySeq | inet/src/inet/common/PatternMatcher.cc:318-322 | whatever is left is in the language of a last ** |
| PatternLanguage.TrailingAnySeqLiteral | inet/src/inet/common/PatternMatcher.cc:323-324 | ** and a last literal stand for exactly the lines that end in the literal |
| PatternLanguage.EndsInLiteral | inet/src/inet/common/PatternMatcher.cc:368-378 | a line in the language of a pattern that ends in a literal ends in it |
| PatternLanguage.NumberPiece | inet/src/inet/common/PatternMatcher.cc:307-315 | where a number starts there is exactly one place where it can end |
| PatternMatchers.PlainPattern | inet/src/inet/common/PatternMatcher.cc:410-415 | a pattern without wildcards matches exactly itself, or in a part match exactly the lines it occurs in |
| PatternMatchers.EscapedMatchesItself | inet/src/inet/common/PatternMatcher.cc:148-162 | a text with a backslash before every character matches exactly that text |
| PatternMatchers.EscapedCharacter | inet/src/inet/common/PatternMatcher.cc:154-160 | a backslash makes the next character part of the literal; the literal ends there, so that the character is read again, if and only if it is a bracket that begins a numeric range |
| PatternMatchers.QuotedMatchesItself | inet/src/inet/common/PatternMatcher.cc:148-162 | a text with a backslash before every special character matches exactly itself, or in a part match exactly the lines it occurs in, if and only if no bracket in it begins a numeric range |
| PatternMatchers.EscapedRangeMatchesNumbers | inet/src/inet/common/PatternMatcher.cc:148-162 | for every numeric range, a backslash before its bracket has no effect: the pattern matches exactly the numbers of the range between brackets |
| PatternMatchers.BracketIsNotEscaped | inet/src/inet/common/PatternMatcher.cc:148-162 | the elements of one such pattern |
| MemoryStreams.MemoryOutputStream.WriteBit | inet/src/inet/common/MemoryOutputStream.h:96-105 | the bit joins the end; the bytes are the bits with the first one most significant and zeros in the rest of the last byte |
| MemoryStreams.MemoryOutputStream.WriteBits | inet/src/inet/common/MemoryOutputStream.h:119-123 | the bits join the end in order |
| MemoryStreams.MemoryOutputStream.WriteByte | inet/src/inet/common/MemoryOutputStream.h:131-135 | at a multiple of eight bits the byte joins the end |
| MemoryStreams.MemoryOutputStream.WriteBytes | inet/src/inet/common/MemoryOutputStream.h:150-155 | and so do several bytes |
| MemoryStreams.MemoryOutputStream.WriteUint2 | inet/src/inet/common/MemoryOutputStream.h:174-177 | the two low bits, the higher one first |
| MemoryStreams.MemoryOutputStream.WriteUint4 | inet/src/inet/common/MemoryOutputStream.h:183-188 | the four low bits, the highest one first |
| MemoryStreams.MemoryOutputStream.WriteUint32Be | inet/src/inet/common/MemoryOutputStream.h:220-225 | the four bytes of the number, the most significant one first |
| MemoryStreams.MemoryOutputStream.WriteUint64Le | inet/src/inet/common/MemoryOutputStream.h:257-266 | the eight bytes of the number, the least significant one first |
| MemoryStreams.MemoryInputStream.Seek | inet/src/inet/common/MemoryInputStream.h:131-134 | the position is where it is set to, within the stream |
| MemoryStreams.MemoryInputStream.ReadBit | inet/src/inet/common/MemoryInputStream.h:142-156 | the next bit; at the end false, and the flag is set |
| MemoryStreams.MemoryInputStream.ReadBits | inet/src/inet/common/MemoryInputStream.h:172-180 | the next bits; if there are too few, all of them and one more that is false, and the flag is set; none if it is set already |
| MemoryStreams.MemoryInputStream.ReadByte | inet/src/inet/common/MemoryInputStream.h:188-200 | the next byte; if less than a byte is left zero, the end, and the flag is set |
| MemoryStreams.MemoryInputStream.ReadBytes | inet/src/inet/common/MemoryInputStream.h:217-226 | the next bytes, as many as there are; an error if and only if there are too few bits and no whole number of bytes |
| MemoryStreams.MemoryInputStream.ReadUint32Be | inet/src/inet/common/MemoryInputStream.h:304-311 | the number whose bytes are next, the most significant one first; bytes that are not there count as zero, and the flag is set |
| MemoryStreams.MemoryInputStream.ReadUint64Le | inet/src/inet/common/MemoryInputStream.h:347-358 | the number whose bytes are next, the least significant one first; bytes that are not there count as zero, and the flag is set |
| MemoryStreams.MemoryInputStream.ReadUint4 | inet/src/inet/common/MemoryInputStream.h:261-268 | the number whose four bits are next; bits that are not there count as zero, and the flag is set |
| MemoryStreams.RoundTrip | inet/src/inet/common/MemoryOutputStream.h:96-266 | whatever list of items is written, with byte-level ones aligned, reading the same kinds gives the items back (numbers as far as they fit), ends exactly at the end, and never reads beyond it |
| MemoryStreams.ReadItem | inet/src/inet/common/MemoryInputStream.h:142-358 | what an item was written as is read as that item |
| MemoryStreams.AppendedIsPacked | inet/src/inet/common/MemoryOutputStream.h:96-105 | setting one bit of a byte keeps all others and the zeros behind the end |
| BitSequences.BeRoundTrip | inet/src/inet/common/MemoryInputStream.h:282-341 | assembling the bytes of a number, most significant first, gives it back as far as they reach |
| BitSequences.LeRoundTrip | inet/src/inet/common/MemoryInputStream.h:293-358 | and least significant first |
| BitSequences.OrdersAreReverse | inet/src/inet/common/MemoryOutputStream.h:202-266 | the two byte orders are each other's reverse |
| BitSequences.NumbersAreWritten | inet/src/inet/common/MemoryOutputStream.h:174-262 | what is written as a number of two or four bits, or of several bytes with the most significant one first, is as bits, the most significant one first, that number as far as they reach |
| MemoryStreams.ShiftedBytes | inet/src/inet/common/MemoryOutputStream.h:202-266 | byte k of a number is the number divided by 256 to the k, modulo 256; it comes k-th if the least significant one is first, and k-th from the end otherwise |
| BitSequences.UnpackIsInjective | inet/src/inet/common/MemoryOutputStream.h:36-46 | different bytes have different bits |

## Left out

- Modules, gates, signals, display strings, packets, sockets and the simulation kernel, which are foreign calls.
- Interval tree: freeing memory, failing allocations, and printing; a deleted node is simply no longer part of the tree.
- Topology: building a graph from the network, the variant of addLink that takes gates, findNetworks, and freeing memory; links and nodes that are deleted keep their fields. NaN weights are not modelled.
- DHCP: destination addresses and ports, relay agents, masks, gateways and name servers in leases, routes, lease expiry in the server (which the source does not have), stopping the server, and messages that arrive before a client's socket is open. A message may reach any node, which allows more than the network does.
- DhcpClients.DhcpClient.HandleDhcpMessage: says nothing about the fields after an error, because the simulation ends with it.
- 128-bit integers: conversions to and from floating point, the bitwise operators, the assignments from machine integers, and division by zero.
- Int128s.Int128.Div: the divisor is neither zero, where the code divides by zero, nor the smallest number, where it does not end.
- State machines: snapshots, aliases, parameterised initialisers and events, setBox and the other deprecated transitions, lazily created state objects, and the contents of boxes. A box is present or absent.
- StateMachines.Machine.RattleOn: the asserts of the source against transitions asked for during entry and exit are not modelled, because user code is not called there.
- PatternMatchers.PatternMatcher.SetPattern: says nothing of a pattern that ends in a lone backslash but that the model makes it an error, because the code reads behind the end of the text then.
- PatternMatchers.PatternMatcher.ParseLiteralString: nor of such a literal, for the same reason.
- Patterns: matching without regard to case, patternPrefixMatches, overflow of long numbers, and debug output.
- Bit streams: writing or reading the same bit or byte repeatedly, copying data out, and MAC and IP addresses, which are sequences of the items modelled.
- Easy code of the library: protocol groups, dispatcher maps, byte arrays, XML and NED helpers, units, statistics, graphics and scripts.
