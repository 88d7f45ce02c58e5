# lan-link protocols and data structures, verified

A Dafny model of the parts of lan-link whose correctness is hardest to see from the code, with proofs
over every input, every run or every interleaving:

- **Selective-repeat ARQ** (`Reliable`, `ReliableSystem`, `ReliableProgress`, `ReliableDelivery`,
  `Retransmission`): sender and receiver as
  mutable objects with wrapping 32-bit sequence numbers, and both ends over a network that loses,
  repeats and reorders.
- **Registry election** (`Election`, `ElectionCluster`, `ElectionProgress`, `ActingLeaders`): one node's
  handlers, and a cluster of any size whose messages are never forgotten and may be delivered any number of times in any order.
- **DHT and routing** (`NodeDistance`, `Buckets`, `RoutingTable`, `RoutingHistory`, `RoutingContents`,
  `NearestSearch`, `NodeListCodec`, `Dht`, `Multihop`): 256 k-buckets under the XOR distance, nearest-node search, the wire form of node
  lists, and route discovery with its second, truncated distance.
- **Storage** (`Chunking`, `Diffing`, `Incremental`, `Reordering`, `Versions`, `Calendar`, `Timestamp`):
  splitting and rejoining, the block diff as a patch, minimal transfers, the reorder buffer, version
  history, and the civil calendar of section 3.2.1 of ISO 8601:2004 behind its identifiers.
- **File push and rate limiting** (`FilePush`, `FilePushProgress`, `RateLimiting`): the stop-and-wait push between client
  and daemon over lossy UDP, and the daemon's windowed counter with its garbage collector.

`Machine` holds 32-bit words, results and powers of two; `Sorting` is the stable sort the standard library provides.

Conventions. An object the original updates in place is a class here; each of its methods is proved
equal to a step function on the object's value, and the theorems are about those functions and the
runs they make up. Unsigned words wrap explicitly, as in a release build. Time is a parameter. SHA-256
is an arbitrary function of bytes; where a result needs it not to collide, the hypothesis names
exactly the strings it must tell apart. Each locked section is one atomic step.

Where the code differs from its own documentation the model follows the code:

- The receiver's out-of-order buffer is described as ordered for draining, but new packets go in front
  of smaller numbers while the drain reads the front, so a filled gap does not drain what waits behind
  it (`DrainLimit`, `FilledGapStaysStuck`).
- A node told of a leader drops the vote it gave in that same term, so two leaders of one term are
  possible (`TwoLeadersInOneTerm`). `OneVoteIff` gives the exact runs on which no node votes for two
  candidates of a term, and on those `ElectionSafety` holds. Even
  then a node that still leads an earlier term takes over the term in a sync reply and goes on leading
  (`TwoActingLeaders`); `TwoLeadIff` says that nothing else does this.
- An acknowledgement names one packet and its bitmap stays empty, so a packet the receiver has passed
  without naming is never acknowledged, and the sender's window stops for good (`StallsUnless`,
  `SkippedAckStalls`).
- Becoming a follower is documented to stop the registry service; without a new registry named it keeps
  running (`DemotionLeavesServiceOn`).
- A k-bucket is documented to move an updated node to the back and to hand back its oldest node when
  full; it updates in place and hands back the new node. `InsertKeepsOrderIff` says exactly when the
  order of last sight survives, `UpdatedFrontHidesStale` what a refresh then misses. A refresh is
  documented to check the oldest node; it drops every node of a bucket whose front is stale, fresh ones
  included (`RefreshDropsFresh`), and looks at the oldest exactly when that stands in front
  (`StaleIffSomeUnseen`). `StepKnows` says what each step keeps.
- `can_assemble` is documented as "all blocks received"; it counts the blocks still buffered. It holds
  exactly when all have arrived and each one already handed out has arrived again (`CanAssembleIff`),
  so without repeats it is false from the first block handed out (`CanAssembleOnce`), and with one it
  can be true although a block is out (`AssemblesAfterDrain`).
- The rate limiter is documented as a sliding window of `limit` requests; the bound that holds is
  `2 * limit - 1`, and it is reached (`RateBound`, `RateBoundIsReached`). Its 32-bit counter wraps, so
  the bound holds exactly up to a number of requests in 60 seconds (`RateLimitIff`).
- The file push acknowledges how far each chunk reaches and not what was written before it; with the
  request delivered twice a push can succeed over an empty file (`LateRequestTruncates`). A push of
  nothing reports success whatever the file holds (`EmptyPushIff`).

## Model

| member | source | states |
|---|---|---|
| Reliable.ReliableSender.Send | crates/protocol/src/reliable.rs:47-62 | a full window of 32 refuses and changes nothing; otherwise the packet gets the next number and a new slot at the back |
| Reliable.ReliableSender.OnAck | crates/protocol/src/reliable.rs:65-89 | marks exactly the slots the acknowledgement confirms, reports those newly confirmed, and slides past the confirmed front |
| Reliable.ReliableSender.PollRetransmit | crates/protocol/src/reliable.rs:93-107 | resends exactly the unacknowledged slots past their timeout and below the retry limit, and touches no others |
| Reliable.ReliableReceiver.Deliver | crates/protocol/src/reliable.rs:154-191 | the new state and the payloads handed up, for in-order, buffered, repeated and out-of-window packets |
| Reliable.ReliableReceiver.Acknowledge | crates/protocol/src/reliable.rs:194-196 | the number before the next expected one and a bitmap that is always 0 |
| ReliableSystem.PrefixSafety | crates/protocol/src/reliable.rs:47-196 | on every run with fewer than 2^32 packets, whatever the network does, what was handed up is a prefix of what was sent |
| ReliableSystem.WindowSafety | crates/protocol/src/reliable.rs:47-89 | slots are the contiguous numbers from the window base, at most 32, with the data sent under them; an acknowledged slot has been handed up; base, expected and next number are ordered |
| ReliableDelivery.DiscardsOnlyDelivered | crates/protocol/src/reliable.rs:154-191 | on every run below 2^32 packets, after it arrived a packet is in the buffer, unless it has been handed up in its place and intact |
| ReliableDelivery.ArrivedIsKept | crates/protocol/src/reliable.rs:154-191 | on every run below 2^32 packets, whatever has arrived stays in the buffer until it is handed up in its place |
| ReliableDelivery.AheadIsBuffered | crates/protocol/src/reliable.rs:173-186 | a packet ahead of the receiver is at most 31 ahead; its arrival puts its number in the buffer, loses nothing buffered and hands up nothing, and changes nothing if and only if the number was there |
| ReliableDelivery.ExpectedIsHandedUp | crates/protocol/src/reliable.rs:157-172 | the expected packet is handed up at once, together with its successor exactly if that lies at the front of the buffer; all else stays buffered |
| ReliableDelivery.BehindIsDropped | crates/protocol/src/reliable.rs:154-190 | a packet handed up before is not handed up again; its arrival changes nothing if and only if it lies less than 2^32 - 32 behind or is found in the buffer |
| ReliableDelivery.QueueTakesIff | crates/protocol/src/reliable.rs:47-62 | on every run a payload is taken if and only if fewer than 32 packets are in the window, and becomes the next packet, sent now and not yet repeated |
| ReliableDelivery.AcknowledgesLast | crates/protocol/src/reliable.rs:194-196 | on every run the receiver acknowledges exactly the packet it handed up last, or 2^32 - 1 before the first |
| Retransmission.ResentIff | crates/protocol/src/reliable.rs:93-107 | on every run a poll sends a packet again if and only if no acknowledgement naming it was delivered, it was sent at most ten times and its last send is 200 ms ago or more; each at most once, in order and with its payload |
| Retransmission.AckConfirmsNamed | crates/protocol/src/reliable.rs:65-89 | for every bitmap, and every window that does not cross 2^32, exactly the named packets stop being unacknowledged and are reported, once each and in order: the number itself, and the one d + 1 after it for each set bit d; the window then begins at the first unacknowledged packet |
| ReliableSystem.RepeatAtWrap | crates/protocol/src/reliable.rs:47-62 | a run of exactly 2^32 packets on which a late duplicate is handed up a second time |
| ReliableSystem.SafetyLimit | crates/protocol/src/reliable.rs:47-196 | all runs of at most `limit` packets are safe if and only if `limit` is below 2^32 |
| ReliableSystem.DrainLimit | crates/protocol/src/reliable.rs:154-191 | one delivery hands up at most two payloads; after an in-order packet its successor stays stuck exactly when it is buffered but not in front |
| ReliableSystem.FilledGapStaysStuck | crates/protocol/src/reliable.rs:163-191 | packets 2, 1, 0 arriving in this order leave 1 and 2 in the buffer |
| ReliableProgress.StallsUnless | crates/protocol/src/reliable.rs:65-89 | an unacknowledged packet the receiver is past stays so on every continuation below 2^32 packets if and only if no acknowledgement naming it, emitted before, still arrives; until then at most 32 packets from it on can be queued |
| ReliableProgress.SkippedAckStalls | crates/protocol/src/reliable.rs:154-196 | with nothing lost, two packets that arrive before the first acknowledgement stop the sender at 32 packets on every continuation |
| ReliableProgress.UnackedIff | crates/protocol/src/reliable.rs:65-89 | on every run below 2^32 packets, a sent packet is unacknowledged if and only if no emitted acknowledgement naming it has been delivered |
| ReliableProgress.WindowBaseIsLeastUndelivered | crates/protocol/src/reliable.rs:84-87 | so the window begins at the least packet whose own acknowledgement has not been delivered |
| Election.ElectionManager.Start | crates/vpn/src/registry/election.rs:642-697 | a candidate does nothing, a node that knows nobody fails, any other stands in the next term with its own vote |
| Election.ElectionManager.Lead | crates/vpn/src/registry/election.rs:703-768 | status, registry and announcements of a node that has won |
| Election.ElectionManager.Follow | crates/vpn/src/registry/election.rs:774-823 | the term never goes down and the vote is dropped even when the term stays |
| Election.ElectionManager.HandleRequest | crates/vpn/src/registry/election.rs:869-902 | answers every request; grants only in a current term, with no vote given, to itself or a candidate whose hash beats its own value |
| Election.ElectionManager.HandleVote | crates/vpn/src/registry/election.rs:905-946 | counts a grant once, for its own candidacy in its current term, and leads on a strict majority |
| Election.ElectionManager.HandleResult | crates/vpn/src/registry/election.rs:949-972 | a result of a current or later term naming another node makes it follow that node |
| Election.ElectionManager.HandleRegistryChange | crates/vpn/src/registry/election.rs:975-1020 | the same for an announced change of registry |
| Election.ElectionManager.HandleRegistrySync | crates/vpn/src/registry/election.rs:1023-1066 | only a leader answers; one asked from a later term steps down instead |
| Election.ElectionManager.HandleSyncResponse | crates/vpn/src/registry/election.rs:1100-1134 | takes over a higher term and the registry, and keeps its status and its vote |
| Election.ElectionManager.HandleMessage | crates/vpn/src/registry/election.rs:840-866 | each message kind reaches its handler; sync replies, which the original is handed separately, are a message here |
| Election.DemotionLeavesServiceOn | crates/vpn/src/registry/election.rs:869-902 | a leader demoted by a request of a later term keeps the registry service running |
| ElectionProgress.RequestOutcome | crates/vpn/src/registry/election.rs:869-902 | in every state of a cluster: which requests are granted, and that one of a later term resets its receiver to a follower of that term and nothing else does |
| ElectionProgress.NewsOutcome | crates/vpn/src/registry/election.rs:949-1020 | a result or registry change naming another leader of no earlier term makes its receiver a follower of that leader that serves no registry; any other changes nothing |
| ElectionProgress.VoteOutcome | crates/vpn/src/registry/election.rs:905-946 | a grant of the current term not counted before is counted, and makes its candidate lead and announce itself if and only if it completes a strict majority; any other vote changes nothing |
| ElectionProgress.CandidateLacksMajority | crates/vpn/src/registry/election.rs:905-946 | on every run a candidate's votes are exactly the grants that reached it since it last stood, each once, and no majority |
| ElectionProgress.LeadsIff | crates/vpn/src/registry/election.rs:905-946 | on every run a node starts to lead with a step if and only if it stands and the step brings a grant with which those that reached it since it stood are more than half |
| ElectionProgress.GrantsAreEarned | crates/vpn/src/registry/election.rs:1189-1218 | on every run each grant comes from the candidate itself or from a node whose own value the candidate's hash exceeds, and only nodes that know someone stand |
| ElectionProgress.ElectableIff | crates/vpn/src/registry/election.rs:642-946 | in every fresh cluster of fewer than 2^62 nodes some run elects a node in term 1 if and only if it knows someone and it and the nodes whose value its hash exceeds are more than half of those it counts |
| ElectionProgress.WinsIf | crates/vpn/src/registry/election.rs:642-1020 | then a run exists after which it leads and serves, and every other node follows it in term 1 with it as registry |
| ElectionCluster.LeaderQuorum | crates/vpn/src/registry/election.rs:905-946 | on every run a node that turns leader announces itself and has a strict majority of distinct voters, each of which granted it a vote in that same term |
| ElectionCluster.TermsNeverDecrease | crates/vpn/src/registry/election.rs:774-779 | on every run no node's term ever goes down |
| ElectionCluster.OneVoteIff | crates/vpn/src/registry/election.rs:787-795 | on every run, no node grants two candidates of one term if and only if no node that dropped its vote was handed a request of that term it would grant to someone new |
| ElectionCluster.NoLateRequestIsEnough | crates/vpn/src/registry/election.rs:869-902 | it is enough that no node is handed a request of a term in which it dropped a vote |
| ElectionCluster.ElectionSafety | crates/vpn/src/registry/election.rs:642-1020 | on such runs, with fixed membership, at most one node is ever elected in a term |
| ElectionCluster.OneActingLeader | crates/vpn/src/registry/election.rs:1100-1107 | on such runs at most one of the nodes that have not taken a term from a sync reply while leading acts as leader of a term |
| ActingLeaders.TwoLeadIff | crates/vpn/src/registry/election.rs:1100-1107 | after such a run with one acting leader per term, the next step gives a term two if and only if it hands a node that leads an earlier term a sync reply of a term another node leads |
| ActingLeaders.TwoActingLeaders | crates/vpn/src/registry/election.rs:1071-1107 | ten steps of three nodes, no vote dropped, after which two of them lead term 2 |
| ElectionCluster.SecondVoteIff | crates/vpn/src/registry/election.rs:869-902 | after any run on which each node voted once per term, handling a request breaks that if and only if the node dropped its vote in that term and would grant someone new |
| ElectionCluster.TwoLeadersInOneTerm | crates/vpn/src/registry/election.rs:787-795 | seven steps of three nodes after which two of them have been elected in term 1 |
| NodeDistance.ComputeDistance | crates/vpn/src/vpn/dht.rs:372-380 | fills 32 bytes with the bytewise exclusive or |
| NodeDistance.CmpXor | crates/vpn/src/vpn/dht.rs:837-844 | the bytewise comparison orders distances as 256-bit numbers |
| NodeDistance.ComputeBucketIndex | crates/vpn/src/vpn/dht.rs:388-399 | the position of the highest differing bit, 255 for the local identifier itself |
| NodeDistance.DistanceBit | crates/vpn/src/vpn/dht.rs:372-380 | a bit of the distance is set if and only if the two identifiers differ there |
| NodeDistance.BucketIsCommonPrefix | crates/vpn/src/vpn/dht.rs:388-399 | the index of another node is the number of leading bits it shares with the local one |
| NodeDistance.DistInjective | crates/vpn/src/vpn/dht.rs:372-380 | two nodes are equally far from a point only if they are the same node |
| NodeDistance.BucketMeasuresDistance | crates/vpn/src/vpn/dht.rs:388-399 | the index is i if and only if the distance lies in [2^(255-i), 2^(256-i)) |
| NodeDistance.LowerBucketIsFarther | crates/vpn/src/vpn/dht.rs:388-399 | every node of a lower-numbered bucket is farther than every node of a higher-numbered one |
| Sorting.SortIsStable | crates/vpn/src/vpn/dht.rs:475 | the sort is a permutation in key order that keeps equal keys in their order |
| Buckets.KBucket.Insert | crates/vpn/src/vpn/dht.rs:164-189 | a known node is updated in place, a new one goes to the back, a full bucket hands the new one back |
| Buckets.KBucket.Touch | crates/vpn/src/vpn/dht.rs:192-202 | the node moves to the back with the new time; true exactly if it was there |
| Buckets.TouchMovesToBack | crates/vpn/src/vpn/dht.rs:192-202 | the entry ends up at the back with its address and the new time, all others in their order |
| Buckets.KBucket.Remove | crates/vpn/src/vpn/dht.rs:205-211 | the node is gone and returned, the others keep their order |
| Buckets.KBucket.Sweep | crates/vpn/src/vpn/dht.rs:598-622 | one round of a refresh empties the bucket exactly if its front was unseen for 300 seconds |
| Buckets.InsertKeepsOrderIff | crates/vpn/src/vpn/dht.rs:164-189 | with a clock that does not go back an insertion keeps the bucket in order of last sight if and only if the node is new, at the back, or everything behind it was seen at that moment |
| Buckets.TouchKeepsOrder | crates/vpn/src/vpn/dht.rs:192-202 | a touch always keeps that order |
| Buckets.StaleIffSomeUnseen | crates/vpn/src/vpn/dht.rs:602-605 | the refresh fires at every moment exactly when some node has gone unseen for 300 seconds, if and only if the front was seen longest ago |
| Buckets.UpdatedFrontHidesStale | crates/vpn/src/vpn/dht.rs:164-173 | a bucket whose front was inserted again, so that the refresh leaves a node unseen for longer |
| Buckets.RefreshDropsFresh | crates/vpn/src/vpn/dht.rs:608-622 | a bucket the refresh empties with a node just seen in it |
| Buckets.FullHandsBackNew | crates/vpn/src/vpn/dht.rs:182-188 | an insertion fails exactly for a new node in a full bucket, changes nothing and hands that node back, never one it holds |
| RoutingTable.AlwaysOk | crates/vpn/src/vpn/dht.rs:415-452 | on every run of insert, touch, remove, refresh and messages each bucket holds at most 20 nodes, each once, none local, each in the bucket its index gives |
| RoutingTable.StepKnows | crates/vpn/src/vpn/dht.rs:595-736 | when a node is known after a step: insertion learns it unless its bucket is full, only removal and refresh forget, messages forget nobody and learn only listed nodes |
| RoutingHistory.MessageLearnsIff | crates/vpn/src/vpn/dht.rs:698-705 | after a message exactly the nodes known before are known, and the listed ones whose bucket had room when their turn came |
| RoutingHistory.InsertOrderIff | crates/vpn/src/vpn/dht.rs:415-428 | with a clock that does not go back an insertion keeps all buckets in order of last sight if and only if it updates no node with one behind it last seen at another moment |
| RoutingHistory.CalmRunKeepsOrder | crates/vpn/src/vpn/dht.rs:415-626 | on every run without such an insertion all buckets stay in that order, and a refresh fires on a bucket exactly when one of its nodes has gone unseen for 300 seconds |
| RoutingContents.TableHoldsRecord | crates/vpn/src/vpn/dht.rs:164-211 | on every run the table holds of each node exactly what is on record: the address of its last insertion or listing that took effect and the time it was last seen, and nothing once it was removed or its bucket swept |
| NearestSearch.AllNodesListKnown | crates/vpn/src/vpn/dht.rs:462-472 | the listing is exactly the identifiers and addresses the buckets hold, each identifier once |
| NearestSearch.NearestIsExact | crates/vpn/src/vpn/dht.rs:462-483 | min(count, size) nodes of the table with the addresses held, strictly nearest first, and every known node left out is farther than every node returned |
| NearestSearch.NearestDependsOnKnown | crates/vpn/src/vpn/dht.rs:462-483 | tables that know the same nodes return the same identifiers, whatever their histories |
| NodeListCodec.EncodeNodeList | crates/vpn/src/vpn/dht.rs:770-784 | the layout: count, then identifier, length and address of each node, all clipped to 16 bits |
| NodeListCodec.DecodeNodeList | crates/vpn/src/vpn/dht.rs:787-819 | reads nodes until the count is met or the bytes run out, never out of range |
| NodeListCodec.ReadsBack | crates/vpn/src/vpn/dht.rs:770-819 | for every list, decoding its encoding gives its first 65535 nodes with addresses cut at 65535 bytes, or empty where the cut splits a character |
| NodeListCodec.RoundTripIff | crates/vpn/src/vpn/dht.rs:770-819 | the round trip is exact if and only if there are at most 65535 nodes and no address is longer than 65535 bytes |
| NodeListCodec.DecodeBound | crates/vpn/src/vpn/dht.rs:787-819 | on arbitrary bytes at most the announced count is returned, and 34 bytes are used up for each node |
| NodeListCodec.WireLayout | crates/vpn/src/vpn/dht.rs:770-784 | every byte of an encoding: the big-endian count, and at the offset of each node its identifier, the big-endian length of its address and the address |
| NodeListCodec.CutReads | crates/vpn/src/vpn/dht.rs:787-819 | of an encoding cut off inside a node exactly the nodes before it are read |
| NodeListCodec.ExtraBytesIgnored | crates/vpn/src/vpn/dht.rs:787-819 | bytes after the last announced node are not read |
| Dht.DhtManager.constructor | crates/vpn/src/vpn/dht.rs:318-344 | 256 distinct empty buckets of capacity 20 |
| Dht.DhtManager.InsertNode | crates/vpn/src/vpn/dht.rs:415-428 | the local node is ignored; otherwise only the bucket of its index changes |
| Dht.DhtManager.TouchNode | crates/vpn/src/vpn/dht.rs:431-438 | touches the node in its bucket; true exactly if it is known |
| Dht.DhtManager.RemoveNode | crates/vpn/src/vpn/dht.rs:443-450 | removes the node from its bucket and returns it exactly if it is known |
| Dht.DhtManager.FindNearest | crates/vpn/src/vpn/dht.rs:462-483 | gathers all buckets, sorts by distance and takes `count`: the function `NearestIsExact` is about |
| Dht.DhtManager.NodeCount | crates/vpn/src/vpn/dht.rs:493-498 | the number of nodes in the listing |
| Dht.DhtManager.RefreshAll | crates/vpn/src/vpn/dht.rs:595-626 | stale buckets are emptied, the others are as before, and the result is the number of nodes that disappeared |
| Dht.DhtManager.ProcessMessage | crates/vpn/src/vpn/dht.rs:653-736 | the table after every message kind and the reply to it |
| Dht.AnswerIsNearest | crates/vpn/src/vpn/dht.rs:680-696 | on every run, whoever asks for the nodes nearest to a target and decodes the answer reads exactly the min(20, size) nearest known nodes, nearest first, each with the address last inserted or listed for it |
| Dht.PingIsAnswered | crates/vpn/src/vpn/dht.rs:670-674 | a ping is answered with a pong, whatever follows it |
| Dht.GetIsAnswered | crates/vpn/src/vpn/dht.rs:711-730 | a stored key is answered with the key, the length of its value modulo 2^32 and the value; a key without one is not answered |
| Dht.OtherAnswers | crates/vpn/src/vpn/dht.rs:653-736 | a search for a target that is too short gets the empty list; nothing else is answered |
| Multihop.ComputeTruncated | crates/vpn/src/vpn/multihop.rs:613-622 | the folded 128-bit number is the first half of the distance |
| Multihop.ResortChangesNothing | crates/vpn/src/vpn/multihop.rs:278-284 | sorting a nearest-first list again on the first 128 bits leaves it as it is |
| Multihop.MultihopManager.InsertOrEvict | crates/vpn/src/vpn/multihop.rs:562-588 | replaces, inserts, or at 1000 routes first drops one with the oldest activity; never more than 1000 |
| Multihop.EvictsOldest | crates/vpn/src/vpn/multihop.rs:562-588 | at most 1000 routes are held; only a new route in a full table displaces one, and that was active no later than any other |
| Multihop.MultihopManager.DiscoverRoute | crates/vpn/src/vpn/multihop.rs:262-323 | the error in each case, the route otherwise; on an error the table is unchanged |
| Multihop.MultihopManager.FindAlternative | crates/vpn/src/vpn/multihop.rs:425-459 | succeeds exactly if the route has a candidate other than the current hop and the local node, and switches to the first |
| Multihop.AlternativeIsFirst | crates/vpn/src/vpn/multihop.rs:434-440 | a switch takes the first candidate that is neither the current hop nor the local node, and fails if and only if there is none |
| Multihop.DiscoveredKeepsOrder | crates/vpn/src/vpn/multihop.rs:289-318 | every field of a discovered route: one hop of metric 110 over the LAN or two of metric 250 over a relay, 300 seconds to live, the next ten nodes found as candidates |
| Multihop.SwitchedRoute | crates/vpn/src/vpn/multihop.rs:443-458 | every field after a switch: a relay of metric 150 or 250 with 300 seconds to live from then |
| Multihop.DiscoveryIsNearest | crates/vpn/src/vpn/multihop.rs:262-322 | discovery fails only if no node is known; the next hop is the known node nearest to the target; one hop if and only if the target is in the table |
| Multihop.FirstAlternative | crates/vpn/src/vpn/multihop.rs:425-459 | after a discovery the first switch goes to the second-nearest known node and fails if and only if there is none |
| Multihop.SwitchingAfterDiscovery | crates/vpn/src/vpn/multihop.rs:425-459 | repeated switching alternates between the second- and third-nearest known node and never reaches another |
| Chunking.Chunker.ChunkData | crates/vpn/src/storage/chunk.rs:137-178 | manifest and blocks of every input |
| Chunking.Chunker.Reassemble | crates/vpn/src/storage/chunk.rs:194-232 | accepts exactly chunks of the right number, sizes and joint hash, and joins them |
| Chunking.RoundTrip | crates/vpn/src/storage/chunk.rs:137-232 | reassembling what chunking made returns the data, for every data and chunk size |
| Chunking.Layout | crates/vpn/src/storage/chunk.rs:152-168 | each chunk starts where the sizes before it end, only the last may be short, and the sizes sum to the file size |
| Chunking.ManifestDescribes | crates/vpn/src/storage/chunk.rs:147-178 | each chunk of the manifest names its number, its place in the file and the hash of exactly the bytes there, which are the block returned; file hash, file size and chunk size are the file's |
| Chunking.Rigid | crates/vpn/src/storage/chunk.rs:194-232 | chunks accepted against a file's manifest are that file's own, one by one |
| Diffing.BlockDiffEngine.DiffFiles | crates/vpn/src/storage/diff.rs:158-260 | an error exactly on a different chunk size, otherwise the diff the lemmas below are about |
| Diffing.ListedIffDiffers | crates/vpn/src/storage/diff.rs:196-250 | a block is listed if and only if it differs and its number is compared, as added, deleted or modified by where it exists |
| Diffing.ListedDescribes | crates/vpn/src/storage/diff.rs:196-250 | against any manifest the differences come in order of their numbers, each once, with both sides' hashes, the new block's size and the old one's offset, or zeros where a side lacks the block |
| Diffing.DiffCounts | crates/vpn/src/storage/diff.rs:196-260 | unchanged plus listed is the number of blocks compared; "files match" if and only if they do |
| Diffing.FastPathAgrees | crates/vpn/src/storage/diff.rs:172-183 | the file-hash shortcut gives what the block loop gives |
| Diffing.SpanIsLonger | crates/vpn/src/storage/diff.rs:192 | below 2^32 blocks the blocks compared are all those of the longer file |
| Diffing.PatchRebuildsIff | crates/vpn/src/storage/diff.rs:158-260 | applying the diff to the old blocks rebuilds the new file if and only if the 32-bit numbers compared reach every difference |
| Diffing.PatchRebuilds | crates/vpn/src/storage/diff.rs:158-260 | below 2^32 blocks it always rebuilds the new file |
| Diffing.PatchLost | crates/vpn/src/storage/diff.rs:192 | against a file of exactly 2^32 blocks an empty one shows no difference at all |
| Incremental.DownloadFile | crates/vpn/src/storage/incremental.rs:328-419 | requests the missing blocks in order and stops right after the first refusal; succeeds exactly if none is refused and the gathered chunks are accepted; always fails from 2^32 chunks on |
| Incremental.MissingMeans | crates/vpn/src/storage/incremental.rs:353-373 | the requested numbers are exactly those without a local block of that hash, ascending |
| Incremental.DownloadIsExact | crates/vpn/src/storage/incremental.rs:328-402 | whatever bytes the peer sends, a file that comes out is the remote file, put together from exactly its blocks |
| Incremental.HonestDownload | crates/vpn/src/storage/incremental.rs:328-402 | it requests exactly the blocks absent or different locally, and succeeds with a peer that answers truthfully for those, even if it refuses all others |
| Incremental.SendChanges | crates/vpn/src/storage/incremental.rs:276-292 | sends the added and modified blocks in order and counts their bytes |
| Incremental.UploadRebuildsIff | crates/vpn/src/storage/incremental.rs:270-295 | what is sent is exactly the blocks that differ and are compared; the remote's blocks then are the new file's if and only if no difference was out of reach |
| Incremental.FirstUploadIff | crates/vpn/src/storage/incremental.rs:496-503 | to a remote without the file the upload makes it whole if and only if it is empty, or has fewer than 2^32 blocks and does not hash to zero |
| Reordering.ReorderBuffer.Push | crates/vpn/src/storage/download.rs:124-136 | refuses numbers out of range and blocks still buffered, stores all others |
| Reordering.ReorderBuffer.DrainOrdered | crates/vpn/src/storage/download.rs:147-154 | hands out consecutive blocks up to the first gap |
| Reordering.OutputIsPrefix | crates/vpn/src/storage/download.rs:124-154 | for blocks arriving in any order and any number of times, drained at any points, the output is blocks 0, 1, 2, ... with the file's data |
| Reordering.DrainIsComplete | crates/vpn/src/storage/download.rs:147-154 | after a drain exactly the blocks before the first absent one are out |
| Reordering.PushRefusedIff | crates/vpn/src/storage/download.rs:124-136 | on every run a push is refused if and only if its number is out of range, or the block waits in the buffer, or it was handed out and has come again already |
| Reordering.CanAssembleIff | crates/vpn/src/storage/download.rs:124-154 | for blocks arriving any number of times, "can assemble" holds if and only if every block has arrived and every block handed out has arrived again since |
| Reordering.CanAssembleOnce | crates/vpn/src/storage/download.rs:139-141 | when no block arrives twice, if and only if every block has arrived and none has been handed out |
| Reordering.AssemblesAfterDrain | crates/vpn/src/storage/download.rs:124-154 | four events after which the buffer is full although a block has been handed out |
| Reordering.DrainedFile | crates/vpn/src/storage/download.rs:106-154 | once all blocks of a chunked file arrived, the drained pieces joined are the file |
| Calendar.CivilDateValid | crates/vpn/src/storage/version.rs:502-515 | every day number, negative ones too, gives a valid Gregorian date |
| Calendar.CivilDateCounts | crates/vpn/src/storage/version.rs:502-515 | day n + 1 is the calendar successor of day n |
| Calendar.Epoch | crates/vpn/src/storage/version.rs:502-515 | day 0 is 1970-01-01 |
| Calendar.DaysOfCivilDate | crates/vpn/src/storage/version.rs:985-996 | the forward day-count formula takes each date back to its day number |
| Calendar.CivilDateOfDays | crates/vpn/src/storage/version.rs:985-996 | and every valid date is the date of its day count |
| Timestamp.TimestampWidth | crates/vpn/src/storage/version.rs:480-497 | 14 digits if and only if the second lies before the year 10000 |
| Timestamp.TimestampReads | crates/vpn/src/storage/version.rs:480-515 | the fields read back from the string, for every second, are a valid date and a time of day that together count exactly that second |
| Timestamp.TimestampOrder | crates/vpn/src/storage/version.rs:480-515 | until then strings compare as the seconds do, and equal strings mean equal seconds |
| Timestamp.OrderLimit | crates/vpn/src/storage/version.rs:480-515 | strings sort as the seconds do on all seconds below a limit if and only if the limit is at most the year 10000 |
| Timestamp.OrderEndsAt10000 | crates/vpn/src/storage/version.rs:480-497 | the first second of the year 10000 sorts before the last one of 9999 |
| Versions.VersionIdIff | crates/vpn/src/storage/version.rs:302-304 | two identifiers are equal if and only if the printed seconds and the 32-bit sequence numbers are |
| Versions.VersionIdReads | crates/vpn/src/storage/version.rs:302-304 | before the year 10000 an identifier reads as the 14 digits of its second, a dash, and the sequence number on four digits or as many as it needs |
| Versions.VersionManager.CreateSnapshot | crates/vpn/src/storage/version.rs:295-328 | the entry goes to the front of its file's history under the next sequence number |
| Versions.VersionManager.RestoreVersion | crates/vpn/src/storage/version.rs:366-379 | the manifest of the newest entry with that identifier, an error if there is none |
| Versions.VersionManager.PruneVersions | crates/vpn/src/storage/version.rs:384-402 | keeps the newest versions and counts the others; an error for an unknown file |
| Versions.VersionManager.PruneAllVersions | crates/vpn/src/storage/version.rs:163-169 | prunes every file, and the result is the drop in the total number of versions |
| Versions.HistoryIsExact | crates/vpn/src/storage/version.rs:295-402 | on every run a file's history is exactly its snapshots no prune or removal has reached, newest first, each with the manifest, annotation, second and number it was taken with |
| Versions.RestoreIsExact | crates/vpn/src/storage/version.rs:295-402 | on every run, restoring the identifier of a snapshot gives exactly the manifest of the last snapshot of the file under that identifier while each later prune kept more versions than were newer, and an error from then on |
| Versions.RestoreUnique | crates/vpn/src/storage/version.rs:295-402 | for an identifier not used again this is the snapshot's own manifest |
| Versions.UniqueWithoutReload | crates/vpn/src/storage/version.rs:302-304 | without a reload identifiers do not repeat in 2^32 steps, even if the clock goes back |
| Versions.ReloadRepeatsId | crates/vpn/src/storage/version.rs:231-236 | a reload between two snapshots of one second repeats the identifier, and it then restores the second manifest |
| FilePush.Daemon.HandleFilePush | crates/daemon/src/main.rs:857-868 | truncates the file and records the transfer, unless the file cannot be opened |
| FilePush.Daemon.HandleFileChunk | crates/daemon/src/main.rs:869-890 | writes at the chunk's offset, acknowledges how far it reaches and ends the transfer there at the size; a failing write is not acknowledged |
| FilePush.CmdPush | crates/ctl/src/main.rs:944-992 | for every sequence of arriving messages: sends only the chunk it is at, at most four times; receives only what arrived; moves on after a transmission if and only if an acknowledgement of this transfer reaching the chunk's end arrived during it; fails exactly after four unanswered sends of one chunk |
| FilePush.AckedPrefixWritten | crates/daemon/src/main.rs:869-890 | with the request delivered at most once, at every moment the file agrees with the data on the prefix the client has had acknowledged |
| FilePush.PushCorrect | crates/ctl/src/main.rs:944-992 | a push of a non-empty file that succeeds leaves the file equal to the data, under any loss, repetition and reordering, if and only if the request is delivered at most once |
| FilePush.UndisturbedPushIsExact | crates/daemon/src/main.rs:857-890 | however often the request is delivered, this holds on every run on which none opens the file once a chunk has been acknowledged |
| FilePush.PushOkMeansWritten | crates/ctl/src/main.rs:944-992 | on such a run, whose client events are those a successful `CmdPush` recorded, the file equals the data |
| FilePushProgress.PushCanSucceed | crates/ctl/src/main.rs:944-992 | for every non-empty file a run exists on which the one request arrives, the push succeeds and the file equals the data |
| FilePushProgress.ChunkIsWritten | crates/daemon/src/main.rs:869-890 | on every run, while the transfer is open each chunk that arrives is written at its offset and acknowledged up to its end, all other bytes stay, and the transfer closes if and only if that end is the file's |
| FilePushProgress.FailedChunk | crates/daemon/src/main.rs:869-877 | a chunk whose write fails part of the way leaves what was written, is not acknowledged and keeps the transfer open |
| FilePushProgress.RequestOpens | crates/daemon/src/main.rs:857-868 | every request that opens the file empties it, opens the transfer and is acknowledged at 0; one that does not changes nothing |
| FilePush.LateRequestTruncates | crates/daemon/src/main.rs:857-862 | a run with two deliveries of the request that succeeds over an empty file |
| FilePush.EmptyPushIff | crates/ctl/src/main.rs:944-992 | the push of an empty file always succeeds, and always leaves an empty file if and only if the file was absent or empty before |
| FilePush.EmptyPushUnchecked | crates/ctl/src/main.rs:944-992 | over a file with content it succeeds with nothing delivered |
| RateLimiting.RateLimiter.CheckSyn | crates/daemon/src/main.rs:96-105 | the entry after a request and whether it is allowed, for the limit of 5 |
| RateLimiting.RateLimiter.CheckCmd | crates/daemon/src/main.rs:108-117 | the same for the limit of 30 |
| RateLimiting.RateLimiter.Gc | crates/daemon/src/main.rs:120-125 | drops exactly the entries whose window began 120 seconds ago or earlier |
| RateLimiting.RateBound | crates/daemon/src/main.rs:96-125 | with a clock that does not go back, an address that makes fewer than 2^32 + limit - 1 requests in any 60 seconds gets at most 2 * limit - 1 of them through |
| RateLimiting.RateLimitIff | crates/daemon/src/main.rs:96-125 | over all runs with at most a given number of requests of an address in any 60 seconds, the bound holds if and only if that number is below 2^32 + limit - 1 |
| RateLimiting.RateBoundIsReached | crates/daemon/src/main.rs:96-117 | and a run reaches that number |
| RateLimiting.GcInvisible | crates/daemon/src/main.rs:120-125 | removing every garbage collection from a run changes no answer |
| RateLimiting.AllowedIff | crates/daemon/src/main.rs:96-125 | with a clock that does not go back a request is allowed if and only if it is among the first `limit` of its address's own window, counted modulo 2^32, whatever other addresses do and whenever entries are collected |
| RateLimiting.CollectedIff | crates/daemon/src/main.rs:120-125 | right after a collection the table holds exactly the windows that began less than 120 seconds ago |

## Left out

- Calendar.CivilDate: the original computes in 64 bits and overflows for day numbers within 719468 of the largest; seconds of 64 bits give day numbers far below.
- Election.ElectionManager: message texts, names, addresses, the sync payload and the heartbeat that triggers an election are not modelled; a term is 64 bits wide and the cluster results are for runs of fewer than 2^64 steps.
- ElectionProgress.ElectableIff: for clusters of fewer than 2^62 nodes, whose electing run stays below 2^64 steps.
- Retransmission.AckConfirmsNamed: for windows that do not cross 2^32, as on every run of fewer than 2^32 packets.
- ElectionCluster.ElectionSafety: membership is fixed; adding and removing known nodes during a run is not modelled.
- Dht.DhtManager.ProcessMessage: the value store behind PUT and GET is a parameter and PUT changes no table; relay manager, bootstrap list and local address are not modelled.
- NodeListCodec.DecodeNodeList: whether bytes are UTF-8 is an arbitrary predicate; addresses are their bytes.
- Multihop.MultihopManager: direct routes added by hand, look-up with expiry, invalidation, stale refresh and clean-up are not modelled; the route theorems take the manager and the DHT to have the same local identifier.
- Incremental.DownloadFile: manifest request, file system, transfer statistics and sync state are not modelled.
- Incremental.UploadRebuildsIff: the repository holds no receiver for the blocks an upload sends, so it is assumed that the remote stores each block under its number and takes over the new manifest.
- Incremental.SendChanges: the early skip of an upload is keyed by file name and not by target, so nothing is claimed about a second target; failed sends are not modelled.
- Versions.VersionManager: JSON persistence is the `Reload` step, which keeps the store and restarts the counter; listing is not modelled.
- FilePush.Daemon.HandleFileChunk: the seek is taken to succeed, one path is written by one transfer at a time, and offsets do not reach 2^64.
- FilePush.CmdPush: deadlines are the parameter that says what arrives during each transmission; a socket send that fails, which also ends the push, is not modelled.
- RateLimiting.RateLimiter: the connection limit and the callers that act on an answer are not modelled.
- ARQ packet encoding, connection and stream identifiers.
- `DownloadManager`: task and load bookkeeping is not part of this model.
- Diff reports, metadata merge, storage garbage collection, address cache, heartbeats, handshake phases and frame layouts: they would add only easy members.
- Sockets, tasks, framing, logging, command line, shell and video: input and output.
- Cryptography: foreign primitives.
