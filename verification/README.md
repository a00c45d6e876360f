# Hapartition in Dafny

A model of Hapartition, a sharded and replicated key-value store that speaks the Redis protocol,
with proofs of what its parts promise. Five components are modelled: the last-write-wins store,
the consistent hash ring, the quorum replication and anti-entropy protocol, the Merkle tree and
the RESP reader and printer. Store, ring and gossip layer are composed into one transition system
in which the network may lose, duplicate, delay and reorder packets and in which every node may
see a different ring. `dafny verify dfyconfig.toml` checks the whole project.

## Main results

- **Quorum safety** (`Quorum.QuorumSafety`). In every run, once a quorum write with write concern
  w has returned nil, at least max(1, w) distinct nodes including the writer hold the entry or a
  newer one, then and in every later state. `QuorumDecision` is its converse: left alone, a write
  completes under a schedule of arrivals and loop turns exactly when the acknowledgements that
  found room in its channel meet the concern (`DecidesExactly`). It completes under every schedule
  of given arrivals exactly when the first of them do, as many as there are remote replicas
  (`CompletesAlwaysIff`), and under some schedule exactly when all of them together do
  (`CompletesSometimesIff`). When no replica answers twice nothing is dropped (`NothingDropped`).
- **Failover durability** (`Failover.FailoverDurability`, `Failover.CommonRingFailover`). After a
  write acknowledged by all replicas, losing fewer nodes than the replication factor moves the key
  to an old replica that already holds the entry or a newer one.
- **Owner dominance and latest reads** (`LastWrite.OwnerDominance`,
  `LastWrite.ReadsSeeLatestWrite`). On a fixed common ring no copy of a key anywhere is newer than
  its owner's, so a GET that is not redirected returns the effect of the latest SET or DEL. Reads
  have this property exactly when every key has an owner with an id
  (`LastWrite.ReadsSeeLatestIff`).
- **Convergence** (`Convergence.Converges`). After one full round of exchanges without new writes
  and with all snapshots delivered, every replica of a key holds the newest entry any node had.
- **Write identity and causality** (`Causality.WritesAreIdentified`) over all runs.
- **Minimal disruption** of the ring by removal (`HashRing.RemovalIsMinimal`) and addition
  (`RingChanges.AdditionIsMinimal`), and independence of history (`RingChanges.HistoryIndependent`).
- **Merging is order-insensitive** (`LwwStore.MergeOrderInsensitive`).
- **Merkle diff is exact** (`Merkle.DiffExact`, `Merkle.RootsAgreeIff`).
- **The RESP reader accepts exactly its wire grammar** (`RespLaws.ReaderIsGrammar`), and the round
  trip holds if and only if a value is within the limits (`RespLaws.RoundTripIff`); pipelining,
  locality and the nesting bound follow the same way.

## How the model is built

Files whose code works by updating things step by step are modelled twice: as functions on
values, about which the laws are proved, and as classes and methods with loops that are proved to
compute those functions. `LwwStore` and `StoreObject` are `pkg/store/store.go`; `HashRing`,
`RingChanges` and `RingObject` are `internal/hashring/hashring.go`; `Cluster` and the modules over
it, with `Gossip`, are `internal/gossip/gossip.go`; `PowerOfTwo`, `MerkleLeaves`, `Merkle` and
`MerkleBuild` are `pkg/merkle/merkle.go`; `Resp`, `RespLaws` and `RespReader` are `pkg/api`;
`Server` is the key commands of `internal/server/server.go`.

- Go strings are byte sequences. xxHash, FNV-64a, SHA-256 and `strings.Fields` are function
  parameters, so every result holds whatever they compute. Freedom from hash collisions is a
  hypothesis only where a statement names it, and only for the inputs that statement compares.
- Versions are int64 and the clock's wrap-around is modelled. Cluster steps that issue a version
  are enabled while the clock has room for it.
- `sort.Slice` is unstable, so the ring after `AddNode` is any sorted rearrangement; the theorems
  hold for all of them.
- A locked method or a message handler is one step. `ReplicateWithQuorum`, which holds no lock
  across its phases, is split into applying, routing, each send, starting to wait, and counting
  each acknowledgement, with arbitrary steps of all nodes in between. The timeout is a step that
  may happen at any time while waiting. A send that reports an error may still arrive.
- Nodes have unique ids, request ids are fresh, and nodes do not restart (the clock is in memory).

## What the code does not do

Each of these is stated for all inputs as an exact condition. Where it is not plain that the
failing side occurs, a lemma gives a failing input.

- `SetFrom` and `Del` issue entries newer than everything stored exactly while the int64 clock has
  room (`LwwStore.SetFromIsNewestIff`, `LwwStore.DelIsNewestIff`). One merged entry with the largest
  version uses it up: then a SET is lost and a DEL moves the key back (`LwwStore.ClockRunsOut`).
- A quorum write whose acknowledgements arrive does not always complete: a repeated answer takes
  the place of another in the channel, whose capacity is the number of remote replicas
  (`QuorumDecision.CompletesAlwaysIff`). With replicas b and c and write concern 3 the answers
  b, b, c complete it or not, depending on the schedule (`QuorumDecision.DuplicateCrowdsOut`).
- Adding and then removing a fresh node restores the ring exactly when no two different nodes of
  the ring share a hash (`RingChanges.AddThenRemoveIff`); the new node may collide. On any ring with
  such a tie some outcome of the sort is not restored (`RingChanges.TieBreaksRestore`).
- `Build` with a single leaf divides by zero exactly when the store has a live key
  (`MerkleBuild.Build`): `maxUint64/1 + 1` overflows to 0. The documentation allows any count.
- `roundUpPowerOfTwo` smears 32 bits; it is right exactly when n - 1 has no run of 32 zero bits
  below its leading bit and the result fits an int64 (`PowerOfTwo.RoundUpIff`), in particular up
  to 2^32. It fails just above each power from 2^32 on (`PowerOfTwo.RoundUpFails`), first with
  2^33 - 1 for 2^32 + 1 (`PowerOfTwo.FirstFailure`).
- `LeafBounds` and `Build` agree exactly when the last leaf's start does not overflow
  (`MerkleLeaves.BoundsAgreeIff`), in particular up to 2^32 leaves and for powers of two. They
  disagree for 2^63 - 1 leaves (`MerkleLeaves.BoundsDisagree`).
- The ownership check lets every node answer for a key whose owner has the empty id, as on an empty
  ring. Then two nodes can both accept a SET and a GET misses the later one
  (`LastWrite.ReadsSeeLatestIff`, `LastWrite.BothWrite`).
- Inline commands are accepted as array elements at the deepest level, so parsed values nest 33
  deep, one more than the limit (`RespLaws.NestingBound`).

## Model

| member | source | states |
|---|---|---|
| LwwStore.NewerTrichotomy | pkg/store/store.go:72-83 | of two entries exactly one of equal, newer, older holds, so the four-level tie-break never leaves two entries undecided |
| LwwStore.NewerTransitive | pkg/store/store.go:72-83 | the tie-break order is transitive |
| LwwStore.SetFromInstalls | pkg/store/store.go:39-51 | a local write with room in the clock always takes effect, is newer than everything stored, and keeps clock and live count right |
| LwwStore.SetFromIsNewestIff | pkg/store/store.go:42-44 | the issued entry is newer than everything stored exactly when the int64 clock has not run out |
| LwwStore.SetWithVersionJoins | pkg/store/store.go:53-70 | the key ends with the newer of the two entries, other keys are untouched, and the clock ends at least at the offered version whether or not it was accepted |
| LwwStore.DelDeletes | pkg/store/store.go:133-152 | exactly the given keys become tombstones of the given origin, once each, and nothing else changes |
| LwwStore.DelCounts | pkg/store/store.go:133-152 | the returned count is the number of distinct live keys among the arguments and the live count stays right |
| LwwStore.DelInstalls | pkg/store/store.go:147-149 | the unconditional overwrite installs strictly newer entries with different versions and keeps the store valid |
| LwwStore.DelIsNewestIff | pkg/store/store.go:147 | every tombstone is newer than every stored entry exactly when the clock has room for the distinct keys |
| LwwStore.ClockRunsOut | pkg/store/store.go:39-70 | one merged entry with version 2^63 - 1 leaves a valid store on which SET is lost and DEL installs an older entry |
| LwwStore.OperationsAdvance | pkg/store/store.go:39-70 | over any sequence of SetFrom, SetWithVersion and Del no key disappears or moves backwards and a tombstone is only replaced by a strictly newer entry |
| LwwStore.MergeAllIsJoin | pkg/store/store.go:53-70 | merging a list of entries yields, key by key, the newest candidate, and the largest version as clock |
| LwwStore.MergeOrderInsensitive | pkg/store/store.go:53-83 | any order and duplication of the same entries gives the same map, clock and length |
| StoreObject.Store.constructor | pkg/store/store.go:31-33 | a new store is empty and valid |
| StoreObject.Store.SetFrom | pkg/store/store.go:39-51 | the object's update is the function's, and stays valid with a strictly newest entry |
| StoreObject.Store.SetWithVersion | pkg/store/store.go:53-70 | the object's update is the function's, stays valid and never moves a key backwards |
| StoreObject.Store.Get | pkg/store/store.go:85-93 | value and version of a live key; nothing for an absent or deleted one |
| StoreObject.Store.Len | pkg/store/store.go:127-132 | the incremental counter equals the number of live keys |
| StoreObject.Store.Snapshot | pkg/store/store.go:95-104 | the whole map, tombstones included |
| StoreObject.LiveItemsExact | pkg/store/store.go:119-125 | a full iteration meets each live key once, in ascending order, with its entry |
| StoreObject.Store.Iterate | pkg/store/store.go:119-125 | the visited items are the live ones in ascending order up to the first on which the callback answers false |
| StoreObject.Store.Del | pkg/store/store.go:133-152 | the loop computes the function's count, tombstones and state |
| Sorting.Sort | internal/hashring/hashring.go:108-110 | an ordered rearrangement, with nothing said about ties |
| HashRing.WalkIsClockwise | internal/hashring/hashring.go:162-176 | stepping modulo the ring size from the binary search's answer visits the ring clockwise from the hash |
| HashRing.ReplicasShape | internal/hashring/hashring.go:154-188 | distinct nodes, min(count, nodes) of them, prefixes of one another, owner first |
| HashRing.ReplicasByDistance | internal/hashring/hashring.go:173-185 | an earlier replica has a virtual node at least as near clockwise as every virtual node of a later one |
| HashRing.OwnerIsNearest | internal/hashring/hashring.go:133-152 | the owner is the node of a nearest entry clockwise from the key's hash |
| HashRing.RemovalIsMinimal | internal/hashring/hashring.go:119-131 | removing a node deletes it from every key's replica list and keeps all other order, even with hash ties |
| HashRing.RemovalMovesOwnedKeys | internal/hashring/hashring.go:119-152 | a key changes owner only if the removed node owned it, and then moves to its old second replica |
| HashRing.RemoveAllIsMinimal | internal/hashring/hashring.go:119-188 | the same for any sequence of removals |
| HashRing.FailoverStaysInReplicas | internal/hashring/hashring.go:119-188 | after losing fewer than rf nodes the new owner is one of the first rf old replicas and not a lost one |
| RingChanges.HistoryRealizes | internal/hashring/hashring.go:85-131 | after any history the ring holds exactly the virtual nodes of the surviving additions, sorted |
| RingChanges.RealizedRing | internal/hashring/hashring.go:85-131 | `nodes` equals the ids among the entries and all entries of a node share one address |
| RingChanges.HistoryIndependent | internal/hashring/hashring.go:85-131 | two histories ending with the same nodes, addresses and replica counts end with the same ring, absent cross-node collisions |
| RingChanges.AddThenRemove | internal/hashring/hashring.go:85-131 | adding a fresh node and removing it restores the ring |
| RingChanges.AddThenRemoveIff | internal/hashring/hashring.go:85-131 | it does so for every outcome of the sort exactly when the old ring has no cross-node collision |
| RingChanges.AdditionIsMinimal | internal/hashring/hashring.go:85-111 | adding a fresh node only inserts it into each key's replica list, so a key keeps its owner or moves to the new node |
| RingObject.Compact | internal/hashring/hashring.go:123-130 | the in-place filter keeps exactly the other nodes' entries in order |
| RingObject.Hashring.constructor | internal/hashring/hashring.go:75-83 | a new ring is empty |
| RingObject.Hashring.RemoveNode | internal/hashring/hashring.go:113-131 | entries, node set and replica counts lose the node and nothing else |
| RingObject.Hashring.AddNode | internal/hashring/hashring.go:85-111 | the ring holds the other nodes' entries and the new node's virtual nodes, sorted; a count of zero or less means 5 |
| RingObject.Hashring.Search | internal/hashring/hashring.go:143-145 | the binary search returns the first entry at or after the hash |
| RingObject.Hashring.GetNode | internal/hashring/hashring.go:133-152 | the owner, or two empty strings on an empty ring |
| RingObject.Hashring.GetReplicas | internal/hashring/hashring.go:154-188 | the loop returns the first count distinct nodes of the clockwise walk |
| RingObject.Hashring.NodeAddresses | internal/hashring/hashring.go:200-206 | each node's one ring address |
| RingObject.Hashring.SlotRanges | internal/hashring/hashring.go:192-247 | for any slot count, consecutive ranges covering all slots, each slot owned by its range's node, neighbours owned by different nodes |
| RingObject.Hashring.GetSlotRanges | internal/hashring/hashring.go:192-247 | the same for the 16384 Redis slots |
| RingObject.RunLengthsUnique | internal/hashring/hashring.go:190-192 | only one list of ranges encodes a given owner function |
| Quorum.EffectAdvances | internal/gossip/gossip.go:287-458 | no step of the protocol moves a stored key backwards |
| Quorum.NextKeepsInv | internal/gossip/gossip.go:287-435 | every step keeps: requests carry what their id stands for, positive acknowledgements come from holders, counted acknowledgements are holders |
| Quorum.QuorumSafety | internal/gossip/gossip.go:283-370 | a successful quorum write is held by max(1, w) distinct nodes including the writer, from then on, in every run |
| QuorumDecision.DecidesExactly | internal/gossip/gossip.go:295-435 | under any schedule the routing, sending, response and counting steps of a write complete it exactly when enough replicas, sends and distinct acknowledgements that found room are there |
| QuorumDecision.ArrivalsCommute | internal/gossip/gossip.go:337-350 | an answer received during the sending loop has the same effect as one received right after it |
| QuorumDecision.CompletesAlwaysIff | internal/gossip/gossip.go:326-435 | every schedule of the arrivals completes the write exactly when the first of them meet the concern, as many as the channel holds |
| QuorumDecision.CompletesSometimesIff | internal/gossip/gossip.go:326-435 | some schedule completes it exactly when all arrivals together meet the concern |
| QuorumDecision.NothingDropped | internal/gossip/gossip.go:326-435 | when each remote replica answers at most once, every schedule decides by all the answers |
| QuorumDecision.DuplicateCrowdsOut | internal/gossip/gossip.go:428-435 | with two remote replicas and write concern 3, a repeated answer makes the same three arrivals complete the write under one schedule and not under another |
| Failover.AllReplicasHold | internal/gossip/gossip.go:295-368 | with write concern at the replication factor, an owner's successful write is held by exactly the key's replicas |
| Failover.FailoverDurability | internal/gossip/gossip.go:287-370 | after removing fewer than rf nodes the new owner is an old replica, holds the entry or a newer one, and does not redirect once its ring has caught up |
| Failover.CommonRingFailover | internal/gossip/gossip.go:287-370 | on a common ring this holds of every write acknowledged with write concern at least rf, since the server starts quorum writes at the owner only |
| Causality.WritesAreIdentified | pkg/store/store.go:39-70 | a local write has a larger version than everything its node wrote or was offered before, and no two writes share version and origin |
| Origins.OccursNext | internal/gossip/gossip.go:381-526 | every entry in a store, packet or pending write was there before the step or was written by it |
| LastWrite.OwnerDominance | internal/server/server.go:240-300 | on a fixed common ring the owner is at least as new as every copy in stores, packets and pending writes |
| LastWrite.ReadsSeeLatestWrite | internal/server/server.go:256-264 | a GET that is not answered with MOVED returns the effect of the latest SET or DEL of the key |
| LastWrite.ReadsSeeLatestIff | internal/server/server.go:368-374 | in all runs on a common ring unredirected reads see the latest write, exactly when every key has an owner with a non-empty id |
| LastWrite.BothWrite | internal/server/server.go:368-374 | for a key without such an owner two nodes both accept a SET and a GET misses the later one |
| LastWrite.NamedRingRoutes | internal/hashring/hashring.go:133-152 | a non-empty ring without an empty id gives every key such an owner |
| Convergence.ReachesEveryPeer | internal/gossip/gossip.go:484-507 | a node that exchanges at least as often as it has peers sends its snapshot to each peer |
| Convergence.NoPeerTwice | internal/gossip/gossip.go:493-498 | two exchanges fewer than that many apart go to different peers |
| Convergence.Converges | internal/gossip/gossip.go:439-526 | after a full round with reliable delivery and no new writes, all replicas of a key hold the newest entry any node had |
| Gossip.AwaitAcks | internal/gossip/gossip.go:352-369 | success exactly when enough distinct expected nodes acknowledged positively; strangers, rejections and duplicates do not count |
| Gossip.ListEntries | internal/gossip/gossip.go:510-526 | a message with every stored entry, tombstones included, in any order |
| Gossip.SortedPeers | internal/gossip/gossip.go:484-493 | the members other than this node, in ascending order |
| Gossip.Handler.constructor | internal/gossip/gossip.go:157-182 | no pending requests, the cursor at 0, and a write concern outside 1 to rf replaced by rf |
| Gossip.Handler.CheckReplica | internal/gossip/gossip.go:384-391 | whether this node is among the key's first rf replicas |
| Gossip.Handler.HandleReplication | internal/gossip/gossip.go:439-458 | the entries this node is a replica for are merged, the others skipped |
| Gossip.Handler.HandleReplicateRequest | internal/gossip/gossip.go:381-416 | entries are merged up to the first this node is no replica for, and the answer is positive exactly if there is none |
| Gossip.Handler.HandleReplicateResponse | internal/gossip/gossip.go:419-435 | the acknowledgement reaches the waiting request's channel unless the request is unknown or the channel full |
| Gossip.Handler.ExchangeState | internal/gossip/gossip.go:473-508 | a non-empty snapshot goes to the peer under the cursor, which moves on by one; otherwise nothing happens |
| Gossip.Handler.ReplicateWithQuorum | internal/gossip/gossip.go:287-370 | the entry is merged locally and the outcome is success, unreachable or timeout exactly as replicas, sends and acknowledgements allow; once routed, every remote replica is sent the request |
| Gossip.Handler.HandleJoin | internal/gossip/gossip.go:251-260 | the ring gains the node with 256 virtual nodes |
| Gossip.Handler.HandleLeave | internal/gossip/gossip.go:262-270 | the ring loses the node |
| PowerOfTwo.RoundUpIff | pkg/merkle/merkle.go:194-207 | the least power of two at or above n, exactly when no run of 32 zeros interrupts n - 1 and the result fits |
| PowerOfTwo.RoundUpFails | pkg/merkle/merkle.go:196-207 | it is not, for 2^t + 1 with t from 32 to 61 |
| PowerOfTwo.FirstFailure | pkg/merkle/merkle.go:196-207 | 2^32 + 1 gives 2^33 - 1 |
| PowerOfTwo.RoundUpSmall | pkg/merkle/merkle.go:194-207 | in particular for 1 to 2^32 |
| PowerOfTwo.RoundUp | pkg/merkle/merkle.go:196-207 | the in-place updates compute that function; 0 for n of at most 0 |
| MerkleLeaves.IndexInRange | pkg/merkle/merkle.go:52-56 | the bucket index is always a leaf, so the clamp never applies |
| MerkleLeaves.BoundsAgreeIff | pkg/merkle/merkle.go:115-123 | division index and leaf bounds put every 64-bit hash into the same single leaf, exactly when the last start does not overflow |
| MerkleLeaves.BoundsDisagree | pkg/merkle/merkle.go:115-123 | with 2^63 - 1 leaves the largest hash lies in the last leaf's bounds and is put into another leaf |
| MerkleLeaves.FitsSmall | pkg/merkle/merkle.go:115-123 | no overflow for 2 to 2^32 leaves |
| MerkleLeaves.FitsPowerOfTwo | pkg/merkle/merkle.go:115-123 | no overflow for powers of two |
| MerkleLeaves.EncodeLeafInjective | pkg/merkle/merkle.go:173-192 | the leaf encoding is uniquely decodable for strings shorter than 2^32 bytes |
| Merkle.LeafHashExact | pkg/merkle/merkle.go:74-78 | two leaf hashes agree exactly when the leaves hold the same entries |
| Merkle.RootExact | pkg/merkle/merkle.go:80-89 | two roots agree exactly when all leaves do |
| Merkle.KeyCountIsLeavesBelow | pkg/merkle/merkle.go:74-89 | every key count is the sum over the leaves below the node |
| Merkle.BucketsPartition | pkg/merkle/merkle.go:49-59 | the leaves' contents add up to exactly the items, so every live entry is in exactly one leaf |
| Merkle.RootCountsLiveKeys | pkg/merkle/merkle.go:74-89 | the root's key count is the number of live keys |
| Merkle.DiffExact | pkg/merkle/merkle.go:125-139 | Diff returns exactly the leaves whose live keys, values or versions differ |
| Merkle.RootsAgreeIff | pkg/merkle/merkle.go:125-139 | roots agree iff Diff is empty iff the live projections are equal |
| MerkleBuild.MakeBuckets | pkg/merkle/merkle.go:49-59 | each bucket holds the entries of its hash range in iteration order |
| MerkleBuild.SortBuckets | pkg/merkle/merkle.go:61-66 | sorting leaves the buckets as they are, because iteration is already in key order |
| MerkleBuild.LeafHash | pkg/merkle/merkle.go:175-192 | the hash of the leaf's encoding |
| MerkleBuild.BuildNodes | pkg/merkle/merkle.go:68-95 | the bottom-up loop fills every node of the heap-shaped tree |
| MerkleBuild.Build | pkg/merkle/merkle.go:43-96 | the tree of the store's leaves; division by zero exactly for one leaf and a live key |
| MerkleBuild.BytesEqual | pkg/merkle/merkle.go:209-219 | equality of byte slices |
| MerkleBuild.Diff | pkg/merkle/merkle.go:127-139 | the differing leaves in ascending order; nothing for different leaf counts |
| MerkleBuild.LeafEntries | pkg/merkle/merkle.go:115-154 | the live entries whose hash lies in the bounds, for every leaf count and index, with 64-bit wrap-around; division by zero exactly for a count of 0 |
| MerkleLeaves.AnyBoundsOfLeaf | pkg/merkle/merkle.go:115-123 | for the index of a leaf the wrapping bounds are that leaf's |
| MerkleBuild.LeafEntriesAreBucket | pkg/merkle/merkle.go:141-157 | LeafEntries lists, entry for entry, what Build put into the leaf |
| RespLaws.ReadLineSound | pkg/api/reader.go:66-85 | a line read is what stood before the first line feed and its carriage return, at most 65536 bytes in all |
| RespLaws.ReadLineComplete | pkg/api/reader.go:66-85 | every such line is read, leaving exactly what follows |
| RespLaws.ItoaReads | pkg/api/reader.go:103-113 | every int64 is read back from its decimal form |
| RespLaws.RoundTripIff | pkg/api/types.go:14-64 | a printable value is read back from its encoding, whatever follows, exactly when it is within the reader's limits |
| RespLaws.PipelineRoundTrip | pkg/api/reader.go:29-64 | a list of values printed one after the other is read back as that list, leaving the suffix |
| RespLaws.ReaderIsGrammar | pkg/api/reader.go:29-202 | the reader returns v and leaves rest exactly when the input is a wire form denoting v, by an independent recursive grammar, followed by rest |
| RespLaws.DenotedReads | pkg/api/reader.go:34-202 | every wire form is read as the value it denotes, at every depth and whatever follows |
| RespLaws.ParseIsLocal | pkg/api/reader.go:34-64 | a successful parse consumes at least a byte and depends only on what it consumes |
| RespLaws.NestingBound | pkg/api/reader.go:48-62 | parsed arrays nest at most 33 deep, and 33 is reached |
| RespReader.Print | pkg/api/types.go:14-64 | the printer's loop produces the encoding |
| RespReader.Reader.ReadLine | pkg/api/reader.go:66-85 | the chunk-by-chunk loop gives the same result for every way of cutting the stream into buffers |
| RespReader.Reader.ReadText | pkg/api/reader.go:87-101 | simple strings and errors are the line |
| RespReader.Reader.ReadNumber | pkg/api/reader.go:103-113 | integers are the line's number |
| RespReader.Reader.ReadBulk | pkg/api/reader.go:115-158 | length, limit, contents and terminator are checked in the source's order |
| RespReader.Reader.ReadValue | pkg/api/reader.go:34-64 | the type byte decides; arrays are limited to depth 32; anything else is an inline command |
| RespReader.Reader.ReadArray | pkg/api/reader.go:160-187 | the loop reads the announced number of values or reports the element that failed |
| RespReader.Reader.ReadInline | pkg/api/reader.go:191-202 | an inline command is an array of the line's fields |
| Server.DelRunsIff | internal/server/server.go:266-286 | DEL is carried out exactly when it has arguments, all strings, none of them another node's key |
| Server.ReapplyIsIdle | internal/server/server.go:242-248 | the quorum write's own local application after SET changes nothing |
| Server.Server.AdmitKey | internal/server/server.go:357-387 | arity, key, ownership and value are checked in that order |
| Server.Server.Get | internal/server/server.go:256-264 | the live value or null, unless refused |
| Server.Server.Set | internal/server/server.go:240-254 | acts as the protocol's client step and answers OK exactly when the quorum is met or there is no gossip handler; a refused SET changes nothing |
| Server.Server.AdmitKeys | internal/server/server.go:267-286 | keys and ownership are checked for all arguments before anything is deleted |
| Server.Server.ReplicateAll | internal/server/server.go:293-298 | tombstones are replicated in any order, succeeding exactly if every quorum is met, without changing the store |
| Server.Server.Del | internal/server/server.go:266-300 | tombstones all keys at once and answers the count exactly when every quorum is met or there is no gossip handler; a refused DEL changes nothing |

## Left out

- Error texts are constructors, not strings.
- RespReader.Reader.ReadLine: says nothing about the stream position after an error, after which the connection is closed.
- Gossip.Handler.ReplicateWithQuorum: takes the failed sends and the acknowledgements that arrive in time as parameters; `Quorum` and `QuorumDecision` treat them step by step.
- Merkle.DiffExact: assumes live keys and values shorter than 2^32 bytes, since their lengths are written in 32 bits, and no hash collision between corresponding nodes.
- `Store.Range` and `Set`, `RingSnapshot`, `Nodes` and the tree accessors: plain reads that would only add easy members.
- The B-tree under the store: a finite map with ascending iteration.
- The unicode white space rules of `strings.Fields`: a function parameter.
- `eventRing`, subscribers, `retryJoin`, discovery, logging and timers.
- Transports, TLS, protobuf encoding (messages are datatypes), the HTTP interface, authentication, listeners and the CLUSTER, INFO and NODE commands.
- Agreement of CLUSTER KEYSLOT with key ownership, which the code does not establish.
- Balance of keys over nodes, which is statistical.
