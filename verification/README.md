# Verified models of the mesh node's core

This project models, in Dafny, the parts of the node whose correctness is hardest to see from the code:
the replicated data types, the Kademlia table and lookup, the Noise XX and hybrid handshake, the DNS
message codec, and three small state machines (document history, proof-of-work replay cache, token
bucket). `dafny verify dfyconfig.toml` checks everything.

Code that changes state is modelled by classes and methods whose `ensures` tie the new state to a
specification function of the old one; the theorems are about those functions and about whole runs.
Hashing and cryptography are parameters with their ideal laws spelled out where they are needed
(Diffie-Hellman commutes, opening undoes sealing, decapsulation undoes encapsulation, no two of the strings
actually hashed collide); `Noise.Toy` is an instance of the handshake's laws. Clocks, random sources, network
answers and map iteration order are parameters or free choices. Every locked method is one atomic step.

## Modules

| files | what they hold |
|---|---|
| `RgaModel`, `RgaConvergence`, `RgaDivergence` | the replicated list on values; when delivery order matters |
| `RgaMerge`, `RgaCatchUp`, `RgaExchange`, `RgaSnapshot`, `RgaGossip` | Merge, when a replica catches up with another, and what replicas that exchange lists end up with |
| `RgaIds`, `RgaSystem`, `RgaText`, `RgaList`, `RgaCluster` | IDs, runs of any number of replicas, what they render, the doubly linked list itself, and runs made by such lists |
| `OrSetModel`, `OrSet` | the observed-remove set over whole runs, and its class |
| `Merkle` | the hash tree, anti-entropy, inclusion proofs |
| `CrdtFormat`, `RgaFormat`, `CrdtCodec` | binary forms of the set and the list |
| `NodeIds`, `Closest`, `Routing`, `Lookup` | XOR order, "the k closest", the routing table, the iterative lookup |
| `LeadingZeros`, `Registration`, `TableRuns` | proof of work and announcements; runs of everything that touches the table |
| `Noise`, `NoiseStream`, `Hybrid`, `NoiseSession` | the handshake, the traffic after it, the hybrid form, the session objects |
| `DnsNames`, `Dns`, `DnsCodec` | names with compression pointers, messages, the parsing and printing loops |
| `DocumentModel`, `Document` | edit history, undo and redo |
| `ReplayModel`, `Replay` | the replay cache |
| `BucketModel`, `TokenBucket` | rate limiting |
| `Bytes`, `Options`, `Lex`, `Wire`, `Codec` | bytes, missing values, their order, big-endian fields, readers that undo printers |

## Where the code differs from what it says

* The comment on RGA Merge says the result depends only on the operations, not on arrival order. The code
  gives that exactly when the causal tree branches only on its right edge (`ConvergesIffRightEdge`): the
  subtree skip at `pkg/crdt/crdt.go:251` runs past the end of the subtree.
* Nor does Merge let replicas that have met before agree. It re-anchors a node at the node ahead of it, so a
  reader that has merged [x, w] and then learns of y, which the writer put between the two, shows [x, w, y]
  for ever (`ReaderLeftBehind`). `CatchUpIff` and `ExchangeIff` say exactly when one merge, or one after the
  other, ends in the same document, whatever the replicas exchanged before; `LoneReaderIff` says it for one
  writer and one reader. Replicas with no node in common always agree when they merge one after the other
  (`SequentialExchange`), and agree from snapshots under the condition of `SnapshotExchange`; with nodes in common,
  under that of `SharedSnapshotIff`.
* Node IDs join clock, node name and value with colons, so two names one of which begins the other can mint
  the same ID (`MintedAlike`), and then some run breaks the list (`RunsWellFormedIff`). The other run theorems
  ask for names that cannot be confused.
* Leaves and inner nodes of the hash tree are hashed alike, so a 64-byte entry can stand for a whole tree
  (`EntryMimicsTree`). Roots tell the entries of two lists and of their parts exactly when no entry of one mimics an
  inner node of the other (`RootsTellIff`), and an inclusion proof can be had for more than the entries
  (`ProvableExactly`).
* An announcement with two or more addresses never survives its own encoding (`RoundTripIff`).
* Proof of work is done over key, name and addresses run together, so it does not commit to where the name ends
  (`OnlyChallengeIff`); among names of one length and addresses under 256 bytes it commits to everything
  (`ChallengeTells`).
* A transport message that does not open still costs the receiver a nonce, so the next one sealed in order is opened
  under the nonce after its own (`FailureCosts`).
* The nonce-overflow guards compare a 64-bit counter with the largest 64-bit number and never fire
  (`NonceReusedIff`).
* The responder never mixes its own ephemeral key into h, so h differs between the two sides of every run
  (`HashesDiffer`); no key depends on h.
* A responder whose random source fails after its Noise step can still finish, without a Kyber secret
  (`UnseededFinish`, `EveryRunGuarded`).
* Encrypt and Decrypt of the hybrid session are commented as using its session key, which combines both secrets, but
  seal and open under the Noise keys alone: no traffic depends on the Kyber secret (`TrafficIgnoresKem`,
  `HybridTrafficIsNoise`).
* Registering again wipes a known peer's last-seen time, so the next pruning drops it from the table
  (`RegisterThenPrune` says exactly who stays), and nothing brings it back: an ID that the map knows and the table
  does not hold never gets in again (`TableRuns.Run`).
* DNS labels of 64 to 191 bytes round trip although RFC 1035 allows 63; a pointer loop makes the reader
  recurse for ever (`TerminatesIff`, `SelfPointer`), and the parser with it (`ParseDivergesIff`).
* A delete is recorded without its text and a format without the old one, so one undo restores the text only
  in the cases `UndoRestoresIff` names; and an edit after undos leaves what was undone in the history, in front of
  it (`EditAfterUndoIff`).
* The replay cache forgets fresh challenges under a flood; `ReplayDecided` says exactly when.
* A refill cuts the fraction of a token off and moves its clock on, so a caller that polls faster than one
  token per poll never gets any (`WaitEndsIff`).

## Model

| member | source | states |
|---|---|---|
| `RgaModel.PlaceWellFormed` | pkg/crdt/crdt.go:233-268 | delivering a node with a new ID and key keeps the whole structural invariant: unique IDs, origins first, a parent directly followed by a child, siblings in (Timestamp, Author) order |
| `RgaModel.EraseWellFormed` | pkg/crdt/crdt.go:270-277 | so does a delete |
| `RgaConvergence.CanonicalUnique` | pkg/crdt/crdt.go:212-268 | the nodes alone determine a list in which no subtree is crossed |
| `RgaConvergence.RightEdgeConverges` | pkg/crdt/crdt.go:212-268 | if branching happens only on the right edge, any two causal deliveries of the same inserts and deletes leave the identical list |
| `RgaDivergence.ConvergesIffRightEdge` | pkg/crdt/crdt.go:212-268 | and only then: a deliverable set of inserts is order-independent if and only if it branches only on the right edge |
| `RgaDivergence.HeadOnlyBranching` | pkg/crdt/crdt.go:212-268 | in particular when only the head has several causal children |
| `RgaDivergence.ForkDiverges` | pkg/crdt/crdt.go:247-259 | from any fork off the right edge, two causal orders of the same inserts with different results |
| `RgaMerge.MergeInvariant` | pkg/crdt/crdt.go:407-494 | after any number of the sender's nodes the list is well formed, made of both sides' nodes, and holds all of them so far |
| `RgaMerge.MergeComplete` | pkg/crdt/crdt.go:407-494 | IDs and tombstones become the unions; the length grows by exactly the missing nodes |
| `RgaMerge.MergedNode` | pkg/crdt/crdt.go:426-477 | every node of the result is the receiver's, or the sender's re-anchored at its predecessor, deleted if either side deleted it |
| `RgaMerge.MergeMonotone` | pkg/crdt/crdt.go:407-494 | what the receiver had keeps its order |
| `RgaMerge.MergeIdempotent` | pkg/crdt/crdt.go:407-494 | merging the same list again changes nothing |
| `RgaMerge.AnchorInPlace` | pkg/crdt/crdt.go:448-493 | when a missing node's turn comes its anchor is there, so the first sweep places everything |
| `RgaMerge.MergeIsDelivery` | pkg/crdt/crdt.go:407-494 | Merge is burying known nodes and then delivering the missing ones |
| `RgaMerge.BuryInOnePass` | pkg/crdt/crdt.go:426-434 | applying tombstones node by node gives the union of tombstones |
| `RgaExchange.MergeDisjoint` | pkg/crdt/crdt.go:407-494 | an independently edited list arrives as one contiguous block |
| `RgaCatchUp.CatchUpIff` | pkg/crdt/crdt.go:407-494 | a replica that merges a list holding all that it holds ends with that document if and only if the list keeps the replica's order and no new node stands behind a node whose child in the replica sorts before it |
| `RgaCatchUp.MergeBackIdle` | pkg/crdt/crdt.go:407-494 | once the other side knows everything, merging back and merging again change nothing, so what differs stays different |
| `RgaExchange.SequentialExchange` | pkg/crdt/crdt.go:407-494 | two replicas without a node in common, whatever they hold: one merges the other and is merged back, and both show the same nodes, order and tombstones |
| `RgaExchange.ExchangeIff` | pkg/crdt/crdt.go:407-494 | any two mergeable replicas, nodes in common or not: they agree after that if and only if the first merge kept the second's order and everything new to it fits |
| `RgaExchange.OneInsertIff` | pkg/crdt/crdt.go:435-470 | a reader in step with a writer that inserts one node stays in step if and only if the node is last, or the reader's next node is no child of the one ahead, or does not sort before it |
| `RgaExchange.ReaderKeepsUpIff` | pkg/crdt/crdt.go:435-470 | a reader that only ever merged this writer keeps up if and only if the new node is last or the node behind it does not sort before it |
| `RgaExchange.SnapshotExchange` | pkg/crdt/crdt.go:407-494 | two replicas without a node in common that merge each other's snapshots agree if and only if one side's top level lies wholly before the other's first node, or a side is empty |
| `RgaSnapshot.SharedSnapshotIff` | pkg/crdt/crdt.go:407-494 | any two mergeable replicas, nodes in common or not: snapshots agree if and only if one merge kept the other side's order and has every node that side lacks directly behind the spot where that side puts it |
| `RgaSnapshot.PlacedAtSpot` | pkg/crdt/crdt.go:448-477 | and that spot is told by the two lists before the merge: behind the node ahead of it if that is missing too, otherwise where the receiver's own scan ends |
| `RgaExchange.AppendersAgree` | pkg/crdt/crdt.go:407-494 | lists without a node in common, with one node each at the top level, agree in both kinds of exchange |
| `RgaCatchUp.SameShapeSameText` | pkg/crdt/crdt.go:302-313 | same nodes, order and tombstones give the same text |
| `RgaText.InsertedText` | pkg/crdt/crdt.go:302-313 | a node spliced in at any position puts its value, if it is live, behind as many bytes as the live values ahead of it have, and leaves the rest of the text alone |
| `RgaText.ErasedText` | pkg/crdt/crdt.go:270-313 | a delete of a live node cuts exactly its value out of the text where it stands; any other delete changes nothing |
| `RgaText.TextLength` | pkg/crdt/crdt.go:302-313 | the text is as long as the live values together, and empty for the head alone |
| `RgaText.LocalInsertText` | pkg/crdt/crdt.go:184-203 | a local insert shows its value behind the live text up to the node it is put after, if no child of that node is behind it; after the last or an unknown node, at the end |
| `RgaText.DeleteStepText` | pkg/crdt/crdt.go:270-313 | a delete step of a system cuts the value out of that replica's text and changes no other replica |
| `RgaGossip.GossipOrderIrrelevant` | pkg/crdt/crdt.go:407-494 | merging the same independent replicas into any well-formed list, in any two orders, leaves the identical list |
| `RgaIds.MintedAlike` | pkg/crdt/crdt.go:184-203 | two replicas can mint one ID if and only if one name with its colon begins the other |
| `RgaIds.MintIdInjective` | pkg/crdt/crdt.go:184-203 | otherwise distinct inserts get distinct IDs |
| `RgaIds.DecimalDenotes` | pkg/crdt/crdt.go:184-203 | the clock's digits denote it, without a leading zero |
| `RgaSystem.EveryRunWellFormed` | pkg/crdt/crdt.go:184-494 | in every run of inserts, deletes and merges on any number of replicas, every list keeps the structural invariant and any two are mergeable |
| `RgaSystem.RunsWellFormedIff` | pkg/crdt/crdt.go:184-494 | every run of a set of replicas keeps the invariant if and only if no two of their names can be confused |
| `RgaSystem.AppendersExchange` | pkg/crdt/crdt.go:184-203 | replicas that start empty, append runs of any length and delete anything end with the same nodes, tombstones and text, from snapshots or one after the other, in either order |
| `RgaSystem.RunExchangeIff` | pkg/crdt/crdt.go:407-494 | after any run of any replicas, two that merge one after the other agree if and only if the first merge kept order and everything new fits |
| `RgaSystem.RunSnapshotIff` | pkg/crdt/crdt.go:407-494 | likewise for two that merge each other's snapshots |
| `RgaSystem.LoneReaderIff` | pkg/crdt/crdt.go:184-494 | a reader that follows one writer keeps up with its next insert if and only if the new node comes last |
| `RgaSystem.ReaderLeftBehind` | pkg/crdt/crdt.go:435-470 | three inserts and two merges after which reader and writer differ, and merging back and forth changes neither |
| `RgaSystem.IndependentEditorsAgree` | pkg/crdt/crdt.go:184-494 | two replicas that edit in any way and then exchange one after the other end with the same nodes, tombstones and text |
| `RgaList.Rga.constructor` | pkg/crdt/crdt.go:175-182 | an empty list, linked both ways |
| `RgaList.Rga.FindNode` | pkg/crdt/crdt.go:536-548 | the walk finds the node with the ID, or none exactly if there is none |
| `RgaList.Rga.SplicePoint` | pkg/crdt/crdt.go:233-260 | the nested scan over links stops exactly where the list model inserts |
| `RgaList.Rga.Splice` | pkg/crdt/crdt.go:261-268 | the four pointer updates keep the list linked both ways and insert at that place |
| `RgaList.Rga.InsertOrdered` | pkg/crdt/crdt.go:233-268 | the linked list becomes the model's list with the node inserted |
| `RgaList.Rga.Insert` | pkg/crdt/crdt.go:184-203 | a local insert: clock, ID, anchor and place as the model's |
| `RgaList.Rga.Delete` | pkg/crdt/crdt.go:270-277 | tombstones the node with the ID, if there is one, and nothing else |
| `RgaList.Rga.String` | pkg/crdt/crdt.go:302-313 | the walk renders the text, which the laws of `RgaText` fix |
| `RgaList.Rga.IndexIds` | pkg/crdt/crdt.go:498-508 | exactly the IDs in the list and the tail's |
| `RgaList.Rga.Collect` | pkg/crdt/crdt.go:416-443 | applies the other side's tombstones and lists exactly the missing nodes with their predecessors |
| `RgaList.Rga.Sweep` | pkg/crdt/crdt.go:453-477 | one sweep places every node, all newly allocated, and defers none |
| `RgaList.Rga.PlaceMissing` | pkg/crdt/crdt.go:444-494 | the sweeping loop ends with everything delivered in newly allocated nodes |
| `RgaList.Rga.Merge` | pkg/crdt/crdt.go:407-494 | the linked list becomes the model's Merge of the two lists and takes no node of the other; nil and the list itself change nothing |
| `RgaList.MergeReady` | pkg/crdt/crdt.go:407-494 | in every reachable state the IDs of every list are what Merge relies on |
| `RgaCluster.Perform` | pkg/crdt/crdt.go:184-494 | any number of linked lists that share no node: an insert, delete or merge by one of them is exactly the system's step, and they still share no node, so what Merge asks always holds |
| `RgaCluster.Execute` | pkg/crdt/crdt.go:175-494 | every run of the system, from empty lists, is one the objects make |
| `RgaCluster.ExchangeTexts` | pkg/crdt/crdt.go:302-494 | two lists of such a run that merge one after the other render what the run says, and the same text if nobody had merged before |
| `OrSet.Set.Add` | pkg/crdt/crdt.go:37-45 | the element gains the tag, nothing else changes |
| `OrSet.Set.Remove` | pkg/crdt/crdt.go:47-55 | exactly the element's present tags become tombstones |
| `OrSet.Set.Contains` | pkg/crdt/crdt.go:57-70 | true if and only if some tag of the element has no tombstone |
| `OrSet.Set.Merge` | pkg/crdt/crdt.go:88-105 | tags per element and tombstones become the unions |
| `OrSetModel.ContainsIffPresent` | pkg/crdt/crdt.go:37-105 | over every run with fresh tags, a replica contains e if and only if its causal history has an add of e that no remove in it observed |
| `OrSetModel.EqualHistoriesAgree` | pkg/crdt/crdt.go:37-105 | equal histories, equal contents |
| `OrSetModel.ConcurrentAddWins` | pkg/crdt/crdt.go:37-105 | an add survives every remove made without knowledge of it |
| `Merkle.BuildLevel` | pkg/crdt/crdt.go:821-828 | one level: neighbours paired, an odd last one promoted |
| `Merkle.BuildRoot` | pkg/crdt/crdt.go:814-830 | the recursive root |
| `Merkle.RootSplits` | pkg/crdt/crdt.go:814-844 | the level-by-level root is the hash of the roots of two parts, the first as long as the largest power of two below the size |
| `Merkle.PreimageSorted` | pkg/crdt/crdt.go:832-844 | an inner node hashes the two digests below it, the one that sorts first in front |
| `Merkle.SameRootSameEntries` | pkg/crdt/crdt.go:805-844 | without collisions, and with no entry of one list mimicking an inner node of the other's tree, equal roots mean equal entry sets |
| `Merkle.EntryMimicsTree` | pkg/crdt/crdt.go:805-844 | any root of two or more entries is also the root of one 64-byte entry |
| `Merkle.RootsTellIff` | pkg/crdt/crdt.go:805-844 | without collisions, parts of two lists with equal roots always have equal entries if and only if no entry of one list mimics an inner node of the other |
| `Merkle.DiffMerkle` | pkg/crdt/crdt.go:846-870 | empty lists on equal roots, otherwise the two set differences without repetition |
| `Merkle.DiffExact` | pkg/crdt/crdt.go:846-870 | so, shortcut or not, it names exactly what one side has and the other lacks |
| `Merkle.VerifyMerkleProof` | pkg/dht/server.go:327-343 | accepts if and only if the branch folds to the root |
| `Merkle.BranchFoldsToRoot` | pkg/crdt/crdt.go:814-844 | every leaf of every list, promoted or not, folds up its own sibling path to the root |
| `Merkle.ProofAccepted` | pkg/dht/server.go:311-343 | so every entry's path is accepted |
| `Merkle.AcceptedIsEntry` | pkg/dht/server.go:311-343 | and whatever path is accepted, its leaf is an entry, if nothing hashed collides and neither it is an inner preimage nor any step of the path an entry |
| `Merkle.ProvableExactly` | pkg/dht/server.go:311-343 | every entry, every inner preimage and every string that can be hashed up to an entry has an accepted path; without collisions nothing else has |
| `CrdtFormat.SetRoundTripIff` | pkg/crdt/crdt.go:107-144 | decoding undoes encoding, for every order the maps may be walked in, if and only if every string, tag count and map size fits its length field |
| `CrdtFormat.StringCut` | pkg/crdt/crdt.go:713-797 | a string cut short is filled up with zeros without an error if any of it is left, and an error otherwise |
| `RgaFormat.ListRoundTripIff` | pkg/crdt/crdt.go:713-797 | decoding undoes encoding if and only if count and fields fit 16 bits and only the last node lacks an origin; otherwise an error or other nodes come back |
| `RgaFormat.TailRead` | pkg/crdt/crdt.go:771-787 | in any data: deleted means a flag byte of one, and a missing, cut or unreadable origin is empty or filled up without an error |
| `RgaFormat.DocumentRoundTripIff` | pkg/crdt/crdt.go:343-362 | for the nodes of any well-formed list, if and only if count and fields fit |
| `CrdtCodec.MarshalSet` | pkg/crdt/crdt.go:623-644 | the buffer filled by the loops is the set's format |
| `CrdtCodec.UnmarshalSet` | pkg/crdt/crdt.go:128-144 | the loops drain the buffer as the format says, short reads and errors included |
| `CrdtCodec.EncodeRGAList` | pkg/crdt/crdt.go:713-735 | the buffer filled by the loop is the list's format |
| `CrdtCodec.DecodeRGAList` | pkg/crdt/crdt.go:737-797 | the loop drains the buffer as the format says |
| `CrdtCodec.DecodeNode` | pkg/crdt/crdt.go:745-794 | one node, with the missing flag byte, the optional origin and the ignored errors |
| `NodeIds.XorBit` | pkg/dht/dht.go:56-62 | a bit of the exclusive or is set if and only if the two bytes differ in it |
| `NodeIds.CloserIsNumeric` | pkg/dht/dht.go:56-68 | closer means at the smaller distance, as a 256-bit number; distance is symmetric, and zero only from an ID to itself |
| `NodeIds.DistanceInjective` | pkg/dht/dht.go:56-62 | different IDs are at different distances from any target |
| `Lex.LessIff` | pkg/dht/dht.go:266-269 | the byte order that all sorting uses: the first position in which two strings differ decides |
| `Closest.SortCorrect` | pkg/dht/dht.go:608-612 | the stable sort by distance is sorted and keeps every ID's first entry first |
| `Closest.Compact` | pkg/dht/dht.go:614-629 | the in-place compaction keeps the first entry of each ID |
| `Closest.DedupeAndPrune` | pkg/dht/dht.go:614-629 | the result is exactly the n closest distinct IDs in strict order of distance |
| `Closest.PruneEarly` | pkg/dht/dht.go:593-595 | keeping the k closest of what was kept and what is new is keeping the k closest of everything |
| `Closest.ClosestCount` | pkg/dht/dht.go:201-218 | exactly min(k, number of IDs) are kept |
| `Closest.SelfFirst` | pkg/dht/dht.go:201-218 | among the closest to an ID that is there, it comes first itself |
| `Routing.Node.TableAdd` | pkg/dht/dht.go:116-132 | a known ID is refreshed, a new one is appended unless its bucket is full; the index invariant holds |
| `Routing.Node.StorePeer` | pkg/dht/dht.go:765-779 | a known peer's object is rewritten in place, last-seen time included, so the table sees it; a new one enters the map and, room permitting, its bucket with the time now; the table gains exactly that ID or none |
| `Routing.Node.Remove` | pkg/dht/dht.go:188-194 | the entry leaves its bucket and exactly its ID the table, the map keeps it |
| `Routing.Node.RemoveFrom` | pkg/dht/dht.go:134-143 | the gap is closed and nothing else moves |
| `Routing.Node.PruneStale` | pkg/dht/server.go:242-256 | exactly the entries last seen before the cutoff go, from every bucket, and are counted; exactly the IDs seen since are left |
| `Routing.Node.AllPeers` | pkg/dht/dht.go:220-229 | every table entry exactly once |
| `Routing.Node.FindClosest` | pkg/dht/dht.go:201-218 | exactly the min(n, Len) closest peers of the table in strict order, each the object the map holds; the target itself first if it is there |
| `Routing.BucketIndexIff` | pkg/dht/dht.go:243-249 | an ID is in bucket b if and only if, as a number, it is at least 2^(255-b) and below 2^(256-b), or zero and b is 0 |
| `Lookup.SelectBatch` | pkg/dht/dht.go:544-560 | exactly the first unasked peers of the shortlist with an address, at most Alpha; besides them only peers without an address are marked |
| `Lookup.AllDialableIff` | pkg/dht/dht.go:544-560 | the peers that can be asked are those of the shortlist with an address that have not been |
| `Lookup.Absorb` | pkg/dht/dht.go:584-590 | everything an answer names is stored and appended; progress is a new ID |
| `Lookup.Round` | pkg/dht/dht.go:544-598 | a round asks that batch, the map learns exactly what the answers name, the shortlist is again the 20 closest of everything seen, and progress is a new ID; without anyone to ask nothing happens |
| `Lookup.NamedIff` | pkg/dht/dht.go:568-590 | what the calls named is what their answers hold, failed and unexpected ones naming nobody |
| `Lookup.Lookup` | pkg/dht/dht.go:519-606 | the answer is exactly the 20 closest IDs among the table and everything any answer named; nobody is dialled twice; at most Alpha * MaxHops calls; it ends only when all hops are spent, nobody on the shortlist is left to ask, or the last round named only IDs the map knew, and is cancelled only at a hop where the context says so; table and map only grow, and an ID new to the map is in the table unless its bucket is full |
| `Lookup.NobodyLeft` | pkg/dht/dht.go:544-565 | when nobody is left to ask, everyone on the shortlist with an address has been called or was once shortlisted without one |
| `Lookup.CalledOnce` | pkg/dht/dht.go:542-566 | over the rounds, nobody is called twice |
| `LeadingZeros.ZerosMeanSmall` | pkg/dht/dht.go:873-889 | the big-endian value is below 2^(bits - d) if and only if there are at least d leading zero bits |
| `LeadingZeros.LeadingZeroBits` | pkg/security/pow.go:150-167 | the loop counts the leading zero bits |
| `LeadingZeros.PrefixLen` | pkg/dht/dht.go:70-83 | so does this one, the full length for an all-zero ID |
| `Registration.WorkIsLeadingZeros` | pkg/dht/dht.go:873-889 | the numeric test accepts a nonce if and only if the hash has that many leading zero bits |
| `Registration.ChallengeTells` | pkg/dht/dht.go:827-836 | the work commits to key, name and every address in order, among names of one length and addresses under 256 bytes |
| `Registration.OnlyChallengeIff` | pkg/dht/dht.go:827-836 | a challenge belongs to one name and list of addresses if and only if there is no address and no byte of the name counts the bytes behind it |
| `Registration.SolvePoW` | pkg/dht/dht.go:841-871 | the least accepted nonce, or none exactly if the difficulty is out of range or no nonce works |
| `Registration.DecodeAddrs` | pkg/dht/dht.go:975-988 | the address loop |
| `Registration.AddrListIff` | pkg/dht/dht.go:975-988 | a block of any number of addresses reads as exactly those whose framing it is, none empty or over 65535 bytes; anything else is refused |
| `Registration.DecodeIff` | pkg/dht/dht.go:955-990 | any data decodes to exactly the announcement whose wire form, with any number of addresses, it begins with; anything else is refused, and what follows is ignored |
| `Registration.RoundTripIff` | pkg/dht/dht.go:923-990 | an announcement survives its encoding if and only if the name fits and there is at most one address, of 1 to 65533 bytes |
| `Registration.HandleRegister` | pkg/dht/server.go:192-231 | the peer is entered if and only if the payload parses, the work checks out and the sender's ID is its key's; a known one keeps its place in or out of the table and loses its last-seen time; the table gains its ID exactly if it was unknown and found room; otherwise nothing changes |
| `Registration.RegisterThenPrune` | pkg/dht/server.go:192-256 | an admitted sender is in the table after the next pruning if and only if it was unknown, its bucket had room and it registered in time |
| `Registration.RegisterAgain` | pkg/dht/server.go:217-226 | so a known peer that registers again is gone from the table after the next pruning, and stays out when it registers once more |
| `TableRuns.Run` | pkg/dht/dht.go:765-779 | in every run of stores, registrations, removals, prunings and lookups: between any two moments no ID is forgotten by the map, and none that the map knew at the first is in the table at the second unless it was in it at the first |
| `Registration.PaidAnnouncementAdmitted` | pkg/dht/dht.go:731-763 | an announcement that its wire form carries is admitted unchanged if and only if it comes from the hash of its key with a difficulty of 8 to 24 and that many leading zero bits over key, name, address and nonce |
| `Registration.OneKeyPerId` | pkg/dht/server.go:192-231 | two admissions under one ID carry the same key, unless the two keys collide |
| `Noise.HandshakeAgrees` | pkg/crypto/noise.go:130-312 | a faithful run is error-free if and only if its three key exchanges are, and then both finish with the chaining key derived from the three secrets in turn, its two derived blocks as cross-matching keys, and each other's static key, after messages of 32, 80 and 48 bytes |
| `Noise.HandshakeMessages` | pkg/crypto/noise.go:130-312 | what those three messages are |
| `Noise.FirstRefusedIff` | pkg/crypto/noise.go:221-259 | a responder refuses as a first message exactly what is not 32 bytes or no key to agree with |
| `Noise.SecondRefusedIff` | pkg/crypto/noise.go:160-212 | an initiator refuses as an answer exactly what does not begin with a key to agree with and go on with a static key sealed under what was agreed |
| `Noise.ThirdRefusedIff` | pkg/crypto/noise.go:262-286 | a responder refuses as a last message exactly what is not a static key sealed under its chaining key |
| `Noise.EveryRunSound` | pkg/crypto/noise.go:130-387 | for any inbound messages in any order of calls: complete only with the split keys, no keys before, and only the counters change afterwards |
| `Noise.HashesDiffer` | pkg/crypto/noise.go:223-259 | in every error-free faithful run without collisions among the strings hashed, the two sides end with different handshake hashes |
| `NoiseStream.StreamsDecrypt` | pkg/crypto/noise.go:355-387 | after any faithful handshake, in every interleaving of sends and in-order deliveries both ways, each delivery gives exactly the plaintext sent |
| `NoiseStream.NonceReusedIff` | pkg/crypto/noise.go:355-366 | Encrypt never refuses, and two messages share a nonce if and only if they are a multiple of 2^64 apart |
| `NoiseStream.KeyAndNonceOnce` | pkg/crypto/noise.go:289-366 | after any faithful handshake whose two derived blocks differ, in any traffic: two messages share key and nonce if and only if one side sent both, a multiple of 2^64 apart |
| `NoiseStream.OneKeyBothWays` | pkg/crypto/noise.go:289-366 | if the blocks do not differ, the first message each way shares both |
| `NoiseStream.FailureCosts` | pkg/crypto/noise.go:369-387 | a message that does not open costs a nonce |
| `Hybrid.HybridAgrees` | pkg/crypto/hybrid.go:174-302 | a faithful hybrid run is error-free if and only if the key exchanges are, and then both hold the encapsulated secret and cross-matching combined keys derived from it and the Noise keys, after messages of exactly 1600, 1648 and 48 bytes, the sizes the transport reads |
| `Hybrid.SessionKeysTell` | pkg/crypto/hybrid.go:287-302 | unless the derivation collides, session keys are equal if and only if the Noise key and the Kyber secret are |
| `Hybrid.EveryRunGuarded` | pkg/crypto/hybrid.go:174-259 | for any inbound messages and any random failures: a finished initiator holds a Kyber secret; a finished responder holds one if and only if the random source worked in the call that took it from step 0 to 2; nothing changes a finished session |
| `Hybrid.UnseededFinish` | pkg/crypto/hybrid.go:223-242 | when it failed there, the third message of the run finishes the responder without a secret |
| `Hybrid.TrafficIgnoresKem` | pkg/crypto/hybrid.go:267-280 | for any messages, any two key encapsulations, key pairs, secrets and random sources: everything sealed afterwards is the same |
| `Hybrid.HybridTrafficIsNoise` | pkg/crypto/hybrid.go:267-280 | after a faithful hybrid run each side seals exactly what it would seal after the plain Noise run |
| `Hybrid.HybridDelivers` | pkg/crypto/hybrid.go:267-280 | after a faithful hybrid run either side opens exactly what the other seals, message for message |
| `NoiseSession.NoiseSession.MixKey` | pkg/crypto/noise.go:308-312 | the chaining key becomes the derived one and the key is set |
| `NoiseSession.NoiseSession.Split` | pkg/crypto/noise.go:289-296 | the two halves, swapped for the responder |
| `NoiseSession.NoiseSession.EncryptAndHash` | pkg/crypto/noise.go:317-329 | sealed if a key is set, and mixed into h |
| `NoiseSession.NoiseSession.DecryptAndHash` | pkg/crypto/noise.go:332-346 | opened if a key is set; a failure leaves the session unchanged |
| `NoiseSession.NoiseSession.InitiatorWrite` | pkg/crypto/noise.go:144-212 | every branch and error leaves the fields as the step function says |
| `NoiseSession.NoiseSession.ResponderWrite` | pkg/crypto/noise.go:221-286 | likewise for the responder |
| `NoiseSession.NoiseSession.WriteHandshake` | pkg/crypto/noise.go:130-138 | one call of the handshake |
| `NoiseSession.NoiseSession.Encrypt` | pkg/crypto/noise.go:355-366 | seals under the send key and counter, and counts; keys are kept sound |
| `NoiseSession.NoiseSession.Decrypt` | pkg/crypto/noise.go:369-387 | opens under the receive key and counter, and counts even if it fails |
| `NoiseSession.HybridHandshakeState.WriteHandshake` | pkg/crypto/hybrid.go:174-259 | every branch, nil and empty messages apart |
| `NoiseSession.HybridHandshakeState.Encrypt` | pkg/crypto/hybrid.go:267-272 | refused until the handshake is complete, then sealed by the Noise session |
| `NoiseSession.HybridHandshakeState.Decrypt` | pkg/crypto/hybrid.go:275-280 | likewise for opening |
| `NoiseSession.HybridHandshakeState.SessionKey` | pkg/crypto/hybrid.go:287-293 | the send key combined with the Kyber secret |
| `NoiseSession.HybridHandshakeState.RecvSessionKey` | pkg/crypto/hybrid.go:296-302 | the receive key combined with it |
| `DnsNames.TerminatesIff` | pkg/services/dns/dns.go:472-501 | reading a name terminates if and only if the chain of pointers from it never comes back to a name, and then the chain has at most as many names as the data has bytes |
| `DnsNames.PriorTerminates` | pkg/services/dns/dns.go:472-501 | it does when every pointer points before the name it occurs in, and the offset stays within the data |
| `DnsNames.PartsInBounds` | pkg/services/dns/dns.go:472-501 | whatever the pointers, the offset returned is never past the end |
| `DnsNames.SelfPointer` | pkg/services/dns/dns.go:480-492 | a pointer to itself is followed for ever |
| `DnsNames.NameRoundTripIff` | pkg/services/dns/dns.go:472-541 | an encoded name reads back, inside any data, if and only if its labels are 1 to 191 bytes with single dots between; otherwise another name or an error comes back |
| `DnsNames.PointerRead` | pkg/services/dns/dns.go:472-501 | labels and a pointer read as the labels and whatever name the pointer leads to, ending two bytes after the pointer starts |
| `DnsNames.ReadDecided` | pkg/services/dns/dns.go:472-501 | any data: the labels up to where none can be read, and what stands there, decide the name: the end of the data or a zero ends it, an overlong label or a cut pointer is an error, and a pointer's 14 bits lead to the name in its place |
| `DnsNames.CompressedName` | pkg/services/dns/dns.go:472-501 | so a clean name compressed against another in the first 16384 bytes reads as the two joined by a dot |
| `DnsNames.AbsoluteName` | pkg/services/dns/dns.go:503-515 | a trailing dot makes no difference to what is written |
| `Dns.ParseDivergesIff` | pkg/services/dns/dns.go:353-501 | parsing fails to terminate if and only if, at some name the parser comes to, the chain of pointers returns to a name |
| `Dns.SelfPointingQuestion` | pkg/services/dns/dns.go:353-501 | fourteen bytes that are enough for that |
| `Dns.MessageRoundTripIff` | pkg/services/dns/dns.go:353-470 | a printed message parses to itself with the counts of its lists and nothing left over if and only if names are clean, RDLength tells the data's length and the counts fit |
| `Dns.ParsedReprints` | pkg/services/dns/dns.go:353-470 | for any data that parses: lists of the announced lengths, nothing read past the end, and printing and parsing again gives the same message if and only if its names are clean |
| `DnsCodec.ReadName` | pkg/services/dns/dns.go:472-501 | the loop with its recursion reads what the specification says |
| `DnsCodec.SplitName` | pkg/services/dns/dns.go:517-530 | the parts between dots, an empty last one dropped |
| `DnsCodec.JoinName` | pkg/services/dns/dns.go:532-541 | the parts joined by dots |
| `DnsCodec.EncodeName` | pkg/services/dns/dns.go:503-515 | one trailing dot stripped, labels with wrapped length bytes, a zero |
| `DnsCodec.ReadRecord` | pkg/services/dns/dns.go:411-437 | one record and every truncation error |
| `DnsCodec.ParseMessage` | pkg/services/dns/dns.go:353-409 | the four loops |
| `DnsCodec.AppendRecord` | pkg/services/dns/dns.go:463-470 | the record's wire form is appended |
| `DnsCodec.SerializeMessage` | pkg/services/dns/dns.go:439-461 | header and four lists |
| `DocumentModel.UndoRedoRestores` | pkg/services/docs/document.go:353-424 | on any document, after any successful inserts, deletes and formats, k undos and k redos restore everything but the version, for every k up to their number |
| `DocumentModel.NewDocumentRestores` | pkg/services/docs/document.go:353-424 | without an older history, for every k |
| `DocumentModel.UndoneKeepsFuture` | pkg/services/docs/document.go:353-387 | undone text may be wrong, but the operations replayed on it end exactly where they first did |
| `DocumentModel.UndoRestoresIff` | pkg/services/docs/document.go:353-387 | one undo restores the text if and only if the operation was an insert, the delete of an empty paragraph, or the format of a paragraph |
| `DocumentModel.EditAfterUndoIff` | pkg/services/docs/document.go:185-204 | on any document, after any number of undos and then any insert, delete or format, two undos and two redos restore the text if and only if the operation recorded before it is harmless in front of it |
| `DocumentModel.EditAfterUndosIff` | pkg/services/docs/document.go:353-387 | in particular after k undos, for every k |
| `DocumentModel.Run` | pkg/services/docs/document.go:166-424 | in every mix of edits, merges, undos and redos, as many block types as lines and a history position inside the history |
| `DocumentModel.RunCounts` | pkg/services/docs/document.go:166-424 | in every run the title is the one given last, the version counts the operations, undos and redos that took effect, and nothing leaves the history |
| `DocumentModel.EditShows` | pkg/services/docs/document.go:166-265 | which operations are taken, and what lines, block types, title and history are then |
| `DocumentModel.RebuiltShows` | pkg/services/docs/document.go:269-298 | a rebuilt document shows exactly the characters of the list, as unbroken lines joined by line breaks, with block types kept where there were any and paragraphs elsewhere |
| `DocumentModel.MergeShows` | pkg/services/docs/document.go:332-350 | and so does a merged one, keeping the block types the operations left |
| `Document.Document.ApplyOp` | pkg/services/docs/document.go:166-265 | each kind of operation, and the ones refused |
| `Document.Document.RebuildFromRGA` | pkg/services/docs/document.go:269-298 | lines from the characters, block types kept where there are any |
| `Document.Document.Merge` | pkg/services/docs/document.go:332-350 | the operations in turn, then a rebuild |
| `Document.Document.Undo` | pkg/services/docs/document.go:353-387 | the inverse the history can give, or nothing |
| `Document.Document.Redo` | pkg/services/docs/document.go:390-424 | the next operation of the history, or nothing |
| `Document.InsertSlice` | pkg/services/docs/document.go:593-609 | doubling an element and overwriting it inserts |
| `ReplayModel.ReplayDecided` | pkg/security/pow.go:400-443 | in every reachable state, a challenge resubmitted within a window is refused if fewer than 1024 others were accepted at that time or since, and accepted again if 1024 were accepted since |
| `ReplayModel.AcceptedWhenLate` | pkg/security/pow.go:400-416 | in every reachable state, a challenge never accepted, or last accepted a window ago or longer, is accepted if and only if the work is good and its time is at most a window away |
| `ReplayModel.ReplayRefusedIff` | pkg/security/pow.go:400-443 | when no two acceptances share a time: refused if and only if fewer than 1024 others came since |
| `ReplayModel.EarlyReplayFloods` | pkg/security/pow.go:400-443 | an acceptance within a window of the last means more than 1024 challenges accepted in a window |
| `ReplayModel.AcceptedAtMostThrice` | pkg/security/pow.go:252-258 | in every run without such a flood, acceptances of a challenge are a window apart and at most three, and the cache holds at most 1024 |
| `ReplayModel.RunKeepsInv` | pkg/security/pow.go:400-443 | in every run: the cache fits, holds last acceptance times, and forgets only what is stale or crowded out by 1024 others |
| `Replay.PoWValidator.Validate` | pkg/security/pow.go:400-443 | accepts if and only if the work is good, the challenge fresh and not replayed; the cache is then settled, within the cap |
| `Replay.PurgeStale` | pkg/security/pow.go:418-423 | exactly the entries from before the cutoff go |
| `Replay.Oldest` | pkg/security/pow.go:426-432 | an entry no newer than any other |
| `BucketModel.TrafficBound` | pkg/qos/qos.go:29-116 | over any stretch of Sends one after another the bytes sent are at most burst + rate * time, and bytes sent plus dropped are the bytes offered |
| `BucketModel.ConcurrentBound` | pkg/qos/qos.go:29-116 | the same bound for any number of Sends under way at once, their attempts interleaved in any way; bytes begun are sent, dropped or waiting |
| `BucketModel.EventsCounted` | pkg/qos/qos.go:107-116 | and counted as sent are exactly the packets that got their tokens, as dropped those given up, and every packet begun is one, the other, or still waiting |
| `BucketModel.WaitBound` | pkg/qos/qos.go:41-60 | while a caller waits, tokens granted plus left never exceed tokens held plus earned, and stay between 0 and the capacity |
| `BucketModel.RefillExact` | pkg/qos/qos.go:55-60 | a refill brings exactly the whole tokens the time has earned, up to the capacity |
| `BucketModel.TakeExact` | pkg/qos/qos.go:29-60 | an attempt adds the whole tokens earned, up to the capacity, and then takes exactly what is asked for if there is as much, and nothing otherwise |
| `BucketModel.SentIsGranted` | pkg/qos/qos.go:107-116 | what is counted as sent is exactly what got its tokens, in packets and bytes, and the rest as dropped |
| `BucketModel.WaitEndsIff` | pkg/qos/qos.go:41-60 | a caller polling at a fixed gap gets its tokens sooner or later if and only if it asks for at most the capacity and one gap earns a whole token |
| `TokenBucket.TokenBucket.Refill` | pkg/qos/qos.go:55-60 | the whole tokens earned are added up to the capacity and the clock moves on |
| `TokenBucket.TokenBucket.Take` | pkg/qos/qos.go:29-38 | refill, then all or nothing |
| `TokenBucket.TokenBucket.Wait` | pkg/qos/qos.go:41-52 | attempts until one succeeds or the context ends |
| `TokenBucket.QoSClass.Send` | pkg/qos/qos.go:107-116 | the packet is counted as sent or as dropped |

## Left out

- Raft: only a vote requester exists, so there is no election or log safety to state.
- Multipath links, sockets, QUIC, HTTP, BadgerDB, BLE, NAT, GUI, CLI and plugins: I/O around unseen libraries.
- The cryptographic primitives themselves, and gob, JSON and protobuf encodings.
- Interleavings inside a locked method, and merging an OR-set with itself, which would deadlock on its own lock (hence `other != this` there).
- RGA Unmarshal into a live list: it recounts the length without tombstones and does not restore the clock; only the decoding of the bytes is modelled. The head sentinel cannot be deleted in the model's text.
- Get, Length, HeadNextID, IDs and Items of the replicated types, the LWW register, encodeStore/decodeStore and the peer-list codec: they would only add easier members.
- KBucket and its lock are folded into the node's sequence of buckets; the library's stable sort is an insertion sort; GetClosest, which nothing calls on this path, is not modelled.
- Peer scores and difficulty adjustment, both in floating point.
- Lookup's network is an arbitrary list of answers and its context an arbitrary predicate; only a peer's first address is dialled.
- The RGA inside a document: its characters after a merge are a parameter, because pushLineToRGA does not keep them in step with the lines. Saving and loading documents is not modelled.
- BucketModel.TrafficBound and BucketModel.ConcurrentBound: real arithmetic instead of 64-bit floats, a clock that does not go back, and non-negative rates and packet sizes.
- ReplayModel.AcceptedAtMostThrice: a challenge is identified with its digest.
- The DNS server, its answer cache and zone handling.
