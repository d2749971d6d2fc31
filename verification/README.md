# Verified model of a Snapchain node's storage core

This project models the parts of a Snapchain node whose behaviour other nodes depend on, and proves what they promise:

- **The Merkle trie and the shard engine.** A trie of message hashes, uncompressed for the first ten bytes of a key and
  compacted below, with batch insert and delete, hashes and counts per node, lazily loaded children, a pending write
  batch, commit and reload; and the engine that proposes and commits chunks by comparing root hashes.
  A node is compared with a plain set of keys: `TrieStore.Holds` says that a partly loaded node over a database is the
  canonical tree of the set, `TrieStore.Stored` that the records read through a batch are. The root hash is
  `TrieSpec.RootHash`, a function of the set alone, for an arbitrary hash function with 20-byte results.
- **The account message stores.** One store implementation for casts, reactions, user data, verifications, links and
  username proofs: primary records, add and remove indices, secondary indices, competition between messages, link
  compaction and pruning. A store is compared with its `StoreSpec.Contents`, the set of its records and the set of those
  that its indices name: `StoreLayout.Lays` says that the database holds exactly their entries, and `StoreSpec.Act` what a
  merge does to them. Both speak of keys; `StoreFields` says in the fields of messages which of them compete, what a store
  accepts, what leaves it, and what its secondary indices hold.
- **Smaller pieces.** The timer scheduler with messages in flight, the validator set with proposer rotation, and hub
  event ids.

Files, in the order in which they build on each other:

| file | content |
|---|---|
| `Bytes.dfy`, `RocksDb.dfy` | byte strings, their order and big-endian numbers; the database and its write batches |
| `TrieSpec.dfy`, `TrieStore.dfy`, `TrieNode.dfy` | key sets and their hashes; nodes and their records; steps shared by the operations |
| `TrieQuery.dfy`, `TrieBatch.dfy` | membership, enumeration, snapshots; what a batch with repeats reports, counts and hashes to |
| `TrieInsert.dfy`, `TrieDelete.dfy`, `TrieRecords.dfy`, `TrieTheorems.dfy` | insertion and deletion; the records a deletion loses; history independence and root binding |
| `MerkleTrie.dfy`, `ShardEngine.dfy` | the trie with its batch and database; the engine and replica agreement |
| `Messages.dfy`, `StoreSpec.dfy`, `StoreLayout.dfy` | messages, keys and order; the store as a set; its layout in the database |
| `StoreFields.dfy`, `Store.dfy` | competition, compaction and indices in the fields of messages; the store itself |
| `StoreTheorems.dfy`, `StoreOrders.dfy`, `LinkOrders.dfy`, `StoreRuns.dfy` | convergence, holders and indices; exactly when the order of merging does not matter; runs of stores |
| `EventIds.dfy`, `Timers.dfy`, `Validators.dfy` | event ids, timers, validators |

Some properties one might expect do not hold of the code. Each has a witness and the condition under which the code does
keep it, exact unless stated otherwise:

- *Merges converge.* For adds and removes of any store, where no link lies under the unpadded key of another, all orders
  agree if and only if every message beats all its rivals or has a rival that does (`StoreOrders.OrdersAgreeIff`); that is
  always so where messages fall into slots (`StoreTheorems.MergesConverge`), and for verifications it is a condition on each
  address (`StoreOrders.VerificationsAgreeIff`, with the three-message case `StoreTheorems.VerificationOrders`). For links
  and compact states, all orders agree if and only if no two states tie for the latest timestamp of their user and type, in
  every slot the greatest message is swept by no state or all messages are turned away by the latest state, and every link
  is settled with the removes that lie under its unpadded key (`LinkOrders.LinksAgreeIff`). It fails for two states of one
  age (`LinkOrders.TiedStates`), for a listed link and a later remove of it, both older than the state, although all pairs
  of them agree (`LinkOrders.ListedLinkRemoved`), for a link as old as the state or of another type
  (`StoreTheorems.CompactLinkOrders`): merging a state sweeps links of every type up to its own timestamp, while afterwards
  it refuses only older links of its own type; and for every link with a remove under its unpadded key, taken by themselves
  (`StoreRuns.CrossedOrders`).
- *An inserted batch is held.* An empty leaf takes the last key of a batch but reports it at the first position, where the
  filter may clear it again, so that a repeated new key can be lost from results, counts and hashes. The trie holds the
  batch if and only if it is lossless (`TrieBatch.Lossless`, `MerkleTrie.MerkleTrie.Insert`); one new key given twice is
  placed, reported nowhere and hidden from the root (`MerkleTrie.InsertTwice`). Replicas at the same point still come to the
  same root for such a chunk.
- *A deletion leaves complete records.* Compaction builds the primary key of the removed child twice, so the record it
  removes is that of another prefix. Records are lost if that is a node of the remaining trie off the way to deleted keys,
  and kept if it is no node; for one key there is no case in between (`MerkleTrie.MerkleTrie.Delete`,
  `TrieRecords.LossHappens`). Nothing is lost unless two remaining keys share eleven bytes that start with the trie's prefix
  byte (`TrieRecords.UncrowdedIsUnharmed`).
- *Merges and prunes keep the indices.* A link remove without a target can lie under the key that a link of a four-byte type
  had before types were padded. Merging such a link takes the remove for a competitor, and deleting it, if it is a remove
  too, deletes the index entry of the other, whose record stays (`StoreRuns.CrossedRun`). A merge or prune of a store whose
  records are all indexed leaves them so if and only if no such remove is kept while the other leaves
  (`Store.Store.Merge`, `Store.Store.PruneMessages`), and then the indices agree with the records
  (`StoreTheorems.IndexIntegrity`).
- *The root in memory survives a commit* if and only if all its children were loaded (`MerkleTrie.MerkleTrie.Commit`), which
  is why the engine reloads at once.
- *Event ids increase* exactly as long as the clock does not go back (`EventIds.LaterIsGreater`, `EventIds.GoingBackRepeats`).

## Model

| member | source | states |
|---|---|---|
| `Bytes.BytesCompare` | src/storage/util.rs:11-28 | the index loop with early returns computes the lexicographic order |
| `Bytes.CompareSigns` | src/storage/util.rs:11-28 | that order is total: zero exactly on equal strings, sign changes when swapped |
| `Bytes.LessTransitive` | src/storage/util.rs:11-28 | that order is transitive |
| `Bytes.BigEndianOrder` | src/storage/store/account/message.rs:191-208 | big-endian bytes sort as the numbers do |
| `RocksDb.Merge` | src/storage/db/rocksdb.rs:36-48 | replaying a batch onto another, in any order, lets its operations win |
| `RocksDb.Commit` | src/storage/db/rocksdb.rs:212-228 | after a commit every key reads as it did through the batch, whatever the order of operations |
| `TrieStore.LoadHolds` | src/storage/trie/trie_node.rs:67-98 | reading back the record of a key set gives a node that holds exactly that set |
| `TrieStore.SerializeIsRecord` | src/storage/trie/trie_node.rs:67-98 | the record written for a node is that of the key set it holds |
| `TrieStore.StoredFrame` | src/storage/trie/trie_node.rs:56-65 | a stored subtree is unaffected by writes outside the keys of its prefix |
| `TrieNode.GetOrLoadChild` | src/storage/trie/trie_node.rs:447-480 | loading a child changes neither the key set of the node nor that of the child |
| `TrieNode.KnownHashIsRight` | src/storage/trie/trie_node.rs:482-521 | the hash kept for a child, where it is known, is the hash of its key set |
| `TrieNode.RecomputeHash` | src/storage/trie/trie_node.rs:482-521 | the loop over sorted children hashes the concatenation of their hashes, loading only children whose hash is not known, whatever those hashes are |
| `TrieNode.UpdateHash` | src/storage/trie/trie_node.rs:482-521 | the loop over sorted children yields the canonical hash of the key set, and the node then holds it |
| `TrieNode.SuccessesAreNewKeys` | src/storage/trie/trie_node.rs:251-275 | the successes counted by an insert are exactly the size of the growth of the key set |
| `TrieInsert.FilterExisting` | src/storage/trie/trie_node.rs:198-214 | keys equal to the leaf's own are dropped and reported as not inserted, the others keep their shifted positions |
| `TrieInsert.Insert` | src/storage/trie/trie_node.rs:159-278 | for every batch, repeats included: succeeds exactly if it is non-empty and all keys are jointly prefix-free; the number of reported insertions, the item count and the hash are functions of the batch and the key set alone; the node holds the union exactly if the batch is sound, and then the records written make batch over database hold it too; without repeats of new keys, result i says whether key i was absent |
| `TrieInsert.OpenLeaf` | src/storage/trie/trie_node.rs:182-223 | a leaf takes the last key, settles the results of known keys and splits exactly when other keys remain, repeats included |
| `TrieInsert.SplitLeaf` | src/storage/trie/trie_node.rs:423-445 | the leaf's key moves to a child, fails exactly when the key ends here, and nothing is lost in memory or records |
| `TrieInsert.InsertBelow` | src/storage/trie/trie_node.rs:225-277 | the open keys go to their children; count, hash and record of the node change exactly if the children report something |
| `TrieInsert.InsertGroups` | src/storage/trie/trie_node.rs:242-275 | whatever the order of the groups, each child ends up with the hash and, if nothing is lost, the keys of its own group, and the successes are the sum of the reports |
| `TrieBatch.ReportedBound` | src/storage/trie/trie_node.rs:173-277 | no more is reported and counted than is new, and all of it exactly if the batch is lossless: at no empty leaf that several keys reach is the first also the last |
| `TrieBatch.HashIsRight` | src/storage/trie/trie_node.rs:482-521 | when nothing is lost below a node, its hash is that of all its keys |
| `TrieBatch.OnceIsLossless` | src/storage/trie/trie_node.rs:173-277 | a batch that repeats no new key is lossless |
| `TrieBatch.TwiceIsLost` | src/storage/trie/trie_node.rs:185-210 | one new key given twice reports nothing, wherever it ends up |
| `TrieInsert.PopAndFilter` | src/storage/trie/trie_node.rs:183-214 | for any batch at an empty leaf, repeats included: the last key is taken, which keys remain and at which positions, and that the taken key is reported exactly if the batch is one key or its first key differs from its last |
| `TrieDelete.Delete` | src/storage/trie/trie_node.rs:280-394 | succeeds exactly if no key is a prefix of two stored keys; the node then holds the difference and result i is true exactly for the first occurrence of a present key; every record of a remaining node is right unless it lies at a doubled prefix of a compacted node, and those off the way to all deleted keys are removed |
| `TrieDelete.DeleteAtLeaf` | src/storage/trie/trie_node.rs:290-306 | a leaf is emptied exactly if its key is in the batch, and reports the first occurrence only |
| `TrieDelete.Shrink` | src/storage/trie/trie_node.rs:364-394 | counts, hash and compaction after a delete restore the canonical tree of the remaining keys, and the record removed by compaction is that of the doubled prefix |
| `TrieDelete.DoubledDelete` | src/storage/trie/trie_node.rs:374-387 | compaction removes the record at the doubled prefix, which is not that of the child |
| `TrieDelete.DeleteGroups` | src/storage/trie/trie_node.rs:318-362 | whatever the order of the groups, each child loses exactly its own keys, and emptied children go |
| `TrieRecords.UnharmedIsStored` | src/storage/trie/trie_node.rs:374-387 | records are complete after a deletion whose doubled prefixes are no nodes of the remaining trie |
| `TrieRecords.LostIsNotStored` | src/storage/trie/trie_node.rs:374-387 | records are incomplete after a deletion with a doubled prefix that is a remaining node and lies on the way to no deleted key, whatever absent keys the batch names |
| `TrieRecords.OneKeyHarm` | src/storage/trie/trie_node.rs:374-387 | for a batch of one key these two cases are all there are |
| `TrieRecords.UncrowdedIsUnharmed` | src/storage/trie/trie_node.rs:384-385 | harm needs two remaining keys that share eleven bytes starting with the trie prefix |
| `TrieRecords.LossHappens` | src/storage/trie/trie_node.rs:384-385 | four keys of which deleting one loses the record of another |
| `TrieQuery.Exists` | src/storage/trie/trie_node.rs:396-417 | membership is exact, and loading nodes on the way changes no key set |
| `TrieQuery.GetAllValues` | src/storage/trie/trie_node.rs:572-598 | the result is an initial segment of the sorted keys below the node, complete or longer than the limit, despite truncation at every level; an empty node gives one empty value |
| `TrieQuery.HasNodeIff` | src/storage/trie/trie_node.rs:128-148 | down to the timestamp depth a node exists for a prefix exactly if some key starts with it |
| `TrieQuery.ValuesUnder` | src/storage/trie/merkle_trie.rs:288-301 | the values under a prefix are those of the node found along it, none where there is no node |
| `TrieQuery.ExcludedHash` | src/storage/trie/trie_node.rs:523-546 | count and hash of the children other than one are those of the keys outside it |
| `TrieQuery.GetSnapshot` | src/storage/trie/trie_node.rs:600-637 | the snapshot is that of the key set, whichever nodes were loaded; that of an empty trie is given too |
| `TrieQuery.SnapshotHashes` | src/storage/trie/trie_node.rs:600-637 | a snapshot ends where the nodes along its prefix end; it has the joint hash of the children passed by at each depth, and at its end that of the node itself, of nothing below a leaf, or of all children |
| `TrieQuery.SnapshotCounts` | src/storage/trie/trie_node.rs:600-637 | for a prefix within the timestamp, the snapshot counts exactly the keys that do not start with it |
| `TrieTheorems.HistoryIndependence` | src/storage/trie/trie_node.rs:159-394 | nodes that hold the same keys agree in hash, count, children and keys wherever both are loaded, whatever their histories |
| `TrieTheorems.StoredHoldsOneSet` | src/storage/trie/trie_node.rs:67-98 | the records of a subtree determine its key set |
| `TrieTheorems.NodeHoldsOneSet` | src/storage/trie/trie_node.rs:67-98 | a partly loaded node over a database determines its key set |
| `TrieTheorems.LoneKeyHash` | src/storage/trie/trie_node.rs:482-521 | from the tenth byte on a lone key is a leaf with the hash of the key; before, it is below inner nodes |
| `TrieTheorems.InnerNodeHash` | src/storage/trie/trie_node.rs:482-521 | an inner node has the hash of the hashes of its children, concatenated in ascending order of their bytes |
| `TrieTheorems.RootBinding` | src/storage/trie/trie_node.rs:482-521 | two tries with different keys and the same root hash give two different hashed inputs with the same hash, unless a key of one is a concatenation of child hashes of the other |
| `MerkleTrie.MerkleTrie.constructor` | src/storage/trie/merkle_trie.rs:62-69 | a new trie has no root and no pending writes |
| `MerkleTrie.MerkleTrie.Initialize` | src/storage/trie/merkle_trie.rs:81-97 | the committed keys and root come back, or an empty root is put into the batch |
| `MerkleTrie.MerkleTrie.Insert` | src/storage/trie/merkle_trie.rs:179-205 | refused exactly for short or not prefix-free keys, and then batch and database are untouched; otherwise the trie holds the union, in memory and through the pending batch, exactly if the batch is lossless, and root hash, count and results are the stated functions of batch and keys in any case |
| `MerkleTrie.InsertTwice` | src/storage/trie/trie_node.rs:185-210 | one new key given twice: the insertion succeeds, reports nothing, and leaves hash and count of the root as they were |
| `MerkleTrie.RootAfterIsRight` | src/storage/trie/merkle_trie.rs:277-286 | a lossless batch leads to the root hash of all keys |
| `MerkleTrie.MerkleTrie.Delete` | src/storage/trie/merkle_trie.rs:207-233 | the keys become the difference, with exact results and exact refusal; records stay complete if no remaining node is at a doubled prefix, for one key exactly then; an emptied trie deletes its root record |
| `MerkleTrie.MerkleTrie.Exists` | src/storage/trie/merkle_trie.rs:235-244 | membership is exact, but an empty trie also claims the empty key |
| `MerkleTrie.MerkleTrie.Items` | src/storage/trie/merkle_trie.rs:246-255 | the number of keys |
| `MerkleTrie.MerkleTrie.GetNode` | src/storage/trie/merkle_trie.rs:257-275 | reading through the pending batch gives the node of the keys under the prefix |
| `MerkleTrie.MerkleTrie.GetRootHash` | src/storage/trie/merkle_trie.rs:277-286 | the hash of a non-empty trie is a function of its keys; that of an empty one is empty or the hash of the empty string |
| `MerkleTrie.MerkleTrie.GetAllValues` | src/storage/trie/merkle_trie.rs:288-301 | an initial segment of the sorted keys under a prefix, complete or longer than 1024; for an empty trie one empty value at the root |
| `MerkleTrie.MerkleTrie.GetSnapshot` | src/storage/trie/merkle_trie.rs:303-314 | depends on the keys alone and counts those outside the prefix, for an empty trie too |
| `MerkleTrie.MerkleTrie.Commit` | src/storage/trie/merkle_trie.rs:131-137 | the current keys become the committed ones if the records are complete; the root in memory still holds them exactly if all its children were loaded; an emptied trie leaves no root |
| `MerkleTrie.UnloadChildren` | src/storage/trie/trie_node.rs:559-570 | loaded children become hashes and the others are forgotten |
| `MerkleTrie.MerkleTrie.Reload` | src/storage/trie/merkle_trie.rs:139-157 | pending writes are dropped and the root record is read back: exactly the last committed keys, or an error if there is none |
| `ShardEngine.ShardEngine.constructor` | src/storage/store/engine.rs:37-58 | the engine starts with the committed keys and the sentinel, all committed |
| `ShardEngine.ShardEngine.ProposeStateChange` | src/storage/store/engine.rs:64-124 | for every queue, repeats included: the proposed root is the stated function of the committed keys and the queue, that of all keys if nothing is lost; proposing leaves keys, root and database as they were |
| `ShardEngine.ShardEngine.CommitShardChunk` | src/storage/store/engine.rs:137-196 | a chunk is committed exactly if its keys can be inserted and lead to its root; the engine then holds all keys exactly if nothing is lost; otherwise nothing is written |
| `ShardEngine.ReplayIsUnion` | src/storage/store/engine.rs:137-196 | the keys after a run of chunks are the union of their keys, however they were batched |
| `ShardEngine.ReplicasAgree` | src/storage/store/engine.rs:151-171 | engines that committed the same chunks hold the same keys and root |
| `ShardEngine.ProposeAndCommit` | src/storage/store/engine.rs:64-196 | a chunk proposed by one replica passes the root check of another at the same point exactly if its keys can be inserted, repeats included |
| `Messages.EncodeKeyInjective` | src/storage/store/account/message.rs:222-262 | different structured keys are different byte strings |
| `Messages.PrimaryOrder` | src/storage/store/account/message.rs:191-208 | primary-key order is timestamp order, then hash order |
| `Messages.OrderIsTotal` | src/storage/store/account/store.rs:288-310 | the order of a store is antisymmetric, and a tie means same kind, timestamp and hash |
| `Messages.OrderIsTransitive` | src/storage/store/account/store.rs:288-310 | the order of a store is transitive |
| `Messages.LastWriteWins` | src/storage/store/account/store.rs:288-310 | outside casts, later wins, then removes win, then the greater hash |
| `Messages.RemoveWins` | src/storage/store/account/cast_store.rs:112-136 | among casts, removes win, then later wins, then the greater hash |
| `StoreSpec.StoresShareNoKey` | src/storage/store/account/message.rs:19-120 | stores can share one database: no key that one of them puts or deletes is a key of another |
| `StoreSpec.EntriesDisjoint` | src/storage/store/account/store.rs:535-646 | messages that do not compete share no key of any kind |
| `StoreLayout.LaysOneDatabase` | src/storage/store/account/store.rs:535-646 | the records and the named ones among them determine the whole database |
| `StoreSpec.ActIsWellFormed` | src/storage/store/account/store.rs:743-953 | a merge, whatever is crossed, keeps that no two named messages compete, that only a remove without a target can be unnamed, and the link compaction invariant |
| `StoreSpec.ActIsStep` | src/storage/store/account/store.rs:832-953 | where nothing is crossed, a merge does what competition between slots says |
| `StoreSpec.MergeStaysWhole` | src/storage/store/account/link_store.rs:747-781 | after a merge every record is still named if and only if no remove that leaves has a kept remove under its unpadded key |
| `StoreSpec.RunsKeepInvariants` | src/storage/store/account/store.rs:743-1013 | in every state of every run of merges and prunes no two named messages compete, no stored link remove is older than its compact state, and every older add targets a member of it |
| `StoreSpec.UnhitRunsStayWhole` | src/storage/store/account/store.rs:743-1013 | in a run in which no step deletes the index entry of a message it keeps, every record is named in every state |
| `StoreLayout.UnpaddedKeyIsOwn` | src/storage/store/account/link_store.rs:786-879 | an unpadded key is a padded key only of the same slot, or of a remove that names no target |
| `StoreLayout.DeletionLayout` | src/storage/store/account/store.rs:569-646 | deleting records leaves exactly the entries of the others, without the index entries of those of the same slot or under the unpadded key of a deleted remove |
| `StoreLayout.ReplaceLayout` | src/storage/store/account/store.rs:866-894 | deleting competitors and putting a message in one batch gives exactly the entries of the new contents, whatever is crossed |
| `StoreFields.ConflictsIff` | src/storage/store/account/store.rs:183-286 | which storable messages compete, in fields: those of one subject (a cast and its removes by hash; reactions of one type to one target; user data of one type; links of types that are equal up to trailing zero bytes and one target; compact states of one type; one address; one name) and one user, except that a name has one proof and an address one add among all users |
| `StoreFields.ReactionsCompete` | src/storage/store/account/reaction_store.rs:222-248 | reactions of one-byte types, both to urls or both to casts, compete exactly if user, type and target are equal |
| `StoreFields.LinksCompete` | src/storage/store/account/link_store.rs:293-335 | links whose types do not end in a zero byte compete exactly if user, type and target are equal |
| `StoreFields.OthersCompete` | src/storage/store/account/cast_store.rs:184-226 | casts compete by hash and target hash, user data by type, verifications and proofs by address and name, across users as stated |
| `StoreFields.TargetIff` | src/storage/store/account/reaction_store.rs:215-220 | targets have one key exactly if they are equal, or one is a url that spells the user and hash of the other, a cast |
| `StoreFields.CrossedIff` | src/storage/store/account/link_store.rs:385-425 | a remove without a target lies under the unpadded key of a link exactly if the type of the link has four bytes and its own type is these and the bytes of the target |
| `StoreFields.PrecedesIff` | src/storage/store/account/store.rs:288-310 | which of two messages loses, by time, kind and hash, for every store |
| `StoreFields.StorableIff` | src/storage/store/account/store.rs:649-678 | the form of the messages that each store can hold |
| `StoreFields.AdmitsIff` | src/storage/store/account/store.rs:743-953 | what a merge accepts, in fields: well-formed messages that no later compact state of their type overrules and to which every message in their way loses; compact states later than those of their type |
| `StoreFields.AdmittedAct` | src/storage/store/account/store.rs:743-953 | what an accepted merge leaves, in fields, crossed keys included |
| `StoreFields.MergeInFields` | src/storage/store/account/store.rs:785-808 | an accepted reaction leaves the user's reactions to other targets; an accepted compact state leaves, of the user's links of any type up to its own timestamp, exactly the adds that it lists, and takes nothing else but the older state of its type |
| `StoreFields.LinksByTarget` | src/storage/store/account/link_store.rs:428-468 | the index entries under a user are target, timestamp, hash and user of exactly the stored adds that target the user, with the link type as value |
| `StoreFields.ReactionsByTarget` | src/storage/store/account/reaction_store.rs:169-213 | the same for reactions to a cast or url, with the reaction type as value |
| `StoreFields.CastsByParent` | src/storage/store/account/cast_store.rs:243-296 | the same for the casts that reply to a cast or url |
| `StoreFields.CastsByMention` | src/storage/store/account/cast_store.rs:298-357 | the same for the casts that mention a user |
| `StoreFields.HoldersByKey` | src/storage/store/account/verification_store.rs:99-160 | the user under an address or name is that of the one stored add or proof of it, if there is one |
| `Store.CastIndices` | src/storage/store/account/cast_store.rs:138-174 | the loop over mentions sets exactly the secondary keys of the cast |
| `Store.BuildSecondaryIndices` | src/storage/store/account/reaction_store.rs:61-85 | puts exactly the secondary entries of an add, or refuses one without a target, address or name |
| `Store.DeleteSecondaryIndices` | src/storage/store/account/link_store.rs:747-781 | deletes exactly the secondary keys of an add and the unpadded key of a link |
| `Store.DeleteTransaction` | src/storage/store/account/store.rs:569-628 | deletes exactly the keys a stored message has put |
| `Store.DeleteMany` | src/storage/store/account/store.rs:629-647 | the batch deletes the keys of the given messages and nothing else |
| `Store.PutAdd` | src/storage/store/account/store.rs:535-552 | puts exactly the entries of an add, or reports which kind cannot be indexed |
| `Store.PutRemove` | src/storage/store/account/store.rs:583-605 | puts exactly the entries of a remove |
| `Store.Store.constructor` | src/storage/store/account/store.rs:363-380 | a new store over an empty database represents the empty set |
| `Store.Store.FindRival` | src/storage/store/account/store.rs:204-285 | a set-index lookup finds the one named message of a slot, and refuses as duplicate on a tie and as conflict when it is greater |
| `Store.Store.GetDefaultMergeConflicts` | src/storage/store/account/store.rs:183-286 | returns all named messages of the slot, each of them older, or refuses because one is not; as duplicate if the message itself is named |
| `Store.Store.GetLinkMergeConflicts` | src/storage/store/account/link_store.rs:786-879 | the extra lookups under unpadded keys find exactly the removes without a target that lie there |
| `Store.Store.HolderIsIndexed` | src/storage/store/account/verification_store.rs:99-160 | the index by address or name names the user whose add is stored, exactly if there is one |
| `Store.Store.GetVerificationMergeConflicts` | src/storage/store/account/verification_store.rs:225-302 | exactly the competitors, those of other users included |
| `Store.Store.GetUsernameMergeConflicts` | src/storage/store/account/username_proof_store.rs:185-250 | exactly the competitors of any user |
| `Store.Store.GetMergeConflicts` | src/storage/store/account/store.rs:174-181 | in every store and for every message, all competitors if the message beats each of them, otherwise a refusal by one that it does not beat; duplicate exactly if the message is named |
| `Store.Store.CommitTransaction` | src/storage/store/account/store_event_handler.rs:90-109 | event and batch are committed together under the next id, or nothing is if none can be issued |
| `Store.Store.GateIsCompactState` | src/storage/store/account/store.rs:837-864 | a link is refused for compaction exactly if the compact state under its key says so |
| `Store.Store.MergeAdd` | src/storage/store/account/store.rs:832-894 | the new state is the specified step, with its event; or a refusal that changes nothing |
| `Store.Store.MergeRemove` | src/storage/store/account/store.rs:896-953 | the new state is the specified step, with its event; or a refusal that changes nothing |
| `Store.Store.Scan` | src/storage/db/rocksdb.rs:269-343 | a scan under a user's primary prefix yields exactly the user's messages in key order |
| `Store.NothingLaterIsSwept` | src/storage/store/account/store.rs:785-790 | stopping the scan at the first later message misses nothing |
| `Store.Store.Sweep` | src/storage/store/account/store.rs:776-812 | the scan finds exactly the stored removes, and adds outside the targets, that are not later than the compact state |
| `Store.Store.MergeCompactState` | src/storage/store/account/store.rs:743-830 | the new state is the specified step: the older compact state and the swept links go, the new one comes |
| `Store.Store.Merge` | src/storage/store/account/store.rs:649-678 | accepted exactly if the message is well-formed, not gated and beats every competitor, and an id is issued; then the competitors leave and the message enters, and the event names exactly those that left; duplicate exactly if the message is named; a refusal leaves everything as it was; every record stays named if and only if no crossed key is hit; errors are told apart; what leaves and stays is also stated in the fields of messages, for reactions and compact states as in `StoreFields.MergeInFields` |
| `Store.Store.DeleteOldest` | src/storage/store/account/store.rs:976-1009 | deletes a prefix of the scan, one event each with the ids of the generator, or fails on the first id that cannot be issued |
| `Store.Store.PruneMessages` | src/storage/store/account/store.rs:955-1013 | removes exactly the excess over the limit, the least by timestamp and hash, with one event each; with a right cached count exactly min(n, limit) remain; every record stays named if and only if no crossed key is hit; an id failure leaves everything as it was |
| `StoreRuns.CrossedRun` | src/storage/store/account/link_store.rs:747-781 | two removes of one user are merged and the user is pruned to one message: the record of the second stays without index entry |
| `StoreRuns.CrossedOrders` | src/storage/store/account/link_store.rs:786-879 | for every link and remove under its unpadded key, the two orders of merging end with different databases |
| `StoreRuns.Operate` | src/storage/store/account/store.rs:649-1013 | every sequence of merges and prunes on a new store runs through contents as specified, and if no step hits a crossed key the indices agree with the records in the end |
| `Store.OneEventEach` | src/storage/store/account/store.rs:998-1006 | with a clock that does not go back, the log keeps every event of a run |
| `Store.Store.GetAdd` | src/storage/store/account/store.rs:411-437 | returns the named add of the slot, exactly if there is one |
| `Store.Store.GetRemove` | src/storage/store/account/store.rs:439-470 | returns the named remove of the slot, exactly if there is one; refused where removes are not supported |
| `Store.Store.GetLinksByTarget` | src/storage/store/account/link_store.rs:171-219 | the scan of the index by target, parsing its keys, returns exactly the stored links to a user, of one type or of all, in the order of time and hash, and finds the message of every entry |
| `StoreTheorems.MergesConverge` | src/storage/store/account/store.rs:183-310 | where no link is crossed, after merging messages in any order with repeats each slot holds exactly its greatest message, and it is named |
| `StoreOrders.OrdersAgreeIff` | src/storage/store/account/store.rs:183-310 | for adds and removes of any store, where no link is crossed, all orders of merging agree if and only if every message beats all its rivals or has a rival that does |
| `StoreOrders.CoveredConverge` | src/storage/store/account/store.rs:832-953 | and they then end with exactly the messages that beat all their rivals |
| `StoreOrders.VerificationsAgreeIff` | src/storage/store/account/verification_store.rs:225-302 | all orders agree if and only if, for every address, every add is taken back by its user, or the greatest add is not and no other user has both a remove and an add that is not taken back |
| `StoreTheorems.SameMessagesSameDatabase` | src/storage/store/account/store.rs:832-953 | stores that merged the same messages, none of them crossed, hold the same records and indices |
| `StoreRuns.MergeSequence` | src/storage/store/account/store.rs:649-678 | merging any sequence into an empty store gives the contents that the specification says |
| `StoreRuns.SameMessages` | src/storage/store/account/store.rs:649-678 | two stores that merge the same messages end with the same database whenever orders agree on them |
| `StoreTheorems.VerificationOrders` | src/storage/store/account/verification_store.rs:225-302 | two users verify one address and the second takes it back: all six orders of merging agree exactly if the second add is not between the other two messages |
| `StoreTheorems.CompactLinkOrders` | src/storage/store/account/store.rs:785-858 | a link and a compact state give the same result in both orders exactly if the state sweeps the link only when it is older and of its type |
| `LinkOrders.LinksAgreeIff` | src/storage/store/account/store.rs:743-953 | over any set of link messages, crossed or not, all orders agree if and only if no two compact states of a user and type tie for the latest timestamp, in every slot the greatest message is swept by no state or the latest state turns all away, and for every link with a remove under its unpadded key: if the greatest of the slot of the remove lives, the link is an add that it beats and does not live, and otherwise the link, if it lives, beats the remove |
| `LinkOrders.SettledConverge` | src/storage/store/account/store.rs:743-953 | and they then end with the latest states and the greatest messages that no state sweeps, all of them named |
| `LinkOrders.TiedStates` | src/storage/store/account/store.rs:752-770 | of two states of one age the first one stays |
| `LinkOrders.ListedLinkRemoved` | src/storage/store/account/store.rs:785-922 | a link that the state lists, a later remove of it and the state, newer than both, agree in all pairs but not all together |
| `StoreTheorems.OneHolder` | src/storage/store/account/verification_store.rs:225-302 | at most one user holds an add for an address or name, and the index names exactly that user |
| `StoreTheorems.LatestProofHoldsName` | src/storage/store/account/username_proof_store.rs:185-250 | a name belongs to the greatest proof by timestamp and hash merged by any user, and the index names its user |
| `StoreRuns.NameHolder` | src/storage/store/account/username_proof_store.rs:185-250 | after a run of proofs the index names the user of the greatest proof that any user has merged |
| `StoreTheorems.IndexIntegrity` | src/storage/store/account/store.rs:535-646 | in every state of a store, every index entry names a record of its own slot and secondary entries belong to stored adds; every record is named by exactly one index entry, no slot has both an add and a remove, and secondary entries exist for all stored adds, if and only if every record is named |
| `EventIds.EventIdDecodes` | src/storage/store/account/store_event_handler.rs:14-18 | an id in range decodes to its timestamp and sequence and is below 2^53 |
| `EventIds.HubEventIdGenerator.GenerateId` | src/storage/store/account/store_event_handler.rs:39-66 | an id is issued if and only if the reading relative to the epoch is below 2^41 and fewer than 4096 calls were made before in its millisecond; it is the reading times 4096 and the number of these calls |
| `EventIds.CallsInOneMillisecond` | src/storage/store/account/store_event_handler.rs:39-66 | in every run, call k of a millisecond, from 0, issues timestamp * 4096 + k, and from 4096 on the calls fail |
| `EventIds.LaterIsGreater` | src/storage/store/account/store_event_handler.rs:39-66 | the next id is greater exactly if the clock has not gone back |
| `EventIds.GoingBackRepeats` | src/storage/store/account/store_event_handler.rs:39-66 | a clock that goes back and forth repeats an id |
| `EventIds.IdsIncrease` | src/storage/store/account/store_event_handler.rs:20-66 | on a clock that does not go back, all issued ids strictly increase and are below 2^53 |
| `EventIds.EventKeysSort` | src/storage/store/account/store_event_handler.rs:111-118 | event keys sort in issue order |
| `Timers.TimerScheduler.StartTimer` | src/consensus/timers.rs:66-93 | a start gets a new generation and replaces the timer of its key |
| `Timers.TimerScheduler.IsTimerActive` | src/consensus/timers.rs:96-98 | active exactly if the last start of the key was neither cancelled nor accepted |
| `Timers.TimerScheduler.Cancel` | src/consensus/timers.rs:113-117 | ends the timer of one key |
| `Timers.TimerScheduler.CancelAll` | src/consensus/timers.rs:120-124 | ends all timers |
| `Timers.TimerScheduler.InterceptTimerMsg` | src/consensus/timers.rs:131-162 | accepts a delivered message exactly if its timer is the active one |
| `Timers.AcceptedIff` | src/consensus/timers.rs:66-162 | in every interleaving a message is accepted exactly if it comes from a start after which nothing restarted, cancelled or accepted its timer |
| `Timers.GenerationsAreUnique` | src/consensus/timers.rs:66-93 | later starts have greater generations |
| `Timers.AcceptedOnce` | src/consensus/timers.rs:131-162 | each start is accepted at most once, however often its message is delivered |
| `Validators.ValidatorSet.constructor` | src/core/types.rs:276-282 | the set is strictly ascending and has the registered addresses |
| `Validators.ValidatorSet.Add` | src/core/types.rs:284-298 | adds a new validator of the shard in its place, and nothing else |
| `Validators.ValidatorSet.Exists` | src/core/types.rs:300-302 | tells exactly the registered addresses |
| `Validators.SameAddressesSameList` | src/core/types.rs:275-302 | the registered addresses determine the list |
| `Validators.SelectProposer` | src/core/types.rs:495-515 | at height 1 and round 0 the least registered address is selected |
| `Validators.NextProposers` | src/core/types.rs:495-515 | one round or one height further the next greater address is selected, and after the greatest the least |
| `Validators.ProposersAgree` | src/core/types.rs:495-515 | nodes with the same addresses pick the same proposer at every height and round |
| `Validators.FairRotation` | src/core/types.rs:495-515 | any n consecutive rounds select each of n validators exactly once |

## Left out

- `TrieInsert.Insert`: fewer than 2^32 keys, where the item count of a record would wrap.
- `MerkleTrie.MerkleTrie.Insert`: the same bound; says nothing of the root in memory after a rejected batch, which depends on the order of the groups.
- `MerkleTrie.MerkleTrie.Delete`: for batches of several keys, whether a harmed record on the way to another deleted key is written again depends on the order of the groups; neither is claimed then.
- `MerkleTrie.MerkleTrie.GetNode`: says nothing where the trie has no node, since deletions leave records of former nodes behind.
- `Store.Store.Merge`: fids are between 1 and 2^32, and timestamp and hash identify a message.
- `ShardEngine.ReplicasAgree`: says nothing of an engine after a chunk that lost a key; that later chunks lead such replicas to the same databases is not claimed.
- `Store.BuildSecondaryIndices`: a body that does not go with the message type cannot be written down in the model.
- Trie nodes are values that an operation takes and returns, as their unique owners do; sharing of nodes is not modelled.
- Node hashes are concatenated in the order of the child bytes; the stored list of child characters is modelled as a set.
- Encodings: protobuf bytes and hexadecimal strings are datatypes, and decoding errors cannot happen.
- Database errors and partial commits.
- Calls on a trie that was not initialized, which return an error.
- The event log is a map of its own beside the store's database; the keys of events have another prefix.
- The different event bodies of username proofs.
- Concurrent merges and the fid locks: merges are sequential.
- Stores sharing a database: each store has its own map; their postfixes and prefixes differ.
- The account stores call the prefix scan with a prefix only, where the database layer now takes two bounds; the model scans the prefix.
- Paged reads of messages; reads through the indices other than that of links by target. What these indices hold is stated; a scan under a url also meets the entries of longer urls.
- `revoke`, `migrate_verifications` and the index of fnames by fid, which do not keep the indices in step in general.
- Blocks, height lookup and multi-page block reads.
- `validate_state_change` and proposal validity, which accept everything.
- The firing of timers: any message may be delivered at any time.
- Bit shifts of event ids are arithmetic.
- Consensus, gossip, connectors, foreign-function wrappers, configuration, logging and metrics.
