/**
 The engine of one shard: it proposes state changes from queued messages and commits agreed chunks, comparing the root
 hash its own trie arrives at with the one in the chunk.
 */
module ShardEngine {
  import opened Bytes
  import opened TrieSpec
  import opened TrieStore
  import opened TrieNode
  import opened RocksDb
  import opened TrieBatch
  import opened MerkleTrie

  datatype Message = Message(hash: Key, payload: Bytes)

  type Transaction = seq<Message>

  datatype ShardStateChange = ShardStateChange(shardId: nat, newStateRoot: Bytes, transactions: seq<Transaction>)

  /** A chunk as agreed by consensus; its header, when there is one, carries the state root. */
  datatype ShardChunk = ShardChunk(shardRoot: Option<Bytes>, transactions: seq<Transaction>)

  /** The key every engine inserts at start, so that its trie is never empty. */
  const SENTINEL: Key := [0, 1, 2, 3, 4, 5, 6, 7, 8, 9]

  function Hashes(ms: Transaction): (ks: seq<Key>)
    ensures |ks| == |ms| && forall i | 0 <= i < |ms| :: ks[i] == ms[i].hash
  {
    seq(|ms|, i requires 0 <= i < |ms| => ms[i].hash)
  }

  /** The batch of keys a chunk brings: only the first transaction is read. */
  function ChunkKeys(chunk: ShardChunk): seq<Key> {
    if chunk.transactions == [] then [] else Hashes(chunk.transactions[0])
  }

  /** The batch can be inserted into a trie that holds S. */
  ghost predicate Insertable(S: set<Key>, ks: seq<Key>) {
    (forall k | k in ks :: |k| >= TIMESTAMP_LENGTH) && PrefixFree(S + KeySet(ks))
  }

  /** An engine that holds S commits the chunk rather than panicking: the batch leads to the root in the chunk. */
  ghost predicate Passes(S: set<Key>, chunk: ShardChunk) {
    && chunk.shardRoot.Some? && chunk.transactions != []
    && Insertable(S, ChunkKeys(chunk))
    && chunk.shardRoot.value == RootAfter(S, ChunkKeys(chunk), RootHash(S))
  }

  /** The chunk carries the root hash of its keys and those of S. */
  ghost predicate Accepts(S: set<Key>, chunk: ShardChunk) {
    && chunk.shardRoot.Some? && chunk.transactions != []
    && Insertable(S, ChunkKeys(chunk))
    && chunk.shardRoot.value == RootHash(S + KeySet(ChunkKeys(chunk)))
  }

  /** The keys after committing a sequence of chunks, as long as every one is accepted. */
  ghost function Replay(S: set<Key>, chunks: seq<ShardChunk>): Option<set<Key>> {
    if chunks == [] then Some(S)
    else
      var last := chunks[|chunks| - 1];
      match Replay(S, chunks[..|chunks| - 1])
      case None => None
      case Some(X) => if Accepts(X, last) then Some(X + KeySet(ChunkKeys(last))) else None
  }

  ghost function AllKeys(chunks: seq<ShardChunk>): set<Key> {
    set c, k | c in chunks && k in ChunkKeys(c) :: k
  }

  /** The keys after a sequence of chunks are the start and the keys of all chunks, whatever the batching. */
  lemma {:induction false} ReplayIsUnion(S: set<Key>, chunks: seq<ShardChunk>)
    requires Replay(S, chunks).Some?
    ensures Replay(S, chunks).value == S + AllKeys(chunks)
  {
    hide Accepts, AllKeys, KeySet, ChunkKeys;
    if chunks == [] {
      NoChunks();
    } else {
      var init, last := chunks[..|chunks| - 1], chunks[|chunks| - 1];
      ReplayIsUnion(S, init);
      AllKeysSnoc(init, last);
      assert chunks == init + [last];
    }
  }

  lemma NoChunks()
    ensures AllKeys([]) == {}
  {
  }

  lemma AllKeysSnoc(init: seq<ShardChunk>, last: ShardChunk)
    ensures AllKeys(init + [last]) == AllKeys(init) + KeySet(ChunkKeys(last))
  {
    hide ChunkKeys;
    var chunks := init + [last];
    assert last in chunks;
    forall c | c in init ensures c in chunks {}
  }

  lemma ReplaySnoc(S: set<Key>, chunks: seq<ShardChunk>, chunk: ShardChunk)
    requires Replay(S, chunks).Some? && Accepts(Replay(S, chunks).value, chunk)
    ensures Replay(S, chunks + [chunk]) == Some(Replay(S, chunks).value + KeySet(ChunkKeys(chunk)))
  {
    assert (chunks + [chunk])[..|chunks|] == chunks;
  }

  class ShardEngine {
    const shardId: nat
    const trie: MerkleTrie
    var queue: seq<Message>
    var chunks: seq<ShardChunk>  // the chunk store
    ghost const start: set<Key>  // the keys at start, the sentinel included

    ghost predicate Valid()
      reads this, trie
    {
      && trie.Valid() && trie.tracked && trie.batch == map[]
      && trie.keys != {} && trie.committed == Holding(trie.keys)
      && Replay(start, chunks) == Some(trie.keys)
    }

    /** Opens the trie of a database and makes sure that the sentinel is in it. */
    constructor (shardId: nat, db: Db, ghost disk: Disk)
      requires disk.Absent? ==> PrimaryKey([], None) !in db
      requires disk.Holding? ==> Proper(disk.keys) && RootStored(db, map[], disk.keys)
      requires !disk.Unknown?
      requires var S := if disk.Holding? then disk.keys else {};
               PrefixFree(S + {SENTINEL}) && |S + {SENTINEL}| < U32
      ensures Valid() && fresh(trie) && queue == [] && chunks == []
      ensures trie.keys == start == (if disk.Holding? then disk.keys else {}) + {SENTINEL}
    {
      hide Holds, Stored, RootStored, NodeHash, KeySet, PrefixFree, Accepts, Proper;
      var t := new MerkleTrie(db, disk);
      t.Initialize();
      SentinelBatch(t.keys);
      var r := t.Insert([SENTINEL]);
      t.Commit();
      var reloaded := t.Reload();
      this.shardId := shardId;
      this.trie := t;
      this.queue := [];
      this.chunks := [];
      this.start := t.keys;
    }

    /** Queues a message for the next proposal. */
    method Submit(m: Message)
      requires Valid()
      modifies this`queue
      ensures Valid() && queue == old(queue) + [m]
    {
      queue := queue + [m];
    }

    /**
     Proposes the queued messages with the root they lead to. The trie is rolled back, so the keys and the root stay
     the committed ones. The root is that of all the keys when the queue is lossless.
     */
    method ProposeStateChange(shard: nat) returns (change: ShardStateChange)
      requires Valid() && |trie.keys + KeySet(Hashes(queue))| < U32
      modifies this`queue, trie
      ensures Valid() && queue == [] && trie.keys == old(trie.keys) && trie.db == old(trie.db)
      ensures trie.root.value.hash == RootHash(trie.keys) == old(trie.root).value.hash
      ensures change.shardId == shard && change.transactions == [old(queue)]
      ensures Insertable(trie.keys, Hashes(old(queue))) ==>
                change.newStateRoot == RootAfter(trie.keys, Hashes(old(queue)), RootHash(trie.keys))
      ensures Insertable(trie.keys, Hashes(old(queue))) && LosslessBatch(trie.keys, Hashes(old(queue))) ==>
                change.newStateRoot == RootHash(trie.keys + KeySet(Hashes(old(queue))))
    {
      hide Holds, Stored, RootStored, NodeHash, RootHash, PrefixFree, Accepts, Proper, HashAfter, Lossless,
           LosslessBatch;
      RootIsRight(trie);
      var userMessages := queue;
      queue := [];
      var hashes := Hashes(userMessages);
      ghost var S := trie.keys;
      trie.ValidParts();
      var r := trie.Insert(hashes);
      var newRoot := trie.root.value.hash;
      if r.Ok? && LosslessBatch(S, hashes) {
        LosslessRoot(S, hashes);
      }
      change := ShardStateChange(shard, newRoot, [userMessages]);
      var reloaded := trie.Reload();
      RootIsRight(trie);
    }

    /**
     Commits a chunk. Returns false where the engine panics: no header, no transaction, keys that cannot be inserted,
     or a root that differs; then nothing has been written. A chunk that repeats a new key may pass the comparison, as
     every replica comes to the same root, but then the trie does not hold its keys.
     */
    method CommitShardChunk(chunk: ShardChunk) returns (ok: bool)
      requires Valid() && |trie.keys + KeySet(ChunkKeys(chunk))| < U32
      modifies this`chunks, trie
      ensures ok <==> Passes(old(trie.keys), chunk)
      ensures ok ==> chunks == old(chunks) + [chunk] && chunk.transactions != []
      ensures ok && LosslessBatch(old(trie.keys), ChunkKeys(chunk)) ==>
                trie.keys == old(trie.keys) + set m | m in chunk.transactions[0] :: m.hash
      ensures ok ==> trie.root.Some? && trie.root.value.hash == chunk.shardRoot.value
      ensures ok && LosslessBatch(old(trie.keys), ChunkKeys(chunk)) ==>
                && Valid() && trie.keys == old(trie.keys) + KeySet(ChunkKeys(chunk)) && Accepts(old(trie.keys), chunk)
                && trie.root.value.hash == RootHash(trie.keys)
      ensures ok && !LosslessBatch(old(trie.keys), ChunkKeys(chunk)) ==>
                !Holds(trie.root.value, trie.db, [], old(trie.keys) + KeySet(ChunkKeys(chunk))) && !Valid()
      ensures !ok ==> chunks == old(chunks) && trie.db == old(trie.db) && trie.committed == old(trie.committed)
    {
      hide Stored, RootStored, NodeHash, RootHash, PrefixFree, Accepts, Proper, HashAfter, Lossless, LosslessBatch,
           Replay, Holds, KeySet, Applied;
      if chunk.shardRoot.None? || chunk.transactions == [] {
        return false;
      }
      var hashes := Hashes(chunk.transactions[0]);
      HashesOf(chunk.transactions[0]);
      RootIsRight(trie);
      ghost var S := trie.keys;
      trie.ValidParts();
      var r := trie.Insert(hashes);
      if r.Err? {
        return false;
      }
      Grown(S, trie.keys);
      var root := trie.root.value.hash;
      if root != chunk.shardRoot.value {
        return false;
      }
      ghost var db, batch := trie.db, trie.batch;
      trie.Commit();
      RecordCommitted(db, batch, trie.root);
      var reloaded := trie.Reload();
      if LosslessBatch(S, hashes) {
        LosslessRoot(S, hashes);
        AcceptsIntro(S, chunk);
        RootIsRight(trie);
        ReplaySnoc(start, chunks, chunk);
      } else {
        TooFewItems(trie.root.value, trie.db, S + KeySet(hashes));
        NotHeldIsInvalid(trie);
      }
      chunks := chunks + [chunk];
      return true;
    }
  }

  lemma HashesOf(ms: Transaction)
    ensures KeySet(Hashes(ms)) == set m | m in ms :: m.hash
  {
    forall m | m in ms
      ensures m.hash in Hashes(ms)
    {
      var i :| 0 <= i < |ms| && ms[i] == m;
      assert Hashes(ms)[i] == m.hash;
    }
  }

  lemma AcceptsIntro(S: set<Key>, chunk: ShardChunk)
    requires Passes(S, chunk)
    requires RootAfter(S, ChunkKeys(chunk), RootHash(S)) == RootHash(S + KeySet(ChunkKeys(chunk)))
    ensures Accepts(S, chunk)
  {
  }

  lemma LosslessRoot(S: set<Key>, ks: seq<Key>)
    requires S != {} && Fits(S, []) && Insertable(S, ks) && LosslessBatch(S, ks)
    ensures RootAfter(S, ks, RootHash(S)) == RootHash(S + KeySet(ks))
  {
    assert S + KeySet(ks) != {} by { var k :| k in S; assert k in S + KeySet(ks); }
    RootAfterIsRight(S, ks, RootHash(S));
  }

  /** The record of the root survives the commit. */
  lemma RecordCommitted(db: Db, batch: Batch, root: Option<Node>)
    requires RecordedRoot(db, batch, root)
    ensures var k := PrimaryKey([], None); var db' := Applied(db, batch);
            k in db' && db'[k].hash == root.value.hash && db'[k].items == root.value.items
  {
    assert Look(Applied(db, batch), map[], PrimaryKey([], None)) == Look(db, batch, PrimaryKey([], None));
  }

  lemma TooFewItems(n: Node, db: Db, X: set<Key>)
    requires n.items < |X|
    ensures !Holds(n, db, [], X)
  {
  }

  lemma NotHeldIsInvalid(t: MerkleTrie)
    requires t.root.Some? && !Holds(t.root.value, t.db, [], t.keys)
    ensures !t.Valid()
  {
  }

  lemma SentinelBatch(S: set<Key>)
    ensures KeySet([SENTINEL]) == {SENTINEL} && OnceIfAbsent([SENTINEL], S)
    ensures S + KeySet([SENTINEL]) == S + {SENTINEL} != {}
    ensures forall k | k in [SENTINEL] :: |k| >= TIMESTAMP_LENGTH
  {
    assert SENTINEL in S + {SENTINEL};
  }

  lemma Grown(S: set<Key>, X: set<Key>)
    requires S != {} && S <= X
    ensures X != {}
  {
  }

  lemma RootIsRight(t: MerkleTrie)
    requires t.Valid() && t.keys != {}
    ensures t.root.Some? && t.root.value.hash == RootHash(t.keys)
  {
  }

  /** Replicas that started alike and committed the same chunks hold the same keys and the same root. */
  lemma ReplicasAgree(a: ShardEngine, b: ShardEngine)
    requires a.Valid() && b.Valid() && a.start == b.start && a.chunks == b.chunks
    ensures a.trie.keys == b.trie.keys == a.start + AllKeys(a.chunks)
    ensures a.trie.root.value.hash == b.trie.root.value.hash == RootHash(a.trie.keys)
  {
    ReplayIsUnion(a.start, a.chunks);
    RootIsRight(a.trie);
    RootIsRight(b.trie);
  }

  /**
   A chunk proposed by one replica passes the root comparison of another at the same point, lossless or not, exactly
   when its keys can be inserted.
   */
  method ProposeAndCommit(a: ShardEngine, b: ShardEngine, shard: nat) returns (ok: bool)
    requires a.Valid() && b.Valid() && a != b && a.trie != b.trie && a.start == b.start && a.chunks == b.chunks
    requires |a.trie.keys + KeySet(Hashes(a.queue))| < U32
    modifies a`queue, a.trie, b`chunks, b.trie
    ensures ok <==> Insertable(old(a.trie.keys), Hashes(old(a.queue)))
    ensures a.Valid() && a.trie.keys == old(a.trie.keys)
    ensures ok ==> (b.Valid() <==> LosslessBatch(old(a.trie.keys), Hashes(old(a.queue))))
  {
    ReplicasAgree(a, b);
    var change := a.ProposeStateChange(shard);
    ok := b.CommitShardChunk(ShardChunk(Some(change.newStateRoot), change.transactions));
  }
}
