/**
 The trie's data: nodes in memory, node records in the database, the pending write batch, and what it means for
 them to represent a key set.
 */
module TrieStore {
  import opened Bytes
  import opened TrieSpec
  import opened RocksDb

  datatype HubError = NoKeys | KeyTooShort | KeyLengthExceeded | NotInitialized | NoRoot | Panic

  datatype Result<+T> = Ok(value: T) | Err(error: HubError)

  /** A child is either in memory or known by its byte and, after an unload, its hash. */
  datatype Child = Loaded(node: Node) | Serialized(hash: Option<Bytes>)

  datatype Node = Node(hash: Bytes, items: nat, children: map<byte, Child>, key: Option<Key>)

  const DEFAULT_NODE := Node([], 0, map[], None)

  /** The persisted form of a node. Its child bytes are a set: the order they are written in is never read. */
  datatype Record = Record(key: Bytes, childChars: set<byte>, items: nat, hash: Bytes)

  type Db = map<Bytes, Record>

  type Batch = WriteBatch<Bytes, Record>

  const TRIE_PREFIX: byte := 11

  function PrimaryKey(prefix: Bytes, child: Option<byte>): Bytes {
    [TRIE_PREFIX] + prefix + if child.Some? then [child.value] else []
  }

  function KeyOr(key: Option<Key>): Bytes {
    if key.Some? then key.value else []
  }

  /** The item count is written as a u32. */
  function Serialize(n: Node): Record {
    Record(KeyOr(n.key), n.children.Keys, n.items % U32, n.hash)
  }

  function Deserialize(r: Record): Node {
    Node(r.hash, r.items, map c | c in r.childChars :: Serialized(None), Some(r.key))
  }

  function Put(txn: Batch, prefix: Bytes, n: Node): Batch {
    txn[PrimaryKey(prefix, None) := Some(Serialize(n))]
  }

  /** The record of the node that holds T at depth d. */
  ghost function RecordOf(T: set<Key>, d: nat): Record {
    if Lone(T, d) then Record(Only(T), {}, |T|, NodeHash(T, d))
    else Record([], Chars(T, d), |T|, NodeHash(T, d))
  }

  /** The batch over the database holds the record of every node of the subtree that holds T at prefix p. */
  ghost predicate Stored(db: Db, batch: Batch, p: Key, T: set<Key>)
    decreases Rest(T, |p|)
  {
    T != {} ==>
      && Look(db, batch, PrimaryKey(p, None)) == Some(RecordOf(T, |p|))
      && (!Lone(T, |p|) ==>
            forall c | c in Chars(T, |p|) ::
              CharsAreInhabited(T, |p|, c);
              RestShrinks(T, |p|, c);
              Stored(db, batch, p + [c], Sub(T, |p|, c)))
  }

  ghost predicate ChildrenStored(db: Db, batch: Batch, p: Key, T: set<Key>) {
    forall c | c in Chars(T, |p|) :: Stored(db, batch, p + [c], Sub(T, |p|, c))
  }

  /** An inner node's own key is absent, or empty when the node was read from the database. */
  predicate BlankKey(key: Option<Key>) {
    key == None || key == Some([])
  }

  /**
   The node n, with its unloaded subtrees read from the database, is the trie over T at prefix p: the item count and
   the hash are those of T, and so is every node below.
   */
  ghost predicate Holds(n: Node, db: Db, p: Key, T: set<Key>)
    decreases n
  {
    && n.items == |T|
    && if T == {} then
         n.children == map[] && BlankKey(n.key) && (|p| >= TIMESTAMP_LENGTH ==> n.key == None)
       else
         && n.hash == NodeHash(T, |p|)
         && if Lone(T, |p|) then
              n.children == map[] && n.key == Some(Only(T))
            else
              && BlankKey(n.key)
              && n.children.Keys == Chars(T, |p|)
              && forall c | c in n.children :: ChildHolds(n.children[c], db, p + [c], Sub(T, |p|, c))
  }

  ghost predicate ChildHolds(child: Child, db: Db, p: Key, T: set<Key>)
    decreases child
  {
    match child
    case Loaded(node) => Holds(node, db, p, T)
    case Serialized(hash) => Stored(db, map[], p, T) && (hash.Some? ==> hash.value == NodeHash(T, |p|))
  }

  ghost predicate ChildrenHold(children: map<byte, Child>, db: Db, p: Key, T: set<Key>) {
    && children.Keys == Chars(T, |p|)
    && forall c | c in children :: ChildHolds(children[c], db, p + [c], Sub(T, |p|, c))
  }

  lemma ChildHeld(children: map<byte, Child>, db: Db, p: Key, W: set<Key>, c: byte)
    requires ChildrenHold(children, db, p, W)
    ensures c in children <==> Sub(W, |p|, c) != {}
    ensures c in children ==> ChildHolds(children[c], db, p + [c], Sub(W, |p|, c))
  {
    CharsAreInhabited(W, |p|, c);
  }

  lemma LoadedHolds(n: Node, db: Db, p: Key, T: set<Key>)
    requires Holds(n, db, p, T)
    ensures ChildHolds(Loaded(n), db, p, T)
  {
  }

  lemma ChildStored(db: Db, batch: Batch, p: Key, W: set<Key>, c: byte)
    requires ChildrenStored(db, batch, p, W)
    ensures Stored(db, batch, p + [c], Sub(W, |p|, c))
  {
    CharsAreInhabited(W, |p|, c);
  }

  lemma DefaultHolds(db: Db, p: Key)
    ensures Holds(DEFAULT_NODE, db, p, {})
  {
  }

  // ---- facts about records and batches ----

  lemma PrimaryKeyExtends(p: Key, c: byte, k: Bytes)
    ensures PrimaryKey(p + [c], None) <= k ==> PrimaryKey(p, None) <= k
    ensures PrimaryKey(p, Some(c)) == PrimaryKey(p + [c], None)
    ensures !(PrimaryKey(p + [c], None) <= PrimaryKey(p, None))
  {
    assert PrimaryKey(p + [c], None) == PrimaryKey(p, None) + [c];
  }

  lemma SiblingKeysDiffer(p: Key, c: byte, e: byte, k: Bytes)
    requires c != e && PrimaryKey(p + [c], None) <= k
    ensures !(PrimaryKey(p + [e], None) <= k)
  {
    assert PrimaryKey(p + [c], None) == PrimaryKey(p, None) + [c];
    assert PrimaryKey(p + [e], None) == PrimaryKey(p, None) + [e];
    assert k[|p| + 1] == c;
  }

  /** Two views agree on every key at or below prefix p. */
  ghost predicate AgreeUnder(db: Db, batch: Batch, db': Db, batch': Batch, p: Key) {
    forall k | PrimaryKey(p, None) <= k :: Look(db, batch, k) == Look(db', batch', k)
  }

  lemma {:induction false} StoredFrame(db: Db, batch: Batch, db': Db, batch': Batch, p: Key, T: set<Key>)
    requires Stored(db, batch, p, T) && AgreeUnder(db, batch, db', batch', p)
    ensures Stored(db', batch', p, T)
    decreases Rest(T, |p|)
  {
    if T != {} && !Lone(T, |p|) {
      forall c | c in Chars(T, |p|)
        ensures Stored(db', batch', p + [c], Sub(T, |p|, c))
      {
        CharsAreInhabited(T, |p|, c);
        RestShrinks(T, |p|, c);
        forall k | PrimaryKey(p + [c], None) <= k
          ensures Look(db, batch, k) == Look(db', batch', k)
        {
          PrimaryKeyExtends(p, c, k);
        }
        StoredFrame(db, batch, db', batch', p + [c], Sub(T, |p|, c));
      }
    }
  }

  /** A node written by Serialize and read back by Deserialize represents the same keys, its children unloaded. */
  lemma LoadHolds(db: Db, p: Key, T: set<Key>)
    requires T != {} && Stored(db, map[], p, T)
    ensures Holds(Deserialize(RecordOf(T, |p|)), db, p, T)
  {
    var n := Deserialize(RecordOf(T, |p|));
    if !Lone(T, |p|) {
      forall c | c in n.children
        ensures ChildHolds(n.children[c], db, p + [c], Sub(T, |p|, c))
      {
      }
    }
  }

  /** A node that represents T is serialized as the record of T. */
  lemma SerializeIsRecord(n: Node, db: Db, p: Key, T: set<Key>)
    requires T != {} && Holds(n, db, p, T) && |T| < U32
    ensures Serialize(n) == RecordOf(T, |p|)
  {
  }

  /** What a batch operation at or below p leaves alone. */
  ghost predicate SameOutside(batch: Batch, batch': Batch, p: Key) {
    forall k | !(PrimaryKey(p, None) <= k) ::
      && (k in batch <==> k in batch')
      && (k in batch ==> batch[k] == batch'[k])
  }

  /** What writes strictly below p leave alone: everything else, the record of p included. */
  ghost predicate SameExceptBelow(batch: Batch, batch': Batch, p: Key) {
    forall k | k == PrimaryKey(p, None) || !(PrimaryKey(p, None) <= k) ::
      && (k in batch <==> k in batch')
      && (k in batch ==> batch[k] == batch'[k])
  }

  lemma SameExceptBelowIsSameOutside(batch: Batch, batch': Batch, p: Key)
    requires SameExceptBelow(batch, batch', p)
    ensures SameOutside(batch, batch', p)
  {
  }

  lemma SameExceptBelowReflexive(batch: Batch, p: Key)
    ensures SameExceptBelow(batch, batch, p)
  {
  }

  lemma SameExceptBelowTransitive(b0: Batch, b1: Batch, b2: Batch, p: Key)
    requires SameExceptBelow(b0, b1, p) && SameExceptBelow(b1, b2, p)
    ensures SameExceptBelow(b0, b2, p)
  {
  }

  lemma SameOutsideReflexive(batch: Batch, p: Key)
    ensures SameOutside(batch, batch, p)
  {
  }

  lemma SameOutsideTransitive(b0: Batch, b1: Batch, b2: Batch, p: Key)
    requires SameOutside(b0, b1, p) && SameOutside(b1, b2, p)
    ensures SameOutside(b0, b2, p)
  {
  }

  lemma SameOutsideChild(batch: Batch, batch': Batch, p: Key, c: byte)
    requires SameOutside(batch, batch', p + [c])
    ensures SameExceptBelow(batch, batch', p)
  {
    forall k | k == PrimaryKey(p, None) || !(PrimaryKey(p, None) <= k)
      ensures (k in batch <==> k in batch') && (k in batch ==> batch[k] == batch'[k])
    {
      PrimaryKeyExtends(p, c, k);
    }
  }

  // ---- records that may be spoiled ----

  /** The record key belongs to one of the prefixes X. */
  ghost predicate Spoiled(X: iset<Key>, k: Bytes) {
    k != [] && k[0] == TRIE_PREFIX && k[1..] in X
  }

  lemma SpoiledPrimary(X: iset<Key>, p: Key)
    ensures Spoiled(X, PrimaryKey(p, None)) <==> p in X
  {
    assert PrimaryKey(p, None)[1..] == p;
  }

  /**
   What a deletion at or below p leaves alone. Compaction builds the key of the child it removes from an already
   prefixed key, so a deletion can also touch the records of other prefixes, here X.
   */
  ghost predicate SameOutsideOr(batch: Batch, batch': Batch, p: Key, X: iset<Key>) {
    forall k | !(PrimaryKey(p, None) <= k) && !Spoiled(X, k) ::
      && (k in batch <==> k in batch')
      && (k in batch ==> batch[k] == batch'[k])
  }

  ghost predicate SameExceptBelowOr(batch: Batch, batch': Batch, p: Key, X: iset<Key>) {
    forall k | (k == PrimaryKey(p, None) || !(PrimaryKey(p, None) <= k)) && !Spoiled(X, k) ::
      && (k in batch <==> k in batch')
      && (k in batch ==> batch[k] == batch'[k])
  }

  lemma SameOrReflexive(batch: Batch, p: Key, X: iset<Key>)
    ensures SameOutsideOr(batch, batch, p, X) && SameExceptBelowOr(batch, batch, p, X)
  {
  }

  lemma SameOutsideOrTransitive(b0: Batch, b1: Batch, b2: Batch, p: Key, X: iset<Key>)
    requires SameOutsideOr(b0, b1, p, X) && SameOutsideOr(b1, b2, p, X)
    ensures SameOutsideOr(b0, b2, p, X)
  {
  }

  lemma SameExceptBelowOrTransitive(b0: Batch, b1: Batch, b2: Batch, p: Key, X: iset<Key>)
    requires SameExceptBelowOr(b0, b1, p, X) && SameExceptBelowOr(b1, b2, p, X)
    ensures SameExceptBelowOr(b0, b2, p, X)
  {
  }

  lemma SameExceptBelowOrIsOutside(batch: Batch, batch': Batch, p: Key, X: iset<Key>)
    requires SameExceptBelowOr(batch, batch', p, X)
    ensures SameOutsideOr(batch, batch', p, X)
  {
  }

  lemma SameOutsideOrChild(batch: Batch, batch': Batch, p: Key, c: byte, X: iset<Key>)
    requires SameOutsideOr(batch, batch', p + [c], X)
    ensures SameExceptBelowOr(batch, batch', p, X)
  {
    forall k | (k == PrimaryKey(p, None) || !(PrimaryKey(p, None) <= k)) && !Spoiled(X, k)
      ensures (k in batch <==> k in batch') && (k in batch ==> batch[k] == batch'[k])
    {
      PrimaryKeyExtends(p, c, k);
    }
  }

  /** Every node of the subtree that holds T at p has its record, except at the prefixes X. */
  ghost predicate Intact(db: Db, batch: Batch, p: Key, T: set<Key>, X: iset<Key>)
    decreases Rest(T, |p|)
  {
    T != {} ==>
      && (p in X || Look(db, batch, PrimaryKey(p, None)) == Some(RecordOf(T, |p|)))
      && (!Lone(T, |p|) ==>
            forall c | c in Chars(T, |p|) ::
              CharsAreInhabited(T, |p|, c);
              RestShrinks(T, |p|, c);
              Intact(db, batch, p + [c], Sub(T, |p|, c), X))
  }

  ghost predicate ChildrenIntact(db: Db, batch: Batch, p: Key, T: set<Key>, X: iset<Key>) {
    forall c | c in Chars(T, |p|) :: Intact(db, batch, p + [c], Sub(T, |p|, c), X)
  }

  lemma ChildIntact(db: Db, batch: Batch, p: Key, W: set<Key>, c: byte, X: iset<Key>)
    requires ChildrenIntact(db, batch, p, W, X)
    ensures Intact(db, batch, p + [c], Sub(W, |p|, c), X)
  {
    CharsAreInhabited(W, |p|, c);
  }

  lemma {:induction false} StoredIsIntact(db: Db, batch: Batch, p: Key, T: set<Key>, X: iset<Key>)
    requires Stored(db, batch, p, T)
    ensures Intact(db, batch, p, T, X)
    decreases Rest(T, |p|)
  {
    if T != {} && !Lone(T, |p|) {
      forall c | c in Chars(T, |p|)
        ensures Intact(db, batch, p + [c], Sub(T, |p|, c), X)
      {
        CharsAreInhabited(T, |p|, c);
        RestShrinks(T, |p|, c);
        StoredIsIntact(db, batch, p + [c], Sub(T, |p|, c), X);
      }
    }
  }

  lemma {:induction false} IntactFrame(db: Db, batch: Batch, db': Db, batch': Batch, p: Key, T: set<Key>, X: iset<Key>)
    requires Intact(db, batch, p, T, X)
    requires forall k | PrimaryKey(p, None) <= k && !Spoiled(X, k) :: Look(db, batch, k) == Look(db', batch', k)
    ensures Intact(db', batch', p, T, X)
    decreases Rest(T, |p|)
  {
    SpoiledPrimary(X, p);
    if T != {} && !Lone(T, |p|) {
      forall c | c in Chars(T, |p|)
        ensures Intact(db', batch', p + [c], Sub(T, |p|, c), X)
      {
        CharsAreInhabited(T, |p|, c);
        RestShrinks(T, |p|, c);
        forall k | PrimaryKey(p + [c], None) <= k && !Spoiled(X, k)
          ensures Look(db, batch, k) == Look(db', batch', k)
        {
          PrimaryKeyExtends(p, c, k);
        }
        IntactFrame(db, batch, db', batch', p + [c], Sub(T, |p|, c), X);
      }
    }
  }

  lemma PutKeepsIntact(db: Db, pending: Batch, txn: Batch, p: Key, n: Node, c: byte, T: set<Key>, X: iset<Key>)
    requires Intact(db, pending + txn, p + [c], T, X)
    ensures Intact(db, pending + Put(txn, p, n), p + [c], T, X)
  {
    forall k | PrimaryKey(p + [c], None) <= k && !Spoiled(X, k)
      ensures Look(db, pending + txn, k) == Look(db, pending + Put(txn, p, n), k)
    {
      PrimaryKeyExtends(p, c, k);
    }
    IntactFrame(db, pending + txn, db, pending + Put(txn, p, n), p + [c], T, X);
  }

  /** Writes below p + [c] do not disturb the records of a sibling subtree. */
  lemma SiblingStored(db: Db, pending: Batch, txn: Batch, txn': Batch, p: Key, c: byte, e: byte, T: set<Key>)
    requires c != e && SameOutside(txn, txn', p + [c])
    requires Stored(db, pending + txn, p + [e], T)
    ensures Stored(db, pending + txn', p + [e], T)
  {
    forall k | PrimaryKey(p + [e], None) <= k
      ensures Look(db, pending + txn, k) == Look(db, pending + txn', k)
    {
      SiblingKeysDiffer(p, e, c, k);
    }
    StoredFrame(db, pending + txn, db, pending + txn', p + [e], T);
  }

  /** Writing a node does not disturb the records below it. */
  lemma PutKeepsChild(db: Db, pending: Batch, txn: Batch, p: Key, n: Node, c: byte, T: set<Key>)
    requires Stored(db, pending + txn, p + [c], T)
    ensures Stored(db, pending + Put(txn, p, n), p + [c], T)
  {
    forall k | PrimaryKey(p + [c], None) <= k
      ensures Look(db, pending + txn, k) == Look(db, pending + Put(txn, p, n), k)
    {
      PrimaryKeyExtends(p, c, k);
    }
    StoredFrame(db, pending + txn, db, pending + Put(txn, p, n), p + [c], T);
  }

  lemma PutKeepsChildren(db: Db, pending: Batch, txn: Batch, p: Key, n: Node, T: set<Key>)
    requires ChildrenStored(db, pending + txn, p, T)
    ensures ChildrenStored(db, pending + Put(txn, p, n), p, T)
    ensures SameOutside(txn, Put(txn, p, n), p)
  {
    forall c | c in Chars(T, |p|)
      ensures Stored(db, pending + Put(txn, p, n), p + [c], Sub(T, |p|, c))
    {
      PutKeepsChild(db, pending, txn, p, n, c, Sub(T, |p|, c));
    }
  }

  /**
   The records of the subtree are in place. The batch to lay over the database may be untracked, after deletions that
   leave the database behind; then nothing is claimed of it.
   */
  ghost predicate Kept(db: Db, pending: Option<Batch>, txn: Batch, p: Key, T: set<Key>) {
    pending.Some? ==> Stored(db, pending.value + txn, p, T)
  }

  ghost predicate ChildrenKept(db: Db, pending: Option<Batch>, txn: Batch, p: Key, T: set<Key>) {
    pending.Some? ==> ChildrenStored(db, pending.value + txn, p, T)
  }

  lemma ChildKept(db: Db, pending: Option<Batch>, txn: Batch, p: Key, W: set<Key>, c: byte)
    requires ChildrenKept(db, pending, txn, p, W)
    ensures Kept(db, pending, txn, p + [c], Sub(W, |p|, c))
  {
    if pending.Some? {
      ChildStored(db, pending.value + txn, p, W, c);
    }
  }

  lemma PutKeepsChildrenKept(db: Db, pending: Option<Batch>, txn: Batch, p: Key, n: Node, T: set<Key>)
    requires ChildrenKept(db, pending, txn, p, T)
    ensures ChildrenKept(db, pending, Put(txn, p, n), p, T)
    ensures SameOutside(txn, Put(txn, p, n), p)
  {
    if pending.Some? {
      PutKeepsChildren(db, pending.value, txn, p, n, T);
    }
  }

  lemma PutKept(db: Db, pending: Option<Batch>, txn: Batch, p: Key, T: set<Key>, n: Node)
    requires T != {} && Holds(n, db, p, T) && |T| < U32
    requires Lone(T, |p|) || ChildrenKept(db, pending, txn, p, T)
    ensures Kept(db, pending, Put(txn, p, n), p, T)
  {
    if pending.Some? {
      PutStores(db, pending.value, txn, p, T, n);
    }
  }

  /** Writing the node of T completes the subtree when the children's records are in place. */
  lemma PutStores(db: Db, pending: Batch, txn: Batch, p: Key, T: set<Key>, n: Node)
    requires T != {} && Holds(n, db, p, T) && |T| < U32
    requires Lone(T, |p|) || ChildrenStored(db, pending + txn, p, T)
    ensures Stored(db, pending + Put(txn, p, n), p, T)
  {
    assert Look(db, pending + Put(txn, p, n), PrimaryKey(p, None)) == Some(RecordOf(T, |p|)) by {
      SerializeIsRecord(n, db, p, T);
    }
    if !Lone(T, |p|) {
      forall c | c in Chars(T, |p|)
        ensures Stored(db, pending + Put(txn, p, n), p + [c], Sub(T, |p|, c))
      {
        PutKeepsChild(db, pending, txn, p, n, c, Sub(T, |p|, c));
      }
    }
  }
}
