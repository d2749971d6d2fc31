/**
 The trie object: a root in memory, the database, and the batch of writes not yet committed.
 */
module MerkleTrie {
  import opened Bytes
  import opened RocksDb
  import opened TrieSpec
  import opened TrieStore
  import opened TrieNode
  import TrieInsert
  import TrieDelete
  import opened TrieQuery
  import opened TrieRecords
  import opened TrieBatch

  /** Keys that can live in one trie, few enough for the u32 item count of a record. */
  ghost predicate Proper(S: set<Key>) {
    Fits(S, []) && PrefixFree(S) && |S| < U32
  }

  /** The hash of an empty root: that of a new one, or of one that has been emptied. */
  predicate EmptyHash(hash: Bytes) {
    hash == [] || hash == BLAKE3_20([])
  }

  /** The whole trie over S can be read through the batch; an empty trie still has a root record. */
  ghost predicate RootStored(db: Db, batch: Batch, S: set<Key>) {
    if S == {} then
      var r := Look(db, batch, PrimaryKey([], None));
      && r.Some? && r.value.items == 0 && r.value.childChars == {} && r.value.key == []
      && EmptyHash(r.value.hash)
    else Stored(db, batch, [], S)
  }

  /** What the committed database holds. */
  datatype Disk = Absent | Holding(keys: set<Key>) | Unknown

  lemma RootLoads(db: Db, S: set<Key>)
    requires RootStored(db, map[], S)
    ensures PrimaryKey([], None) in db && Holds(Deserialize(db[PrimaryKey([], None)]), db, [], S)
    ensures S == {} ==> EmptyHash(db[PrimaryKey([], None)].hash)
  {
    if S != {} {
      LoadHolds(db, [], S);
    }
  }

  lemma EmptyRootStored(db: Db)
    ensures RootStored(db, map[PrimaryKey([], None) := Some(Serialize(DEFAULT_NODE))], {})
    ensures Holds(DEFAULT_NODE, db, [], {})
  {
  }

  lemma CommitStores(db: Db, batch: Batch, S: set<Key>)
    requires RootStored(db, batch, S)
    ensures RootStored(Applied(db, batch), map[], S)
  {
    if S != {} {
      StoredFrame(db, batch, Applied(db, batch), map[], [], S);
    } else {
      assert Look(Applied(db, batch), map[], PrimaryKey([], None)) == Look(db, batch, PrimaryKey([], None));
    }
  }

  /** Replaces the loaded children by their hashes; children that were not loaded are forgotten. */
  method UnloadChildren(n: Node) returns (r: Node)
    ensures r == n.(children := r.children)
    ensures r.children == map c | c in n.children && n.children[c].Loaded? :: Serialized(Some(n.children[c].node.hash))
  {
    var children: map<byte, Child> := map[];
    var done: set<byte> := {};
    while n.children.Keys - done != {}
      invariant done <= n.children.Keys
      invariant forall c :: c in children <==> c in done && n.children[c].Loaded?
      invariant forall c | c in children :: children[c] == Serialized(Some(n.children[c].node.hash))
      decreases n.children.Keys - done
    {
      var c :| c in n.children.Keys - done;
      if n.children[c].Loaded? {
        children := children[c := Serialized(Some(n.children[c].node.hash))];
      }
      done := done + {c};
    }
    assert done == n.children.Keys;
    r := n.(children := children);
  }

  lemma UnloadedChild(child: Child, db: Db, db': Db, S: set<Key>, c: byte)
    requires Sub(S, 0, c) != {} && !Lone(S, 0) && Stored(db', map[], [], S)
    requires child.Loaded? && ChildHolds(child, db, [c], Sub(S, 0, c))
    ensures ChildHolds(Serialized(Some(child.node.hash)), db', [c], Sub(S, 0, c))
  {
    KnownHashIsRight(child, db, [c], Sub(S, 0, c));
    CharsAreInhabited(S, 0, c);
    assert [] + [c] == [c];
  }

  /** An unloaded root still holds the keys exactly when every child was loaded. */
  lemma UnloadedHolds(n: Node, n': Node, db: Db, db': Db, S: set<Key>)
    requires S != {} && Holds(n, db, [], S) && Stored(db', map[], [], S)
    requires n' == n.(children := n'.children)
    requires n'.children == map c | c in n.children && n.children[c].Loaded? ::
                              Serialized(Some(n.children[c].node.hash))
    ensures Holds(n', db', [], S) <==> forall c | c in n.children :: n.children[c].Loaded?
  {
    hide ChildHolds, Stored, NodeHash, Sub;
    forall c | c in n'.children
      ensures ChildHolds(n'.children[c], db', [] + [c], Sub(S, 0, c))
    {
      assert [] + [c] == [c];
      ChildHeld(n.children, db, [], S, c);
      UnloadedChild(n.children[c], db, db', S, c);
    }
    if c :| c in n.children && !n.children[c].Loaded? {
      assert c !in n'.children;
    } else {
      assert n'.children.Keys == n.children.Keys;
    }
  }

  class MerkleTrie {
    var root: Option<Node>
    var db: Db
    var batch: Batch
    ghost var keys: set<Key>     // what the root in memory holds
    ghost var tracked: bool      // the batch over the database holds the same
    ghost var committed: Disk    // what the database alone holds

    ghost predicate OnDisk()
      reads `db, `committed
    {
      && (committed.Absent? ==> PrimaryKey([], None) !in db)
      && (committed.Holding? ==> Proper(committed.keys) && RootStored(db, map[], committed.keys))
    }

    ghost predicate Valid()
      reads this
    {
      && root.Some? && Proper(keys) && Holds(root.value, db, [], keys) && (keys == {} ==> EmptyHash(root.value.hash))
      && (tracked ==> RootStored(db, batch, keys))
      && OnDisk()
    }

    lemma ValidParts()
      requires Valid()
      ensures root.Some? && Proper(keys) && Fits(keys, []) && PrefixFree(keys) && |keys| < U32
      ensures Holds(root.value, db, [], keys) && (tracked ==> RootStored(db, batch, keys)) && OnDisk()
      ensures keys == {} ==> EmptyHash(root.value.hash)
    {
    }

    lemma ValidIntro()
      requires root.Some? && Proper(keys) && Holds(root.value, db, [], keys)
      requires (tracked ==> RootStored(db, batch, keys)) && OnDisk() && (keys == {} ==> EmptyHash(root.value.hash))
      ensures Valid()
    {
    }

    constructor (db: Db, ghost disk: Disk)
      requires disk.Absent? ==> PrimaryKey([], None) !in db
      requires disk.Holding? ==> Proper(disk.keys) && RootStored(db, map[], disk.keys)
      ensures root == None && batch == map[] && this.db == db && committed == disk && OnDisk()
    {
      this.root := None;
      this.db := db;
      this.batch := map[];
      keys, tracked, committed := {}, false, disk;
    }

    /** Loads the committed root, or starts an empty one. */
    method Initialize()
      requires batch == map[] && OnDisk() && !committed.Unknown?
      modifies this
      ensures Valid() && tracked && db == old(db) && committed == old(committed)
      ensures keys == if committed.Holding? then committed.keys else {}
      ensures keys != {} ==> root.value.hash == RootHash(keys)
    {
      var rootKey := PrimaryKey([], None);
      if rootKey in db {
        RootLoads(db, committed.keys);
        root := Some(Deserialize(db[rootKey]));
        keys := committed.keys;
      } else {
        if committed.Holding? {
          RootLoads(db, committed.keys);
        }
        EmptyRootStored(db);
        batch := map[rootKey := Some(Serialize(DEFAULT_NODE))];
        root := Some(DEFAULT_NODE);
        keys := {};
        CardinalityZero();
      }
      tracked := true;
    }

    /**
     Inserts a batch. It succeeds exactly when every key is long enough and the keys can live in one trie; the trie then
     holds them exactly when the batch is lossless, and otherwise counts and hashes too few. A rejected batch may leave
     the root in memory damaged, but not the database or the pending writes.
     */
    method Insert(ks: seq<Key>) returns (r: Result<seq<bool>>)
      requires Valid() && |keys + KeySet(ks)| < U32
      modifies this
      ensures r.Ok? <==> (forall k | k in ks :: |k| >= 10) && PrefixFree(old(keys) + KeySet(ks))
      ensures r.Ok? ==> keys == old(keys) + KeySet(ks) && (Valid() <==> LosslessBatch(old(keys), ks))
      ensures r.Ok? && LosslessBatch(old(keys), ks) ==> tracked == old(tracked)
      ensures r.Ok? ==> |r.value| == |ks| && forall i | 0 <= i < |ks| && r.value[i] :: ks[i] !in old(keys)
      ensures r.Ok? && OnceIfAbsent(ks, old(keys)) ==>
                LosslessBatch(old(keys), ks) && forall i | 0 <= i < |ks| :: r.value[i] <==> ks[i] !in old(keys)
      ensures r.Ok? ==> Counted(old(keys), ks, old(root).value.hash, root, r.value)
      ensures r.Ok? && old(tracked) && old(keys) != {} ==> RecordedRoot(db, batch, root)
      ensures r.Err? ==> batch == old(batch)
      ensures (exists k | k in ks :: |k| < 10) ==>
                r == Err(KeyTooShort) && Valid() && keys == old(keys) && tracked == old(tracked)
      ensures db == old(db) && committed == old(committed) && OnDisk() && root.Some?
    {
      hide *;
      ValidParts();
      RootIsShallow();
      NothingToInsert(ks, keys, root.value.hash, root, db, batch);
      if ks == [] {
        return Ok([]);
      }
      if exists k | k in ks :: |k| < TIMESTAMP_LENGTH {
        return Err(KeyTooShort);
      }
      BatchFits(ks);
      r := InsertLong(ks);
    }

    /** Inserts a batch of keys that reach below the timestamp depth. */
    method InsertLong(ks: seq<Key>) returns (r: Result<seq<bool>>)
      requires Valid() && ks != [] && Fits(KeySet(ks), []) && |keys + KeySet(ks)| < U32
      modifies this
      ensures r.Ok? <==> PrefixFree(old(keys) + KeySet(ks))
      ensures r.Ok? ==> keys == old(keys) + KeySet(ks) && (Valid() <==> LosslessBatch(old(keys), ks))
      ensures r.Ok? && LosslessBatch(old(keys), ks) ==> tracked == old(tracked)
      ensures r.Ok? ==> |r.value| == |ks| && forall i | 0 <= i < |ks| && r.value[i] :: ks[i] !in old(keys)
      ensures r.Ok? && OnceIfAbsent(ks, old(keys)) ==>
                LosslessBatch(old(keys), ks) && forall i | 0 <= i < |ks| :: r.value[i] <==> ks[i] !in old(keys)
      ensures r.Ok? ==> Counted(old(keys), ks, old(root).value.hash, root, r.value)
      ensures r.Ok? && old(tracked) && old(keys) != {} ==> RecordedRoot(db, batch, root)
      ensures r.Err? ==> batch == old(batch)
      ensures db == old(db) && committed == old(committed) && OnDisk() && root.Some?
    {
      hide *;
      ValidParts();
      ghost var K, prior := KeySet(ks), root.value;
      ghost var pending := if tracked then Some(batch) else None;
      RootKept(db, batch, keys, pending);
      RootIsShallow();
      var n, txn;
      r, n, txn := TrieInsert.Insert(root.value, db, map[], ks, 0, [], keys, pending);
      root := Some(n);
      if r.Ok? {
        InsertedRoot(n, db, batch, txn, keys, pending, ks, prior, r.value);
        batch := Merge(batch, txn);
        tracked := tracked && Lossless(ks, keys, 0);
        keys := keys + K;
        if Lossless(ks, old(keys), 0) {
          ValidIntro();
        } else {
          NotHeld();
        }
      }
    }

    lemma NotHeld()
      requires root.Some? && !Holds(root.value, db, [], keys)
      ensures !Valid()
    {
    }

    /**
     Deletes a batch. It succeeds exactly when every key is long enough and none is a prefix of two stored keys. The
     records stay complete unless compaction removes that of a remaining node; for a batch of one key, exactly then.
     */
    method Delete(ks: seq<Key>) returns (r: Result<seq<bool>>)
      requires Valid()
      modifies this
      ensures r.Ok? <==> forall k | k in ks :: |k| >= 10 && |set x | x in old(keys) && k <= x| <= 1
      ensures r.Ok? ==> Valid() && keys == old(keys) - KeySet(ks)
      ensures r.Ok? && old(tracked) && keys != {} ==>
                && (!Harmed(old(keys), KeySet(ks)) ==> tracked)
                && (Lost(old(keys), KeySet(ks)) ==> !RootStored(db, batch, keys))
                && (|ks| == 1 ==> (tracked <==> !Harmed(old(keys), KeySet(ks))))
      ensures r.Ok? && keys == {} && old(keys) != {} ==> TrieDelete.Deleted(batch, [])
      ensures r.Ok? ==> |r.value| == |ks|
      ensures r.Ok? ==> forall i | 0 <= i < |ks| :: r.value[i] <==> ks[i] in old(keys) && ks[i] !in ks[..i]
      ensures r.Err? ==> batch == old(batch) && OnDisk()
      ensures (exists k | k in ks :: |k| < 10) ==>
                r == Err(KeyTooShort) && Valid() && keys == old(keys) && tracked == old(tracked)
      ensures db == old(db) && committed == old(committed)
    {
      hide *;
      ValidParts();
      RootIsShallow();
      NothingToDelete(ks, keys);
      DeletableKeys(ks, keys);
      if ks == [] {
        return Ok([]);
      }
      if exists k | k in ks :: |k| < TIMESTAMP_LENGTH {
        return Err(KeyTooShort);
      }
      BatchFits(ks);
      r := DeleteLong(ks);
    }

    /** Deletes a batch of keys that reach below the timestamp depth. */
    method DeleteLong(ks: seq<Key>) returns (r: Result<seq<bool>>)
      requires Valid() && ks != [] && Fits(KeySet(ks), [])
      modifies this
      ensures r.Ok? <==> TrieDelete.Deletable(old(keys), KeySet(ks))
      ensures r.Ok? ==> Valid() && keys == old(keys) - KeySet(ks)
      ensures r.Ok? && old(tracked) && keys != {} ==>
                && (!Harmed(old(keys), KeySet(ks)) ==> tracked)
                && (Lost(old(keys), KeySet(ks)) ==> !RootStored(db, batch, keys))
                && (|ks| == 1 ==> (tracked <==> !Harmed(old(keys), KeySet(ks))))
      ensures r.Ok? && keys == {} && old(keys) != {} ==> TrieDelete.Deleted(batch, [])
      ensures r.Ok? ==> |r.value| == |ks|
      ensures r.Ok? ==> forall i | 0 <= i < |ks| :: r.value[i] <==> TrieDelete.First(ks, i, old(keys))
      ensures r.Err? ==> batch == old(batch) && OnDisk()
      ensures db == old(db) && committed == old(committed)
    {
      hide *;
      ValidParts();
      ghost var K := KeySet(ks);
      ghost var X := TrieDelete.Doomed(keys, K);
      ghost var pending := if tracked then Some(batch) else None;
      RootPersisted(db, batch, keys, K, pending);
      var n, txn;
      r, n, txn := TrieDelete.Delete(root.value, db, map[], ks, 0, [], keys, pending, X);
      root := Some(n);
      if r.Ok? {
        DeletedRoot(n, db, batch, txn, keys, K, pending);
        if keys != {} && keys - K != {} {
          DeletedRecords(db, batch, txn, keys, ks, pending);
        }
        batch := Merge(batch, txn);
        tracked := tracked && RootStored(db, batch, keys - K);
        keys := keys - K;
        ValidIntro();
      }
    }

    /** Membership is exact; an empty trie also claims the empty key. */
    method Exists(key: Key) returns (found: bool)
      requires Valid()
      modifies this
      ensures found <==> key in keys || (keys == {} && key == [])
      ensures Valid() && keys == old(keys) && tracked == old(tracked)
      ensures batch == old(batch) && db == old(db) && committed == old(committed)
    {
      hide Holds, ChildHolds, Stored, NodeHash, RootHash, PrefixFree;
      var n;
      found, n := TrieQuery.Exists(root.value, db, key, 0, [], keys);
      root := Some(n);
    }

    method Items() returns (items: nat)
      requires Valid()
      ensures items == |keys|
    {
      items := root.value.items;
    }

    method GetRootHash() returns (hash: Bytes)
      requires Valid()
      ensures if keys == {} then EmptyHash(hash) else hash == RootHash(keys)
    {
      hash := root.value.hash;
    }

    /** The keys under a prefix, in order: all of them, or the first ones and more than 1024. */
    method GetAllValues(prefix: Key) returns (values: seq<Key>)
      requires Valid()
      modifies this
      ensures keys == {} ==> values == if prefix == [] then [[]] else []
      ensures keys != {} ==> InitialSegment(values, if HasNode(keys, 0, prefix) then Under(keys, prefix) else {})
      ensures keys != {} && HasNode(keys, 0, prefix) ==>
                KeySet(values) == Under(keys, prefix) || |values| > 1024
      ensures keys != {} && |prefix| <= 10 ==> (HasNode(keys, 0, prefix) <==> Under(keys, prefix) != {})
      ensures Valid() && keys == old(keys) && tracked == old(tracked)
      ensures batch == old(batch) && db == old(db) && committed == old(committed)
    {
      hide Holds, ChildHolds, Stored, NodeHash, RootHash, PrefixFree;
      var n;
      values, n := ValuesUnder(root.value, db, prefix, 0, [], keys);
      root := Some(n);
      if keys != {} {
        HasNodeIff(keys, [], prefix);
      }
    }

    /** The snapshot along a prefix is that of the key set and counts the keys outside the prefix. */
    method GetSnapshot(prefix: Key) returns (s: TrieSnapshot)
      requires Valid()
      modifies this
      ensures keys != {} ==> s == SnapshotOf(keys, 0, prefix)
      ensures keys == {} ==> root.Some? && EmptyHash(root.value.hash) &&
                             s == TrieSnapshot([], [if prefix == [] then root.value.hash else BLAKE3_20([])], 0)
      ensures |prefix| <= TIMESTAMP_LENGTH ==> s.numMessages == |keys - Under(keys, prefix)|
      ensures Valid() && keys == old(keys) && tracked == old(tracked)
      ensures batch == old(batch) && db == old(db) && committed == old(committed)
    {
      hide SnapshotOf, Under, Holds, ChildHolds, Stored, NodeHash, RootHash, PrefixFree;
      var n;
      s, n := TrieQuery.GetSnapshot(root.value, db, prefix, 0, [], keys);
      root := Some(n);
      if keys == {} {
        assert keys - Under(keys, prefix) == {};
      } else if |prefix| <= TIMESTAMP_LENGTH {
        SnapshotCounts(keys, [], prefix);
      }
    }

    /** Reads a node through the pending writes. */
    method GetNode(prefix: Key) returns (n: Option<Node>)
      requires Valid()
      ensures tracked && keys != {} && HasNode(keys, 0, prefix) ==>
                n == Some(Deserialize(RecordOf(Under(keys, prefix), |prefix|)))
    {
      var nodeKey := PrimaryKey(prefix, None);
      if tracked && keys != {} && HasNode(keys, 0, prefix) {
        NodeIsStored(db, batch, [], keys, prefix);
      }
      if nodeKey in batch && batch[nodeKey].Some? {
        return Some(Deserialize(batch[nodeKey].value));
      }
      if nodeKey in db {
        return Some(Deserialize(db[nodeKey]));
      }
      return None;
    }

    /**
     Writes the pending batch to the database and unloads the root's children. Unloading forgets the children that
     were not in memory, so the root goes on representing the keys exactly when all of them were.
     */
    method Commit()
      requires root.Some?
      modifies this
      ensures root.Some? && root.value.hash == old(root).value.hash && root.value.items == old(root).value.items
      ensures keys == old(keys) && batch == map[] && db == Applied(old(db), old(batch)) && OnDisk()
      ensures old(Valid()) && old(tracked) ==> committed == Holding(keys)
      ensures !(old(Valid()) && old(tracked)) ==>
                committed == if Look(old(db), old(batch), PrimaryKey([], None)) == None then Absent else Unknown
      ensures old(Valid()) && keys == {} ==> Holds(root.value, db, [], {})
      ensures old(Valid()) && old(tracked) && keys != {} ==>
                (Holds(root.value, db, [], keys) <==>
                 forall c | c in old(root).value.children :: old(root).value.children[c].Loaded?)
    {
      ghost var db0, good := db, Valid() && tracked;
      if good {
        CommitStores(db, batch, keys);
      }
      db := RocksDb.Commit(db, batch);
      batch := map[];
      var n := UnloadChildren(root.value);
      if good && keys != {} {
        UnloadedHolds(root.value, n, db0, db, keys);
      }
      root := Some(n);
      committed := if good then Holding(keys) else if PrimaryKey([], None) in db then Unknown else Absent;
      assert Look(db, map[], PrimaryKey([], None)) == Look(db0, old(batch), PrimaryKey([], None));
    }

    /** Drops the pending writes and goes back to the committed root. */
    method Reload() returns (r: Result<()>)
      requires OnDisk()
      modifies this
      ensures r.Ok? <==> PrimaryKey([], None) in db
      ensures r.Ok? ==> root == Some(Deserialize(db[PrimaryKey([], None)])) && batch == map[]
      ensures committed.Holding? ==> r.Ok? && Valid() && tracked && keys == committed.keys
      ensures !committed.Holding? ==> keys == old(keys)
      ensures r.Err? ==> root == old(root) && batch == old(batch)
      ensures db == old(db) && committed == old(committed)
    {
      if committed.Holding? {
        RootLoads(db, committed.keys);
      }
      var rootKey := PrimaryKey([], None);
      if rootKey in db {
        root := Some(Deserialize(db[rootKey]));
        batch := map[];
        if committed.Holding? {
          keys, tracked := committed.keys, true;
        } else {
          tracked := false;
        }
        return Ok(());
      }
      return Err(NoRoot);
    }
  }

  /** Nothing of the batch is lost. */
  ghost predicate LosslessBatch(S: set<Key>, ks: seq<Key>) {
    ks == [] || Lossless(ks, S, 0)
  }

  /** The root hash after inserting a batch into a trie over S, prior being the hash before. */
  ghost function RootAfter(S: set<Key>, ks: seq<Key>, prior: Bytes): Bytes {
    if ks == [] then prior else HashAfter(ks, S, 0, prior)
  }

  /** What the root counts and hashes to after a batch, and how much of it is reported. */
  ghost predicate Counted(S: set<Key>, ks: seq<Key>, prior: Bytes, root: Option<Node>, rs: seq<bool>) {
    && root.Some? && root.value.hash == RootAfter(S, ks, prior)
    && root.value.items == |S| + CountTrue(rs) <= |S + KeySet(ks)|
    && (root.value.items == |S + KeySet(ks)| <==> LosslessBatch(S, ks))
    && (CountTrue(rs) == 0 ==> root.value.hash == prior)
  }

  /** The record of the root has its hash and count. */
  ghost predicate RecordedRoot(db: Db, batch: Batch, root: Option<Node>) {
    var r := Look(db, batch, PrimaryKey([], None));
    root.Some? && r.Some? && r.value.hash == root.value.hash && r.value.items == root.value.items
  }

  /** A lossless batch leads to the root hash of all keys. */
  lemma RootAfterIsRight(S: set<Key>, ks: seq<Key>, prior: Bytes)
    requires Fits(S + KeySet(ks), []) && PrefixFree(S + KeySet(ks)) && LosslessBatch(S, ks)
    requires S != {} ==> prior == RootHash(S)
    ensures S + KeySet(ks) != {} ==> RootAfter(S, ks, prior) == RootHash(S + KeySet(ks))
  {
    if ks == [] {
      assert S + KeySet(ks) == S;
    } else {
      ReportedIs(ks, S, 0);
      assert Fits(S, []) && Fits(KeySet(ks), []) by {
        assert forall k | k in S :: k in S + KeySet(ks);
        assert forall k | k in KeySet(ks) :: k in S + KeySet(ks);
      }
      HashIsRight(ks, S, [], prior);
    }
  }

  /** One new key given twice: the insertion succeeds, reports nothing and leaves the root as it was. */
  method InsertTwice(t: MerkleTrie, k: Key) returns (r: Result<seq<bool>>)
    requires t.Valid() && k !in t.keys && |k| >= TIMESTAMP_LENGTH && PrefixFree(t.keys + {k}) && |t.keys + {k}| < U32
    modifies t
    ensures r == Ok([false, false]) && !t.Valid()
    ensures t.root.Some? && t.root.value.hash == old(t.root).value.hash && t.root.value.items == old(t.root).value.items
  {
    ghost var S := t.keys;
    assert KeySet([k, k]) == {k};
    TwiceIsLost(k, S, []) by { assert Fits(S + {k}, []); }
    ReportedBound([k, k], S, []);
    hide Holds, Stored, NodeHash, HashAfter, Reported, Lossless, PrefixFree, Proper, RootStored;
    r := t.Insert([k, k]);
    NoneReported(r.value);
  }

  lemma NoneReported(rs: seq<bool>)
    requires |rs| == 2
    ensures CountTrue(rs) == 0 <==> rs == [false, false]
  {
    assert rs == [rs[0], rs[1]] && rs[..1][..0] == [];
    assert CountTrue(rs[..1]) == if rs[0] then 1 else 0;
  }

  lemma NothingToDelete(ks: seq<Key>, S: set<Key>)
    ensures ks == [] ==> S - KeySet(ks) == S && TrieDelete.Deletable(S, KeySet(ks)) && !Lost(S, KeySet(ks))
  {
    if ks == [] {
      assert KeySet(ks) == {};
      forall a, l
        ensures !TrieDelete.Compacts(S, {}, a, l)
      {
        assert S - {} == S;
      }
    }
  }

  lemma DeletableKeys(ks: seq<Key>, S: set<Key>)
    ensures TrieDelete.Deletable(S, KeySet(ks)) <==> forall k | k in ks :: |set x | x in S && k <= x| <= 1
    ensures forall i | 0 <= i < |ks| :: TrieDelete.First(ks, i, S) <==> ks[i] in S && ks[i] !in ks[..i]
  {
    forall k | k in ks
      ensures k in KeySet(ks) && Under(S, k) == set x | x in S && k <= x
    {
    }
  }

  lemma BatchFits(ks: seq<Key>)
    requires forall k | k in ks :: |k| >= TIMESTAMP_LENGTH
    ensures Fits(KeySet(ks), [])
  {
  }

  lemma RootPersisted(db: Db, batch: Batch, S: set<Key>, K: set<Key>, pending: Option<Batch>)
    requires pending.Some? ==> pending.value == batch && RootStored(db, batch, S)
    ensures TrieDelete.Persisted(db, pending, map[], [], S, TrieDelete.Doomed(S, K))
    ensures TrieDelete.Exempts(TrieDelete.Doomed(S, K), S, K, [])
  {
    if pending.Some? {
      assert batch + map[] == batch;
      if S != {} {
        StoredIsIntact(db, batch, [], S, TrieDelete.Doomed(S, K));
      }
    }
  }

  lemma DeletedRoot(n: Node, db: Db, batch: Batch, txn: Batch, S: set<Key>, K: set<Key>, pending: Option<Batch>)
    requires Proper(S) && TrieDelete.HoldsOrDrained(n, db, [], S - K)
    ensures Holds(n, db, [], S - K) && Proper(S - K)
    ensures TrieDelete.Deleted(txn, []) ==> TrieDelete.Deleted(batch + txn, [])
    ensures EmptyHash(BLAKE3_20([]))
    ensures S == {} ==> S - K == {}
  {
    CardinalityMonotone(S - K, S);
  }

  /** What a deletion does to the records of the remaining keys. */
  lemma DeletedRecords(db: Db, batch: Batch, txn: Batch, S: set<Key>, ks: seq<Key>, pending: Option<Batch>)
    requires S - KeySet(ks) != {} && Fits(S, []) && TrieDelete.Gone(txn, S, KeySet(ks), [])
    requires pending == Some(batch) ==>
               TrieDelete.Persisted(db, pending, txn, [], S - KeySet(ks), TrieDelete.Doomed(S, KeySet(ks)))
    ensures pending == Some(batch) && !Harmed(S, KeySet(ks)) ==> RootStored(db, batch + txn, S - KeySet(ks))
    ensures Lost(S, KeySet(ks)) ==> !RootStored(db, batch + txn, S - KeySet(ks))
    ensures |ks| == 1 ==> (Harmed(S, KeySet(ks)) <==> Lost(S, KeySet(ks)))
  {
    hide Harmed, Lost;
    var K := KeySet(ks);
    if pending == Some(batch) && !Harmed(S, K) {
      UnharmedIsStored(db, batch + txn, S, K);
    }
    if Lost(S, K) {
      LostIsNotStored(db, batch, txn, S, K);
    }
    if |ks| == 1 {
      assert K == {ks[0]};
      OneKeyHarm(S, ks[0]);
    }
  }

  lemma CardinalityZero()
    ensures Proper({})
  {
  }

  lemma RootIsShallow()
    ensures 0 < TIMESTAMP_LENGTH == 10
  {
  }

  lemma RootKept(db: Db, batch: Batch, S: set<Key>, pending: Option<Batch>)
    requires pending.Some? ==> pending.value == batch && RootStored(db, batch, S)
    ensures Kept(db, pending, map[], [], S)
  {
    if pending.Some? {
      assert batch + map[] == batch;
    }
  }

  lemma InsertedRoot(n: Node, db: Db, batch: Batch, txn: Batch, S: set<Key>, pending: Option<Batch>, ks: seq<Key>,
                     prior: Node, rs: seq<bool>)
    requires ks != [] && Proper(S) && Fits(KeySet(ks), []) && PrefixFree(S + KeySet(ks)) && |S + KeySet(ks)| < U32
    requires Holds(prior, db, [], S) && TrieInsert.Reports(ks, S, 0, prior.hash, n, rs)
    requires Sound(ks, S, 0) ==> TrieInsert.HoldsKept(n, db, pending, txn, [], S + KeySet(ks))
    requires TrieInsert.RecordWritten(map[], txn, [], n, Reported(ks, S, 0) > 0)
    ensures Proper(S + KeySet(ks)) && S + KeySet(ks) != {} && |rs| == |ks|
    ensures forall i | 0 <= i < |ks| && rs[i] :: ks[i] !in S
    ensures Lossless(ks, S, 0) <==> Sound(ks, S, 0)
    ensures Lossless(ks, S, 0) <==> LosslessBatch(S, ks)
    ensures Lossless(ks, S, 0) ==> Holds(n, db, [], S + KeySet(ks))
    ensures Lossless(ks, S, 0) && pending == Some(batch) ==> RootStored(db, batch + txn, S + KeySet(ks))
    ensures Counted(S, ks, prior.hash, Some(n), rs)
    ensures RootStored(db, batch, S) && S != {} ==> RecordedRoot(db, batch + txn, Some(n))
  {
    assert ks[0] in KeySet(ks) && ks[0] in S + KeySet(ks);
    ReportedIs(ks, S, 0);
    ReportedBound(ks, S, []);
    RootTakes(ks, S);
    RootCounts(n, S, ks, prior, rs);
    if RootStored(db, batch, S) && S != {} {
      RootIsRecorded(n, db, batch, txn, S, ks, prior, rs);
    }
    hide Holds, Stored, NodeHash, Reported, Sound, Lossless, HashAfter, ItemsAfter;
  }

  /** The root takes no key itself. */
  lemma RootTakes(ks: seq<Key>, S: set<Key>)
    requires ks != []
    ensures !AtEmptyLeaf(S, 0) && Taken(ks, S, 0) == S && OwnReport(ks, S, 0) == 0
    ensures forall h :: HashBefore(ks, S, 0, h) == h
  {
  }

  lemma RootCounts(n: Node, S: set<Key>, ks: seq<Key>, prior: Node, rs: seq<bool>)
    requires ks != [] && Fits(S, []) && Fits(KeySet(ks), []) && PrefixFree(S + KeySet(ks))
    requires TrieInsert.Reports(ks, S, 0, prior.hash, n, rs)
    ensures Counted(S, ks, prior.hash, Some(n), rs)
  {
    ReportedIs(ks, S, 0);
    ReportedBound(ks, S, []);
    RootTakes(ks, S);
    hide Reported, Sound, Lossless, Below, Passed, CatAfter;
  }

  lemma RootIsRecorded(n: Node, db: Db, batch: Batch, txn: Batch, S: set<Key>, ks: seq<Key>, prior: Node, rs: seq<bool>)
    requires ks != [] && S != {} && RootStored(db, batch, S) && |S + KeySet(ks)| < U32
    requires Holds(prior, db, [], S) && Counted(S, ks, prior.hash, Some(n), rs) && CountTrue(rs) == Reported(ks, S, 0)
    requires TrieInsert.RecordWritten(map[], txn, [], n, Reported(ks, S, 0) > 0)
    ensures RecordedRoot(db, batch + txn, Some(n))
  {
    hide Reported, NodeHash, HashAfter, ChildHolds;
    var k := PrimaryKey([], None);
    assert Look(db, batch, k) == Some(RecordOf(S, 0));
    if Reported(ks, S, 0) == 0 {
      assert k !in txn;
      assert Look(db, batch + txn, k) == Look(db, batch, k);
    }
  }

  lemma NothingToInsert(ks: seq<Key>, S: set<Key>, h: Bytes, root: Option<Node>, db: Db, batch: Batch)
    requires root.Some? && root.value.hash == h && Holds(root.value, db, [], S)
    ensures ks == [] ==> S + KeySet(ks) == S && LosslessBatch(S, ks) && Counted(S, ks, h, root, [])
    ensures RootStored(db, batch, S) && S != {} && |S| < U32 ==> RecordedRoot(db, batch, root)
  {
    if ks == [] {
      assert S + KeySet(ks) == S;
    }
  }
}
