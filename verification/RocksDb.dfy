/**
 The key-value store and its write batches.
 */
module RocksDb {
  import opened Bytes

  /** A write batch: the last operation on each key, a deletion being None. */
  type WriteBatch<K, V> = map<K, Option<V>>

  /** Reading a key through a batch laid over the database. */
  function Look<K, V>(db: map<K, V>, batch: WriteBatch<K, V>, key: K): Option<V> {
    if key in batch then batch[key] else if key in db then Some(db[key]) else None
  }

  /** The database after a batch is applied. */
  function Applied<K(!new), V>(db: map<K, V>, batch: WriteBatch<K, V>): (r: map<K, V>)
    ensures forall k :: Look(r, map[], k) == Look(db, batch, k)
  {
    map k | k in db.Keys + batch.Keys && Look(db, batch, k).Some? :: Look(db, batch, k).value
  }

  /** Merging replays the operations of one batch onto another, in no particular order. */
  method Merge<K(==), V>(batch: WriteBatch<K, V>, other: WriteBatch<K, V>) returns (r: WriteBatch<K, V>)
    ensures r == batch + other
  {
    r := batch;
    var done: set<K> := {};
    while other.Keys - done != {}
      invariant done <= other.Keys
      invariant r.Keys == batch.Keys + done
      invariant forall k | k in r :: r[k] == if k in done then other[k] else batch[k]
      decreases other.Keys - done
    {
      var k :| k in other.Keys - done;
      r := r[k := other[k]];
      done := done + {k};
    }
    assert done == other.Keys;
  }

  /** Committing applies the operations of a batch one by one, in no particular order. */
  method Commit<K(==, !new), V>(db: map<K, V>, batch: WriteBatch<K, V>) returns (r: map<K, V>)
    ensures r == Applied(db, batch)
  {
    r := db;
    var done: set<K> := {};
    while batch.Keys - done != {}
      invariant done <= batch.Keys
      invariant forall k :: Look(r, map[], k) == if k in done then batch[k] else Look(db, map[], k)
      decreases batch.Keys - done
    {
      var k :| k in batch.Keys - done;
      if batch[k].None? {
        r := r - {k};
      } else {
        r := r[k := batch[k].value];
      }
      done := done + {k};
    }
    assert done == batch.Keys;
    SameReads(r, Applied(db, batch));
  }

  lemma SameReads<K(!new), V>(a: map<K, V>, b: map<K, V>)
    requires forall k :: Look(a, map[], k) == Look(b, map[], k)
    ensures a == b
  {
    forall k
      ensures k in a <==> k in b
      ensures k in a ==> a[k] == b[k]
    {
      assert Look(a, map[], k) == Look(b, map[], k);
    }
  }
}
