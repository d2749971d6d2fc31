/**
 Batch deletion from a trie node.
 */
module TrieDelete {
  import opened Bytes
  import opened TrieSpec
  import opened RocksDb
  import opened TrieStore
  import opened TrieNode

  /** No key of the batch is a prefix of two or more stored keys. */
  ghost predicate Deletable(T: set<Key>, K: set<Key>) {
    forall k | k in K :: |Under(T, k)| <= 1
  }

  /** When the batch is tracked: it holds the subtree of T, except for the records at X. */
  ghost predicate Persisted(db: Db, pending: Option<Batch>, txn: Batch, p: Key, T: set<Key>, X: iset<Key>) {
    pending.Some? ==> Intact(db, pending.value + txn, p, T, X)
  }

  ghost predicate ChildrenPersisted(db: Db, pending: Option<Batch>, txn: Batch, p: Key, T: set<Key>, X: iset<Key>) {
    pending.Some? ==> ChildrenIntact(db, pending.value + txn, p, T, X)
  }

  // ---- what compaction does to other records ----

  /** Deleting K from T leaves the single key l at a, so that the node at a is compacted into a leaf. */
  ghost predicate Compacts(T: set<Key>, K: set<Key>, a: Key, l: Key) {
    |a| >= TIMESTAMP_LENGTH && |a| < |l| && Under(T - K, a) == {l} && Under(T, a) != {l}
  }

  /** The prefix whose record compaction at a removes, having prefixed the key of the child twice. */
  function Doubled(a: Key, l: Key): Key
    requires |a| < |l|
  {
    PrimaryKey(a, Some(l[|a|]))
  }

  /** The prefixes whose records a deletion of K from T removes by compaction. */
  ghost function Doomed(T: set<Key>, K: set<Key>): iset<Key> {
    iset a, l | Compacts(T, K, a, l) :: Doubled(a, l)
  }

  ghost predicate Exempts(X: iset<Key>, T: set<Key>, K: set<Key>, p: Key) {
    forall a, l | p <= a && Compacts(T, K, a, l) :: Doubled(a, l) in X
  }

  /** New records are written only on the way to keys of K, the deleted keys. */
  ghost predicate PutsAbove(txn: Batch, txn': Batch, K: set<Key>) {
    && (forall x | x in txn :: x in txn')
    && (forall x | x in txn' && txn'[x].Some? && !(x in txn && txn[x] == txn'[x]) :: PutAbove(x, K))
  }

  ghost predicate PutAbove(x: Bytes, K: set<Key>) {
    exists k :: k in K && x <= PrimaryKey(k, None)
  }

  /** The batch deletes the record at the prefix. */
  ghost predicate Deleted(txn: Batch, q: Key) {
    PrimaryKey(q, None) in txn && txn[PrimaryKey(q, None)] == None
  }

  ghost predicate OffPath(q: Key, K: set<Key>) {
    forall k | k in K :: !(q <= k)
  }

  /** Compaction has removed the records at doubled prefixes that lie on the way to no deleted key. */
  ghost predicate Gone(txn: Batch, T: set<Key>, K: set<Key>, p: Key) {
    forall a, l | p <= a && Compacts(T, K, a, l) && OffPath(Doubled(a, l), T * K) :: Deleted(txn, Doubled(a, l))
  }

  /** The same for compaction strictly below p, in the groups done. */
  ghost predicate GoneIn(txn: Batch, T: set<Key>, K: set<Key>, p: Key, done: set<byte>) {
    forall a, l | p <= a && |p| < |a| && a[|p|] in done && Compacts(T, K, a, l) && OffPath(Doubled(a, l), T * K) ::
      Deleted(txn, Doubled(a, l))
  }

  lemma PutsAboveReflexive(txn: Batch, K: set<Key>)
    ensures PutsAbove(txn, txn, K)
  {
  }

  lemma PutsAboveTransitive(b0: Batch, b1: Batch, b2: Batch, K: set<Key>)
    requires PutsAbove(b0, b1, K) && PutsAbove(b1, b2, K)
    ensures PutsAbove(b0, b2, K)
  {
  }

  lemma PutsAboveMore(txn: Batch, txn': Batch, K: set<Key>, K': set<Key>)
    requires PutsAbove(txn, txn', K) && K <= K'
    ensures PutsAbove(txn, txn', K')
  {
    forall x | PutAbove(x, K)
      ensures PutAbove(x, K')
    {
    }
  }

  lemma StaysDeleted(txn: Batch, txn': Batch, K: set<Key>, q: Key)
    requires PutsAbove(txn, txn', K) && Deleted(txn, q) && OffPath(q, K)
    ensures Deleted(txn', q)
  {
    OffPathIsNotAbove(q, K);
  }

  lemma OffPathIsNotAbove(q: Key, K: set<Key>)
    ensures OffPath(q, K) <==> !PutAbove(PrimaryKey(q, None), K)
  {
    forall k | k in K
      ensures q <= k <==> PrimaryKey(q, None) <= PrimaryKey(k, None)
    {
      assert PrimaryKey(q, None)[1..] == q && PrimaryKey(k, None)[1..] == k;
    }
  }

  /** Compaction below a child is compaction below the node. */
  lemma CompactsBelow(T: set<Key>, K: set<Key>, p: Key, c: byte, a: Key, l: Key)
    requires p + [c] <= a
    ensures Compacts(Sub(T, |p|, c), Sub(K, |p|, c), a, l) <==> Compacts(T, K, a, l)
  {
    forall k | a <= k
      ensures |p| < |k| && k[|p|] == c
    {
      assert k[..|p| + 1] == p + [c];
      assert k[|p|] == (p + [c])[|p|];
    }
    assert Under(Sub(T, |p|, c), a) == Under(T, a);
    assert Under(Sub(T, |p|, c) - Sub(K, |p|, c), a) == Under(T - K, a);
  }

  lemma ExemptsBelow(X: iset<Key>, T: set<Key>, K: set<Key>, p: Key, c: byte)
    requires Exempts(X, T, K, p)
    ensures Exempts(X, Sub(T, |p|, c), Sub(K, |p|, c), p + [c])
  {
    forall a, l | p + [c] <= a && Compacts(Sub(T, |p|, c), Sub(K, |p|, c), a, l)
      ensures Doubled(a, l) in X
    {
      CompactsBelow(T, K, p, c, a, l);
      assert p == (p + [c])[..|p|] == a[..|p|];
    }
  }

  lemma GoneInStays(txn: Batch, txn': Batch, T: set<Key>, K: set<Key>, p: Key, done: set<byte>)
    requires GoneIn(txn, T, K, p, done) && PutsAbove(txn, txn', T * K)
    ensures GoneIn(txn', T, K, p, done)
  {
    forall a, l | p <= a && |p| < |a| && a[|p|] in done && Compacts(T, K, a, l) && OffPath(Doubled(a, l), T * K)
      ensures Deleted(txn', Doubled(a, l))
    {
      StaysDeleted(txn, txn', T * K, Doubled(a, l));
    }
  }

  /** What is gone below a child is gone below the node. */
  lemma GoneInMore(txn: Batch, T: set<Key>, K: set<Key>, p: Key, done: set<byte>, c: byte)
    requires GoneIn(txn, T, K, p, done) && Gone(txn, Sub(T, |p|, c), Sub(K, |p|, c), p + [c])
    ensures GoneIn(txn, T, K, p, done + {c})
  {
    forall a, l | p <= a && |p| < |a| && a[|p|] in done + {c} && Compacts(T, K, a, l) && OffPath(Doubled(a, l), T * K)
      ensures Deleted(txn, Doubled(a, l))
    {
      if a[|p|] == c {
        assert a[..|p| + 1] == p + [c];
        CompactsBelow(T, K, p, c, a, l);
        SubKeys(T, K, |p|, c);
      }
    }
  }

  lemma NothingGone(txn: Batch, T: set<Key>, K: set<Key>, p: Key)
    ensures GoneIn(txn, T, K, p, {})
  {
  }

  /** All groups done and the node itself handled. */
  lemma AllGone(txn: Batch, T: set<Key>, K: set<Key>, p: Key)
    requires GoneIn(txn, T, K, p, Chars(K, |p|))
    requires forall l | Compacts(T, K, p, l) && OffPath(Doubled(p, l), T * K) :: Deleted(txn, Doubled(p, l))
    ensures Gone(txn, T, K, p)
  {
    forall a, l | p <= a && Compacts(T, K, a, l) && OffPath(Doubled(a, l), T * K)
      ensures Deleted(txn, Doubled(a, l))
    {
      if a != p {
        assert |p| < |a|;
        SomeKeyBelow(T, K, a, l);
        var k :| k in K && a <= k;
        assert k[|p|] == a[|p|];
      }
    }
  }

  lemma SomeKeyBelow(T: set<Key>, K: set<Key>, a: Key, l: Key)
    requires Compacts(T, K, a, l)
    ensures exists k :: k in K && k in T && a <= k
  {
    assert l in Under(T - K, a) && l in Under(T, a);
    var k :| k in Under(T, a) && k != l;
    assert k !in Under(T - K, a);
  }

  /** The node holds T, or has been emptied and is about to be dropped by its parent. */
  ghost predicate HoldsOrDrained(n: Node, db: Db, p: Key, T: set<Key>) {
    if T == {} then n.items == 0 && n.children == map[] && BlankKey(n.key) else Holds(n, db, p, T)
  }

  /** Position i is the first occurrence in the batch of a key of T. */
  ghost predicate First(keys: seq<Key>, i: nat, T: set<Key>)
    requires i < |keys|
  {
    keys[i] in T && keys[i] !in keys[..i]
  }

  /** The slot is the first one of its key, which is in T. */
  ghost predicate FirstSlot(rem: seq<Slot>, x: Slot, T: set<Key>) {
    x.1 in T && forall y | y in rem && y.1 == x.1 :: x.0 <= y.0
  }

  ghost function FirstSlots(rem: seq<Slot>, T: set<Key>): set<Slot> {
    set x | x in rem && FirstSlot(rem, x, T)
  }

  function DeleteRecord(txn: Batch, prefix: Bytes): Batch {
    txn[PrimaryKey(prefix, None) := None]
  }

  /**
   Deletes a batch below the node that holds T at prefix p. It succeeds exactly when no key of the batch is a prefix
   of two stored keys; then the node holds T without the batch, and result i is true exactly for the first occurrence
   of a stored key. The records stay right except at doubled prefixes, and those off the way to the batch are lost.
   */
  method Delete(n: Node, db: Db, txn: Batch, keys: seq<Key>, idx: nat, ghost p: Key, ghost T: set<Key>,
                ghost pending: Option<Batch>, ghost X: iset<Key>)
    returns (r: Result<seq<bool>>, n': Node, txn': Batch)
    requires |p| == idx && keys != []
    requires Fits(T, p) && PrefixFree(T) && |T| < U32 && Fits(KeySet(keys), p)
    requires Holds(n, db, p, T) && Persisted(db, pending, txn, p, T, X) && Exempts(X, T, KeySet(keys), p)
    ensures r.Ok? <==> Deletable(T, KeySet(keys))
    ensures r.Ok? ==> HoldsOrDrained(n', db, p, T - KeySet(keys))
    ensures r.Ok? ==> Persisted(db, pending, txn', p, T - KeySet(keys), X) && SameOutsideOr(txn, txn', p, X)
    ensures r.Ok? ==> PutsAbove(txn, txn', T * KeySet(keys)) && Gone(txn', T, KeySet(keys), p)
    ensures r.Ok? && T != {} && T - KeySet(keys) == {} ==> Deleted(txn', p) && n'.hash == BLAKE3_20([])
    ensures r.Ok? && T == {} ==> n' == n && txn' == txn
    ensures r.Ok? ==> |r.value| == |keys| && forall i | 0 <= i < |keys| :: r.value[i] <==> First(keys, i, T)
    decreases Rest(T + KeySet(keys), idx), 2
  {
    hide *;
    BatchPrefix(keys, p);
    n', txn' := n, txn;
    var prefix := keys[0][..idx];
    var results := seq(|keys|, _ => false);
    if n.children == map[] {
      results, n', txn' := DeleteAtLeaf(n, db, txn, keys, prefix, results, T, pending, X);
      return Ok(results), n', txn';
    }
    var rem := Enumerate(keys);
    InnerBatch(n, db, pending, txn, keys, p, T, results, X);
    if exists k | k in keys :: idx >= |k| {
      return Err(KeyLengthExceeded), n', txn';
    }
    var g, children;
    g, children, txn' := DeleteGroups(n.children, db, txn, rem, results, prefix, T, pending, X);
    n' := n.(children := children);
    if g.Err? {
      return Err(g.error), n', txn';
    }
    EnumerateFirsts(keys, T, g.value.0);
    ghost var txn0 := txn';
    SameExceptBelowOrIsOutside(txn, txn0, prefix, X);
    if g.value.1 > 0 {
      n', txn' := Shrink(n, db, txn', children, g.value.1, prefix, T, KeySet(keys), pending, X);
      SameOutsideOrTransitive(txn, txn0, txn', prefix, X);
      PutsAboveTransitive(txn, txn0, txn', T * KeySet(keys));
      GoneInStays(txn0, txn', T, KeySet(keys), p, Chars(KeySet(keys), idx));
    } else {
      Untouched(n, n', db, pending, txn, txn', p, T, KeySet(keys), X);
    }
    AllGone(txn', T, KeySet(keys), p);
    return Ok(g.value.0), n', txn';
  }

  // ---- deletion at a leaf ----

  method DeleteAtLeaf(n: Node, db: Db, txn: Batch, keys: seq<Key>, prefix: Key, results: seq<bool>, ghost T: set<Key>,
                      ghost pending: Option<Batch>, ghost X: iset<Key>)
    returns (results': seq<bool>, n': Node, txn': Batch)
    requires n.children == map[] && Fits(T, prefix) && PrefixFree(T) && Fits(KeySet(keys), prefix)
    requires Holds(n, db, prefix, T) && Persisted(db, pending, txn, prefix, T, X)
    requires |results| == |keys| && forall i | 0 <= i < |keys| :: !results[i]
    ensures Deletable(T, KeySet(keys))
    ensures HoldsOrDrained(n', db, prefix, T - KeySet(keys))
    ensures Persisted(db, pending, txn', prefix, T - KeySet(keys), X) && SameOutsideOr(txn, txn', prefix, X)
    ensures PutsAbove(txn, txn', T * KeySet(keys)) && Gone(txn', T, KeySet(keys), prefix)
    ensures T != {} && T - KeySet(keys) == {} ==> Deleted(txn', prefix) && n'.hash == BLAKE3_20([])
    ensures T == {} ==> n' == n && txn' == txn
    ensures |results'| == |keys| && forall i | 0 <= i < |keys| :: results'[i] <==> First(keys, i, T)
  {
    hide *;
    SameOrReflexive(txn, prefix, X);
    PutsAboveReflexive(txn, T * KeySet(keys));
    results', n', txn' := results, n, txn;
    LeafHoldsOne(n, db, prefix, T, keys);
    LeafDoesNotCompact(T, KeySet(keys), prefix, KeyOr(n.key));
    for i := 0 to |keys|
      invariant forall j | 0 <= j < i :: keys[j] != KeyOr(n.key)
    {
      var cmp := BytesCompare(KeyOr(n.key), keys[i]);
      CompareSigns(KeyOr(n.key), keys[i]);
      if cmp == 0 {
        KeyFound(keys, i, T);
        n' := n.(key := None, items := n.items - 1);
        txn' := DeleteRecord(txn, prefix);
        n' := UpdateHash(n', db, prefix, {});
        BlankKeyIsEmpty(None);
        results' := results[i := true];
        DrainedIntro(n', db, pending, txn, prefix, T * KeySet(keys), X);
        return;
      }
    }
    KeyNotFound(keys, T, KeyOr(n.key));
    HoldsIsHoldsOrDrained(n, db, prefix, T);
  }

  lemma LeafDoesNotCompact(T: set<Key>, K: set<Key>, p: Key, key: Key)
    requires T == {} || T == {key}
    ensures forall txn :: Gone(txn, T, K, p)
  {
    forall a, l
      ensures !Compacts(T, K, a, l)
    {
      if l in T && a <= l {
        assert Under(T, a) == {l};
      } else {
        assert l !in Under(T - K, a);
      }
    }
  }

  lemma LeafHoldsOne(n: Node, db: Db, p: Key, T: set<Key>, keys: seq<Key>)
    requires n.children == map[] && Fits(T, p) && PrefixFree(T) && Fits(KeySet(keys), p) && Holds(n, db, p, T)
    ensures T == {} || (T == {KeyOr(n.key)} && n.items == 1)
    ensures T == {} ==> KeyOr(n.key) !in keys
    ensures Deletable(T, KeySet(keys))
  {
    if T != {} && !Lone(T, |p|) {
      InnerKeysAreLonger(T, p);
    }
    forall k | k in keys ensures |k| >= TIMESTAMP_LENGTH { assert k in KeySet(keys); }
    forall k | k in KeySet(keys)
      ensures |Under(T, k)| <= 1
    {
      CardinalityMonotone(Under(T, k), T);
    }
  }

  lemma BlankKeyIsEmpty(key: Option<Key>)
    requires BlankKey(key)
    ensures KeyOr(key) == []
  {
  }

  lemma KeyFound(keys: seq<Key>, i: nat, T: set<Key>)
    requires i < |keys| && (T == {} || T == {keys[i]}) && (T == {} ==> keys[i] !in keys)
    requires forall j | 0 <= j < i :: keys[j] != keys[i]
    ensures T - KeySet(keys) == {} && T != {}
    ensures forall j | 0 <= j < |keys| :: First(keys, j, T) <==> i == j
  {
  }

  lemma KeyNotFound(keys: seq<Key>, T: set<Key>, key: Key)
    requires (T == {} || T == {key}) && forall j | 0 <= j < |keys| :: keys[j] != key
    ensures T - KeySet(keys) == T
    ensures forall j | 0 <= j < |keys| :: !First(keys, j, T)
  {
  }

  lemma DrainedIntro(n': Node, db: Db, pending: Option<Batch>, txn: Batch, p: Key, K: set<Key>, X: iset<Key>)
    requires n'.items == 0 && n'.children == map[] && BlankKey(n'.key)
    ensures HoldsOrDrained(n', db, p, {}) && Persisted(db, pending, DeleteRecord(txn, p), p, {}, X)
    ensures SameOutsideOr(txn, DeleteRecord(txn, p), p, X) && PutsAbove(txn, DeleteRecord(txn, p), K)
    ensures Deleted(DeleteRecord(txn, p), p)
  {
  }

  lemma HoldsIsHoldsOrDrained(n: Node, db: Db, p: Key, T: set<Key>)
    requires Holds(n, db, p, T)
    ensures HoldsOrDrained(n, db, p, T)
  {
  }

  // ---- deletion at an inner node ----

  lemma InnerBatch(n: Node, db: Db, pending: Option<Batch>, txn: Batch, keys: seq<Key>, p: Key, T: set<Key>,
                   results: seq<bool>, X: iset<Key>)
    requires n.children != map[] && Fits(T, p) && PrefixFree(T) && Fits(KeySet(keys), p)
    requires Holds(n, db, p, T) && Persisted(db, pending, txn, p, T, X) && |results| == |keys|
    ensures SlotKeys(Enumerate(keys)) == KeySet(keys) && Ascending(Enumerate(keys), |results|)
    ensures ChildrenHold(n.children, db, p, T) && ChildrenPersisted(db, pending, txn, p, T, X)
    ensures T != {} && !Lone(T, |p|) && n.items == |T| && BlankKey(n.key) && forall k | k in T :: |p| < |k|
    ensures (exists k | k in keys :: |p| >= |k|) ==> !Deletable(T, KeySet(keys))
    ensures !(exists k | k in keys :: |p| >= |k|) ==> forall x | x in Enumerate(keys) :: |p| < |x.1|
  {
    InnerKeysAreLonger(T, p);
    EnumerateKeys(keys);
    if k :| k in keys && |p| >= |k| {
      assert k in KeySet(keys);
      assert k == p;
      assert Under(T, k) == T;
    }
  }

  lemma EnumerateFirsts(keys: seq<Key>, T: set<Key>, results: seq<bool>)
    requires |results| == |keys|
    requires forall x | x in Enumerate(keys) ::
               x.0 < |results| && (results[x.0] <==> x in FirstSlots(Enumerate(keys), T))
    ensures forall i | 0 <= i < |keys| :: results[i] <==> First(keys, i, T)
  {
    var rem := Enumerate(keys);
    forall i | 0 <= i < |keys|
      ensures results[i] <==> First(keys, i, T)
    {
      assert rem[i] == (i, keys[i]);
      forall j | 0 <= j < |keys| ensures (j, keys[j]) in rem { assert rem[j] == (j, keys[j]); }
    }
  }

  lemma Untouched(n: Node, n': Node, db: Db, pending: Option<Batch>, txn: Batch, txn': Batch, p: Key, T: set<Key>,
                  K: set<Key>, X: iset<Key>)
    requires |T * K| == 0 && T != {} && !Lone(T, |p|) && Fits(T, p)
    requires Holds(n, db, p, T) && Persisted(db, pending, txn, p, T, X)
    requires n' == n.(children := n'.children) && ChildrenHold(n'.children, db, p, T - K)
    requires ChildrenPersisted(db, pending, txn', p, T - K, X) && SameExceptBelowOr(txn, txn', p, X)
    ensures HoldsOrDrained(n', db, p, T - K) && Persisted(db, pending, txn', p, T - K, X)
    ensures T - K != {} && forall l :: !Compacts(T, K, p, l)
  {
    forall k | k in T ensures k !in K { assert k !in T * K; }
    assert T - K == T;
    if pending.Some? {
      SpoiledPrimary(X, p);
      var b := pending.value;
      assert p in X || Look(db, b + txn, PrimaryKey(p, None)) == Look(db, b + txn', PrimaryKey(p, None));
    }
  }

  /** Takes the deleted keys off an inner node, compacting it when one key is left below the timestamp depth. */
  method Shrink(n: Node, db: Db, txn: Batch, children: map<byte, Child>, successes: nat, prefix: Key, ghost T: set<Key>,
                ghost K: set<Key>, ghost pending: Option<Batch>, ghost X: iset<Key>)
    returns (n': Node, txn': Batch)
    requires Fits(T, prefix) && PrefixFree(T) && |T| < U32 && !Lone(T, |prefix|) && n.items == |T| && BlankKey(n.key)
    requires successes == |T * K| > 0 && Exempts(X, T, K, prefix)
    requires ChildrenHold(children, db, prefix, T - K) && ChildrenPersisted(db, pending, txn, prefix, T - K, X)
    ensures HoldsOrDrained(n', db, prefix, T - K)
    ensures Persisted(db, pending, txn', prefix, T - K, X) && SameOutsideOr(txn, txn', prefix, X)
    ensures PutsAbove(txn, txn', T * K)
    ensures forall l | Compacts(T, K, prefix, l) && OffPath(Doubled(prefix, l), T * K) ::
              Deleted(txn', Doubled(prefix, l))
    ensures T - K == {} ==> Deleted(txn', prefix) && n'.hash == BLAKE3_20([])
  {
    hide *;
    ghost var T' := T - K;
    CountLeft(T, K, prefix, children, db);
    LeftKeys(T, K, prefix);
    n' := n.(children := children, items := n.items - successes);
    if n'.items == 0 {
      txn' := DeleteRecord(txn, prefix);
      n' := UpdateHash(n', db, prefix, T');
      BlankKeyIsEmpty(n.key);
      DrainedIntro(n', db, pending, txn, prefix, T * K, X);
      return;
    }
    txn' := txn;
    SameOrReflexive(txn, prefix, X);
    PutsAboveReflexive(txn, T * K);
    if n'.items == 1 && |n'.children| == 1 && |prefix| >= TIMESTAMP_LENGTH {
      var c :| c in n'.children;
      OneChildLeft(n'.children, db, prefix, T', c);
      var child := GetOrLoadChild(n'.children, db, prefix, c, T');
      LoneKey(child, db, prefix + [c], T');
      if child.key.Some? {
        n' := n'.(key := child.key, children := n'.children - {c});
        txn' := DeleteRecord(txn, PrimaryKey(prefix, Some(c)));
        DoubledDelete(txn, T, K, prefix, Only(T'), c, X);
      }
    }
    n' := UpdateHash(n', db, prefix, T');
    ghost var txn0 := txn';
    txn' := Put(txn', prefix, n');
    ShrunkStored(n', db, pending, txn, txn0, prefix, T', X);
    PathPut(txn0, prefix, n', T, K);
    SameOutsideOrTransitive(txn, txn0, txn', prefix, X);
    PutsAboveTransitive(txn, txn0, txn', T * K);
    CompactedIsGone(txn0, txn', T, K, prefix);
  }

  /** Compaction of a node leaves the one key that is left. */
  lemma LeftKeys(T: set<Key>, K: set<Key>, p: Key)
    requires Fits(T, p) && PrefixFree(T) && !Lone(T, |p|) && |T * K| > 0
    ensures Lone(T - K, |p|) ==> Compacts(T, K, p, Only(T - K))
    ensures forall l | Compacts(T, K, p, l) :: Lone(T - K, |p|) && l == Only(T - K)
  {
    InnerKeysAreLonger(T, p);
    assert Under(T, p) == T && Under(T - K, p) == T - K;
    assert T != T - K by {
      var k :| k in T * K;
    }
  }

  lemma CompactedIsGone(txn: Batch, txn': Batch, T: set<Key>, K: set<Key>, p: Key)
    requires PutsAbove(txn, txn', T * K)
    requires forall l | Compacts(T, K, p, l) :: Lone(T - K, |p|) && l == Only(T - K)
    requires Lone(T - K, |p|) && |p| < |Only(T - K)| ==> Deleted(txn, Doubled(p, Only(T - K)))
    ensures forall l | Compacts(T, K, p, l) && OffPath(Doubled(p, l), T * K) :: Deleted(txn', Doubled(p, l))
  {
    forall l | Compacts(T, K, p, l) && OffPath(Doubled(p, l), T * K)
      ensures Deleted(txn', Doubled(p, l))
    {
      StaysDeleted(txn, txn', T * K, Doubled(p, l));
    }
  }

  /** The node's own record lies on the way to a deleted key. */
  lemma PathPut(txn: Batch, p: Key, n: Node, T: set<Key>, K: set<Key>)
    requires Fits(T, p) && |T * K| > 0
    ensures PutsAbove(txn, Put(txn, p, n), T * K)
  {
    var k :| k in T * K;
    assert PrimaryKey(p, None) <= PrimaryKey(k, None);
    assert PutAbove(PrimaryKey(p, None), K);
  }

  lemma CountLeft(T: set<Key>, K: set<Key>, p: Key, children: map<byte, Child>, db: Db)
    requires Fits(T, p) && PrefixFree(T) && !Lone(T, |p|) && ChildrenHold(children, db, p, T - K)
    ensures |T - K| == |T| - |T * K|
    ensures |T - K| == 0 <==> T - K == {}
    ensures T - K == {} <==> children == map[]
    ensures Fits(T - K, p) && PrefixFree(T - K)
    ensures Lone(T - K, |p|) <==> |T - K| == 1 && |children| == 1 && |p| >= TIMESTAMP_LENGTH
  {
    InnerKeysAreLonger(T, p);
    assert T == (T - K) + (T * K);
    if T - K != {} {
      var k :| k in T - K;
      assert k[|p|] in Chars(T - K, |p|);
    }
    if |T - K| == 1 {
      var k := Only(T - K);
      assert children.Keys == {k[|p|]};
      assert |children| == |children.Keys|;
    }
  }

  lemma OneChildLeft(children: map<byte, Child>, db: Db, p: Key, T: set<Key>, c: byte)
    requires ChildrenHold(children, db, p, T) && c in children && |T| == 1 && |children| == 1
    ensures Sub(T, |p|, c) == T && ChildHolds(children[c], db, p + [c], T)
    ensures children - {c} == map[]
    ensures |p| < |Only(T)| && Only(T)[|p|] == c
  {
    var k := Only(T);
    assert Chars(T, |p|) <= {k[|p|]};
    assert children.Keys == {c};
    assert Sub(T, |p|, c) == T;
  }

  lemma LoneKey(n: Node, db: Db, p: Key, T: set<Key>)
    requires |T| == 1 && |p| >= TIMESTAMP_LENGTH && Holds(n, db, p, T)
    ensures n.key == Some(Only(T))
  {
  }

  /** Compaction removes the record at the doubled prefix, which is not that of the child. */
  lemma DoubledDelete(txn: Batch, T: set<Key>, K: set<Key>, p: Key, l: Key, c: byte, X: iset<Key>)
    requires Exempts(X, T, K, p) && Compacts(T, K, p, l) && l[|p|] == c
    ensures var txn' := DeleteRecord(txn, PrimaryKey(p, Some(c)));
            SameOutsideOr(txn, txn', p, X) && PutsAbove(txn, txn', T * K) && Deleted(txn', Doubled(p, l))
    ensures Doubled(p, l) != p + [c]
  {
    SpoiledPrimary(X, Doubled(p, l));
    assert |Doubled(p, l)| == |p| + 2;
  }

  lemma ShrunkStored(n: Node, db: Db, pending: Option<Batch>, before: Batch, txn: Batch, p: Key, T: set<Key>,
                     X: iset<Key>)
    requires T != {} && |T| < U32 && n.items == |T|
    requires if Lone(T, |p|) then n.children == map[] && n.key == Some(Only(T)) && n.hash == BLAKE3_20(KeyOr(n.key))
             else txn == before && BlankKey(n.key) && n.hash == InnerHash(T, |p|) && ChildrenHold(n.children, db, p, T)
    requires ChildrenPersisted(db, pending, before, p, T, X)
    ensures HoldsOrDrained(n, db, p, T)
    ensures Persisted(db, pending, Put(txn, p, n), p, T, X) && SameOutsideOr(txn, Put(txn, p, n), p, X)
  {
    assert Holds(n, db, p, T);
    if pending.Some? {
      var b := pending.value;
      assert Look(db, b + Put(txn, p, n), PrimaryKey(p, None)) == Some(RecordOf(T, |p|)) by {
        SerializeIsRecord(n, db, p, T);
      }
      if !Lone(T, |p|) {
        forall c | c in Chars(T, |p|)
          ensures Intact(db, b + Put(txn, p, n), p + [c], Sub(T, |p|, c), X)
        {
          PutKeepsIntact(db, b, txn, p, n, c, Sub(T, |p|, c), X);
        }
      }
    }
  }

  // ---- deletion group by group ----

  lemma DeleteStep(T: set<Key>, K: set<Key>, d: nat, done: set<byte>, c: byte)
    requires c !in done
    ensures SameButAt(T - Picked(K, d, done), T - Picked(K, d, done + {c}), d, c)
    ensures Sub(T - Picked(K, d, done), d, c) == Sub(T, d, c)
    ensures Sub(T - Picked(K, d, done + {c}), d, c) == Sub(T, d, c) - Sub(K, d, c)
    ensures |T * Picked(K, d, done + {c})| == |T * Picked(K, d, done)| + |Sub(T, d, c) * Sub(K, d, c)|
    ensures T - Picked(K, d, done + {c}) <= T - Picked(K, d, done) <= T
  {
    var a, b := T * Picked(K, d, done), Sub(T, d, c) * Sub(K, d, c);
    assert T * Picked(K, d, done + {c}) == a + b && a !! b;
  }

  lemma DeletableByChar(T: set<Key>, K: set<Key>, d: nat)
    requires forall k | k in T + K :: d < |k|
    ensures Deletable(T, K) <==> forall c | c in Chars(K, d) :: Deletable(Sub(T, d, c), Sub(K, d, c))
  {
    forall k | k in K
      ensures Under(Sub(T, d, k[d]), k) == Under(T, k)
      ensures k[d] in Chars(K, d) && k in Sub(K, d, k[d])
    {
    }
    if forall c | c in Chars(K, d) :: Deletable(Sub(T, d, c), Sub(K, d, c)) {
      forall k | k in K
        ensures |Under(T, k)| <= 1
      {
        assert Deletable(Sub(T, d, k[d]), Sub(K, d, k[d]));
      }
    }
  }

  /** Deletes every group of keys below its child. */
  method DeleteGroups(children: map<byte, Child>, db: Db, txn: Batch, rem: seq<Slot>, results: seq<bool>, prefix: Key,
                      ghost T: set<Key>, ghost pending: Option<Batch>, ghost X: iset<Key>)
    returns (r: Result<(seq<bool>, nat)>, children': map<byte, Child>, txn': Batch)
    requires Fits(T, prefix) && PrefixFree(T) && |T| < U32 && Fits(SlotKeys(rem), prefix)
    requires forall x | x in rem :: |prefix| < |x.1|
    requires forall k | k in T :: |prefix| < |k|
    requires Ascending(rem, |results|)
    requires ChildrenHold(children, db, prefix, T) && ChildrenPersisted(db, pending, txn, prefix, T, X)
    requires Exempts(X, T, SlotKeys(rem), prefix)
    ensures r.Ok? <==> Deletable(T, SlotKeys(rem))
    ensures r.Ok? ==> ChildrenHold(children', db, prefix, T - SlotKeys(rem))
    ensures r.Ok? ==> ChildrenPersisted(db, pending, txn', prefix, T - SlotKeys(rem), X)
    ensures r.Ok? ==> SameExceptBelowOr(txn, txn', prefix, X) && PutsAbove(txn, txn', T * SlotKeys(rem))
    ensures r.Ok? ==> GoneIn(txn', T, SlotKeys(rem), prefix, Chars(SlotKeys(rem), |prefix|))
    ensures r.Ok? ==> |r.value.0| == |results| && r.value.1 == |T * SlotKeys(rem)|
    ensures r.Ok? ==> forall x | x in rem :: x.0 < |results| && (r.value.0[x.0] <==> x in FirstSlots(rem, T))
    decreases Rest(T + SlotKeys(rem), |prefix|), 1
  {
    hide *;
    children', txn' := children, txn;
    ghost var d, K := |prefix|, SlotKeys(rem);
    var results' := results;
    var successes := 0;
    var groups := GroupKeys(rem, |prefix|);
    var done: set<byte> := {};
    ghost var hits := FirstSlots(rem, T);
    NonePicked(rem, d, results, hits);
    NothingDeleted(T);
    SameOrReflexive(txn, prefix, X);
    PutsAboveReflexive(txn, T * K);
    NothingGone(txn, T, K, prefix);
    while groups.Keys - done != {}
      invariant done <= groups.Keys
      invariant ChildrenHold(children', db, prefix, T - Picked(K, d, done))
      invariant ChildrenPersisted(db, pending, txn', prefix, T - Picked(K, d, done), X)
      invariant SameExceptBelowOr(txn, txn', prefix, X) && PutsAbove(txn, txn', T * K)
      invariant GoneIn(txn', T, K, prefix, done)
      invariant |results'| == |results| && successes == |T * Picked(K, d, done)|
      invariant SlotsRight(rem, d, done, results', results, hits)
      invariant forall c | c in done :: Deletable(Sub(T, d, c), Sub(K, d, c))
      decreases groups.Keys - done
    {
      var c :| c in groups.Keys - done;
      DeleteStep(T, K, d, done, c);
      ghost var txn0, results0 := txn', results';
      var g;
      g, children', txn' := DeleteGroup(children', db, txn', groups[c], results', prefix, c, rem, T, done, pending, X);
      if g.Err? {
        DeletableGroups(T, rem, prefix);
        return Err(g.error), children', txn';
      }
      results' := g.value.0;
      successes := successes + g.value.1;
      MergeSlots(rem, d, c, done, results0, results', results, hits);
      SameExceptBelowOrTransitive(txn, txn0, txn', prefix, X);
      PutsAboveTransitive(txn, txn0, txn', T * K);
      GoneInStays(txn0, txn', T, K, prefix, done);
      GoneInMore(txn', T, K, prefix, done, c);
      done := done + {c};
    }
    assert done == groups.Keys;
    AllPicked(rem, prefix);
    DeletableGroups(T, rem, prefix);
    AllSlotsRight(rem, prefix, results', results, hits);
    r := Ok((results', successes));
  }

  lemma NothingDeleted(T: set<Key>)
    ensures T - {} == T && T * {} == {}
  {
  }

  lemma DeletableGroups(T: set<Key>, rem: seq<Slot>, p: Key)
    requires forall x | x in rem :: |p| < |x.1|
    requires forall k | k in T :: |p| < |k|
    ensures var K := SlotKeys(rem);
            Deletable(T, K) <==> forall c | c in Chars(K, |p|) :: Deletable(Sub(T, |p|, c), Sub(K, |p|, c))
  {
    DeletableByChar(T, SlotKeys(rem), |p|);
  }

  /** What the group of c tells about the batch below that child. */
  lemma DeleteBatch(rem: seq<Slot>, prefix: Key, c: byte, n: nat, T: set<Key>, ks: seq<Key>)
    requires Fits(T, prefix) && PrefixFree(T) && Fits(SlotKeys(rem), prefix) && Ascending(rem, n)
    requires forall x | x in rem :: |prefix| < |x.1|
    requires c in Chars(SlotKeys(rem), |prefix|)
    requires var g := Group(rem, |prefix|, c); |ks| == |g| && forall t | 0 <= t < |g| :: ks[t] == g[t].1
    ensures KeySet(ks) == Sub(SlotKeys(rem), |prefix|, c) && Fits(KeySet(ks), prefix + [c]) && ks != []
    ensures var A, K := Sub(T, |prefix|, c), SlotKeys(rem);
            && Fits(A, prefix + [c]) && PrefixFree(A) && |A| <= |T|
            && Rest(A + KeySet(ks), |prefix| + 1) < Rest(T + K, |prefix|)
  {
    var K := SlotKeys(rem);
    GroupKeySet(rem, prefix, c, n, ks);
    hide Group, SlotKeys, Fits, PrefixFree, Rest, KeySet, Chars;
    CharsAreInhabited(K, |prefix|, c);
    SubFits(K, prefix, c);
    SubFits(T, prefix, c);
    assert Sub(T, |prefix|, c) + KeySet(ks) == Sub(T + K, |prefix|, c);
    RestShrinks(T + K, |prefix|, c);
  }

  /** A slot is the first of its key in the batch exactly when it is so in its group. */
  lemma GroupFirsts(rem: seq<Slot>, g: seq<Slot>, ks: seq<Key>, rs: seq<bool>, now: seq<bool>, T: set<Key>, d: nat,
                    c: byte, n: nat)
    requires forall x | x in rem :: d < |x.1|
    requires Ascending(rem, n) && g == Group(rem, d, c)
    requires |ks| == |g| == |rs| && forall t | 0 <= t < |g| :: ks[t] == g[t].1
    requires forall t | 0 <= t < |g| :: g[t].0 < |now| && now[g[t].0] == rs[t]
    requires forall t | 0 <= t < |ks| :: rs[t] <==> First(ks, t, Sub(T, d, c))
    ensures forall x | x in g :: x in rem && x.0 < |now| && (now[x.0] <==> x in FirstSlots(rem, T))
  {
    hide Group;
    GroupIsFilter(rem, d, c, n);
    forall x | x in g
      ensures x in rem && x.0 < |now| && (now[x.0] <==> x in FirstSlots(rem, T))
    {
      var t :| 0 <= t < |g| && g[t] == x;
      assert ks[t] == x.1;
      FirstInGroup(rem, g, ks, x, t, T, d, c, n);
    }
  }

  lemma FirstInGroup(rem: seq<Slot>, g: seq<Slot>, ks: seq<Key>, x: Slot, t: nat, T: set<Key>, d: nat, c: byte, n: nat)
    requires forall y | y in rem :: d < |y.1|
    requires forall y :: y in g <==> y in rem && y.1[d] == c
    requires Ascending(g, n) && |ks| == |g| && forall s | 0 <= s < |g| :: ks[s] == g[s].1
    requires t < |g| && g[t] == x
    ensures First(ks, t, Sub(T, d, c)) <==> FirstSlot(rem, x, T)
  {
    assert x in g;
    if ks[t] in ks[..t] {
      var s :| 0 <= s < t && ks[s] == ks[t];
      assert g[s] in g && g[s].0 < x.0;
    } else {
      forall y | y in rem && y.1 == x.1
        ensures x.0 <= y.0
      {
        assert y in g;
        var s :| 0 <= s < |g| && g[s] == y;
        assert ks[s] == ks[t];
      }
    }
  }

  /** The number of reported deletions is the number of distinct keys deleted. */
  lemma {:induction false} SuccessesAreOldKeys(keys: seq<Key>, rs: seq<bool>, T: set<Key>)
    requires |keys| == |rs| && forall i | 0 <= i < |keys| :: rs[i] <==> First(keys, i, T)
    ensures CountTrue(rs) == |T * KeySet(keys)|
  {
    if keys == [] {
      assert T * KeySet(keys) == {};
    } else {
      var m := |keys| - 1;
      forall i | 0 <= i < m
        ensures rs[..m][i] <==> First(keys[..m], i, T)
      {
        assert keys[..m][..i] == keys[..i];
      }
      SuccessesAreOldKeys(keys[..m], rs[..m], T);
      OldKeysGrow(keys, m, T);
      assert rs[m] <==> First(keys, m, T);
    }
  }

  lemma OldKeysGrow(keys: seq<Key>, m: nat, T: set<Key>)
    requires |keys| == m + 1
    ensures |T * KeySet(keys)| == |T * KeySet(keys[..m])| + if First(keys, m, T) then 1 else 0
  {
    var before := T * KeySet(keys[..m]);
    assert keys == keys[..m] + [keys[m]];
    if First(keys, m, T) {
      assert T * KeySet(keys) == before + {keys[m]};
    } else {
      assert T * KeySet(keys) == before;
    }
  }

  lemma ReplacePersisted(db: Db, pending: Option<Batch>, txn: Batch, txn': Batch, p: Key, W: set<Key>, W': set<Key>,
                         c: byte, X: iset<Key>)
    requires SameButAt(W, W', |p|, c)
    requires ChildrenPersisted(db, pending, txn, p, W, X)
    requires SameOutsideOr(txn, txn', p + [c], X)
    requires Persisted(db, pending, txn', p + [c], Sub(W', |p|, c), X)
    ensures ChildrenPersisted(db, pending, txn', p, W', X)
    ensures SameExceptBelowOr(txn, txn', p, X)
  {
    SameOutsideOrChild(txn, txn', p, c, X);
    if pending.Some? {
      forall e | e in Chars(W', |p|)
        ensures Intact(db, pending.value + txn', p + [e], Sub(W', |p|, e), X)
      {
        if e != c {
          CharsAreInhabited(W, |p|, e);
          CharsAreInhabited(W', |p|, e);
          SiblingIntact(db, pending.value, txn, txn', p, c, e, Sub(W, |p|, e), X);
        }
      }
    }
  }

  lemma SiblingIntact(db: Db, pending: Batch, txn: Batch, txn': Batch, p: Key, c: byte, e: byte, T: set<Key>,
                      X: iset<Key>)
    requires c != e && SameOutsideOr(txn, txn', p + [c], X)
    requires Intact(db, pending + txn, p + [e], T, X)
    ensures Intact(db, pending + txn', p + [e], T, X)
  {
    forall k | PrimaryKey(p + [e], None) <= k && !Spoiled(X, k)
      ensures Look(db, pending + txn, k) == Look(db, pending + txn', k)
    {
      SiblingKeysDiffer(p, e, c, k);
    }
    IntactFrame(db, pending + txn, db, pending + txn', p + [e], T, X);
  }

  /** Deletes the group of c below the child c. */
  method DeleteGroup(children: map<byte, Child>, db: Db, txn: Batch, g: seq<Slot>, results: seq<bool>, prefix: Key,
                     c: byte, ghost rem: seq<Slot>, ghost T: set<Key>, ghost done: set<byte>,
                     ghost pending: Option<Batch>, ghost X: iset<Key>)
    returns (r: Result<(seq<bool>, nat)>, children': map<byte, Child>, txn': Batch)
    requires Fits(T, prefix) && PrefixFree(T) && |T| < U32 && Fits(SlotKeys(rem), prefix)
    requires forall x | x in rem :: |prefix| < |x.1|
    requires Ascending(rem, |results|)
    requires g == Group(rem, |prefix|, c) && c in Chars(SlotKeys(rem), |prefix|) && c !in done
    requires ChildrenHold(children, db, prefix, T - Picked(SlotKeys(rem), |prefix|, done))
    requires ChildrenPersisted(db, pending, txn, prefix, T - Picked(SlotKeys(rem), |prefix|, done), X)
    requires Exempts(X, T, SlotKeys(rem), prefix)
    ensures r.Ok? <==> Deletable(Sub(T, |prefix|, c), Sub(SlotKeys(rem), |prefix|, c))
    ensures r.Ok? ==> ChildrenHold(children', db, prefix, T - Picked(SlotKeys(rem), |prefix|, done + {c}))
    ensures r.Ok? ==>
              ChildrenPersisted(db, pending, txn', prefix, T - Picked(SlotKeys(rem), |prefix|, done + {c}), X)
    ensures r.Ok? ==> SameExceptBelowOr(txn, txn', prefix, X) && PutsAbove(txn, txn', T * SlotKeys(rem))
    ensures r.Ok? ==> Gone(txn', Sub(T, |prefix|, c), Sub(SlotKeys(rem), |prefix|, c), prefix + [c])
    ensures r.Ok? ==> |r.value.0| == |results|
    ensures r.Ok? ==> r.value.1 == |Sub(T, |prefix|, c) * Sub(SlotKeys(rem), |prefix|, c)|
    ensures r.Ok? ==> forall x | x in g :: x in rem && x.0 < |results| && (r.value.0[x.0] <==> x in FirstSlots(rem, T))
    ensures r.Ok? ==> forall i | 0 <= i < |results| && !HasSlot(g, i) :: r.value.0[i] == results[i]
    decreases Rest(T + SlotKeys(rem), |prefix|), 0
  {
    hide *;
    children', txn' := children, txn;
    ghost var d, K := |prefix|, SlotKeys(rem);
    ghost var A := Sub(T, d, c);
    ghost var W, W' := T - Picked(K, d, done), T - Picked(K, d, done + {c});
    var ks := seq(|g|, t requires 0 <= t < |g| => g[t].1);
    DeleteStep(T, K, d, done, c);
    DeleteBatch(rem, prefix, c, |results|, T, ks);
    GroupIsFilter(rem, |prefix|, c, |results|);
    AscendingBounds(g, |results|);
    ChildHeld(children, db, prefix, W, c);
    var rs := seq(|g|, _ => false);
    if c in children {
      ChildPersisted(db, pending, txn, prefix, W, c, X);
      ExemptsBelow(X, T, K, prefix, c);
      var child := GetOrLoadChild(children, db, prefix, c, A);
      var dr, child';
      dr, child', txn' := Delete(child, db, txn, ks, |prefix| + 1, prefix + [c], A, pending, X);
      if dr.Err? {
        return Err(dr.error), children', txn';
      }
      rs := dr.value;
      ReplacePersisted(db, pending, txn, txn', prefix, W, W', c, X);
      SubKeys(T, K, d, c);
      PutsAboveMore(txn, txn', A * KeySet(ks), T * K);
      DrainedOrHolds(child', db, prefix + [c], A - KeySet(ks));
      if child'.items == 0 {
        RemoveChild(children, db, prefix, W, W', c);
        children' := children - {c};
      } else {
        ReplaceChild(children, db, prefix, W, W', c, Loaded(child'));
        children' := children[c := Loaded(child')];
      }
    } else {
      NothingBelow(ks, T, d, c);
      NothingRemoved(children, db, pending, txn, prefix, W, W', c, X);
      SameOrReflexive(txn, prefix, X);
      PutsAboveReflexive(txn, T * K);
      LeafDoesNotCompact({}, Sub(K, d, c), prefix + [c], []);
    }
    SuccessesAreOldKeys(ks, rs, A);
    var results', successes := Scatter(results, g, rs);
    GroupFirsts(rem, g, ks, rs, results', T, d, c, |results|);
    r := Ok((results', successes));
  }

  lemma ChildPersisted(db: Db, pending: Option<Batch>, txn: Batch, p: Key, W: set<Key>, c: byte, X: iset<Key>)
    requires ChildrenPersisted(db, pending, txn, p, W, X)
    ensures Persisted(db, pending, txn, p + [c], Sub(W, |p|, c), X)
  {
    if pending.Some? {
      ChildIntact(db, pending.value + txn, p, W, c, X);
    }
  }

  lemma SubKeys(T: set<Key>, K: set<Key>, d: nat, c: byte)
    ensures Sub(T, d, c) * Sub(K, d, c) <= T * K
  {
  }

  lemma DrainedOrHolds(n: Node, db: Db, p: Key, T: set<Key>)
    requires HoldsOrDrained(n, db, p, T)
    ensures n.items == 0 <==> T == {}
    ensures T != {} ==> ChildHolds(Loaded(n), db, p, T)
  {
  }

  lemma NothingBelow(ks: seq<Key>, T: set<Key>, d: nat, c: byte)
    requires Sub(T, d, c) == {}
    ensures forall t | 0 <= t < |ks| :: !First(ks, t, Sub(T, d, c))
    ensures Deletable(Sub(T, d, c), KeySet(ks))
  {
    forall k | k in KeySet(ks) ensures |Under(Sub(T, d, c), k)| <= 1 { assert Under(Sub(T, d, c), k) == {}; }
  }

  lemma NothingRemoved(children: map<byte, Child>, db: Db, pending: Option<Batch>, txn: Batch, p: Key, W: set<Key>,
                       W': set<Key>, c: byte, X: iset<Key>)
    requires ChildrenHold(children, db, p, W) && ChildrenPersisted(db, pending, txn, p, W, X)
    requires SameButAt(W, W', |p|, c) && Sub(W, |p|, c) == Sub(W', |p|, c) == {} && W' <= W
    ensures ChildrenHold(children, db, p, W') && ChildrenPersisted(db, pending, txn, p, W', X)
  {
    forall e: byte
      ensures Sub(W, |p|, e) == Sub(W', |p|, e)
      ensures e in Chars(W, |p|) <==> e in Chars(W', |p|)
    {
      CharsAreInhabited(W, |p|, e);
      CharsAreInhabited(W', |p|, e);
    }
  }
}
