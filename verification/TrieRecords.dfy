/**
 Which records a deletion leaves in the database, and which it loses by compaction.
 */
module TrieRecords {
  import opened Bytes
  import opened TrieSpec
  import opened RocksDb
  import opened TrieStore
  import opened TrieNode
  import opened TrieQuery
  import opened TrieDelete

  /** Every node of the trie can be read at its prefix. */
  lemma {:induction false} NodeIsStored(db: Db, batch: Batch, p: Key, T: set<Key>, prefix: Key)
    requires T != {} && Fits(T, p) && p <= prefix && Stored(db, batch, p, T) && HasNode(T, |p|, prefix)
    ensures Look(db, batch, PrimaryKey(prefix, None)) == Some(RecordOf(Under(T, prefix), |prefix|))
    decreases |prefix| - |p|
  {
    HasNodeStep(T, p, prefix);
    if |p| < |prefix| {
      var c := prefix[|p|];
      CharsAreInhabited(T, |p|, c);
      SubFits(T, p, c);
      SubUnder(T, p, prefix);
      NodeIsStored(db, batch, p + [c], Sub(T, |p|, c), prefix);
    }
  }

  /** The record that compaction removes is that of a node of the remaining trie. */
  ghost predicate Harmed(T: set<Key>, K: set<Key>) {
    exists q :: q in Doomed(T, K) && HasNode(T - K, 0, q)
  }

  /** The same, at a prefix that no deleted key extends, so that the record is not written again. */
  ghost predicate Lost(T: set<Key>, K: set<Key>) {
    exists q :: q in Doomed(T, K) && HasNode(T - K, 0, q) && OffPath(q, T * K)
  }

  /** A subtree is stored when none of its nodes is spoiled. */
  lemma {:induction false} IntactIsStored(db: Db, batch: Batch, p: Key, T: set<Key>, X: iset<Key>)
    requires T != {} && Fits(T, p) && Intact(db, batch, p, T, X)
    requires forall q | q in X && p <= q :: !HasNode(T, |p|, q)
    ensures Stored(db, batch, p, T)
    decreases Rest(T, |p|)
  {
    HasNodeStep(T, p, p);
    assert p !in X;
    if !Lone(T, |p|) {
      forall c | c in Chars(T, |p|)
        ensures Stored(db, batch, p + [c], Sub(T, |p|, c))
      {
        CharsAreInhabited(T, |p|, c);
        RestShrinks(T, |p|, c);
        SubFits(T, p, c);
        forall q | q in X && p + [c] <= q
          ensures !HasNode(Sub(T, |p|, c), |p| + 1, q)
        {
          assert q[..|p| + 1] == p + [c] && q[..|p|] == p && q[|p|] == c;
          HasNodeStep(T, p, q);
        }
        IntactIsStored(db, batch, p + [c], Sub(T, |p|, c), X);
      }
    }
  }

  /** After a deletion that harms no node, the records of the remaining keys are complete. */
  lemma UnharmedIsStored(db: Db, batch: Batch, T: set<Key>, K: set<Key>)
    requires T - K != {} && Fits(T, []) && Intact(db, batch, [], T - K, Doomed(T, K)) && !Harmed(T, K)
    ensures Stored(db, batch, [], T - K)
  {
    hide Doomed;
    IntactIsStored(db, batch, [], T - K, Doomed(T, K));
  }

  /** A deletion that loses the record of a node leaves the records incomplete. */
  lemma LostIsNotStored(db: Db, batch: Batch, txn: Batch, T: set<Key>, K: set<Key>)
    requires T - K != {} && Fits(T, []) && Gone(txn, T, K, []) && Lost(T, K)
    ensures !Stored(db, batch + txn, [], T - K)
  {
    var q :| q in Doomed(T, K) && HasNode(T - K, 0, q) && OffPath(q, T * K);
    var a, l :| Compacts(T, K, a, l) && q == Doubled(a, l);
    assert Deleted(txn, q);
    if Stored(db, batch + txn, [], T - K) {
      NodeIsStored(db, batch + txn, [], T - K, q);
    }
  }

  /** A node below the timestamp depth has two keys above it. */
  lemma NodeHasTwoKeys(T: set<Key>, q: Key)
    requires T != {} && Fits(T, []) && HasNode(T, 0, q) && |q| > TIMESTAMP_LENGTH
    ensures |Under(T, q[..|q| - 1])| >= 2
  {
    HasNodeIff(T, [], q);
  }

  /** For a batch of one key, whatever is harmed is lost. */
  lemma OneKeyHarm(T: set<Key>, k: Key)
    requires T - {k} != {} && Fits(T, [])
    ensures Harmed(T, {k}) <==> Lost(T, {k})
  {
    forall q | q in Doomed(T, {k}) && HasNode(T - {k}, 0, q)
      ensures OffPath(q, T * {k})
    {
      var a, l :| Compacts(T, {k}, a, l) && q == Doubled(a, l);
      SomeKeyBelow(T, {k}, a, l);
      NodeHasTwoKeys(T - {k}, q);
      if q <= k {
        NotOnPath(T - {k}, a, l, k);
      }
    }
  }

  /** The doubled prefix cannot extend the compacted node: only one key is left there. */
  lemma NotOnPath(T: set<Key>, a: Key, l: Key, k: Key)
    requires |a| < |l| && Under(T, a) == {l} && a <= k && Doubled(a, l) <= k
    ensures var q := Doubled(a, l); |Under(T, q[..|q| - 1])| <= 1
  {
    var q := Doubled(a, l);
    var parent := q[..|q| - 1];
    assert |parent| == |a| + 1 && parent == k[..|a| + 1];
    assert a <= parent;
    assert Under(T, parent) <= Under(T, a);
    CardinalityMonotone(Under(T, parent), Under(T, a));
  }

  /** Two keys share eleven bytes, the first of them the trie's own prefix byte. */
  ghost predicate Crowded(T: set<Key>) {
    exists k: Key, l: Key :: k in T && l in T && k != l && |k| >= 11 && |l| >= 11 && k[..11] == l[..11] && k[0] == 11
  }

  /** Without such keys among the remaining ones a deletion harms nothing. */
  lemma UncrowdedIsUnharmed(T: set<Key>, K: set<Key>)
    requires T - K != {} && Fits(T, []) && !Crowded(T - K)
    ensures !Harmed(T, K)
  {
    if Harmed(T, K) {
      var q :| q in Doomed(T, K) && HasNode(T - K, 0, q);
      var a, l :| Compacts(T, K, a, l) && q == Doubled(a, l);
      NodeHasTwoKeys(T - K, q);
      TwoKeysCrowd(T - K, q[..|q| - 1]);
    }
  }

  lemma TwoKeysCrowd(T: set<Key>, p: Key)
    requires |Under(T, p)| >= 2 && |p| >= 11 && p[0] == TRIE_PREFIX
    ensures Crowded(T)
  {
    var U := Under(T, p);
    var k :| k in U;
    assert |U - {k}| >= 1;
    var l :| l in U - {k};
    assert k[..11] == p[..11] == l[..11] && k[0] == p[0];
  }

  /** Two keys that part after ten bytes z, and two that part after the prefix byte and z. */
  ghost predicate FourKeys(z: Key, k: Key, l: Key, m: Key, o: Key) {
    && |z| == 10 && z[0] == 0 && |k| == |l| == 11 && |m| == |o| == 12
    && k[..10] == l[..10] == z && m[..11] == o[..11] == [TRIE_PREFIX] + z
    && k[10] == 1 && l[10] == 2 && m[11] == 2 && o[11] == 3
  }

  lemma FourKeysFit(z: Key, k: Key, l: Key, m: Key, o: Key)
    requires FourKeys(z, k, l, m, o)
    ensures k[0] == 0 && l[0] == 0 && m[0] == TRIE_PREFIX && o[0] == TRIE_PREFIX
    ensures Fits({k, l, m, o}, []) && PrefixFree({k, l, m, o}) && |{k, l, m, o}| == 4
    ensures {k, l, m, o} - {k} == {l, m, o}
  {
    assert k[..10][0] == k[0] && l[..10][0] == l[0];
    assert m[..11][0] == m[0] && o[..11][0] == o[0];
  }

  lemma FourKeysCompact(z: Key, k: Key, l: Key, m: Key, o: Key)
    requires FourKeys(z, k, l, m, o)
    ensures Compacts({k, l, m, o}, {k}, z, l) && Doubled(z, l) == m && Deletable({k, l, m, o}, {k})
  {
    FourKeysFit(z, k, l, m, o);
    assert !(z <= m) && !(z <= o) by { assert m[..10][0] == m[0] && o[..10][0] == o[0]; }
    assert z <= k && z <= l;
    assert Under({l, m, o}, z) == {l};
    assert k in Under({k, l, m, o}, z);
    assert m == m[..11] + [m[11]];
    assert !(k <= l) && !(k <= m) && !(k <= o);
    assert Under({k, l, m, o}, k) == {k};
  }

  lemma FourKeysNode(z: Key, k: Key, l: Key, m: Key, o: Key)
    requires FourKeys(z, k, l, m, o)
    ensures HasNode({l, m, o}, 0, m) && OffPath(m, {k})
  {
    FourKeysFit(z, k, l, m, o);
    var U := Under({l, m, o}, m[..11]);
    assert m in U && o in U && m != o;
    CardinalityMonotone({m, o}, U);
    assert m in Under({l, m, o}, m);
    HasNodeIff({l, m, o}, [], m);
  }

  /** Four keys, of which deleting one loses the record of another. */
  lemma LossHappens() returns (T: set<Key>, k: Key)
    ensures k in T && |T| == 4 && Fits(T, []) && PrefixFree(T) && Deletable(T, {k}) && Lost(T, {k})
  {
    var z: Key := [0, 0, 0, 0, 0, 0, 0, 0, 0, 0];
    k := z + [1];
    var l, m, o := z + [2], [TRIE_PREFIX] + z + [2], [TRIE_PREFIX] + z + [3];
    assert FourKeys(z, k, l, m, o) by {
      assert m[..11] == [TRIE_PREFIX] + z && o[..11] == [TRIE_PREFIX] + z;
    }
    T := {k, l, m, o};
    FourKeysFit(z, k, l, m, o);
    FourKeysCompact(z, k, l, m, o);
    FourKeysNode(z, k, l, m, o);
    hide Compacts, HasNode, FourKeys;
    assert m in Doomed(T, {k});
  }
}
