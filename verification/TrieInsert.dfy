/**
 Batch insertion into a trie node.
 */
module TrieInsert {
  import opened Bytes
  import opened TrieSpec
  import opened RocksDb
  import opened TrieStore
  import opened TrieNode
  import opened TrieBatch

  // ---- a batch reaching a leaf ----

  /** The keys other than the leaf's own, numbered from their position plus offset. */
  function Others(key: Key, keys: seq<Key>, offset: nat): seq<Slot> {
    if keys == [] then []
    else
      var m := |keys| - 1;
      Others(key, keys[..m], offset) + if keys[m] == key then [] else [(m + offset, keys[m])]
  }

  /** Drops the keys equal to the leaf's own and marks their positions as not inserted. */
  method FilterExisting(key: Key, keys: seq<Key>, results: seq<bool>, offset: nat)
    returns (results': seq<bool>, rem: seq<Slot>)
    requires |keys| <= |results|
    ensures rem == Others(key, keys, offset)
    ensures |results'| == |results|
    ensures forall i | 0 <= i < |results| :: results'[i] == (results[i] && !(i < |keys| && keys[i] == key))
  {
    results', rem := results, [];
    assert keys[..|keys|] == keys;
    for i := 0 to |keys|
      invariant rem == Others(key, keys[..i], offset)
      invariant |results'| == |results|
      invariant forall j | 0 <= j < |results| :: results'[j] == (results[j] && !(j < i && keys[j] == key))
    {
      assert keys[..i + 1][..i] == keys[..i];
      var cmp := BytesCompare(key, keys[i]);
      CompareSigns(key, keys[i]);
      if cmp == 0 {
        results' := results'[i := false];
      } else {
        rem := rem + [(i + offset, keys[i])];
      }
    }
  }

  /**
   An empty leaf takes the last key of a batch but reports it at the first position, and the filter then clears that
   report exactly when the first key is the same. So a batch that repeats a new key may report nothing although the key
   is placed.
   */
  method PopAndFilter(keys: seq<Key>) returns (results: seq<bool>, rem: seq<Slot>)
    requires keys != []
    ensures var key, ks := keys[|keys| - 1], keys[..|keys| - 1];
            && rem == Others(key, ks, 1) && |results| == |keys|
            && (forall i | 0 <= i < |keys| :: results[i] == (i == 0 && !(i < |ks| && ks[i] == key)))
    ensures (exists i :: 0 <= i < |results| && results[i]) <==> |keys| == 1 || keys[0] != keys[|keys| - 1]
  {
    var key, ks := keys[|keys| - 1], keys[..|keys| - 1];
    results := seq(|keys|, _ => false)[0 := true];
    rem := [];
    if ks != [] {
      results, rem := FilterExisting(key, ks, results, 1);
    }
    if |keys| == 1 || keys[0] != key {
      assert results[0];
    }
  }

  lemma {:induction false} OthersAre(key: Key, keys: seq<Key>, offset: nat)
    ensures Ascending(Others(key, keys, offset), |keys| + offset)
    ensures forall x :: x in Others(key, keys, offset) <==>
                        offset <= x.0 < |keys| + offset && keys[x.0 - offset] == x.1 && x.1 != key
  {
    if keys != [] {
      var m := |keys| - 1;
      OthersAre(key, keys[..m], offset);
      var r := Others(key, keys[..m], offset);
      assert keys == keys[..m] + [keys[m]];
      forall s | 0 <= s < |r|
        ensures r[s].0 < m + offset
      {
        assert r[s] in r;
      }
    }
  }

  // ---- slots and keys ----

  function KeysOf(rem: seq<Slot>): seq<Key> {
    seq(|rem|, i requires 0 <= i < |rem| => rem[i].1)
  }

  lemma KeysOfSnoc(rem: seq<Slot>, x: Slot)
    ensures KeysOf(rem + [x]) == KeysOf(rem) + [x.1]
  {
  }

  lemma SlotKeysOf(rem: seq<Slot>)
    ensures KeySet(KeysOf(rem)) == SlotKeys(rem)
  {
    forall x | x in rem ensures x.1 in KeysOf(rem) {
      var i :| 0 <= i < |rem| && rem[i] == x;
      assert KeysOf(rem)[i] == x.1;
    }
    forall k | k in KeysOf(rem) ensures k in SlotKeys(rem) {
      var i :| 0 <= i < |rem| && KeysOf(rem)[i] == k;
      assert rem[i] in rem;
    }
  }

  lemma EnumerateKeysOf(keys: seq<Key>)
    ensures KeysOf(Enumerate(keys)) == keys
  {
  }

  lemma {:induction false} GroupKeysOf(rem: seq<Slot>, d: nat, c: byte)
    requires forall x | x in rem :: d < |x.1|
    ensures KeysOf(Group(rem, d, c)) == GroupOf(KeysOf(rem), d, c)
  {
    if rem != [] {
      var init, last := rem[..|rem| - 1], rem[|rem| - 1];
      GroupKeysOf(init, d, c);
      assert rem == init + [last];
      KeysOfSnoc(init, last);
      KeysOfSnoc(Group(init, d, c), last);
      assert KeysOf(rem)[..|rem| - 1] == KeysOf(init);
    }
  }

  lemma {:induction false} OthersKeysOf(key: Key, keys: seq<Key>, offset: nat)
    ensures KeysOf(Others(key, keys, offset)) == Without(keys, key)
  {
    if keys != [] {
      var m := |keys| - 1;
      OthersKeysOf(key, keys[..m], offset);
      KeysOfSnoc(Others(key, keys[..m], offset), (m + offset, keys[m]));
    }
  }

  // ---- insertion ----

  /**
   The slots of rem are still open: their keys are those passed on to children, and the results so far report what the
   node has taken itself.
   */
  ghost predicate Open(keys: seq<Key>, T: set<Key>, d: nat, rem: seq<Slot>, results: seq<bool>) {
    && keys != [] && |results| == |keys| && Ascending(rem, |keys|) && KeysOf(rem) == Passed(keys, T, d)
    && (forall x | x in rem :: x.0 < |keys| && !results[x.0])
    && CountTrue(results) == OwnReport(keys, T, d)
    && (forall i | 0 <= i < |keys| && results[i] :: keys[i] !in T)
    && (forall x | x in rem && x.1 !in Taken(keys, T, d) :: keys[x.0] !in T)
  }

  /** What the results say, and what the node counts and hashes to. */
  ghost predicate Reports(keys: seq<Key>, T: set<Key>, d: nat, prior: Bytes, n: Node, rs: seq<bool>) {
    && keys != [] && |rs| == |keys| && CountTrue(rs) == Reported(keys, T, d)
    && (forall i | 0 <= i < |keys| && rs[i] :: keys[i] !in T)
    && n.hash == HashAfter(keys, T, d, prior) && n.items == ItemsAfter(keys, T, d)
  }

  /** The node's own record is written exactly when its children report something. */
  ghost predicate RecordWritten(txn: Batch, txn': Batch, p: Key, n: Node, written: bool) {
    var k := PrimaryKey(p, None);
    if written then k in txn' && txn'[k] == Some(Serialize(n))
    else (k in txn <==> k in txn') && (k in txn ==> txn'[k] == txn[k])
  }

  ghost predicate HoldsKept(n: Node, db: Db, pending: Option<Batch>, txn: Batch, p: Key, T: set<Key>) {
    Holds(n, db, p, T) && Kept(db, pending, txn, p, T)
  }

  /**
   Inserts a batch below the node that holds T at prefix p. It succeeds exactly when the keys can live in one trie.
   The number of reported insertions, the item count and the hash are then the stated functions of the batch and of T,
   whatever the order of the groups and whichever nodes were loaded; the node holds T and the batch exactly when the
   batch is sound, and the records written make the pending batch over the database hold them too.
   */
  method Insert(n: Node, db: Db, txn: Batch, keys: seq<Key>, idx: nat, ghost p: Key, ghost T: set<Key>,
                ghost pending: Option<Batch>)
    returns (r: Result<seq<bool>>, n': Node, txn': Batch)
    requires |p| == idx
    requires Fits(T, p) && PrefixFree(T) && Fits(KeySet(keys), p) && |T + KeySet(keys)| < U32
    requires Holds(n, db, p, T) && Kept(db, pending, txn, p, T)
    ensures r.Ok? <==> keys != [] && PrefixFree(T + KeySet(keys))
    ensures r.Ok? ==> Reports(keys, T, idx, n.hash, n', r.value) && SameOutside(txn, txn', p)
    ensures r.Ok? && Sound(keys, T, idx) ==> HoldsKept(n', db, pending, txn', p, T + KeySet(keys))
    ensures r.Ok? && !Sound(keys, T, idx) ==> !Holds(n', db, p, T + KeySet(keys))
    ensures r.Ok? && idx < TIMESTAMP_LENGTH ==> RecordWritten(txn, txn', p, n', Reported(keys, T, idx) > 0)
    ensures r.Ok? && OnceIfAbsent(keys, T) ==>
              Lossless(keys, T, idx) && |r.value| == |keys| &&
              forall i | 0 <= i < |keys| :: r.value[i] <==> keys[i] !in T
    decreases Rest(T + KeySet(keys), idx), 4
  {
    hide *;
    n', txn' := n, txn;
    if keys == [] {
      return Err(NoKeys), n', txn';
    }
    BatchPrefix(keys, p);
    HashOf(n, db, p, T);
    var prefix := keys[0][..idx];
    var results := seq(|keys|, _ => false);
    var rem: seq<Slot> := Enumerate(keys);
    if idx >= TIMESTAMP_LENGTH && n.children == map[] {
      var step;
      step, n', txn', results, rem := OpenLeaf(n, db, txn, keys, prefix, T, pending);
      if step.Err? {
        return Err(step.error), n', txn';
      }
      if step.value {
        InsertedFacts(n', db, p, keys, T, n.hash, results);
        return Ok(results), n', txn';
      }
    } else {
      OpenInner(n, db, pending, txn, keys, p, T, results);
      SameOutsideReflexive(txn, p);
    }
    ghost var txn0 := txn';
    r, n', txn' := InsertBelow(n', db, txn', rem, results, prefix, keys, T, n.hash, pending);
    if r.Ok? {
      SameOutsideTransitive(txn, txn0, txn', p);
      InsertedFacts(n', db, p, keys, T, n.hash, r.value);
    }
  }

  lemma HashOf(n: Node, db: Db, p: Key, T: set<Key>)
    requires Holds(n, db, p, T)
    ensures T != {} ==> n.hash == NodeHash(T, |p|)
  {
  }

  lemma HoldsKeptIs(n: Node, db: Db, pending: Option<Batch>, txn: Batch, p: Key, T: set<Key>)
    ensures HoldsKept(n, db, pending, txn, p, T) <==> Holds(n, db, p, T) && Kept(db, pending, txn, p, T)
  {
  }

  /** What follows from the counts. */
  lemma InsertedFacts(n: Node, db: Db, p: Key, keys: seq<Key>, T: set<Key>, prior: Bytes, rs: seq<bool>)
    requires Reports(keys, T, |p|, prior, n, rs)
    requires Fits(T, p) && Fits(KeySet(keys), p) && PrefixFree(T + KeySet(keys))
    ensures !Sound(keys, T, |p|) ==> !Holds(n, db, p, T + KeySet(keys))
    ensures OnceIfAbsent(keys, T) ==>
              Lossless(keys, T, |p|) && |rs| == |keys| && forall i | 0 <= i < |keys| :: rs[i] <==> keys[i] !in T
  {
    hide Sound, Lossless, Reported, ItemsAfter, HashAfter, OnceIfAbsent, KeySet, Fits, PrefixFree;
    JointIntro(keys, T, p);
    ReportedBound(keys, T, p);
    if OnceIfAbsent(keys, T) {
      OnceIsLossless(keys, T, |p|);
      OnceResults(keys, rs, T);
    }
  }

  /** Above the timestamp depth, or with children, every key goes to a child. */
  lemma OpenInner(n: Node, db: Db, pending: Option<Batch>, txn: Batch, keys: seq<Key>, p: Key, T: set<Key>,
                  results: seq<bool>)
    requires |p| < TIMESTAMP_LENGTH || n.children != map[]
    requires Fits(T, p) && PrefixFree(T) && keys != []
    requires Holds(n, db, p, T) && Kept(db, pending, txn, p, T)
    requires |results| == |keys| && forall i | 0 <= i < |keys| :: !results[i]
    ensures Open(keys, T, |p|, Enumerate(keys), results) && Passed(keys, T, |p|) == keys && Taken(keys, T, |p|) == T
    ensures ReadyBelow(n, db, pending, txn, p, T) && !Lone(T + KeySet(keys), |p|)
    ensures n.hash == HashBefore(keys, T, |p|, n.hash) && HoldsKept(n, db, pending, txn, p, T)
  {
    hide *;
    InnerNode(n, db, pending, txn, p, T, keys);
    OpenAll(keys, T, |p|, results, n.hash);
  }

  /** Where the node takes no key, all slots are open. */
  lemma OpenAll(keys: seq<Key>, T: set<Key>, d: nat, results: seq<bool>, h: Bytes)
    requires keys != [] && !Lone(T, d) && !AtEmptyLeaf(T, d)
    requires |results| == |keys| && forall i | 0 <= i < |keys| :: !results[i]
    ensures Open(keys, T, d, Enumerate(keys), results) && Passed(keys, T, d) == keys && Taken(keys, T, d) == T
    ensures HashBefore(keys, T, d, h) == h
  {
    hide CountTrue;
    EnumerateKeys(keys);
    EnumerateKeysOf(keys);
    NoneTrue(results);
  }

  lemma InnerNode(n: Node, db: Db, pending: Option<Batch>, txn: Batch, p: Key, T: set<Key>, keys: seq<Key>)
    requires |p| < TIMESTAMP_LENGTH || n.children != map[]
    requires Fits(T, p) && PrefixFree(T) && Holds(n, db, p, T) && Kept(db, pending, txn, p, T)
    ensures ReadyBelow(n, db, pending, txn, p, T) && HoldsKept(n, db, pending, txn, p, T)
    ensures !Lone(T, |p|) && !AtEmptyLeaf(T, |p|) && !Lone(T + KeySet(keys), |p|)
  {
    InnerKeysAreLonger(T, p);
    if |p| >= TIMESTAMP_LENGTH {
      CardinalityMonotone(T, T + KeySet(keys));
    }
  }

  lemma {:induction false} NoneTrue(rs: seq<bool>)
    requires forall i | 0 <= i < |rs| :: !rs[i]
    ensures CountTrue(rs) == 0
  {
    if rs != [] {
      NoneTrue(rs[..|rs| - 1]);
    }
  }

  /** The node is inner, or about to become inner, and its children hold U. */
  ghost predicate ReadyBelow(n: Node, db: Db, pending: Option<Batch>, txn: Batch, p: Key, U: set<Key>) {
    && n.items == |U| && BlankKey(n.key)
    && ChildrenHold(n.children, db, p, U) && ChildrenKept(db, pending, txn, p, U)
    && Fits(U, p) && PrefixFree(U) && (forall k | k in U :: |p| < |k|)
  }

  /** A batch at a leaf: fills the leaf when it is empty, then splits it when other keys remain. */
  method OpenLeaf(n: Node, db: Db, txn: Batch, keys: seq<Key>, prefix: Key, ghost T: set<Key>,
                  ghost pending: Option<Batch>)
    returns (r: Result<bool>, n': Node, txn': Batch, results: seq<bool>, rem: seq<Slot>)
    requires |prefix| >= TIMESTAMP_LENGTH && n.children == map[] && keys != []
    requires Fits(T, prefix) && PrefixFree(T) && Fits(KeySet(keys), prefix) && |T + KeySet(keys)| < U32
    requires Holds(n, db, prefix, T) && Kept(db, pending, txn, prefix, T)
    ensures r.Err? ==> !PrefixFree(T + KeySet(keys))
    ensures r.Ok? ==> SameOutside(txn, txn', prefix)
    ensures r == Ok(true) ==> PrefixFree(T + KeySet(keys)) && Reports(keys, T, |prefix|, n.hash, n', results)
    ensures r == Ok(true) ==> HoldsKept(n', db, pending, txn', prefix, T + KeySet(keys)) && Sound(keys, T, |prefix|)
    ensures r == Ok(false) ==> Open(keys, T, |prefix|, rem, results) && Passed(keys, T, |prefix|) != []
    ensures r == Ok(false) ==> ReadyBelow(n', db, pending, txn', prefix, Taken(keys, T, |prefix|))
    ensures r == Ok(false) ==> n'.hash == HashBefore(keys, T, |prefix|, n.hash)
    ensures r == Ok(false) ==>
              !Lone(T + KeySet(keys), |prefix|) && !(KeySet(Passed(keys, T, |prefix|)) <= Taken(keys, T, |prefix|))
    decreases Rest(T + KeySet(keys), |prefix|), 3
  {
    hide *;
    LeafShape(n, db, prefix, T);
    SameOutsideReflexive(txn, prefix);
    n', txn' := n, txn;
    if n.key == None {
      var key := keys[|keys| - 1];
      BatchPrefixes(keys, prefix);
      n', txn' := PlaceKey(n, db, txn, prefix, key, pending);
      LeafShape(n', db, prefix, {key});
      results, rem := PopAndFilter(keys);
      EmptyLeafOpens(keys, T, |prefix|, rem, results);
    } else {
      results := seq(|keys|, _ => false);
      results, rem := FilterExisting(n.key.value, keys, results, 0);
      FullLeafOpens(keys, T, |prefix|, n.key.value, rem, results);
    }
    HashOf(n, db, prefix, T);
    HoldsKeptIs(n', db, pending, txn', prefix, Taken(keys, T, |prefix|));
    if rem == [] {
      NothingPassed(n, n', db, pending, txn', keys, T, prefix, results);
      return Ok(true), n', txn', results, rem;
    }
    LeafCannotStay(keys, T, rem, results, n'.key.value, prefix, n.hash);
    ghost var txn0 := txn';
    var ok;
    ok, n', txn' := SplitLeaf(n', db, txn', |prefix|, prefix, pending);
    if !ok {
      return Err(Panic), n', txn', results, rem;
    }
    SameOutsideTransitive(txn, txn0, txn', prefix);
    return Ok(false), n', txn', results, rem;
  }

  lemma EmptyLeafOpens(keys: seq<Key>, T: set<Key>, d: nat, rem: seq<Slot>, results: seq<bool>)
    requires keys != [] && T == {} && d >= TIMESTAMP_LENGTH && |results| == |keys|
    requires rem == Others(keys[|keys| - 1], keys[..|keys| - 1], 1)
    requires forall i | 0 <= i < |keys| ::
               results[i] == (i == 0 && !(i < |keys| - 1 && keys[..|keys| - 1][i] == keys[|keys| - 1]))
    ensures Open(keys, T, d, rem, results) && Taken(keys, T, d) == {keys[|keys| - 1]}
  {
    var ks := keys[..|keys| - 1];
    OthersAre(Last(keys), ks, 1);
    OthersKeysOf(Last(keys), ks, 1);
    OnlyFirst(results);
  }

  lemma {:induction false} OnlyFirst(rs: seq<bool>)
    requires rs != [] && forall i | 0 < i < |rs| :: !rs[i]
    ensures CountTrue(rs) == if rs[0] then 1 else 0
  {
    if |rs| > 1 {
      OnlyFirst(rs[..|rs| - 1]);
    } else {
      assert rs[..0] == [];
    }
  }

  lemma FullLeafOpens(keys: seq<Key>, T: set<Key>, d: nat, key: Key, rem: seq<Slot>, results: seq<bool>)
    requires keys != [] && T == {key} && d >= TIMESTAMP_LENGTH && |results| == |keys|
    requires rem == Others(key, keys, 0) && forall i | 0 <= i < |keys| :: !results[i]
    ensures Open(keys, T, d, rem, results) && Taken(keys, T, d) == {key}
  {
    assert Only(T) == key;
    OthersAre(key, keys, 0);
    OthersKeysOf(key, keys, 0);
    NoneTrue(results);
  }

  lemma NothingPassed(n: Node, n': Node, db: Db, pending: Option<Batch>, txn: Batch, keys: seq<Key>, T: set<Key>,
                      p: Key, results: seq<bool>)
    requires |p| >= TIMESTAMP_LENGTH && Open(keys, T, |p|, [], results) && (T == {} || (|T| == 1 && n' == n))
    requires HoldsKept(n', db, pending, txn, p, Taken(keys, T, |p|))
    requires T != {} ==> n.hash == NodeHash(T, |p|)
    ensures T + KeySet(keys) == Taken(keys, T, |p|) && PrefixFree(T + KeySet(keys))
    ensures Reports(keys, T, |p|, n.hash, n', results) && Sound(keys, T, |p|)
    ensures HoldsKept(n', db, pending, txn, p, T + KeySet(keys))
  {
    hide *;
    var d := |p|;
    OpenEmpty(keys, T, d, results);
    ReportedIs(keys, T, d);
    LoneIsOnly(keys, T, d);
    NothingBelow(Taken(keys, T, d), d, 256);
    LosslessNothing(Taken(keys, T, d), d);
    LeafItems(keys, T, d);
    HoldsKeptIs(n', db, pending, txn, p, Taken(keys, T, d));
    LeafNode(n', db, p, Taken(keys, T, d));
    LeafHashBefore(keys, T, d, n.hash);
    AfterNothing(keys, T, d, n.hash);
    ReportsIntro(keys, T, d, n.hash, n', results);
  }

  lemma OpenEmpty(keys: seq<Key>, T: set<Key>, d: nat, results: seq<bool>)
    requires Open(keys, T, d, [], results)
    ensures keys != [] && Passed(keys, T, d) == [] && |results| == |keys| && CountTrue(results) == OwnReport(keys, T, d)
    ensures forall i | 0 <= i < |keys| && results[i] :: keys[i] !in T
  {
    assert KeysOf([]) == [];
  }

  lemma AfterNothing(keys: seq<Key>, T: set<Key>, d: nat, h: Bytes)
    requires keys != [] && Below(Passed(keys, T, d), Taken(keys, T, d), d, 256) == 0
    ensures HashAfter(keys, T, d, h) == HashBefore(keys, T, d, h) && ItemsAfter(keys, T, d) == |Taken(keys, T, d)|
  {
  }

  lemma LeafNode(n: Node, db: Db, p: Key, S: set<Key>)
    requires Holds(n, db, p, S) && |S| == 1
    ensures n.items == 1 && n.hash == NodeHash(S, |p|)
  {
  }

  lemma LeafHashBefore(keys: seq<Key>, T: set<Key>, d: nat, h: Bytes)
    requires keys != [] && d >= TIMESTAMP_LENGTH && Passed(keys, T, d) == [] && (T != {} ==> h == NodeHash(T, d))
    ensures HashBefore(keys, T, d, h) == HashBefore(keys, T, d, NodeHash(T, d))
  {
  }

  lemma LeafItems(keys: seq<Key>, T: set<Key>, d: nat)
    requires keys != [] && d >= TIMESTAMP_LENGTH && (T == {} || |T| == 1)
    ensures |Taken(keys, T, d)| == 1 && PrefixFree(Taken(keys, T, d))
  {
    if T != {} {
      var k := Only(T);
    }
  }

  lemma LeafCannotStay(keys: seq<Key>, T: set<Key>, rem: seq<Slot>, results: seq<bool>, key: Key, p: Key, h: Bytes)
    requires p <= key && Fits(T, p) && Fits(KeySet(keys), p) && |p| >= TIMESTAMP_LENGTH && (T == {} || |T| == 1)
    requires Open(keys, T, |p|, rem, results) && Taken(keys, T, |p|) == {key} && rem != []
    ensures Passed(keys, T, |p|) != [] && !(KeySet(Passed(keys, T, |p|)) <= {key})
    ensures !Lone(T + KeySet(keys), |p|)
    ensures |key| <= |p| ==> !PrefixFree(T + KeySet(keys))
    ensures Rest({key}, |p|) <= Rest(T + KeySet(keys), |p|)
    ensures HashBefore(keys, T, |p|, h) == InnerHash({key}, |p|)
  {
    PassedKeys(keys, T, |p|);
    var k := rem[0].1;
    assert k == KeysOf(rem)[0];
    assert k in KeySet(Passed(keys, T, |p|));
    LeafOrEmpty(T, |p|);
    hide Passed, Taken, CountTrue, OwnReport, KeySet, InnerHash, Lone, AtEmptyLeaf;
    assert k != key;
    LeafOverfull(T, keys, key, k, p);
  }

  lemma LeafOrEmpty(T: set<Key>, d: nat)
    requires d >= TIMESTAMP_LENGTH && (T == {} || |T| == 1)
    ensures AtEmptyLeaf(T, d) || Lone(T, d)
  {
  }

  lemma LeafOverfull(T: set<Key>, keys: seq<Key>, key: Key, k: Key, p: Key)
    requires Fits(T, p) && Fits(KeySet(keys), p) && p <= key && k != key
    requires k in T + KeySet(keys) && key in T + KeySet(keys)
    ensures !Lone(T + KeySet(keys), |p|)
    ensures |key| <= |p| ==> !PrefixFree(T + KeySet(keys))
    ensures Rest({key}, |p|) <= Rest(T + KeySet(keys), |p|)
  {
    TwoKeys(T + KeySet(keys), key, k);
    if |key| <= |p| {
      assert p <= k;
      assert key == p;
    }
  }

  lemma LeafShape(n: Node, db: Db, p: Key, T: set<Key>)
    requires |p| >= TIMESTAMP_LENGTH && n.children == map[] && Fits(T, p) && PrefixFree(T) && Holds(n, db, p, T)
    ensures n.key == None <==> T == {}
    ensures n.key.Some? ==> T == {n.key.value} && n.items == 1 && p <= n.key.value
  {
    if T != {} && !Lone(T, |p|) {
      InnerKeysAreLonger(T, p);
    }
  }

  lemma BatchPrefixes(keys: seq<Key>, p: Key)
    requires Fits(KeySet(keys), p)
    ensures forall i | 0 <= i < |keys| :: p <= keys[i] && Fits({keys[i]}, p) && PrefixFree({keys[i]})
  {
    forall i | 0 <= i < |keys| ensures keys[i] in KeySet(keys) {}
  }

  lemma TwoKeys(W: set<Key>, a: Key, b: Key)
    requires a in W && b in W && a != b
    ensures |W| >= 2
  {
    CardinalityMonotone({a, b}, W);
  }

  /** The keys that remain open go to the children. */
  method InsertBelow(n: Node, db: Db, txn: Batch, rem: seq<Slot>, results: seq<bool>, prefix: Key, ghost keys: seq<Key>,
                     ghost T: set<Key>, ghost prior: Bytes, ghost pending: Option<Batch>)
    returns (r: Result<seq<bool>>, n': Node, txn': Batch)
    requires keys != [] && Fits(T, prefix) && PrefixFree(T) && Fits(KeySet(keys), prefix) && |T + KeySet(keys)| < U32
    requires Open(keys, T, |prefix|, rem, results) && !Lone(T + KeySet(keys), |prefix|)
    requires ReadyBelow(n, db, pending, txn, prefix, Taken(keys, T, |prefix|))
    requires n.hash == HashBefore(keys, T, |prefix|, prior) && (T != {} ==> prior == NodeHash(T, |prefix|))
    requires KeySet(Passed(keys, T, |prefix|)) <= Taken(keys, T, |prefix|) ==>
               HoldsKept(n, db, pending, txn, prefix, Taken(keys, T, |prefix|))
    ensures r.Ok? <==> PrefixFree(T + KeySet(keys))
    ensures r.Ok? ==> Reports(keys, T, |prefix|, prior, n', r.value) && SameOutside(txn, txn', prefix)
    ensures r.Ok? && Sound(keys, T, |prefix|) ==> HoldsKept(n', db, pending, txn', prefix, T + KeySet(keys))
    ensures r.Ok? && |prefix| < TIMESTAMP_LENGTH ==>
              RecordWritten(txn, txn', prefix, n', Reported(keys, T, |prefix|) > 0)
    decreases Rest(T + KeySet(keys), |prefix|), 2
  {
    hide *;
    n', txn' := n, txn;
    ghost var ks, U := Passed(keys, T, |prefix|), Taken(keys, T, |prefix|);
    BelowFits(n, db, pending, txn, prefix, keys, T, rem, results);
    if exists x | x in rem :: |prefix| >= |x.1| {
      return Err(KeyLengthExceeded), n', txn';
    }
    var g, children;
    g, children, txn' := InsertGroups(n.children, db, txn, rem, results, prefix, U, pending);
    n' := n.(children := children);
    if g.Err? {
      return Err(g.error), n', txn';
    }
    BelowResults(keys, T, |prefix|, rem, results, g.value.0, g.value.1);

    SameExceptBelowIsSameOutside(txn, txn', prefix);
    if g.value.1 > 0 {
      ghost var hs := map c | c in children :: ChildHash(ks, U, |prefix|, c);
      GroupsHashed(children, db, pending, txn', prefix, ks, U, hs);
      BelowPositive(ks, U, prefix, children, db, pending, txn');
      n' := n'.(items := n'.items + g.value.1);
      n' := RecomputeHash(n', db, prefix, U, hs);
      GroupsReloaded(children, n'.children, db, pending, txn', prefix, ks, U);
      SameOutsidePut(txn, txn', prefix, n');
      BelowStored(n, n', db, pending, txn', prefix, keys, T, prior);
      txn' := Put(txn', prefix, n');
    } else {
      BelowUnchanged(n, n', db, pending, txn, txn', prefix, keys, T, prior);
    }
    ReportsIntro(keys, T, |prefix|, prior, n', g.value.0);
    return Ok(g.value.0), n', txn';
  }

  lemma ReportsIntro(keys: seq<Key>, T: set<Key>, d: nat, prior: Bytes, n: Node, rs: seq<bool>)
    requires keys != [] && |rs| == |keys| && CountTrue(rs) == Reported(keys, T, d)
    requires forall i | 0 <= i < |keys| && rs[i] :: keys[i] !in T
    requires n.hash == HashAfter(keys, T, d, prior) && n.items == ItemsAfter(keys, T, d)
    ensures Reports(keys, T, d, prior, n, rs)
  {
  }

  lemma SameOutsidePut(txn: Batch, txn': Batch, p: Key, n: Node)
    requires SameOutside(txn, txn', p)
    ensures SameOutside(txn, Put(txn', p, n), p) && RecordWritten(txn, Put(txn', p, n), p, n, true)
  {
  }

  lemma BelowFits(n: Node, db: Db, pending: Option<Batch>, txn: Batch, p: Key, keys: seq<Key>, T: set<Key>,
                  rem: seq<Slot>, results: seq<bool>)
    requires keys != [] && Fits(KeySet(keys), p) && Fits(T, p) && !Lone(T + KeySet(keys), |p|)
    requires Open(keys, T, |p|, rem, results) && ReadyBelow(n, db, pending, txn, p, Taken(keys, T, |p|))
    ensures var U, K := Taken(keys, T, |p|), SlotKeys(rem);
            && n.items == |U| && BlankKey(n.key) && Fits(U, p) && PrefixFree(U) && Fits(K, p) &&
            U + K == T + KeySet(keys)
            && (forall k | k in U :: |p| < |k|)
            && ChildrenHold(n.children, db, p, U) && ChildrenKept(db, pending, txn, p, U)
    ensures KeysOf(rem) == Passed(keys, T, |p|) && KeySet(KeysOf(rem)) == SlotKeys(rem)
    ensures Ascending(rem, |results|) && forall x | x in rem :: x.0 < |results| && !results[x.0]
    ensures (exists x | x in rem :: |p| >= |x.1|) ==> !PrefixFree(T + KeySet(keys))
  {
    hide Passed, Taken, ChildrenHold, ChildrenKept, OwnReport, CountTrue, KeysOf, Lone, PrefixFree, Fits, KeySet;
    PassedKeys(keys, T, |p|);
    SlotKeysOf(rem);
    EndedKey(T, keys, p, rem, Taken(keys, T, |p|));
  }

  /** A key that ends at an inner node is a prefix of another. */
  lemma EndedKey(T: set<Key>, keys: seq<Key>, p: Key, rem: seq<Slot>, U: set<Key>)
    requires Fits(T, p) && Fits(KeySet(keys), p) && !Lone(T + KeySet(keys), |p|)
    requires U + SlotKeys(rem) == T + KeySet(keys)
    ensures Fits(SlotKeys(rem), p)
    ensures (exists x | x in rem :: |p| >= |x.1|) ==> !PrefixFree(T + KeySet(keys))
  {
    hide KeySet, Lone;
    assert forall k | k in SlotKeys(rem) :: k in T + KeySet(keys);
    if x :| x in rem && |p| >= |x.1| {
      assert x.1 in SlotKeys(rem);
      if PrefixFree(T + KeySet(keys)) {
        EndsHere(T + KeySet(keys), p, x.1);
      }
    }
  }

  /** The results after all groups. */
  lemma BelowResults(keys: seq<Key>, T: set<Key>, d: nat, rem: seq<Slot>, results: seq<bool>, now: seq<bool>,
                     successes: nat)
    requires Open(keys, T, d, rem, results) && |now| == |results|
    requires CountTrue(now) == CountTrue(results) + successes &&
             successes == Below(KeysOf(rem), Taken(keys, T, d), d, 256)
    requires forall i | 0 <= i < |now| && now[i] :: results[i] || NewAt(rem, i, Taken(keys, T, d))
    ensures |now| == |keys| && CountTrue(now) == Reported(keys, T, d)
    ensures forall i | 0 <= i < |keys| && now[i] :: keys[i] !in T
    ensures d < TIMESTAMP_LENGTH ==> Reported(keys, T, d) == successes
  {
    hide Below, Reported, Passed, Taken;
    ReportedIs(keys, T, d);
    forall i | 0 <= i < |keys| && now[i]
      ensures keys[i] !in T
    {
      if !results[i] {
        var x :| x in rem && x.0 == i && x.1 !in Taken(keys, T, d);
      }
    }
  }

  /** An open slot at position i has a key that is not in U. */
  ghost predicate NewAt(rem: seq<Slot>, i: nat, U: set<Key>) {
    exists x :: x in rem && x.0 == i && x.1 !in U
  }

  lemma BelowPositive(ks: seq<Key>, U: set<Key>, p: Key, children: map<byte, Child>, db: Db, pending: Option<Batch>,
                      txn: Batch)
    requires Below(ks, U, |p|, 256) > 0 && GroupsAfter(children, db, pending, txn, p, ks, U, Chars(KeySet(ks), |p|))
    ensures children != map[]
  {
    if forall c: byte :: GroupOf(ks, |p|, c) == [] {
      NoGroupsBelow(ks, U, |p|, 256);
    } else {
      var c: byte :| GroupOf(ks, |p|, c) != [];
      GroupOfKeys(ks, |p|, c);
      CharsAreInhabited(KeySet(ks), |p|, c);
      assert GroupDone(children, db, pending, txn, p, ks, U, c);
    }
  }

  lemma {:induction false} NoGroupsBelow(ks: seq<Key>, U: set<Key>, d: nat, i: nat)
    requires i <= 256 && forall c: byte :: GroupOf(ks, d, c) == []
    ensures Below(ks, U, d, i) == 0
    decreases i
  {
    if i > 0 {
      NoGroupsBelow(ks, U, d, i - 1);
      BelowStep(ks, U, d, i);
    }
  }

  /** The node after a report from below. */
  lemma BelowStored(n: Node, n': Node, db: Db, pending: Option<Batch>, txn: Batch, p: Key, keys: seq<Key>, T: set<Key>,
                    prior: Bytes)
    requires keys != [] && Fits(T, p) && Fits(KeySet(keys), p) && PrefixFree(T + KeySet(keys))
    requires n.items == |Taken(keys, T, |p|)| && BlankKey(n.key) && !Lone(T + KeySet(keys), |p|)
    requires |T + KeySet(keys)| < U32 && (T != {} ==> prior == NodeHash(T, |p|))
    requires var b := Below(Passed(keys, T, |p|), Taken(keys, T, |p|), |p|, 256); b > 0 && n'.items == n.items + b
    requires n'.key == n.key && n'.hash == BLAKE3_20(CatAfter(Passed(keys, T, |p|), Taken(keys, T, |p|), |p|, 256))
    requires n'.children != map[]
    requires GroupsAfter(n'.children, db, pending, txn, p, Passed(keys, T, |p|), Taken(keys, T, |p|),
                         Chars(KeySet(Passed(keys, T, |p|)), |p|))
    ensures n'.hash == HashAfter(keys, T, |p|, prior) && n'.items == ItemsAfter(keys, T, |p|)
    ensures Sound(keys, T, |p|) ==> HoldsKept(n', db, pending, Put(txn, p, n'), p, T + KeySet(keys))
  {
    hide Below, Passed, Taken, Sound, CatAfter, HashBefore, GroupsAfter, Fits, KeySet, PrefixFree, NodeHash,
         ChildrenHold,
         ChildrenKept, Kept, Put, LosslessBelow, Chars;
    var d, X := |p|, T + KeySet(keys);
    var ks, U := Passed(keys, T, d), Taken(keys, T, d);
    if Sound(keys, T, d) {
      SoundChildren(n'.children, db, pending, txn, p, keys, T);
      JointIntro(keys, T, p);
      ReportedBound(keys, T, p);
      HashIsRight(keys, T, p, prior);
      InnerHolds(n', db, p, X);
      PutKept(db, pending, txn, p, X, n');
    }
  }

  lemma JointIntro(keys: seq<Key>, T: set<Key>, p: Key)
    requires Fits(T, p) && Fits(KeySet(keys), p) && PrefixFree(T + KeySet(keys))
    ensures Joint(keys, T, p)
  {
  }

  lemma InnerHolds(n: Node, db: Db, p: Key, X: set<Key>)
    requires n.items == |X| && n.hash == NodeHash(X, |p|) && BlankKey(n.key) && !Lone(X, |p|) && n.children != map[]
    requires ChildrenHold(n.children, db, p, X)
    ensures X != {} && Holds(n, db, p, X)
  {
    var c :| c in n.children;
    CharsAreInhabited(X, |p|, c);
  }

  /** When nothing is lost below, the children hold all keys. */
  lemma SoundChildren(children: map<byte, Child>, db: Db, pending: Option<Batch>, txn: Batch, p: Key, keys: seq<Key>,
                      T: set<Key>)
    requires keys != [] && Sound(keys, T, |p|)
    requires GroupsAfter(children, db, pending, txn, p, Passed(keys, T, |p|), Taken(keys, T, |p|),
                         Chars(KeySet(Passed(keys, T, |p|)), |p|))
    ensures ChildrenHold(children, db, p, T + KeySet(keys)) && ChildrenKept(db, pending, txn, p, T + KeySet(keys))
  {
    var d, X := |p|, T + KeySet(keys);
    var ks, U := Passed(keys, T, d), Taken(keys, T, d);
    PassedKeys(keys, T, d);
    ReportedIs(keys, T, d);
    hide Passed, Taken, Sound, Lossless, Holds, ChildHolds, Kept, NodeHash, ChildHash, GroupOf;
    forall c: byte
      ensures c in children <==> c in Chars(X, d)
      ensures c in children ==> ChildHolds(children[c], db, p + [c], Sub(X, d, c))
      ensures c in children ==> Kept(db, pending, txn, p + [c], Sub(X, d, c))
    {
      CharsAreInhabited(X, d, c);
      SoundChild(children, db, pending, txn, p, ks, U, c);
    }
    assert children.Keys == Chars(X, d);
    KeptChildren(children, db, pending, txn, p, X);
  }

  lemma KeptChildren(children: map<byte, Child>, db: Db, pending: Option<Batch>, txn: Batch, p: Key, X: set<Key>)
    requires children.Keys == Chars(X, |p|) &&
             forall c | c in children :: Kept(db, pending, txn, p + [c], Sub(X, |p|, c))
    ensures ChildrenKept(db, pending, txn, p, X)
  {
    hide Stored;
  }

  lemma SoundChild(children: map<byte, Child>, db: Db, pending: Option<Batch>, txn: Batch, p: Key, ks: seq<Key>,
                   U: set<Key>, c: byte)
    requires LosslessBelow(ks, U, |p|) && GroupsAfter(children, db, pending, txn, p, ks, U, Chars(KeySet(ks), |p|))
    ensures var S := Sub(U + KeySet(ks), |p|, c);
            && (c in children <==> S != {})
            && (c in children ==> ChildHolds(children[c], db, p + [c], S) && Kept(db, pending, txn, p + [c], S))
  {
    hide Holds, Kept, Lossless, GroupOf, ChildHash, NodeHash;
    var d := |p|;
    GroupOfKeys(ks, d, c);
    CharsAreInhabited(KeySet(ks), d, c);
    var S := Sub(U + KeySet(ks), d, c);
    assert S == Sub(U, d, c) + Sub(KeySet(ks), d, c);
    if c in Chars(KeySet(ks), d) {
      assert GroupDone(children, db, pending, txn, p, ks, U, c);
      LoadedHolds(children[c].node, db, p + [c], S);
    } else {
      assert GroupTodo(children, db, pending, txn, p, U, c);
      assert S == Sub(U, d, c);
    }
  }

  lemma BelowUnchanged(n: Node, n': Node, db: Db, pending: Option<Batch>, txn: Batch, txn': Batch, p: Key,
                       keys: seq<Key>, T: set<Key>, prior: Bytes)
    requires keys != [] && Fits(T, p) && Fits(KeySet(keys), p) && PrefixFree(T + KeySet(keys)) &&
             !Lone(T + KeySet(keys), |p|)
    requires n.items == |Taken(keys, T, |p|)| && n.hash == HashBefore(keys, T, |p|, prior)
    requires Below(Passed(keys, T, |p|), Taken(keys, T, |p|), |p|, 256) == 0
    requires KeySet(Passed(keys, T, |p|)) <= Taken(keys, T, |p|) ==>
               HoldsKept(n, db, pending, txn, p, Taken(keys, T, |p|))
    requires n' == n.(children := n'.children) && SameExceptBelow(txn, txn', p)
    requires GroupsAfter(n'.children, db, pending, txn', p, Passed(keys, T, |p|), Taken(keys, T, |p|),
                         Chars(KeySet(Passed(keys, T, |p|)), |p|))
    ensures n'.hash == HashAfter(keys, T, |p|, prior) && n'.items == ItemsAfter(keys, T, |p|)
    ensures Sound(keys, T, |p|) ==> HoldsKept(n', db, pending, txn', p, T + KeySet(keys))
    ensures RecordWritten(txn, txn', p, n', false)
  {
    hide Below, Passed, Taken, Sound, HashBefore, GroupsAfter, Fits, KeySet, PrefixFree, NodeHash, ChildrenHold,
         ChildrenKept, LosslessBelow, Chars, Holds, Kept;
    if Sound(keys, T, |p|) {
      JointIntro(keys, T, p);
      ReportedBound(keys, T, p);
      TakenCount(keys, T, |p|);
      PassedKeys(keys, T, |p|);
      NothingNew(KeySet(Passed(keys, T, |p|)), Taken(keys, T, |p|));
      SoundChildren(n'.children, db, pending, txn', p, keys, T);
      UnchangedHolds(n, n', db, pending, txn, txn', p, T + KeySet(keys));
    }
  }

  lemma NothingNew(P: set<Key>, U: set<Key>)
    ensures |P - U| == 0 ==> P <= U && U + P == U
  {
    if |P - U| == 0 {
      forall k | k in P ensures k in U { assert k !in P - U; }
    }
  }

  lemma UnchangedHolds(n: Node, n': Node, db: Db, pending: Option<Batch>, txn: Batch, txn': Batch, p: Key, X: set<Key>)
    requires HoldsKept(n, db, pending, txn, p, X) && !Lone(X, |p|)
    requires n' == n.(children := n'.children) && ChildrenHold(n'.children, db, p, X)
    requires ChildrenKept(db, pending, txn', p, X) && SameExceptBelow(txn, txn', p)
    ensures HoldsKept(n', db, pending, txn', p, X)
  {
    if X == {} {
      assert n'.children == map[] by {
        assert Chars(X, |p|) == {};
        assert n'.children.Keys == {};
      }
    } else if pending.Some? {
      var b := pending.value;
      assert Look(db, b + txn, PrimaryKey(p, None)) == Look(db, b + txn', PrimaryKey(p, None));
    }
  }

  /** An empty leaf takes a key. */
  method PlaceKey(n: Node, db: Db, txn: Batch, prefix: Key, key: Key, ghost pending: Option<Batch>)
    returns (n': Node, txn': Batch)
    requires |prefix| >= TIMESTAMP_LENGTH && prefix <= key
    requires Holds(n, db, prefix, {})
    ensures Holds(n', db, prefix, {key}) && n'.children == map[]
    ensures Kept(db, pending, txn', prefix, {key}) && SameOutside(txn, txn', prefix)
  {
    n' := n.(key := Some(key), items := n.items + 1);
    n' := UpdateHash(n', db, prefix, {key});
    txn' := Put(txn, prefix, n');
    PutKept(db, pending, txn, prefix, {key}, n');
  }

  /** Turns a leaf into an inner node with one leaf below it; panics when the key ends at this node. */
  method SplitLeaf(n: Node, db: Db, txn: Batch, idx: nat, ghost p: Key, ghost pending: Option<Batch>)
    returns (ok: bool, n': Node, txn': Batch)
    requires |p| == idx >= TIMESTAMP_LENGTH && n.key.Some? && p <= n.key.value && n.items == 1
    ensures ok <==> idx < |n.key.value|
    ensures ok ==> ReadyBelow(n', db, pending, txn', p, {n.key.value}) && SameOutside(txn, txn', p)
    ensures ok ==> n'.hash == InnerHash({n.key.value}, idx)
    decreases Rest({n.key.value}, idx), 0
  {
    hide *;
    n', txn' := n, txn;
    var key := n.key.value;
    ok := idx < |key|;
    if ok {
      var prefix := key[..idx];
      var c := key[idx];
      SingleBatch(db, pending, txn, p, key);
      var r, child;
      r, child, txn' := Insert(DEFAULT_NODE, db, txn, [key], idx + 1, p + [c], {}, pending);
      HoldsKeptIs(child, db, pending, txn', p + [c], {key});
      SameOutsideChild(txn, txn', p, c);
      SameExceptBelowIsSameOutside(txn, txn', p);
      n' := n.(key := None, children := map[c := Loaded(child)]);
      OneChild(n'.children, db, pending, txn', p, key, child);
      n' := UpdateHash(n', db, prefix, {key});
      PutKeepsChildrenKept(db, pending, txn', p, n', {key});
      SameOutsideTransitive(txn, txn', Put(txn', p, n'), p);
      txn' := Put(txn', prefix, n');
      ReadyOne(n', db, pending, txn', p, key);
    }
  }

  lemma SingleBatch(db: Db, pending: Option<Batch>, txn: Batch, p: Key, key: Key)
    requires p <= key && |p| < |key| && |p| >= TIMESTAMP_LENGTH
    ensures key[..|p|] == p
    ensures var q := p + [key[|p|]];
            && Fits({}, q) && PrefixFree({}) && Fits(KeySet([key]), q)
            && Sound([key], {}, |p| + 1) && |{} + KeySet([key])| < U32
            && Holds(DEFAULT_NODE, db, q, {}) && Kept(db, pending, txn, q, {})
            && {} + KeySet([key]) == {key} && PrefixFree({key})
            && Rest({key}, |p| + 1) < Rest({key}, |p|)
  {
    var c := key[|p|];
    assert KeySet([key]) == {key};
    assert Sub({key}, |p|, c) == {key};
    RestShrinks({key}, |p|, c);
    SubFits({key}, p, c);
    OnceIsLossless([key], {}, |p| + 1);
  }

  lemma OneChild(children: map<byte, Child>, db: Db, pending: Option<Batch>, txn: Batch, p: Key, key: Key, child: Node)
    requires p <= key && |p| < |key| && children == map[key[|p|] := Loaded(child)]
    requires Holds(child, db, p + [key[|p|]], {key}) && Kept(db, pending, txn, p + [key[|p|]], {key})
    ensures ChildrenHold(children, db, p, {key}) && ChildrenKept(db, pending, txn, p, {key})
  {
    var c := key[|p|];
    assert Sub({key}, |p|, c) == {key};
    assert Chars({key}, |p|) == {c};
    LoadedHolds(child, db, p + [c], {key});
  }

  lemma ReadyOne(n: Node, db: Db, pending: Option<Batch>, txn: Batch, p: Key, key: Key)
    requires p <= key && |p| < |key| && |p| >= TIMESTAMP_LENGTH && n.items == 1 && n.key == None
    requires ChildrenHold(n.children, db, p, {key}) && ChildrenKept(db, pending, txn, p, {key})
    ensures ReadyBelow(n, db, pending, txn, p, {key})
  {
  }

  // ---- group by group ----

  /** The child c has taken its group. */
  ghost predicate GroupDone(children: map<byte, Child>, db: Db, pending: Option<Batch>, txn: Batch, p: Key,
                            ks: seq<Key>, U: set<Key>, c: byte) {
    && c in children && children[c].Loaded? && children[c].node.hash == ChildHash(ks, U, |p|, c)
    && (GroupOf(ks, |p|, c) != [] && Lossless(GroupOf(ks, |p|, c), Sub(U, |p|, c), |p| + 1) ==>
          HoldsKept(children[c].node, db, pending, txn, p + [c], Sub(U + KeySet(ks), |p|, c)))
  }

  /** The child c is as it was. */
  ghost predicate GroupTodo(children: map<byte, Child>, db: Db, pending: Option<Batch>, txn: Batch, p: Key, U: set<Key>,
                            c: byte) {
    && (c in children <==> Sub(U, |p|, c) != {})
    && (c in children ==> ChildHolds(children[c], db, p + [c], Sub(U, |p|, c)))
    && Kept(db, pending, txn, p + [c], Sub(U, |p|, c))
  }

  ghost predicate GroupsAfter(children: map<byte, Child>, db: Db, pending: Option<Batch>, txn: Batch, p: Key,
                              ks: seq<Key>, U: set<Key>, done: set<byte>) {
    forall c: byte ::
      if c in done then GroupDone(children, db, pending, txn, p, ks, U, c) else GroupTodo(children, db, pending, txn,
        p, U, c)
  }

  lemma NoGroupYet(children: map<byte, Child>, db: Db, pending: Option<Batch>, txn: Batch, p: Key, ks: seq<Key>,
                   U: set<Key>)
    requires ChildrenHold(children, db, p, U) && ChildrenKept(db, pending, txn, p, U)
    ensures GroupsAfter(children, db, pending, txn, p, ks, U, {})
  {
    forall c: byte
      ensures GroupTodo(children, db, pending, txn, p, U, c)
    {
      ChildHeld(children, db, p, U, c);
      ChildKept(db, pending, txn, p, U, c);
    }
  }

  lemma SiblingKept(db: Db, pending: Option<Batch>, txn: Batch, txn': Batch, p: Key, c: byte, e: byte, S: set<Key>)
    requires c != e && SameOutside(txn, txn', p + [c]) && Kept(db, pending, txn, p + [e], S)
    ensures Kept(db, pending, txn', p + [e], S)
  {
    if pending.Some? {
      SiblingStored(db, pending.value, txn, txn', p, c, e, S);
    }
  }

  /** One more group. */
  lemma GroupAfter(children: map<byte, Child>, db: Db, pending: Option<Batch>, txn: Batch, txn': Batch, p: Key,
                   ks: seq<Key>, U: set<Key>, done: set<byte>, c: byte, node: Node)
    requires GroupsAfter(children, db, pending, txn, p, ks, U, done) && c !in done && SameOutside(txn, txn', p + [c])
    requires GroupDone(children[c := Loaded(node)], db, pending, txn', p, ks, U, c)
    ensures GroupsAfter(children[c := Loaded(node)], db, pending, txn', p, ks, U, done + {c})
  {
    var children' := children[c := Loaded(node)];
    hide Holds, ChildHolds, Kept, Lossless, GroupOf, ChildHash, Sub, SameOutside;
    forall e: byte
      ensures if e in done + {c} then GroupDone(children', db, pending, txn', p, ks, U, e)
              else GroupTodo(children', db, pending, txn', p, U, e)
    {
      if e != c {
        if e in done {
          assert GroupDone(children, db, pending, txn, p, ks, U, e);
          if GroupOf(ks, |p|, e) != [] && Lossless(GroupOf(ks, |p|, e), Sub(U, |p|, e), |p| + 1) {
            SiblingKept(db, pending, txn, txn', p, c, e, Sub(U + KeySet(ks), |p|, e));
          }
        } else {
          assert GroupTodo(children, db, pending, txn, p, U, e);
          SiblingKept(db, pending, txn, txn', p, c, e, Sub(U, |p|, e));
        }
      }
    }
  }

  /** The children have the hashes that the node is to be hashed from. */
  lemma GroupsHashed(children: map<byte, Child>, db: Db, pending: Option<Batch>, txn: Batch, p: Key, ks: seq<Key>,
                     U: set<Key>, hs: map<byte, Bytes>)
    requires GroupsAfter(children, db, pending, txn, p, ks, U, Chars(KeySet(ks), |p|))
    requires hs == map c | c in children :: ChildHash(ks, U, |p|, c)
    ensures forall c | c in children :: Hashed(children[c], db, p + [c], Sub(U, |p|, c), hs[c])
    ensures Concat(hs, 256) == CatAfter(ks, U, |p|, 256)
  {
    hide Holds, ChildHolds, Kept, Lossless, GroupOf, Sub, NodeHash, CatAfter, HashAfter;
    forall c: byte
      ensures c in children ==> Hashed(children[c], db, p + [c], Sub(U, |p|, c), hs[c])
      ensures c !in children ==> ChildHash(ks, U, |p|, c) == []
    {
      GroupOfKeys(ks, |p|, c);
      CharsAreInhabited(KeySet(ks), |p|, c);
      if c in Chars(KeySet(ks), |p|) {
        assert GroupDone(children, db, pending, txn, p, ks, U, c);
      } else {
        assert GroupTodo(children, db, pending, txn, p, U, c);
        assert |p + [c]| == |p| + 1;
      }
    }
    ConcatIsCatAfter(ks, U, |p|, hs, 256);
  }

  lemma {:induction false} ConcatIsCatAfter(ks: seq<Key>, U: set<Key>, d: nat, hs: map<byte, Bytes>, i: nat)
    requires i <= 256
    requires forall c: byte :: ChildHash(ks, U, d, c) == if c in hs then hs[c] else []
    ensures Concat(hs, i) == CatAfter(ks, U, d, i)
    decreases i
  {
    hide ChildHash;
    if i > 0 {
      ConcatIsCatAfter(ks, U, d, hs, i - 1);
      CatStep(ks, U, d, i);
    }
  }

  lemma GroupsReloaded(children: map<byte, Child>, children': map<byte, Child>, db: Db, pending: Option<Batch>,
                       txn: Batch, p: Key, ks: seq<Key>, U: set<Key>)
    requires GroupsAfter(children, db, pending, txn, p, ks, U, Chars(KeySet(ks), |p|)) &&
             children'.Keys == children.Keys
    requires forall c | c in children :: SameOrLoaded(children[c], children'[c], db, p + [c], Sub(U, |p|, c))
    ensures GroupsAfter(children', db, pending, txn, p, ks, U, Chars(KeySet(ks), |p|))
  {
    hide Holds, ChildHolds, Kept, Lossless, GroupOf, ChildHash, Sub;
    forall c: byte
      ensures if c in Chars(KeySet(ks), |p|) then GroupDone(children', db, pending, txn, p, ks, U, c)
              else GroupTodo(children', db, pending, txn, p, U, c)
    {
      if c in Chars(KeySet(ks), |p|) {
        assert GroupDone(children, db, pending, txn, p, ks, U, c);
      } else {
        assert GroupTodo(children, db, pending, txn, p, U, c);
      }
    }
  }

  // ---- counting group by group ----

  /** The reports of the groups done, for bytes below i. */
  ghost function BelowIn(ks: seq<Key>, U: set<Key>, d: nat, done: set<byte>, i: nat): nat
    requires i <= 256
  {
    if i == 0 then 0
    else BelowIn(ks, U, d, done, i - 1) + if (i - 1) as byte in done then GroupReport(ks, U, d, (i - 1) as byte) else 0
  }

  ghost function GroupReport(ks: seq<Key>, U: set<Key>, d: nat, c: byte): nat {
    if GroupOf(ks, d, c) == [] then 0 else Reported(GroupOf(ks, d, c), Sub(U, d, c), d + 1)
  }

  lemma {:induction false} BelowInNone(ks: seq<Key>, U: set<Key>, d: nat, i: nat)
    requires i <= 256
    ensures BelowIn(ks, U, d, {}, i) == 0
    decreases i
  {
    if i > 0 {
      BelowInNone(ks, U, d, i - 1);
    }
  }

  lemma {:induction false} BelowInMore(ks: seq<Key>, U: set<Key>, d: nat, done: set<byte>, c: byte, i: nat)
    requires i <= 256 && c !in done
    ensures BelowIn(ks, U, d, done + {c}, i) ==
            BelowIn(ks, U, d, done, i) + if (c as nat) < i then GroupReport(ks, U, d, c) else 0
    decreases i
  {
    hide GroupReport;
    if i > 0 {
      BelowInMore(ks, U, d, done, c, i - 1);
    }
  }

  lemma {:induction false} BelowInAll(ks: seq<Key>, U: set<Key>, d: nat, i: nat)
    requires i <= 256
    ensures BelowIn(ks, U, d, Chars(KeySet(ks), d), i) == Below(ks, U, d, i)
    decreases i
  {
    hide Reported, Below, GroupOf, Chars;
    if i == 0 {
      NoneLower(ks, U, d);
    } else {
      var c := (i - 1) as byte;
      BelowInAll(ks, U, d, i - 1);
      BelowStep(ks, U, d, i);
      GroupOfKeys(ks, d, c);
      CharsAreInhabited(KeySet(ks), d, c);
    }
  }

  /** The results while groups are being handled: open slots are false and whatever became true is new. */
  ghost predicate ResultsSoFar(rem: seq<Slot>, d: nat, done: set<byte>, now: seq<bool>, before: seq<bool>,
                               U: set<Key>) {
    && |now| == |before|
    && (forall x | x in rem && d < |x.1| && x.1[d] !in done :: x.0 < |now| && !now[x.0])
    && (forall i | 0 <= i < |now| && now[i] :: before[i] || NewAt(rem, i, U))
  }

  lemma ResultsStart(rem: seq<Slot>, d: nat, results: seq<bool>, U: set<Key>)
    requires forall x | x in rem :: x.0 < |results| && !results[x.0]
    ensures ResultsSoFar(rem, d, {}, results, results, U)
  {
  }

  lemma ResultsStep(rem: seq<Slot>, d: nat, c: byte, done: set<byte>, now: seq<bool>, next: seq<bool>,
                    before: seq<bool>, U: set<Key>, rs: seq<bool>)
    requires (forall x | x in rem :: d < |x.1|) && Ascending(rem, |before|)
    requires ResultsSoFar(rem, d, done, now, before, U) && |next| == |now| && c !in done
    requires |rs| == |Group(rem, d, c)|
    requires forall t | 0 <= t < |rs| ::
               var x := Group(rem, d, c)[t]; x.0 < |now| && next[x.0] == rs[t] && (rs[t] ==> x.1 !in Sub(U, d, c))
    requires forall i | 0 <= i < |now| && !HasSlot(Group(rem, d, c), i) :: next[i] == now[i]
    ensures ResultsSoFar(rem, d, done + {c}, next, before, U)
  {
    var g := Group(rem, d, c);
    GroupIsFilter(rem, d, c, |before|);
    forall x | x in rem && x.1[d] !in done + {c}
      ensures x.0 < |next| && !next[x.0]
    {
      forall y | y in g ensures y.0 != x.0 { SlotsDiffer(rem, |before|, x, y); }
      assert !HasSlot(g, x.0);
    }
    forall i | 0 <= i < |next| && next[i]
      ensures before[i] || NewAt(rem, i, U)
    {
      if HasSlot(g, i) {
        var x :| x in g && x.0 == i;
        var t :| 0 <= t < |g| && g[t] == x;
        assert next[g[t].0] == rs[t];
        assert x in rem && x.1 !in U;
      }
    }
  }

  /** Inserts every group of keys below its child. */
  method InsertGroups(children: map<byte, Child>, db: Db, txn: Batch, rem: seq<Slot>, results: seq<bool>, prefix: Key,
                      ghost U: set<Key>, ghost pending: Option<Batch>)
    returns (r: Result<(seq<bool>, nat)>, children': map<byte, Child>, txn': Batch)
    requires Fits(U, prefix) && PrefixFree(U) && Fits(SlotKeys(rem), prefix)
    requires forall x | x in rem :: |prefix| < |x.1|
    requires forall k | k in U :: |prefix| < |k|
    requires Ascending(rem, |results|) && |U + SlotKeys(rem)| < U32
    requires forall x | x in rem :: x.0 < |results| && !results[x.0]
    requires ChildrenHold(children, db, prefix, U) && ChildrenKept(db, pending, txn, prefix, U)
    ensures r.Ok? <==> PrefixFree(U + SlotKeys(rem))
    ensures r.Ok? ==> SameExceptBelow(txn, txn', prefix) && |r.value.0| == |results|
    ensures r.Ok? ==> GroupsAfter(children', db, pending, txn', prefix, KeysOf(rem), U, Chars(KeySet(KeysOf(rem)),
              |prefix|))
    ensures r.Ok? ==> r.value.1 == Below(KeysOf(rem), U, |prefix|, 256)
    ensures r.Ok? ==> CountTrue(r.value.0) == CountTrue(results) + r.value.1
    ensures r.Ok? ==> forall i | 0 <= i < |results| && r.value.0[i] :: results[i] || NewAt(rem, i, U)
    decreases Rest(U + SlotKeys(rem), |prefix|), 1
  {
    hide *;
    children', txn' := children, txn;
    ghost var d, K, ks := |prefix|, SlotKeys(rem), KeysOf(rem);
    var results' := results;
    var successes := 0;
    var groups := GroupKeys(rem, |prefix|);
    var done: set<byte> := {};
    SlotKeysOf(rem);
    NoGroupYet(children, db, pending, txn, prefix, ks, U);
    ResultsStart(rem, d, results, U);
    BelowInNone(ks, U, d, 256);
    SameExceptBelowReflexive(txn, prefix);
    while groups.Keys - done != {}
      invariant done <= groups.Keys
      invariant GroupsAfter(children', db, pending, txn', prefix, ks, U, done)
      invariant SameExceptBelow(txn, txn', prefix) && ResultsSoFar(rem, d, done, results', results, U)
      invariant successes == BelowIn(ks, U, d, done, 256) && CountTrue(results') == CountTrue(results) + successes
      invariant forall c | c in done :: PrefixFree(Sub(U + K, d, c))
      decreases groups.Keys - done
    {
      var c :| c in groups.Keys - done;
      ghost var txn0 := txn';
      var g;
      g, children', txn' := InsertGroup(children', db, txn', groups[c], results', prefix, c, rem, U, done, pending,
        results);
      if g.Err? {
        SubPrefixFree(U + K, d, c);
        return Err(g.error), children', txn';
      }
      results' := g.value.0;
      successes := successes + g.value.1;
      BelowInMore(ks, U, d, done, c, 256);
      ByteBound(c);
      SameExceptBelowTransitive(txn, txn0, txn', prefix);
      done := done + {c};
    }
    AllDone(groups.Keys, done);
    AllPicked(rem, prefix);
    GroupsPrefixFree(U, K, prefix);
    BelowInAll(ks, U, d, 256);
    ResultsEnd(rem, d, done, results', results, U);
    r := Ok((results', successes));
  }

  lemma AllDone(all: set<byte>, done: set<byte>)
    requires done <= all && all - done == {}
    ensures done == all
  {
    forall c | c in all ensures c in done { assert c !in all - done; }
  }

  lemma ByteBound(c: byte)
    ensures c as nat < 256
  {
  }

  lemma ResultsEnd(rem: seq<Slot>, d: nat, done: set<byte>, now: seq<bool>, before: seq<bool>, U: set<Key>)
    requires ResultsSoFar(rem, d, done, now, before, U)
    ensures |now| == |before| && forall i | 0 <= i < |now| && now[i] :: before[i] || NewAt(rem, i, U)
  {
  }

  lemma SubPrefixFree(W: set<Key>, d: nat, c: byte)
    ensures PrefixFree(W) ==> PrefixFree(Sub(W, d, c))
  {
  }

  lemma GroupsPrefixFree(U: set<Key>, K: set<Key>, p: Key)
    requires PrefixFree(U) && forall k | k in U :: |p| < |k|
    requires Picked(K, |p|, Chars(K, |p|)) == K
    requires forall c | c in Chars(K, |p|) :: PrefixFree(Sub(U + K, |p|, c))
    ensures PrefixFree(U + K)
  {
    forall c: byte
      ensures PrefixFree(Sub(U + K, |p|, c))
    {
      if c !in Chars(K, |p|) {
        CharsAreInhabited(K, |p|, c);
        assert Sub(U + K, |p|, c) == Sub(U, |p|, c);
      }
    }
    PrefixFreeByChar(U + K, |p|);
  }

  /** What the group of c tells about the batch below that child. */
  lemma GroupBatch(rem: seq<Slot>, prefix: Key, c: byte, U: set<Key>, ks: seq<Key>)
    requires Fits(U, prefix) && PrefixFree(U) && Fits(SlotKeys(rem), prefix)
    requires (forall x | x in rem :: |prefix| < |x.1|) && c in Chars(SlotKeys(rem), |prefix|)
    requires ks == KeysOf(Group(rem, |prefix|, c))
    ensures ks == GroupOf(KeysOf(rem), |prefix|, c) && ks != [] && Fits(KeySet(ks), prefix + [c])
    ensures var A, K := Sub(U, |prefix|, c), SlotKeys(rem);
            && Fits(A, prefix + [c]) && PrefixFree(A)
            && A + KeySet(ks) == Sub(U + K, |prefix|, c) && |A + KeySet(ks)| <= |U + K|
            && Rest(A + KeySet(ks), |prefix| + 1) < Rest(U + K, |prefix|)
  {
    hide *;
    var d, K := |prefix|, SlotKeys(rem);
    GroupKeysOf(rem, d, c);
    SlotKeysOf(rem);
    GroupOfKeys(KeysOf(rem), d, c);
    CharsAreInhabited(K, d, c);
    SubFits(K, prefix, c);
    SubFits(U, prefix, c);
    FitsUnion(U, K, prefix);
    SubFits(U + K, prefix, c);
    GroupShrinks(KeysOf(rem), U, d, c);
  }

  lemma FitsUnion(U: set<Key>, K: set<Key>, p: Key)
    requires Fits(U, p) && Fits(K, p)
    ensures Fits(U + K, p)
  {
  }

  /** The child after its group. */
  lemma GroupIsDone(children: map<byte, Child>, db: Db, pending: Option<Batch>, txn: Batch, p: Key, ks: seq<Key>,
                    U: set<Key>, c: byte, node: Node, g: seq<Key>, prior: Bytes, rs: seq<bool>)
    requires g == GroupOf(ks, |p|, c) != [] && prior == OldHash(U, |p|, c)
    requires Reports(g, Sub(U, |p|, c), |p| + 1, prior, node, rs)
    requires Sound(g, Sub(U, |p|, c), |p| + 1) ==>
               HoldsKept(node, db, pending, txn, p + [c], Sub(U + KeySet(ks), |p|, c))
    ensures GroupDone(children[c := Loaded(node)], db, pending, txn, p, ks, U, c)
    ensures CountTrue(rs) == GroupReport(ks, U, |p|, c)
  {
    hide HoldsKept, HashAfter, Sound, Sub, OldHash, Reported;
    ReportedIs(g, Sub(U, |p|, c), |p| + 1);
  }

  lemma ChildOldHash(child: Node, db: Db, p: Key, U: set<Key>, c: byte)
    requires Sub(U, |p|, c) != {} && Holds(child, db, p + [c], Sub(U, |p|, c))
    ensures child.hash == OldHash(U, |p|, c)
  {
  }

  lemma NoOldHash(U: set<Key>, d: nat, c: byte)
    requires Sub(U, d, c) == {}
    ensures OldHash(U, d, c) == [] == DEFAULT_NODE.hash
  {
  }

  /** Inserts the group of c below the child c. */
  method InsertGroup(children: map<byte, Child>, db: Db, txn: Batch, g: seq<Slot>, results: seq<bool>, prefix: Key,
                     c: byte, ghost rem: seq<Slot>, ghost U: set<Key>, ghost done: set<byte>,
                     ghost pending: Option<Batch>, ghost before: seq<bool>)
    returns (r: Result<(seq<bool>, nat)>, children': map<byte, Child>, txn': Batch)
    requires Fits(U, prefix) && PrefixFree(U) && Fits(SlotKeys(rem), prefix)
    requires forall x | x in rem :: |prefix| < |x.1|
    requires Ascending(rem, |before|) && |U + SlotKeys(rem)| < U32
    requires g == Group(rem, |prefix|, c) && c in Chars(SlotKeys(rem), |prefix|) && c !in done
    requires GroupsAfter(children, db, pending, txn, prefix, KeysOf(rem), U, done)
    requires ResultsSoFar(rem, |prefix|, done, results, before, U)
    ensures r.Ok? <==> PrefixFree(Sub(U + SlotKeys(rem), |prefix|, c))
    ensures r.Ok? ==> GroupsAfter(children', db, pending, txn', prefix, KeysOf(rem), U, done + {c})
    ensures r.Ok? ==> SameExceptBelow(txn, txn', prefix)
    ensures r.Ok? ==> ResultsSoFar(rem, |prefix|, done + {c}, r.value.0, before, U)
    ensures r.Ok? ==> r.value.1 == GroupReport(KeysOf(rem), U, |prefix|, c)
    ensures r.Ok? ==> CountTrue(r.value.0) == CountTrue(results) + r.value.1
    decreases Rest(U + SlotKeys(rem), |prefix|), 0
  {
    hide *;
    children', txn' := children, txn;
    ghost var d, K := |prefix|, SlotKeys(rem);
    ghost var A := Sub(U, d, c);
    var ks := KeysOf(g);
    GroupIsFilter(rem, |prefix|, c, |before|);
    GroupBatch(rem, prefix, c, U, ks);
    SlotKeysOf(rem);
    TodoChild(children, db, pending, txn, prefix, KeysOf(rem), U, done, c);
    var child := DEFAULT_NODE;
    if c in children {
      child := GetOrLoadChild(children, db, prefix, c, A);
      ChildOldHash(child, db, prefix, U, c);
    } else {
      DefaultHolds(db, prefix + [c]);
      NoOldHash(U, d, c);
    }
    var rs, child';
    rs, child', txn' := Insert(child, db, txn, ks, |prefix| + 1, prefix + [c], A, pending);
    if rs.Err? {
      return Err(rs.error), children', txn';
    }
    GroupIsDone(children, db, pending, txn', prefix, KeysOf(rem), U, c, child', ks, child.hash, rs.value);
    GroupAfter(children, db, pending, txn, txn', prefix, KeysOf(rem), U, done, c, child');
    children' := children[c := Loaded(child')];
    SameOutsideChild(txn, txn', prefix, c);
    OpenSlots(rem, g, d, c, done, results, before, U, ks, rs.value, A, d + 1, child', child.hash);
    var results', successes := Scatter(results, g, rs.value);
    ResultsStep(rem, d, c, done, results, results', before, U, rs.value);
    r := Ok((results', successes));
  }

  lemma TodoChild(children: map<byte, Child>, db: Db, pending: Option<Batch>, txn: Batch, p: Key, ks: seq<Key>,
                  U: set<Key>, done: set<byte>, c: byte)
    requires GroupsAfter(children, db, pending, txn, p, ks, U, done) && c !in done
    ensures c in children <==> Sub(U, |p|, c) != {}
    ensures c in children ==> ChildHolds(children[c], db, p + [c], Sub(U, |p|, c))
    ensures Kept(db, pending, txn, p + [c], Sub(U, |p|, c))
  {
    assert GroupTodo(children, db, pending, txn, p, U, c);
  }

  /** The slots of a group that has not been handled are open, and its results name new keys only. */
  lemma OpenSlots(rem: seq<Slot>, g: seq<Slot>, d: nat, c: byte, done: set<byte>, results: seq<bool>, before: seq<bool>,
                  U: set<Key>, ks: seq<Key>, rs: seq<bool>, A: set<Key>, e: nat, node: Node, prior: Bytes)
    requires (forall x | x in rem :: d < |x.1|) && (forall x :: x in g <==> x in rem && x.1[d] == c) &&
             Ascending(g, |before|)
    requires ResultsSoFar(rem, d, done, results, before, U) && c !in done && ks == KeysOf(g) && A == Sub(U, d, c)
    requires Reports(ks, A, e, prior, node, rs)
    ensures |rs| == |g| && Ascending(g, |results|) && forall x | x in g :: x.0 < |results| && !results[x.0]
    ensures forall t | 0 <= t < |g| :: g[t].0 < |results| && (rs[t] ==> g[t].1 !in Sub(U, d, c))
  {
    hide HashAfter, Reported, ItemsAfter;
    forall t | 0 <= t < |g|
      ensures g[t].0 < |results| && (rs[t] ==> g[t].1 !in Sub(U, d, c))
    {
      assert g[t] in g && ks[t] == g[t].1;
    }
  }
}
