/**
 What the root hash says about the keys, and what the keys say about the tree.
 */
module TrieTheorems {
  import opened Bytes
  import opened TrieSpec
  import opened TrieStore

  // ---- one key set, one tree ----

  /** The trees agree wherever both are in memory. */
  ghost predicate SameTree(a: Node, b: Node)
    decreases a
  {
    && a.hash == b.hash && a.items == b.items && a.children.Keys == b.children.Keys
    && (a.children == map[] ==> a.key == b.key)
    && forall c | c in a.children && a.children[c].Loaded? && b.children[c].Loaded? ::
         SameTree(a.children[c].node, b.children[c].node)
  }

  /** Two nodes that hold the same keys are the same tree, whatever their histories and databases. */
  lemma {:induction false} HistoryIndependence(a: Node, b: Node, db: Db, db': Db, p: Key, T: set<Key>)
    requires T != {} && Fits(T, p) && PrefixFree(T)
    requires Holds(a, db, p, T) && Holds(b, db', p, T)
    ensures SameTree(a, b)
    decreases a
  {
    if !Lone(T, |p|) {
      InnerKeysAreLonger(T, p);
      forall c | c in a.children && a.children[c].Loaded? && b.children[c].Loaded?
        ensures SameTree(a.children[c].node, b.children[c].node)
      {
        CharsAreInhabited(T, |p|, c);
        SubFits(T, p, c);
        assert ChildHolds(a.children[c], db, p + [c], Sub(T, |p|, c));
        assert ChildHolds(b.children[c], db', p + [c], Sub(T, |p|, c));
        HistoryIndependence(a.children[c].node, b.children[c].node, db, db', p + [c], Sub(T, |p|, c));
      }
    }
  }

  lemma SameBySubs(T: set<Key>, T': set<Key>, d: nat)
    requires forall k | k in T + T' :: d < |k|
    requires forall c: byte :: Sub(T, d, c) == Sub(T', d, c)
    ensures T == T'
  {
    forall k | k in T ensures k in T' { assert k in Sub(T, d, k[d]); }
    forall k | k in T' ensures k in T { assert k in Sub(T', d, k[d]); }
  }

  lemma {:induction false} StoredHoldsOneSet(db: Db, batch: Batch, p: Key, T: set<Key>, T': set<Key>)
    requires T != {} && T' != {} && Fits(T, p) && PrefixFree(T) && Fits(T', p) && PrefixFree(T')
    requires Stored(db, batch, p, T) && Stored(db, batch, p, T')
    ensures T == T'
    decreases Rest(T, |p|)
  {
    assert RecordOf(T, |p|) == RecordOf(T', |p|);
    if !Lone(T, |p|) {
      InnerKeysAreLonger(T, p);
      InnerKeysAreLonger(T', p);
      forall c: byte
        ensures Sub(T, |p|, c) == Sub(T', |p|, c)
      {
        CharsAreInhabited(T, |p|, c);
        CharsAreInhabited(T', |p|, c);
        if c in Chars(T, |p|) {
          SubFits(T, p, c);
          SubFits(T', p, c);
          RestShrinks(T, |p|, c);
          StoredHoldsOneSet(db, batch, p + [c], Sub(T, |p|, c), Sub(T', |p|, c));
        }
      }
      SameBySubs(T, T', |p|);
    }
  }

  /** A node holds one key set only. */
  lemma {:induction false} NodeHoldsOneSet(n: Node, db: Db, p: Key, T: set<Key>, T': set<Key>)
    requires Fits(T, p) && PrefixFree(T) && Fits(T', p) && PrefixFree(T')
    requires Holds(n, db, p, T) && Holds(n, db, p, T')
    ensures T == T'
    decreases n
  {
    if T != {} && T' != {} && !Lone(T, |p|) {
      InnerKeysAreLonger(T, p);
      InnerKeysAreLonger(T', p);
      forall c: byte
        ensures Sub(T, |p|, c) == Sub(T', |p|, c)
      {
        CharsAreInhabited(T, |p|, c);
        CharsAreInhabited(T', |p|, c);
        if c in n.children {
          SubFits(T, p, c);
          SubFits(T', p, c);
          ChildHoldsOneSet(n.children[c], db, p + [c], Sub(T, |p|, c), Sub(T', |p|, c));
        }
      }
      SameBySubs(T, T', |p|);
    }
  }

  lemma ChildHoldsOneSet(child: Child, db: Db, p: Key, T: set<Key>, T': set<Key>)
    requires T != {} && T' != {} && Fits(T, p) && PrefixFree(T) && Fits(T', p) && PrefixFree(T')
    requires ChildHolds(child, db, p, T) && ChildHolds(child, db, p, T')
    ensures T == T'
    decreases child
  {
    match child
    case Loaded(node) => NodeHoldsOneSet(node, db, p, T, T');
    case Serialized(_) => StoredHoldsOneSet(db, map[], p, T, T');
  }

  // ---- one root hash, one key set ----

  /** x is hashed at some node of the trie over T at depth d. */
  ghost predicate IsInput(T: set<Key>, d: nat, x: Bytes)
    decreases Rest(T, d)
  {
    && T != {}
    && if Lone(T, d) then x == Only(T)
       else
         || x == HashCat(T, d, 256)
         || exists c: byte :: Sub(T, d, c) != {} && (RestShrinks(T, d, c); IsInput(Sub(T, d, c), d + 1, x))
  }

  /** x is the concatenation of child hashes hashed at some inner node. */
  ghost predicate IsInnerInput(T: set<Key>, d: nat, x: Bytes)
    decreases Rest(T, d)
  {
    && T != {} && !Lone(T, d)
    && (|| x == HashCat(T, d, 256)
        || exists c: byte :: Sub(T, d, c) != {} && (RestShrinks(T, d, c); IsInnerInput(Sub(T, d, c), d + 1, x)))
  }

  /** No key of one trie is a concatenation of child hashes of the other. */
  ghost predicate NoKeyIsAConcatenation(T: set<Key>, T': set<Key>, d: nat) {
    && (forall k | k in T' :: !IsInnerInput(T, d, k))
    && (forall k | k in T :: !IsInnerInput(T', d, k))
  }

  /** The bytes below i that have a child, ascending. */
  ghost function Kids(T: set<Key>, d: nat, i: nat): seq<byte>
    requires i <= 256
  {
    if i == 0 then []
    else
      var c := (i - 1) as byte;
      Kids(T, d, i - 1) + if Sub(T, d, c) == {} then [] else [c]
  }

  ghost function Flat(T: set<Key>, d: nat, cs: seq<byte>): Bytes {
    if cs == [] then []
    else Flat(T, d, cs[..|cs| - 1]) + NodeHash(Sub(T, d, cs[|cs| - 1]), d + 1)
  }

  lemma {:induction false} KidsAre(T: set<Key>, d: nat, i: nat)
    requires i <= 256
    ensures HashCat(T, d, i) == Flat(T, d, Kids(T, d, i))
    ensures forall c: byte :: c in Kids(T, d, i) <==> c as int < i && Sub(T, d, c) != {}
  {
    hide HashCat, NodeHash, Sub, Flat, Kids;
    if i == 0 {
      HashCatEmpty(T, d);
      KidsStep(T, d, 1);
    } else {
      KidsAre(T, d, i - 1);
      HashCatStep(T, d, i - 1);
      var c := (i - 1) as byte;
      var ks := Kids(T, d, i - 1);
      KidsStep(T, d, i);
      FlatStep(T, d, ks, c);
      assert ks + [] == ks && HashCat(T, d, i - 1) + [] == HashCat(T, d, i - 1);
    }
  }

  lemma KidsStep(T: set<Key>, d: nat, i: nat)
    requires 0 < i <= 256
    ensures var c := (i - 1) as byte;
            Kids(T, d, i) == Kids(T, d, i - 1) + if Sub(T, d, c) == {} then [] else [c]
    ensures Kids(T, d, 0) == [] && Flat(T, d, []) == []
  {
    hide Sub, NodeHash;
  }

  lemma FlatStep(T: set<Key>, d: nat, cs: seq<byte>, c: byte)
    ensures Flat(T, d, cs + [c]) == Flat(T, d, cs) + NodeHash(Sub(T, d, c), d + 1)
  {
    hide Sub, NodeHash;
    assert (cs + [c])[..|cs|] == cs;
  }

  lemma HashCatEmpty(T: set<Key>, d: nat)
    ensures HashCat(T, d, 0) == []
  {
  }

  lemma NodeHashLength(T: set<Key>, d: nat)
    ensures |NodeHash(T, d)| == HASH_LENGTH
  {
    if T == {} {
      HashIsTwentyBytes([]);
    } else if Lone(T, d) {
      HashIsTwentyBytes(Only(T));
    } else {
      HashIsTwentyBytes(HashCat(T, d, 256));
    }
  }

  lemma {:induction false} FlatLength(T: set<Key>, d: nat, cs: seq<byte>)
    ensures |Flat(T, d, cs)| == HASH_LENGTH * |cs|
  {
    if cs != [] {
      FlatLength(T, d, cs[..|cs| - 1]);
      NodeHashLength(Sub(T, d, cs[|cs| - 1]), d + 1);
    }
  }

  /** Equal concatenations of 20-byte hashes are equal hash by hash. */
  lemma {:induction false} FlatSplits(T: set<Key>, T': set<Key>, d: nat, cs: seq<byte>, cs': seq<byte>)
    requires Flat(T, d, cs) == Flat(T', d, cs')
    ensures |cs| == |cs'|
    ensures forall j | 0 <= j < |cs| :: NodeHash(Sub(T, d, cs[j]), d + 1) == NodeHash(Sub(T', d, cs'[j]), d + 1)
  {
    FlatLength(T, d, cs);
    FlatLength(T', d, cs');
    if cs != [] {
      var m := |cs| - 1;
      var a, b := Flat(T, d, cs[..m]), NodeHash(Sub(T, d, cs[m]), d + 1);
      var a', b' := Flat(T', d, cs'[..m]), NodeHash(Sub(T', d, cs'[m]), d + 1);
      FlatLength(T, d, cs[..m]);
      FlatLength(T', d, cs'[..m]);
      assert (a + b)[..|a|] == a && (a' + b')[..|a|] == a';
      assert (a + b)[|a|..] == b && (a' + b')[|a|..] == b';
      FlatSplits(T, T', d, cs[..m], cs'[..m]);
    }
  }

  /** If the children pair up with equal key sets, the key sets are equal. */
  lemma PairedKids(T: set<Key>, T': set<Key>, d: nat)
    requires forall k | k in T + T' :: d < |k|
    requires |Kids(T, d, 256)| == |Kids(T', d, 256)|
    requires forall j | 0 <= j < |Kids(T, d, 256)| ::
               Sub(T, d, Kids(T, d, 256)[j]) == Sub(T', d, Kids(T', d, 256)[j])
    ensures T == T'
  {
    hide Kids, HashCat, Flat;
    KidsAre(T, d, 256);
    KidsAre(T', d, 256);
    PairedInclude(T, T', d, Kids(T, d, 256), Kids(T', d, 256));
    PairedInclude(T', T, d, Kids(T', d, 256), Kids(T, d, 256));
  }

  lemma PairedInclude(T: set<Key>, T': set<Key>, d: nat, cs: seq<byte>, cs': seq<byte>)
    requires forall k | k in T :: d < |k|
    requires forall c: byte | Sub(T, d, c) != {} :: c in cs
    requires |cs| == |cs'| && forall j | 0 <= j < |cs| :: Sub(T, d, cs[j]) == Sub(T', d, cs'[j])
    ensures T <= T'
  {
    forall k | k in T
      ensures k in T'
    {
      assert k in Sub(T, d, k[d]);
      var j :| 0 <= j < |cs| && cs[j] == k[d];
      assert k in Sub(T', d, cs'[j]);
    }
  }

  /**
   Root binding: from two different key sets with the same node hash, two different hashed inputs with the same hash
   can be extracted, one from each trie.
   */
  lemma {:induction false} RootBinding(T: set<Key>, p: Key, T': set<Key>, p': Key) returns (x: Bytes, y: Bytes)
    requires |p| == |p'| && T != {} && T' != {} && T != T'
    requires Fits(T, p) && PrefixFree(T) && Fits(T', p') && PrefixFree(T')
    requires NoKeyIsAConcatenation(T, T', |p|)
    requires NodeHash(T, |p|) == NodeHash(T', |p|)
    ensures x != y && BLAKE3_20(x) == BLAKE3_20(y)
    ensures IsInput(T, |p|, x) && IsInput(T', |p|, y)
    decreases Rest(T, |p|)
  {
    hide *;
    var d := |p|;
    InputsHere(T, d);
    InputsHere(T', d);
    x := if Lone(T, d) then Only(T) else HashCat(T, d, 256);
    y := if Lone(T', d) then Only(T') else HashCat(T', d, 256);
    if x == y {
      DifferentShapes(T, T', d);
      InnerKeysAreLonger(T, p);
      InnerKeysAreLonger(T', p');
      KidsAre(T, d, 256);
      KidsAre(T', d, 256);
      var cs, cs' := Kids(T, d, 256), Kids(T', d, 256);
      FlatSplits(T, T', d, cs, cs');
      var j := DifferentKid(T, T', d);
      var c, c' := cs[j], cs'[j];
      SubFits(T, p, c);
      SubFits(T', p', c');
      RestShrinks(T, d, c);
      NoConfusionBelow(T, T', d, c, c');
      assert |p + [c]| == d + 1;
      x, y := RootBinding(Sub(T, d, c), p + [c], Sub(T', d, c'), p' + [c']);
      InputsBelow(T, d, c, x);
      InputsBelow(T', d, c', y);
    }
  }

  lemma InputsHere(T: set<Key>, d: nat)
    requires T != {}
    ensures var x := if Lone(T, d) then Only(T) else HashCat(T, d, 256);
            IsInput(T, d, x) && NodeHash(T, d) == BLAKE3_20(x)
  {
  }

  lemma InputsBelow(T: set<Key>, d: nat, c: byte, x: Bytes)
    requires T != {} && !Lone(T, d) && Sub(T, d, c) != {} && IsInput(Sub(T, d, c), d + 1, x)
    ensures IsInput(T, d, x)
  {
  }

  /** Equal inputs of different tries are both concatenations. */
  lemma DifferentShapes(T: set<Key>, T': set<Key>, d: nat)
    requires T != {} && T' != {} && T != T' && NoKeyIsAConcatenation(T, T', d)
    requires (if Lone(T, d) then Only(T) else HashCat(T, d, 256)) ==
             (if Lone(T', d) then Only(T') else HashCat(T', d, 256))
    ensures !Lone(T, d) && !Lone(T', d)
  {
  }

  lemma DifferentKid(T: set<Key>, T': set<Key>, d: nat) returns (j: nat)
    requires T != T' && forall k | k in T + T' :: d < |k|
    requires |Kids(T, d, 256)| == |Kids(T', d, 256)|
    ensures j < |Kids(T, d, 256)|
    ensures Sub(T, d, Kids(T, d, 256)[j]) != Sub(T', d, Kids(T', d, 256)[j])
  {
    var cs, cs' := Kids(T, d, 256), Kids(T', d, 256);
    if forall j | 0 <= j < |cs| :: Sub(T, d, cs[j]) == Sub(T', d, cs'[j]) {
      PairedKids(T, T', d);
    }
    j :| 0 <= j < |cs| && Sub(T, d, cs[j]) != Sub(T', d, cs'[j]);
  }

  lemma NoConfusionBelow(T: set<Key>, T': set<Key>, d: nat, c: byte, c': byte)
    requires T != {} && T' != {} && !Lone(T, d) && !Lone(T', d) && NoKeyIsAConcatenation(T, T', d)
    requires Sub(T, d, c) != {} && Sub(T', d, c') != {}
    ensures NoKeyIsAConcatenation(Sub(T, d, c), Sub(T', d, c'), d + 1)
  {
  }

  // ---- what is hashed ----

  ghost function Concatenation(hs: seq<Bytes>): Bytes {
    if hs == [] then [] else Concatenation(hs[..|hs| - 1]) + hs[|hs| - 1]
  }

  /** From the tenth byte on, a lone key hashes to itself; above, every key is below inner nodes. */
  lemma LoneKeyHash(k: Key, d: nat)
    ensures d >= 10 ==> NodeHash({k}, d) == BLAKE3_20(k)
    ensures d < 10 ==> NodeHash({k}, d) == InnerHash({k}, d)
    ensures NodeHash({}, d) == BLAKE3_20([])
  {
    if d >= 10 {
      assert Lone({k}, d) && Only({k}) in {k};
    } else {
      assert k in {k};
    }
  }

  /** An inner node hashes the hashes of its children, in ascending order of their bytes. */
  lemma {:induction false} InnerNodeHash(T: set<Key>, d: nat, cs: seq<byte>, hs: seq<Bytes>)
    requires forall i, j | 0 <= i < j < |cs| :: cs[i] < cs[j]
    requires forall c: byte :: c in cs <==> exists k :: k in T && d < |k| && k[d] == c
    requires |hs| == |cs|
    requires forall i | 0 <= i < |cs| :: hs[i] == NodeHash((set k | k in T && d < |k| && k[d] == cs[i]), d + 1)
    ensures InnerHash(T, d) == BLAKE3_20(Concatenation(hs))
    ensures |T| > 1 ==> NodeHash(T, d) == InnerHash(T, d)
  {
    hide NodeHash, HashCat, Flat;
    KidsAre(T, d, 256);
    KidsAscend(T, d, 256);
    forall c: byte
      ensures c in cs <==> c in Kids(T, d, 256)
    {
      CharsAreInhabited(T, d, c);
    }
    AscendingIsUnique(cs, Kids(T, d, 256));
    FlatIs(T, d, cs, hs);
    InnerHashIs(T, d);
  }

  lemma InnerHashIs(T: set<Key>, d: nat)
    ensures InnerHash(T, d) == BLAKE3_20(HashCat(T, d, 256))
    ensures |T| > 1 ==> NodeHash(T, d) == InnerHash(T, d)
  {
  }

  lemma {:induction false} KidsAscend(T: set<Key>, d: nat, i: nat)
    requires i <= 256
    ensures forall a, b | 0 <= a < b < |Kids(T, d, i)| :: Kids(T, d, i)[a] < Kids(T, d, i)[b]
  {
    hide HashCat, Flat, NodeHash;
    if i > 0 {
      KidsAscend(T, d, i - 1);
      KidsAre(T, d, i - 1);
      var cs := Kids(T, d, i - 1);
      assert forall a | 0 <= a < |cs| :: cs[a] in cs;
    }
  }

  /** An ascending list is determined by its elements. */
  lemma {:induction false} AscendingIsUnique(cs: seq<byte>, ds: seq<byte>)
    requires forall i, j | 0 <= i < j < |cs| :: cs[i] < cs[j]
    requires forall i, j | 0 <= i < j < |ds| :: ds[i] < ds[j]
    requires forall c: byte :: c in cs <==> c in ds
    ensures cs == ds
  {
    assert |cs| > 0 ==> cs[0] in ds;
    assert |ds| > 0 ==> ds[0] in cs;
    if |cs| > 0 {
      var x, y := cs[|cs| - 1], ds[|ds| - 1];
      assert x in ds && y in cs;
      assert x == y;
      var cs', ds' := cs[..|cs| - 1], ds[..|ds| - 1];
      assert cs == cs' + [x] && ds == ds' + [y];
      forall c: byte
        ensures c in cs' <==> c in ds'
      {
        assert c in cs' ==> c in cs && c != x;
        assert c in ds' ==> c in ds && c != x;
      }
      AscendingIsUnique(cs', ds');
    }
  }

  lemma {:induction false} FlatIs(T: set<Key>, d: nat, cs: seq<byte>, hs: seq<Bytes>)
    requires |hs| == |cs|
    requires forall i | 0 <= i < |cs| :: hs[i] == NodeHash((set k | k in T && d < |k| && k[d] == cs[i]), d + 1)
    ensures Flat(T, d, cs) == Concatenation(hs)
  {
    hide NodeHash;
    if cs != [] {
      var m := |cs| - 1;
      FlatIs(T, d, cs[..m], hs[..m]);
      assert Sub(T, d, cs[m]) == set k | k in T && d < |k| && k[d] == cs[m];
    }
  }
}
