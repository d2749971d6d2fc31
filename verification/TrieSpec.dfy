/**
 What a Merkle trie over a set of keys is, with no mention of how it is built: which nodes it has, what each
 counts, and what each hashes to. Every operation of the trie is proved against this module.
 */
module TrieSpec {
  import opened Bytes

  type Key = Bytes

  const TIMESTAMP_LENGTH := 10

  const U32 := 0x1_0000_0000

  ghost predicate PrefixFree(S: set<Key>) {
    forall a, b :: a in S && b in S && a <= b ==> a == b
  }

  /** The keys of S that extend p. */
  ghost function Under(S: set<Key>, p: Key): set<Key> {
    set k | k in S && p <= k
  }

  /** The keys of T whose byte at depth d is c. */
  ghost function Sub(T: set<Key>, d: nat, c: byte): set<Key> {
    set k | k in T && d < |k| && k[d] == c
  }

  ghost function Chars(T: set<Key>, d: nat): set<byte> {
    set k | k in T && d < |k| :: k[d]
  }

  /** Below the timestamp bytes a single key is compacted into a leaf. */
  ghost predicate Lone(T: set<Key>, d: nat) {
    |T| == 1 && d >= TIMESTAMP_LENGTH
  }

  ghost function Only(T: set<Key>): (k: Key)
    requires |T| == 1
    ensures T == {k}
  {
    var k :| k in T;
    assert |T - {k}| == 0;
    k
  }

  /** T can be the key set of a subtree at prefix p. */
  ghost predicate Fits(T: set<Key>, p: Key) {
    forall k | k in T :: p <= k && |k| >= TIMESTAMP_LENGTH
  }

  /** The byte positions of the keys of T that are not consumed at depth d: shrinks on the way down. */
  ghost function Rest(T: set<Key>, d: nat): set<(Key, nat)> {
    set k, i: nat | k in T && d <= i < |k| :: (k, i)
  }

  lemma RestShrinks(T: set<Key>, d: nat, c: byte)
    requires Sub(T, d, c) != {}
    ensures Rest(Sub(T, d, c), d + 1) < Rest(T, d)
  {
    var k :| k in Sub(T, d, c);
    assert (k, d) in Rest(T, d) && (k, d) !in Rest(Sub(T, d, c), d + 1);
  }

  /** The hash of the node at depth d whose subtree holds exactly T. */
  ghost function NodeHash(T: set<Key>, d: nat): Bytes
    decreases Rest(T, d), 258
  {
    if T == {} then BLAKE3_20([])
    else if Lone(T, d) then BLAKE3_20(Only(T))
    else InnerHash(T, d)
  }

  ghost function InnerHash(T: set<Key>, d: nat): Bytes
    decreases Rest(T, d), 257
  {
    BLAKE3_20(HashCat(T, d, 256))
  }

  /** The hashes of the children with a byte below i, in ascending byte order. */
  ghost function HashCat(T: set<Key>, d: nat, i: nat): Bytes
    requires i <= 256
    decreases Rest(T, d), i
  {
    if i == 0 then []
    else
      var c := (i - 1) as byte;
      HashCat(T, d, i - 1) +
      if Sub(T, d, c) == {} then [] else RestShrinks(T, d, c); NodeHash(Sub(T, d, c), d + 1)
  }

  /** The root hash of the trie that holds S. */
  ghost function RootHash(S: set<Key>): Bytes {
    NodeHash(S, 0)
  }

  /** One more child of the concatenation. */
  lemma HashCatStep(T: set<Key>, d: nat, i: nat)
    requires i < 256
    ensures HashCat(T, d, i + 1) == HashCat(T, d, i) +
                                    if Sub(T, d, i as byte) == {} then [] else NodeHash(Sub(T, d, i as byte), d + 1)
  {
  }

  // ---- facts about key sets ----

  lemma SubFits(T: set<Key>, p: Key, c: byte)
    requires Fits(T, p)
    ensures Fits(Sub(T, |p|, c), p + [c])
    ensures PrefixFree(T) ==> PrefixFree(Sub(T, |p|, c))
    ensures |Sub(T, |p|, c)| <= |T|
  {
    forall k | k in Sub(T, |p|, c)
      ensures p + [c] <= k
    {
      assert k[..|p|] == p;
      assert k[..|p| + 1] == p + [c];
    }
    CardinalityMonotone(Sub(T, |p|, c), T);
  }

  lemma CardinalityMonotone<A>(x: set<A>, y: set<A>)
    requires x <= y
    ensures |x| <= |y|
  {
    assert y == x + (y - x);
  }

  /** In a prefix-free set a key that ends at a node is alone there. */
  lemma EndsHere(T: set<Key>, p: Key, k: Key)
    requires Fits(T, p) && PrefixFree(T) && k in T && |k| <= |p|
    ensures k == p && T == {k} && Lone(T, |p|)
  {
    assert k == p;
    forall x | x in T ensures x == k { assert k <= x; }
  }

  lemma InnerKeysAreLonger(T: set<Key>, p: Key)
    requires Fits(T, p) && PrefixFree(T) && !Lone(T, |p|)
    ensures forall k | k in T :: |p| < |k|
    ensures T != {} ==> Chars(T, |p|) != {}
  {
    forall k | k in T
      ensures |p| < |k| && k[|p|] in Chars(T, |p|)
    {
      if |k| <= |p| {
        EndsHere(T, p, k);
      }
    }
  }

  lemma CharsAreInhabited(T: set<Key>, d: nat, c: byte)
    ensures c in Chars(T, d) <==> Sub(T, d, c) != {}
  {
    if c in Chars(T, d) {
      var k :| k in T && d < |k| && k[d] == c;
      assert k in Sub(T, d, c);
    }
    if Sub(T, d, c) != {} {
      var k :| k in Sub(T, d, c);
      assert k[d] in Chars(T, d);
    }
  }

  /** Prefix-freeness can be checked child by child. */
  lemma PrefixFreeByChar(W: set<Key>, d: nat)
    requires forall k | k in W :: d < |k|
    requires forall c: byte :: PrefixFree(Sub(W, d, c))
    ensures PrefixFree(W)
  {
    forall a, b | a in W && b in W && a <= b
      ensures a == b
    {
      assert a[d] == b[d];
      assert a in Sub(W, d, a[d]) && b in Sub(W, d, a[d]);
    }
  }
}
