/**
 Reading a trie: membership, ordered enumeration under a prefix, and snapshots. Reading loads nodes from the database
 as it goes, which changes the node in memory but not what it represents.
 */
module TrieQuery {
  import opened Bytes
  import opened TrieSpec
  import opened TrieStore
  import opened TrieNode

  const MAX_VALUES_RETURNED_PER_CALL := 1024

  lemma NodeShape(n: Node, db: Db, p: Key, T: set<Key>)
    requires Fits(T, p) && PrefixFree(T) && Holds(n, db, p, T)
    ensures n.children == map[] <==> T == {} || Lone(T, |p|)
    ensures Lone(T, |p|) ==> n.key == Some(Only(T))
    ensures T == {} ==> BlankKey(n.key) && n.items == 0
    ensures T != {} ==> n.hash == NodeHash(T, |p|) && n.items == |T|
    ensures n.children != map[] ==> ChildrenHold(n.children, db, p, T) && forall k | k in T :: |p| < |k|
  {
    if T != {} && !Lone(T, |p|) {
      InnerKeysAreLonger(T, p);
    }
  }

  /** Putting a loaded child back changes nothing of what a node holds. */
  lemma Reload(n: Node, db: Db, p: Key, T: set<Key>, c: byte, child: Node)
    requires Fits(T, p) && PrefixFree(T) && Holds(n, db, p, T) && c in n.children
    requires Holds(child, db, p + [c], Sub(T, |p|, c))
    ensures Holds(n.(children := n.children[c := Loaded(child)]), db, p, T)
  {
    NodeShape(n, db, p, T);
    ChildHeld(n.children, db, p, T, c);
    LoadedHolds(child, db, p + [c], Sub(T, |p|, c));
    ReplaceChild(n.children, db, p, T, T, c, Loaded(child));
  }

  // ---- membership ----

  /** Membership is exact, except that an empty trie claims to hold the empty key. */
  method Exists(n: Node, db: Db, key: Key, idx: nat, ghost p: Key, ghost T: set<Key>) returns (found: bool, n': Node)
    requires |p| == idx && p <= key && Fits(T, p) && PrefixFree(T) && Holds(n, db, p, T)
    ensures found <==> key in T || (T == {} && key == [])
    ensures Holds(n', db, p, T) && n'.hash == n.hash
    decreases |key| - idx
  {
    hide Holds, ChildHolds, ChildrenHold, Stored, NodeHash, Chars, PrefixFree;
    n' := n;
    NodeShape(n, db, p, T);
    if n.children == map[] {
      var cmp := BytesCompare(KeyOr(n.key), key);
      CompareSigns(KeyOr(n.key), key);
      return cmp == 0, n';
    }
    if idx >= |key| {
      return false, n';
    }
    var c := key[idx];
    ChildHeld(n.children, db, p, T, c);
    if c !in n.children {
      MissingChild(T, p, key);
      return false, n';
    }
    SubFits(T, p, c);
    assert key[..idx] == p;
    var child := GetOrLoadChild(n.children, db, key[..idx], c, Sub(T, idx, c));
    assert key[..idx + 1] == p + [c];
    found, child := Exists(child, db, key, idx + 1, p + [c], Sub(T, idx, c));
    Reload(n, db, p, T, c, child);
    n' := n.(children := n.children[c := Loaded(child)]);
  }

  lemma MissingChild(T: set<Key>, p: Key, key: Key)
    requires |p| < |key| && Sub(T, |p|, key[|p|]) == {}
    ensures key !in T
  {
    assert key !in Sub(T, |p|, key[|p|]);
  }

  // ---- enumeration ----

  ghost predicate Sorted(vs: seq<Key>) {
    forall i, j | 0 <= i < j < |vs| :: Less(vs[i], vs[j])
  }

  /** vs lists, in strictly ascending order, keys of T that precede every other key of T. */
  ghost predicate InitialSegment(vs: seq<Key>, T: set<Key>) {
    && Sorted(vs)
    && (forall v | v in vs :: v in T)
    && (forall v, k | v in vs && k in T && k !in vs :: Less(v, k))
  }

  /** The keys of T whose byte at depth d is below i. */
  ghost function Lower(T: set<Key>, d: nat, i: nat): set<Key> {
    set k | k in T && d < |k| && k[d] as int < i
  }

  lemma LowerStep(T: set<Key>, d: nat, i: nat)
    requires i < 256
    ensures Lower(T, d, i + 1) == Lower(T, d, i) + Sub(T, d, i as byte)
  {
  }

  /** A key in a later child is greater. */
  lemma LaterChildIsGreater(T: set<Key>, p: Key, v: Key, k: Key)
    requires Fits(T, p) && v in T && k in T && |p| < |v| && |p| < |k| && v[|p|] < k[|p|]
    ensures Less(v, k)
  {
    LessAtByte(p, v, k);
  }

  /** Appending the values of the next child keeps the list an initial segment. */
  lemma AppendChild(vs: seq<Key>, cv: seq<Key>, T: set<Key>, p: Key, i: nat)
    requires i < 256 && Fits(T, p) && forall k | k in T :: |p| < |k|
    requires InitialSegment(vs, Lower(T, |p|, i)) && KeySet(vs) == Lower(T, |p|, i)
    requires InitialSegment(cv, Sub(T, |p|, i as byte))
    ensures InitialSegment(vs + cv, T)
    ensures InitialSegment(vs + cv, Lower(T, |p|, i + 1))
    ensures KeySet(cv) == Sub(T, |p|, i as byte) ==> KeySet(vs + cv) == Lower(T, |p|, i + 1)
  {
    hide Less;
    LowerStep(T, |p|, i);
    var all := vs + cv;
    forall k ensures k in all <==> k in vs || k in cv {}
    assert forall v | v in vs :: v in KeySet(vs);
    AppendSorted(vs, cv, T, p, i);
    forall v, k | v in all && k in T && k !in all
      ensures Less(v, k)
    {
      assert k !in KeySet(vs);
      if v[|p|] < k[|p|] {
        LaterChildIsGreater(T, p, v, k);
      }
    }
  }

  lemma AppendSorted(vs: seq<Key>, cv: seq<Key>, T: set<Key>, p: Key, i: nat)
    requires i < 256 && Fits(T, p)
    requires InitialSegment(vs, Lower(T, |p|, i)) && InitialSegment(cv, Sub(T, |p|, i as byte))
    ensures Sorted(vs + cv)
  {
    hide Less;
    var all := vs + cv;
    forall a, b | 0 <= a < b < |all|
      ensures Less(all[a], all[b])
    {
      if a < |vs| <= b {
        assert all[a] in vs && all[b] in cv;
        LaterChildIsGreater(T, p, all[a], all[b]);
      }
    }
  }

  lemma SingleSegment(k: Key)
    ensures InitialSegment([k], {k}) && KeySet([k]) == {k}
  {
  }

  lemma EmptySegment(T: set<Key>, d: nat)
    ensures InitialSegment([], Lower(T, d, 0)) && KeySet([]) == Lower(T, d, 0)
  {
  }

  lemma FullSegment(T: set<Key>, d: nat)
    requires forall k | k in T :: d < |k|
    ensures Lower(T, d, 256) == T
  {
  }

  /**
   The values of a subtree in ascending order, cut off at a child boundary once there are more than 1024. An empty node
   has the empty value.
   */
  method GetAllValues(n: Node, db: Db, prefix: Key, ghost T: set<Key>) returns (values: seq<Key>, n': Node)
    requires Fits(T, prefix) && PrefixFree(T) && Holds(n, db, prefix, T)
    ensures T == {} ==> values == [[]]
    ensures T != {} ==> InitialSegment(values, T)
    ensures T != {} ==> KeySet(values) == T || |values| > MAX_VALUES_RETURNED_PER_CALL
    ensures Holds(n', db, prefix, T) && n'.hash == n.hash
    decreases Rest(T, |prefix|)
  {
    hide *;
    NodeShape(n, db, prefix, T);
    n' := n;
    if n.children == map[] {
      LeafValue(n, T, |prefix|);
      SingleSegment(KeyOr(n.key));
      return [KeyOr(n.key)], n';
    }
    values := [];
    EmptySegment(T, |prefix|);
    FullSegment(T, |prefix|);
    for i := 0 to 256
      invariant n' == n.(children := n'.children) && Holds(n', db, prefix, T) && n'.children != map[]
      invariant InitialSegment(values, Lower(T, |prefix|, i)) && KeySet(values) == Lower(T, |prefix|, i)
      invariant n'.children.Keys == n.children.Keys
    {
      var c := i as byte;
      LowerStep(T, |prefix|, i);
      NodeShape(n', db, prefix, T);
      ChildHeld(n'.children, db, prefix, T, c);
      if c in n'.children {
        ghost var sub := Sub(T, |prefix|, c);
        SubFits(T, prefix, c);
        RestShrinks(T, |prefix|, c);
        var child := GetOrLoadChild(n'.children, db, prefix, c, sub);
        var cv;
        cv, child := GetAllValues(child, db, prefix + [c], sub);
        Reload(n', db, prefix, T, c, child);
        n' := n'.(children := n'.children[c := Loaded(child)]);
        AppendChild(values, cv, T, prefix, i);
        values := values + cv;
        if |values| > MAX_VALUES_RETURNED_PER_CALL {
          return values, n';
        }
      } else {
        assert Lower(T, |prefix|, i) + {} == Lower(T, |prefix|, i);
      }
    }
  }

  lemma LeafValue(n: Node, T: set<Key>, d: nat)
    requires if T == {} then BlankKey(n.key) else Lone(T, d) && n.key == Some(Only(T))
    ensures if T == {} then KeyOr(n.key) == [] else T == {KeyOr(n.key)}
  {
  }

  // ---- the subtree at a prefix ----

  /** The trie has a node at the prefix. */
  ghost predicate HasNode(T: set<Key>, d: nat, prefix: Key)
    requires d <= |prefix|
    decreases |prefix| - d
  {
    d == |prefix| ||
    (!Lone(T, d) && Sub(T, d, prefix[d]) != {} && HasNode(Sub(T, d, prefix[d]), d + 1, prefix))
  }

  lemma HasNodeStep(T: set<Key>, p: Key, prefix: Key)
    requires Fits(T, p) && p <= prefix
    ensures |p| == |prefix| ==> HasNode(T, |p|, prefix) && p == prefix && Under(T, prefix) == T
    ensures |p| < |prefix| ==>
              var sub := Sub(T, |p|, prefix[|p|]);
              HasNode(T, |p|, prefix) <==> !Lone(T, |p|) && sub != {} && HasNode(sub, |p| + 1, prefix)
  {
    if |p| == |prefix| {
      assert p == prefix;
    }
  }

  lemma SubUnder(T: set<Key>, p: Key, prefix: Key)
    requires Fits(T, p) && p <= prefix && |p| < |prefix|
    ensures Under(Sub(T, |p|, prefix[|p|]), prefix) == Under(T, prefix)
    ensures p + [prefix[|p|]] <= prefix
    ensures Under(T, prefix) != {} ==> Sub(T, |p|, prefix[|p|]) != {}
  {
    assert prefix[..|p| + 1] == p + [prefix[|p|]];
    if k :| k in Under(T, prefix) {
      assert k in Sub(T, |p|, prefix[|p|]);
    }
  }

  /** Down to the timestamp depth there is a node exactly where there are keys; below, only where keys part. */
  lemma {:induction false} HasNodeIff(T: set<Key>, p: Key, prefix: Key)
    requires T != {} && Fits(T, p) && p <= prefix
    ensures HasNode(T, |p|, prefix) <==>
            Under(T, prefix) != {} &&
            (prefix == p || |prefix| <= TIMESTAMP_LENGTH || |Under(T, prefix[..|prefix| - 1])| >= 2)
    decreases |prefix| - |p|
  {
    if |p| == |prefix| {
      assert p == prefix;
      assert Under(T, prefix) == T;
    } else {
      var c := prefix[|p|];
      var sub := Sub(T, |p|, c);
      SubUnder(T, p, prefix);
      var parent := prefix[..|prefix| - 1];
      if sub != {} {
        SubFits(T, p, c);
        HasNodeIff(sub, p + [c], prefix);
        if p + [c] == prefix {
          assert parent == p && Under(T, parent) == T;
          CardinalityPositive(T);
        } else {
          SubUnder(T, p, parent);
          CardinalityMonotone(Under(T, parent), T);
        }
      }
    }
  }

  lemma CardinalityPositive<A>(s: set<A>)
    requires s != {}
    ensures |s| >= 1
  {
    var x :| x in s;
    CardinalityMonotone({x}, s);
  }

  /** Enumerates the keys under a prefix by walking to its node. */
  method ValuesUnder(n: Node, db: Db, prefix: Key, idx: nat, ghost p: Key, ghost T: set<Key>)
    returns (values: seq<Key>, n': Node)
    requires |p| == idx && p <= prefix && Fits(T, p) && PrefixFree(T) && Holds(n, db, p, T)
    ensures T == {} ==> values == if |p| == |prefix| then [[]] else []
    ensures T != {} && HasNode(T, idx, prefix) ==>
              && InitialSegment(values, Under(T, prefix))
              && (KeySet(values) == Under(T, prefix) || |values| > MAX_VALUES_RETURNED_PER_CALL)
    ensures T != {} && !HasNode(T, idx, prefix) ==> values == []
    ensures Holds(n', db, p, T) && n'.hash == n.hash
    decreases |prefix| - idx
  {
    hide *;
    HasNodeStep(T, p, prefix);
    if idx == |prefix| {
      values, n' := GetAllValues(n, db, prefix, T);
      return;
    }
    n' := n;
    var c := prefix[idx];
    NodeShape(n, db, p, T);
    if n.children != map[] {
      ChildHeld(n.children, db, p, T, c);
    }
    if c !in n.children {
      return [], n';
    }
    ghost var sub := Sub(T, idx, c);
    SubFits(T, p, c);
    SubUnder(T, p, prefix);
    assert prefix[..idx] == p;
    var child := GetOrLoadChild(n.children, db, prefix[..idx], c, sub);
    values, child := ValuesUnder(child, db, prefix, idx + 1, p + [c], sub);
    Reload(n, db, p, T, c, child);
    n' := n.(children := n.children[c := Loaded(child)]);
  }

  // ---- snapshots ----

  /** How far a snapshot got, the hashes of what it passed by, and how many keys those cover. */
  datatype TrieSnapshot = TrieSnapshot(prefix: Key, excludedHashes: seq<Bytes>, numMessages: nat)

  /** The snapshot of the trie over T along a prefix, as a function of T alone. */
  ghost function SnapshotOf(T: set<Key>, d: nat, prefix: Key): TrieSnapshot
    requires d <= |prefix|
    decreases |prefix| - d
  {
    if d == |prefix| then TrieSnapshot(prefix, [NodeHash(T, d)], 0)
    else if Lone(T, d) then TrieSnapshot(prefix[..d], [BLAKE3_20([])], 0)
    else
      var sub := Sub(T, d, prefix[d]);
      var passed := T - sub;
      if sub == {} then TrieSnapshot(prefix[..d], [InnerHash(passed, d)], |passed|)
      else
        var below := SnapshotOf(sub, d + 1, prefix);
        below.(excludedHashes := [InnerHash(passed, d)] + below.excludedHashes,
               numMessages := |passed| + below.numMessages)
  }

  /** One level of a snapshot. */
  lemma SnapshotStep(T: set<Key>, d: nat, prefix: Key)
    requires d <= |prefix|
    ensures d == |prefix| ==> SnapshotOf(T, d, prefix) == TrieSnapshot(prefix, [NodeHash(T, d)], 0)
    ensures d < |prefix| && Lone(T, d) ==> SnapshotOf(T, d, prefix) == TrieSnapshot(prefix[..d], [BLAKE3_20([])], 0)
    ensures d < |prefix| && !Lone(T, d) ==>
              var sub := Sub(T, d, prefix[d]);
              var hash, count := InnerHash(T - sub, d), |T - sub|;
              SnapshotOf(T, d, prefix) ==
              if sub == {} then TrieSnapshot(prefix[..d], [hash], count)
              else
                var s := SnapshotOf(sub, d + 1, prefix);
                TrieSnapshot(s.prefix, [hash] + s.excludedHashes, count + s.numMessages)
  {
    hide NodeHash, InnerHash, Sub;
  }

  /** Down to the timestamp depth, a snapshot counts exactly the keys outside its prefix. */
  lemma {:induction false} SnapshotCounts(T: set<Key>, p: Key, prefix: Key)
    requires Fits(T, p) && p <= prefix && |prefix| <= TIMESTAMP_LENGTH
    ensures SnapshotOf(T, |p|, prefix).numMessages == |T - Under(T, prefix)|
    decreases |prefix| - |p|
  {
    hide Under, Sub, NodeHash, InnerHash, HashCat, Rest, Chars, SnapshotOf;
    SnapshotStep(T, |p|, prefix);
    OutsideSplits(T, p, prefix);
    if |p| < |prefix| {
      var c := prefix[|p|];
      var sub := Sub(T, |p|, c);
      SubUnder(T, p, prefix);
      if sub != {} {
        SubFits(T, p, c);
        SnapshotCounts(sub, p + [c], prefix);
      }
    }
  }

  /** The keys that a walk along the prefix passes by at depth i. */
  ghost function PassedAt(T: set<Key>, prefix: Key, i: nat): set<Key>
    requires i < |prefix|
  {
    set k | k in T && prefix[..i] <= k && !(prefix[..i + 1] <= k)
  }

  /** What is at the end of the snapshot: the node there, nothing below a leaf, or its children if none goes on. */
  ghost function EndHash(T: set<Key>, prefix: Key, end: Key): Bytes {
    var U := Under(T, end);
    if end == prefix then NodeHash(U, |end|) else if Lone(U, |end|) then BLAKE3_20([]) else InnerHash(U, |end|)
  }

  /**
   A snapshot gets as far as there are nodes along its prefix. It has the joint hash of the children that it passes by at
   each depth, and one more hash for its end.
   */
  ghost predicate Describes(s: TrieSnapshot, T: set<Key>, p: Key, prefix: Key) {
    && p <= s.prefix <= prefix && HasNode(T, |p|, s.prefix)
    && (s.prefix != prefix ==> !HasNode(T, |p|, prefix[..|s.prefix| + 1]))
    && |s.excludedHashes| == |s.prefix| - |p| + 1
    && (forall i | |p| <= i < |s.prefix| :: s.excludedHashes[i - |p|] == InnerHash(PassedAt(T, prefix, i), i))
    && s.excludedHashes[|s.prefix| - |p|] == EndHash(T, prefix, s.prefix)
  }

  lemma {:induction false} SnapshotHashes(T: set<Key>, p: Key, prefix: Key)
    requires T != {} && Fits(T, p) && p <= prefix
    ensures Describes(SnapshotOf(T, |p|, prefix), T, p, prefix)
    decreases |prefix| - |p|
  {
    hide Under, Sub, NodeHash, InnerHash, HashCat, Rest, Chars, SnapshotOf, Fits, PassedAt, Lone;
    var d := |p|;
    SnapshotStep(T, d, prefix);
    HasNodeStep(T, p, p);
    if d < |prefix| {
      var c := prefix[d];
      var sub := Sub(T, d, c);
      assert prefix[..d] == p && prefix[..d + 1] == p + [c];
      HasNodeStep(T, p, p + [c]);
      if !Lone(T, d) && sub == {} {
        assert T - sub == T;
      } else if !Lone(T, d) {
        SubFits(T, p, c);
        SnapshotHashes(sub, p + [c], prefix);
        hide Describes, EndHash;
        DescribesMore(SnapshotOf(sub, d + 1, prefix), T, p, prefix);
      }
    } else {
      assert p == prefix;
    }
  }

  /** One level up. */
  lemma DescribesMore(s: TrieSnapshot, T: set<Key>, p: Key, prefix: Key)
    requires Fits(T, p) && p <= prefix && |p| < |prefix| && !Lone(T, |p|) && Sub(T, |p|, prefix[|p|]) != {}
    requires Describes(s, Sub(T, |p|, prefix[|p|]), p + [prefix[|p|]], prefix)
    ensures var hash := InnerHash(T - Sub(T, |p|, prefix[|p|]), |p|);
            forall n :: Describes(TrieSnapshot(s.prefix, [hash] + s.excludedHashes, n), T, p, prefix)
  {
    hide Under, Sub, NodeHash, InnerHash, Fits, PassedAt, Lone, EndHash;
    var c := prefix[|p|];
    PassedParts(T, p, prefix);
    EndBelow(T, p, prefix, s.prefix);
    HasNodeStep(T, p, s.prefix);
    if s.prefix != prefix {
      var next := prefix[..|s.prefix| + 1];
      assert next[|p|] == c && p == next[..|p|];
      HasNodeStep(T, p, next);
    }
    hide HasNode;
  }

  lemma PassedParts(T: set<Key>, p: Key, prefix: Key)
    requires Fits(T, p) && p <= prefix && |p| < |prefix|
    ensures var sub := Sub(T, |p|, prefix[|p|]);
            && PassedAt(T, prefix, |p|) == T - sub
            && forall i | |p| < i < |prefix| :: PassedAt(sub, prefix, i) == PassedAt(T, prefix, i)
  {
    var d := |p|;
    assert prefix[..d] == p && prefix[..d + 1] == p + [prefix[d]];
    forall k | k in T
      ensures k in Sub(T, d, prefix[d]) <==> prefix[..d + 1] <= k
    {
    }
    forall i, k | d < i < |prefix| && k in T && prefix[..i] <= k
      ensures prefix[..d + 1] <= k
    {
      assert prefix[..i][..d + 1] == prefix[..d + 1];
    }
  }

  lemma EndBelow(T: set<Key>, p: Key, prefix: Key, end: Key)
    requires Fits(T, p) && p <= prefix && p <= end <= prefix && |p| < |end|
    ensures EndHash(Sub(T, |p|, prefix[|p|]), prefix, end) == EndHash(T, prefix, end)
  {
    assert end[|p|] == prefix[|p|];
    SubUnder(T, p, end);
  }

  lemma OutsideSplits(T: set<Key>, p: Key, prefix: Key)
    requires Fits(T, p) && p <= prefix
    ensures |p| == |prefix| ==> T - Under(T, prefix) == {}
    ensures |p| < |prefix| ==>
              var sub := Sub(T, |p|, prefix[|p|]);
              |T - Under(T, prefix)| == |T - sub| + |sub - Under(sub, prefix)|
  {
    if |p| == |prefix| {
      assert p == prefix;
    } else {
      var sub := Sub(T, |p|, prefix[|p|]);
      SubUnder(T, p, prefix);
      assert Under(T, prefix) <= sub;
      assert T - Under(T, prefix) == (T - sub) + (sub - Under(sub, prefix));
      assert (T - sub) !! (sub - Under(sub, prefix));
    }
  }

  lemma ExcludedChildren(T: set<Key>, d: nat, c: byte, e: byte)
    requires e != c
    ensures Sub(T - Sub(T, d, c), d, e) == Sub(T, d, e)
    ensures Sub(T - Sub(T, d, c), d, c) == {}
  {
  }

  /** The count and the joint hash of the children other than c. */
  method ExcludedHash(n: Node, db: Db, prefix: Key, c: byte, ghost T: set<Key>)
    returns (items: nat, hash: Bytes, n': Node)
    requires Fits(T, prefix) && PrefixFree(T) && Holds(n, db, prefix, T) && n.children != map[]
    ensures items == |T - Sub(T, |prefix|, c)| && hash == InnerHash(T - Sub(T, |prefix|, c), |prefix|)
    ensures Holds(n', db, prefix, T) && n'.children.Keys == n.children.Keys && n'.hash == n.hash
  {
    hide ChildrenHold, ChildHolds, Holds, Stored, NodeHash, Sub, Chars, HashCat, Lower, PrefixFree, Fits;
    ghost var d := |prefix|;
    ghost var passed := T - Sub(T, d, c);
    NodeShape(n, db, prefix, T);
    items, n' := 0, n;
    var concat: Bytes := [];
    NothingLower(passed, d);
    for i := 0 to 256
      invariant Holds(n', db, prefix, T) && n'.children.Keys == n.children.Keys && n'.children != map[]
      invariant n'.hash == n.hash
      invariant items == |Lower(passed, d, i)| && concat == HashCat(passed, d, i)
    {
      var e := i as byte;
      HashCatStep(passed, d, i);
      LowerStep(passed, d, i);
      LowerCount(passed, d, i);
      NodeShape(n', db, prefix, T);
      ChildHeld(n'.children, db, prefix, T, e);
      if e != c {
        ExcludedChildren(T, d, c, e);
        if e in n'.children {
          ghost var sub := Sub(T, d, e);
          SubFits(T, prefix, e);
          var child := GetOrLoadChild(n'.children, db, prefix, e, sub);
          NodeShape(child, db, prefix + [e], sub);
          Reload(n', db, prefix, T, e, child);
          n' := n'.(children := n'.children[e := Loaded(child)]);
          concat := concat + child.hash;
          items := items + child.items;
        }
      } else {
        ExcludedSelf(T, d, c);
      }
    }
    PassedLower(T, prefix, c);
    hash := BLAKE3_20(concat);
  }

  lemma ExcludedSelf(T: set<Key>, d: nat, c: byte)
    ensures Sub(T - Sub(T, d, c), d, c) == {}
  {
  }

  lemma NothingLower(T: set<Key>, d: nat)
    ensures Lower(T, d, 0) == {} && HashCat(T, d, 0) == []
  {
  }

  lemma LowerCount(T: set<Key>, d: nat, i: nat)
    requires i < 256
    ensures |Lower(T, d, i + 1)| == |Lower(T, d, i)| + |Sub(T, d, i as byte)|
  {
    LowerStep(T, d, i);
    assert Lower(T, d, i) !! Sub(T, d, i as byte);
  }

  lemma PassedLower(T: set<Key>, p: Key, c: byte)
    requires forall k | k in T :: |p| < |k|
    ensures Lower(T - Sub(T, |p|, c), |p|, 256) == T - Sub(T, |p|, c)
  {
  }

  /** Walks down a prefix; the result is that of the key set, whichever nodes were in memory. */
  method GetSnapshot(n: Node, db: Db, prefix: Key, idx: nat, ghost p: Key, ghost T: set<Key>)
    returns (s: TrieSnapshot, n': Node)
    requires |p| == idx && p <= prefix && Fits(T, p) && PrefixFree(T) && Holds(n, db, p, T)
    ensures T != {} ==> s == SnapshotOf(T, idx, prefix)
    ensures T == {} ==> s == TrieSnapshot(p, [if |p| == |prefix| then n.hash else BLAKE3_20([])], 0)
    ensures Holds(n', db, p, T) && n'.hash == n.hash
    decreases |prefix| - idx
  {
    hide *;
    n' := n;
    SnapshotStep(T, idx, prefix);
    NodeShape(n, db, p, T);
    if idx == |prefix| {
      return TrieSnapshot(prefix, [n.hash], 0), n';
    }
    var c := prefix[idx];
    var here := prefix[..idx];
    assert here == p;
    if n.children == map[] {
      return TrieSnapshot(here, [BLAKE3_20([])], 0), n';
    }
    var items, hash;
    items, hash, n' := ExcludedHash(n, db, here, c, T);
    NodeShape(n', db, p, T);
    ChildHeld(n'.children, db, p, T, c);
    ghost var sub := Sub(T, idx, c);
    if c !in n'.children {
      return TrieSnapshot(here, [hash], items), n';
    }
    SubFits(T, p, c);
    SubUnder(T, p, prefix);
    var child := GetOrLoadChild(n'.children, db, here, c, sub);
    s, child := GetSnapshot(child, db, prefix, idx + 1, p + [c], sub);
    s := s.(excludedHashes := [hash] + s.excludedHashes, numMessages := items + s.numMessages);
    Reload(n', db, p, T, c, child);
    n' := n'.(children := n'.children[c := Loaded(child)]);
  }
}
