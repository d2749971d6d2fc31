/**
 The recursive operations of a trie node. A node is owned by its parent and never shared, so each operation takes
 the node and the write batch as values and returns their new values.
 */
module TrieNode {
  import opened Bytes
  import opened TrieSpec
  import opened RocksDb
  import opened TrieStore

  /** A key of a batch with the position its result goes to. */
  type Slot = (nat, Key)

  ghost function KeySet(keys: seq<Key>): set<Key> {
    set k | k in keys
  }

  ghost function SlotKeys(rem: seq<Slot>): set<Key> {
    set x | x in rem :: x.1
  }

  /** A key that is not in T occurs once in the batch. */
  ghost predicate OnceIfAbsent(keys: seq<Key>, T: set<Key>) {
    forall i, j | 0 <= i < j < |keys| && keys[i] == keys[j] :: keys[i] in T
  }

  ghost predicate Ascending(rem: seq<Slot>, n: nat) {
    && (forall s | 0 <= s < |rem| :: rem[s].0 < n)
    && (forall s, t | 0 <= s < t < |rem| :: rem[s].0 < rem[t].0)
  }

  /** Position i is waiting for a result. */
  ghost predicate HasSlot(rem: seq<Slot>, i: nat) {
    exists x :: x in rem && x.0 == i
  }

  lemma AscendingBounds(g: seq<Slot>, n: nat)
    requires Ascending(g, n)
    ensures forall t | 0 <= t < |g| :: g[t].0 < n
    ensures forall x | x in g :: x.0 < n
  {
  }

  // ---- changing one child ----

  ghost predicate SameButAt(W: set<Key>, W': set<Key>, d: nat, c: byte) {
    forall e: byte | e != c :: Sub(W, d, e) == Sub(W', d, e)
  }

  lemma ReplaceChild(children: map<byte, Child>, db: Db, p: Key, W: set<Key>, W': set<Key>, c: byte, child: Child)
    requires ChildrenHold(children, db, p, W)
    requires SameButAt(W, W', |p|, c) && Sub(W', |p|, c) != {}
    requires ChildHolds(child, db, p + [c], Sub(W', |p|, c))
    ensures ChildrenHold(children[c := child], db, p, W')
  {
    var children' := children[c := child];
    forall e: byte
      ensures e in children' <==> e in Chars(W', |p|)
      ensures e in children' ==> ChildHolds(children'[e], db, p + [e], Sub(W', |p|, e))
    {
      CharsAreInhabited(W, |p|, e);
      CharsAreInhabited(W', |p|, e);
    }
  }

  lemma RemoveChild(children: map<byte, Child>, db: Db, p: Key, W: set<Key>, W': set<Key>, c: byte)
    requires ChildrenHold(children, db, p, W)
    requires SameButAt(W, W', |p|, c) && Sub(W', |p|, c) == {}
    ensures ChildrenHold(children - {c}, db, p, W')
  {
    var children' := children - {c};
    forall e: byte
      ensures e in children' <==> e in Chars(W', |p|)
      ensures e in children' ==> ChildHolds(children'[e], db, p + [e], Sub(W', |p|, e))
    {
      CharsAreInhabited(W, |p|, e);
      CharsAreInhabited(W', |p|, e);
    }
  }

  /** Reads the child from the database unless it is already in memory. */
  method GetOrLoadChild(children: map<byte, Child>, db: Db, prefix: Key, c: byte, ghost T: set<Key>)
    returns (node: Node)
    requires c in children && (children[c].Serialized? ==> T != {} && ChildHolds(children[c], db, prefix + [c], T))
    ensures children[c].Loaded? ==> node == children[c].node
    ensures ChildHolds(children[c], db, prefix + [c], T) ==> Holds(node, db, prefix + [c], T)
  {
    match children[c] {
      case Loaded(n) =>
        node := n;
      case Serialized(_) =>
        var childKey := PrimaryKey(prefix, Some(c));
        PrimaryKeyExtends(prefix, c, []);
        LoadHolds(db, prefix + [c], T);
        if childKey in db {
          node := Deserialize(db[childKey]);
        } else {
          node := DEFAULT_NODE;
        }
    }
  }

  function KnownHash(child: Child): Bytes {
    match child
    case Loaded(node) => node.hash
    case Serialized(hash) => if hash.Some? then hash.value else []
  }

  lemma KnownHashIsRight(child: Child, db: Db, p: Key, T: set<Key>)
    requires T != {} && ChildHolds(child, db, p, T)
    ensures KnownHash(child) in {[], NodeHash(T, |p|)}
    ensures child.Loaded? ==> child.node.hash == NodeHash(T, |p|)
  {
  }

  /** The child has the hash h: it is in memory with that hash, or is the subtree of S that hashes to it. */
  ghost predicate Hashed(child: Child, db: Db, p: Key, S: set<Key>, h: Bytes) {
    || (child.Loaded? && child.node.hash == h)
    || (S != {} && ChildHolds(child, db, p, S) && h == NodeHash(S, |p|))
  }

  /** The hashes of the children with a byte below i. */
  ghost function Concat(hs: map<byte, Bytes>, i: nat): Bytes
    requires i <= 256
  {
    if i == 0 then []
    else Concat(hs, i - 1) + if (i - 1) as byte in hs then hs[(i - 1) as byte] else []
  }

  /** The child is the same, or has been read from the database. */
  ghost predicate SameOrLoaded(child: Child, child': Child, db: Db, p: Key, S: set<Key>) {
    child' == child || (child.Serialized? && child'.Loaded? &&
    (ChildHolds(child, db, p, S) ==> ChildHolds(child', db, p, S)))
  }

  /** Recomputes the hash of a node from those of its children, loading the children whose hash is not known. */
  method RecomputeHash(n: Node, db: Db, prefix: Key, ghost U: set<Key>, ghost hs: map<byte, Bytes>) returns (r: Node)
    requires n.children != map[] ==> hs.Keys == n.children.Keys
    requires forall c | c in n.children ::
               c in hs && Hashed(n.children[c], db, prefix + [c], Sub(U, |prefix|, c), hs[c])
    ensures r.items == n.items && r.key == n.key
    ensures n.children == map[] ==> r == n.(hash := BLAKE3_20(KeyOr(n.key)))
    ensures n.children != map[] ==> r.hash == BLAKE3_20(Concat(hs, 256)) && r.children.Keys == n.children.Keys
    ensures n.children != map[] ==> forall c | c in n.children ::
              SameOrLoaded(n.children[c], r.children[c], db, prefix + [c], Sub(U, |prefix|, c))
  {
    if n.children == map[] {
      r := n.(hash := BLAKE3_20(KeyOr(n.key)));
    } else {
      hide ChildHolds, Holds, Stored, NodeHash, Sub, Chars;
      var children := n.children;
      var concat: Bytes := [];
      for i := 0 to 256
        invariant children.Keys == n.children.Keys
        invariant forall c | c in n.children ::
                    SameOrLoaded(n.children[c], children[c], db, prefix + [c], Sub(U, |prefix|, c))
        invariant forall c | c in n.children && c as nat >= i :: children[c] == n.children[c]
        invariant concat == Concat(hs, i)
      {
        var c := i as byte;
        if c in children {
          var hash := KnownHash(children[c]);
          ghost var sub := Sub(U, |prefix|, c);
          KnownHashIs(children[c], db, prefix + [c], sub, hs[c]);
          if hash == [] {
            var child := GetOrLoadChild(children, db, prefix, c, sub);
            LoadedHash(children[c], child, db, prefix + [c], sub, hs[c]);
            children := children[c := Loaded(child)];
            hash := child.hash;
          }
          concat := concat + hash;
        }
      }
      r := n.(hash := BLAKE3_20(concat), children := children);
    }
  }

  lemma KnownHashIs(child: Child, db: Db, p: Key, S: set<Key>, h: Bytes)
    requires Hashed(child, db, p, S, h)
    ensures KnownHash(child) in {[], h}
    ensures child.Serialized? ==> S != {} && ChildHolds(child, db, p, S)
  {
    if S != {} && ChildHolds(child, db, p, S) {
      KnownHashIsRight(child, db, p, S);
    }
  }

  lemma LoadedHash(child: Child, node: Node, db: Db, p: Key, S: set<Key>, h: Bytes)
    requires Hashed(child, db, p, S, h) && (child.Loaded? ==> node == child.node)
    requires ChildHolds(child, db, p, S) ==> Holds(node, db, p, S)
    ensures node.hash == h && SameOrLoaded(child, Loaded(node), db, p, S)
  {
    if S != {} && ChildHolds(child, db, p, S) {
      LoadedHolds(node, db, p, S);
      KnownHashIsRight(Loaded(node), db, p, S);
    }
  }

  /** The hash of a node that holds T. */
  method UpdateHash(n: Node, db: Db, prefix: Key, ghost T: set<Key>) returns (r: Node)
    requires n.children != map[] ==> ChildrenHold(n.children, db, prefix, T)
    ensures r.items == n.items && r.key == n.key
    ensures n.children == map[] ==> r == n.(hash := BLAKE3_20(KeyOr(n.key)))
    ensures n.children != map[] ==> r.hash == InnerHash(T, |prefix|) && ChildrenHold(r.children, db, prefix, T)
  {
    ghost var d := |prefix|;
    ghost var hs := map c | c in n.children :: NodeHash(Sub(T, d, c), d + 1);
    hide ChildrenHold, ChildHolds, Holds, Stored, NodeHash, Sub, Chars;
    forall c | c in n.children
      ensures Hashed(n.children[c], db, prefix + [c], Sub(T, d, c), hs[c])
    {
      ChildHeld(n.children, db, prefix, T, c);
      assert |prefix + [c]| == d + 1;
    }
    r := RecomputeHash(n, db, prefix, T, hs);
    if n.children != map[] {
      ConcatIsHashCat(n.children, db, prefix, T, hs, 256);
      SameChildrenHold(n.children, r.children, db, prefix, T);
    }
  }

  lemma {:induction false} ConcatIsHashCat(children: map<byte, Child>, db: Db, p: Key, T: set<Key>,
                                           hs: map<byte, Bytes>, i: nat)
    requires i <= 256 && ChildrenHold(children, db, p, T) && hs.Keys == children.Keys
    requires forall c | c in hs :: hs[c] == NodeHash(Sub(T, |p|, c), |p| + 1)
    ensures Concat(hs, i) == HashCat(T, |p|, i)
  {
    hide ChildrenHold, ChildHolds, NodeHash, Sub, Chars;
    if i > 0 {
      ConcatIsHashCat(children, db, p, T, hs, i - 1);
      ChildHeld(children, db, p, T, (i - 1) as byte);
      HashCatStep(T, |p|, i - 1);
    }
  }

  lemma SameChildrenHold(children: map<byte, Child>, children': map<byte, Child>, db: Db, p: Key, T: set<Key>)
    requires ChildrenHold(children, db, p, T) && children'.Keys == children.Keys
    requires forall c | c in children :: SameOrLoaded(children[c], children'[c], db, p + [c], Sub(T, |p|, c))
    ensures ChildrenHold(children', db, p, T)
  {
    hide ChildHolds;
  }

  // ---- grouping a batch by the next byte ----

  function Enumerate(keys: seq<Key>): seq<Slot> {
    seq(|keys|, i requires 0 <= i < |keys| => (i, keys[i]))
  }

  lemma EnumerateKeys(keys: seq<Key>)
    ensures SlotKeys(Enumerate(keys)) == KeySet(keys) && Ascending(Enumerate(keys), |keys|)
    ensures forall x :: x in Enumerate(keys) <==> x.0 < |keys| && keys[x.0] == x.1
  {
    var rem := Enumerate(keys);
    forall i | 0 <= i < |keys| ensures (i, keys[i]) in rem { assert rem[i] == (i, keys[i]); }
    forall k | k in keys
      ensures k in SlotKeys(rem)
    {
      var i :| 0 <= i < |keys| && keys[i] == k;
      assert (i, keys[i]) in rem;
    }
  }

  lemma BatchPrefix(keys: seq<Key>, p: Key)
    requires keys != [] && Fits(KeySet(keys), p)
    ensures |p| <= |keys[0]| && keys[0][..|p|] == p
  {
    assert keys[0] in KeySet(keys);
  }

  /** The slots whose key continues with c, in batch order. */
  function Group(rem: seq<Slot>, d: nat, c: byte): seq<Slot>
    requires forall x | x in rem :: d < |x.1|
  {
    if rem == [] then []
    else
      var last := rem[|rem| - 1];
      Group(rem[..|rem| - 1], d, c) + if last.1[d] == c then [last] else []
  }

  lemma {:induction false} GroupIsFilter(rem: seq<Slot>, d: nat, c: byte, n: nat)
    requires forall x | x in rem :: d < |x.1|
    requires Ascending(rem, n)
    ensures forall x :: x in Group(rem, d, c) <==> x in rem && x.1[d] == c
    ensures Ascending(Group(rem, d, c), n)
  {
    if rem != [] {
      var last := rem[|rem| - 1];
      var init := rem[..|rem| - 1];
      GroupIsFilter(init, d, c, n);
      var g := Group(init, d, c);
      assert rem == init + [last];
      forall s | 0 <= s < |g|
        ensures g[s].0 < last.0
      {
        assert g[s] in init;
      }
    }
  }

  method GroupKeys(rem: seq<Slot>, d: nat) returns (groups: map<byte, seq<Slot>>)
    requires forall x | x in rem :: d < |x.1|
    ensures groups.Keys == Chars(SlotKeys(rem), d)
    ensures forall c | c in groups :: groups[c] == Group(rem, d, c)
  {
    hide *;
    groups := map[];
    NoGroups(d);
    assert rem[..0] == [] && rem[..|rem|] == rem;
    for i := 0 to |rem|
      invariant groups.Keys == Chars(SlotKeys(rem[..i]), d)
      invariant forall c | c in groups :: groups[c] == Group(rem[..i], d, c)
    {
      var c := rem[i].1[d];
      var entry := if c in groups then groups[c] else [];
      groups := groups[c := entry + [rem[i]]];
      forall e: byte
        ensures e in groups <==> e in Chars(SlotKeys(rem[..i + 1]), d)
        ensures e in groups ==> groups[e] == Group(rem[..i + 1], d, e)
      {
        GroupSnoc(rem, i, d, e);
      }
    }
  }

  lemma NoGroups(d: nat)
    ensures Chars(SlotKeys([]), d) == {}
  {
  }

  lemma GroupSnoc(rem: seq<Slot>, i: nat, d: nat, c: byte)
    requires i < |rem| && forall x | x in rem :: d < |x.1|
    ensures Group(rem[..i + 1], d, c) == Group(rem[..i], d, c) + if rem[i].1[d] == c then [rem[i]] else []
    ensures c in Chars(SlotKeys(rem[..i + 1]), d) <==> c in Chars(SlotKeys(rem[..i]), d) || rem[i].1[d] == c
    ensures c !in Chars(SlotKeys(rem[..i]), d) ==> Group(rem[..i], d, c) == []
  {
    assert rem[..i + 1][..i] == rem[..i];
    assert rem[..i + 1] == rem[..i] + [rem[i]];
    assert SlotKeys(rem[..i + 1]) == SlotKeys(rem[..i]) + {rem[i].1};
    if c !in Chars(SlotKeys(rem[..i]), d) {
      EmptyGroup(rem[..i], d, c);
    }
  }

  lemma {:induction false} EmptyGroup(rem: seq<Slot>, d: nat, c: byte)
    requires forall x | x in rem :: d < |x.1|
    requires c !in Chars(SlotKeys(rem), d)
    ensures Group(rem, d, c) == []
  {
    if rem != [] {
      var init := rem[..|rem| - 1];
      assert rem[|rem| - 1].1 in SlotKeys(rem);
      assert SlotKeys(init) <= SlotKeys(rem);
      EmptyGroup(init, d, c);
    }
  }

  function CountTrue(rs: seq<bool>): nat {
    if rs == [] then 0 else CountTrue(rs[..|rs| - 1]) + if rs[|rs| - 1] then 1 else 0
  }

  lemma {:induction false} CountUpdate(rs: seq<bool>, i: nat, b: bool)
    requires i < |rs|
    ensures !rs[i] ==> CountTrue(rs[i := b]) == CountTrue(rs) + if b then 1 else 0
  {
    var m := |rs| - 1;
    if i < m {
      CountUpdate(rs[..m], i, b);
      assert rs[i := b][..m] == rs[..m][i := b];
    } else {
      assert rs[i := b][..m] == rs[..m];
    }
  }

  /** The number of reported successes is the number of distinct new keys. */
  lemma {:induction false} SuccessesAreNewKeys(keys: seq<Key>, rs: seq<bool>, T: set<Key>)
    requires |keys| == |rs| && OnceIfAbsent(keys, T)
    requires forall i | 0 <= i < |keys| :: rs[i] <==> keys[i] !in T
    ensures CountTrue(rs) == |KeySet(keys) - T|
  {
    if keys == [] {
      assert KeySet(keys) - T == {};
    } else {
      var m := |keys| - 1;
      SuccessesAreNewKeys(keys[..m], rs[..m], T);
      NewKeysGrow(keys, m, T);
    }
  }

  lemma NewKeysGrow(keys: seq<Key>, m: nat, T: set<Key>)
    requires |keys| == m + 1 && OnceIfAbsent(keys, T)
    ensures |KeySet(keys) - T| == |KeySet(keys[..m]) - T| + if keys[m] in T then 0 else 1
  {
    var before := KeySet(keys[..m]) - T;
    assert keys == keys[..m] + [keys[m]];
    if keys[m] in T {
      assert KeySet(keys) - T == before;
    } else {
      assert keys[m] !in keys[..m];
      assert KeySet(keys) - T == before + {keys[m]};
    }
  }

  lemma CountNone(rs: seq<bool>)
    requires rs == []
    ensures CountTrue(rs) == 0
  {
  }

  lemma CountSnoc(rs: seq<bool>, t: nat)
    requires t < |rs|
    ensures CountTrue(rs[..t + 1]) == CountTrue(rs[..t]) + if rs[t] then 1 else 0
  {
    assert rs[..t + 1][..t] == rs[..t];
  }

  lemma SlotAt(g: seq<Slot>, t: nat)
    requires t < |g|
    ensures g[t] in g && HasSlot(g, g[t].0)
  {
    assert g[t] in g;
  }

  /** Copies the results of a child back to the positions of its keys, counting the successes. */
  method Scatter(results: seq<bool>, g: seq<Slot>, rs: seq<bool>) returns (results': seq<bool>, successes: nat)
    requires |g| == |rs| && Ascending(g, |results|)
    ensures |results'| == |results| && successes == CountTrue(rs)
    ensures (forall x | x in g :: !results[x.0]) ==> CountTrue(results') == CountTrue(results) + successes
    ensures forall t | 0 <= t < |g| :: results'[g[t].0] == rs[t]
    ensures forall i | 0 <= i < |results| && !HasSlot(g, i) :: results'[i] == results[i]
  {
    hide CountTrue, HasSlot;
    results', successes := results, 0;
    assert rs[..|rs|] == rs;
    CountNone(rs[..0]);
    for t := 0 to |g|
      invariant |results'| == |results| && successes == CountTrue(rs[..t])
      invariant (forall x | x in g :: !results[x.0]) ==>
                  CountTrue(results') == CountTrue(results) + successes && forall s | t <= s < |g| :: !results'[g[s].0]
      invariant forall s | 0 <= s < t :: results'[g[s].0] == rs[s]
      invariant forall i | 0 <= i < |results| && !HasSlot(g, i) :: results'[i] == results[i]
    {
      CountSnoc(rs, t);
      SlotAt(g, t);
      CountUpdate(results', g[t].0, rs[t]);
      results' := results'[g[t].0 := rs[t]];
      if rs[t] {
        successes := successes + 1;
      }
    }
  }

  // ---- handling the groups one by one ----

  /** The keys of K whose next byte has been handled. */
  ghost function Picked(K: set<Key>, d: nat, done: set<byte>): set<Key> {
    set k | k in K && d < |k| && k[d] in done
  }

  lemma AllPicked(rem: seq<Slot>, p: Key)
    requires forall x | x in rem :: |p| < |x.1|
    ensures var K := SlotKeys(rem); Picked(K, |p|, Chars(K, |p|)) == K
  {
  }

  lemma GroupKeySet(rem: seq<Slot>, prefix: Key, c: byte, n: nat, ks: seq<Key>)
    requires Ascending(rem, n) && forall x | x in rem :: |prefix| < |x.1|
    requires var g := Group(rem, |prefix|, c); |ks| == |g| && forall t | 0 <= t < |g| :: ks[t] == g[t].1
    ensures KeySet(ks) == Sub(SlotKeys(rem), |prefix|, c)
  {
    hide Group, Ascending;
    var g := Group(rem, |prefix|, c);
    GroupIsFilter(rem, |prefix|, c, n);
    forall k | k in Sub(SlotKeys(rem), |prefix|, c)
      ensures k in ks
    {
      var x :| x in rem && x.1 == k;
      assert x in g;
      var t :| 0 <= t < |g| && g[t] == x;
      assert ks[t] == k;
    }
    forall t | 0 <= t < |ks|
      ensures ks[t] in Sub(SlotKeys(rem), |prefix|, c)
    {
      assert g[t] in g;
    }
  }

  lemma NonePicked(rem: seq<Slot>, d: nat, results: seq<bool>, hits: set<Slot>)
    ensures Picked(SlotKeys(rem), d, {}) == {}
    ensures SlotsRight(rem, d, {}, results, results, hits)
  {
  }

  /** The positions of the handled groups are true exactly for the hits and no other position has changed. */
  ghost predicate SlotsRight(rem: seq<Slot>, d: nat, done: set<byte>, now: seq<bool>, before: seq<bool>,
                             hits: set<Slot>) {
    && |now| == |before|
    && (forall x | x in rem && d < |x.1| && x.1[d] in done :: x.0 < |now| && (now[x.0] <==> x in hits))
    && (forall i | 0 <= i < |now| && !HasSlot(rem, i) :: now[i] == before[i])
  }

  lemma MergeSlots(rem: seq<Slot>, d: nat, c: byte, done: set<byte>, now: seq<bool>, next: seq<bool>, before: seq<bool>,
                   hits: set<Slot>)
    requires forall x | x in rem :: d < |x.1|
    requires Ascending(rem, |before|) && SlotsRight(rem, d, done, now, before, hits) && |next| == |now|
    requires forall x | x in Group(rem, d, c) :: x.0 < |now| && (next[x.0] <==> x in hits)
    requires forall i | 0 <= i < |now| && !HasSlot(Group(rem, d, c), i) :: next[i] == now[i]
    ensures SlotsRight(rem, d, done + {c}, next, before, hits)
  {
    var g := Group(rem, d, c);
    GroupIsFilter(rem, d, c, |before|);
    forall x | x in rem && x.1[d] in done + {c}
      ensures x.0 < |next| && (next[x.0] <==> x in hits)
    {
      if x.1[d] == c {
        assert x in g;
      } else {
        forall y | y in g ensures y.0 != x.0 { SlotsDiffer(rem, |before|, x, y); }
        assert !HasSlot(g, x.0);
      }
    }
    forall i | 0 <= i < |next| && !HasSlot(rem, i)
      ensures next[i] == before[i]
    {
      assert !HasSlot(g, i);
    }
  }

  lemma SlotsDiffer(rem: seq<Slot>, n: nat, x: Slot, y: Slot)
    requires Ascending(rem, n) && x in rem && y in rem && x.1 != y.1
    ensures x.0 != y.0
  {
    var s :| 0 <= s < |rem| && rem[s] == x;
    var t :| 0 <= t < |rem| && rem[t] == y;
  }

  lemma AllSlotsRight(rem: seq<Slot>, p: Key, now: seq<bool>, before: seq<bool>, hits: set<Slot>)
    requires forall x | x in rem :: |p| < |x.1|
    requires SlotsRight(rem, |p|, Chars(SlotKeys(rem), |p|), now, before, hits)
    ensures |now| == |before|
    ensures forall x | x in rem :: x.0 < |now| && (now[x.0] <==> x in hits)
    ensures forall i | 0 <= i < |now| && !HasSlot(rem, i) :: now[i] == before[i]
  {
    forall x | x in rem
      ensures x.1[|p|] in Chars(SlotKeys(rem), |p|)
    {
      assert x.1 in SlotKeys(rem);
    }
  }

}
