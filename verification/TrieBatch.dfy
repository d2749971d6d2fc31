/**
 What inserting a batch does as a function of the batch and the keys already there, repeated keys included: how many
 insertions are reported, what the node counts and hashes to afterwards, and for which batches nothing is lost.
 */
module TrieBatch {
  import opened Bytes
  import opened TrieSpec
  import opened TrieStore
  import opened TrieNode
  import opened TrieQuery

  // ---- parts of a batch ----

  /** The keys that continue with c, in batch order. */
  function GroupOf(ks: seq<Key>, d: nat, c: byte): seq<Key> {
    if ks == [] then []
    else
      var last := ks[|ks| - 1];
      GroupOf(ks[..|ks| - 1], d, c) + if d < |last| && last[d] == c then [last] else []
  }

  function Without(ks: seq<Key>, key: Key): seq<Key> {
    if ks == [] then []
    else
      var last := ks[|ks| - 1];
      Without(ks[..|ks| - 1], key) + if last == key then [] else [last]
  }

  lemma {:induction false} GroupOfKeys(ks: seq<Key>, d: nat, c: byte)
    ensures KeySet(GroupOf(ks, d, c)) == Sub(KeySet(ks), d, c)
    ensures GroupOf(ks, d, c) == [] <==> Sub(KeySet(ks), d, c) == {}
  {
    if ks != [] {
      var init, last := ks[..|ks| - 1], ks[|ks| - 1];
      GroupOfKeys(init, d, c);
      assert ks == init + [last];
      assert KeySet(ks) == KeySet(init) + {last};
      assert Sub(KeySet(ks), d, c) == Sub(KeySet(init), d, c) + Sub({last}, d, c);
    }
    NoKeys(GroupOf(ks, d, c));
  }

  lemma NoKeys(ks: seq<Key>)
    ensures ks == [] <==> KeySet(ks) == {}
  {
    if ks != [] {
      assert ks[0] in KeySet(ks);
    }
  }

  lemma {:induction false} WithoutKeys(ks: seq<Key>, key: Key)
    ensures KeySet(Without(ks, key)) == KeySet(ks) - {key}
  {
    if ks != [] {
      var init, last := ks[..|ks| - 1], ks[|ks| - 1];
      WithoutKeys(init, key);
      assert ks == init + [last];
      assert KeySet(ks) == KeySet(init) + {last};
      KeySetConcat(Without(init, key), if last == key then [] else [last]);
    }
  }

  lemma KeySetConcat(a: seq<Key>, b: seq<Key>)
    ensures KeySet(a + b) == KeySet(a) + KeySet(b)
  {
  }

  lemma GroupShrinks(ks: seq<Key>, U: set<Key>, d: nat, c: byte)
    requires GroupOf(ks, d, c) != []
    ensures Sub(U, d, c) + KeySet(GroupOf(ks, d, c)) == Sub(U + KeySet(ks), d, c)
    ensures Rest(Sub(U, d, c) + KeySet(GroupOf(ks, d, c)), d + 1) < Rest(U + KeySet(ks), d)
  {
    GroupOfKeys(ks, d, c);
    assert Sub(U, d, c) + Sub(KeySet(ks), d, c) == Sub(U + KeySet(ks), d, c);
    RestShrinks(U + KeySet(ks), d, c);
  }

  // ---- the node first ----

  /** The batch reaches a leaf without a key. */
  ghost predicate AtEmptyLeaf(T: set<Key>, d: nat) {
    T == {} && d >= TIMESTAMP_LENGTH
  }

  function Last(keys: seq<Key>): Key
    requires keys != []
  {
    keys[|keys| - 1]
  }

  /** The keys that go to children: at a leaf, those other than the leaf's own, which may be the last of the batch. */
  ghost function Passed(keys: seq<Key>, T: set<Key>, d: nat): seq<Key>
    requires keys != []
  {
    if AtEmptyLeaf(T, d) then Without(keys[..|keys| - 1], Last(keys))
    else if Lone(T, d) then Without(keys, Only(T))
    else keys
  }

  /** What the node holds once it has taken a key itself. */
  ghost function Taken(keys: seq<Key>, T: set<Key>, d: nat): set<Key>
    requires keys != []
  {
    if AtEmptyLeaf(T, d) then {Last(keys)} else T
  }

  /** Whether an empty leaf reports the key it takes. */
  ghost function OwnReport(keys: seq<Key>, T: set<Key>, d: nat): nat
    requires keys != []
  {
    if AtEmptyLeaf(T, d) && (|keys| == 1 || keys[0] != Last(keys)) then 1 else 0
  }

  lemma PassedKeys(keys: seq<Key>, T: set<Key>, d: nat)
    requires keys != []
    ensures Taken(keys, T, d) + KeySet(Passed(keys, T, d)) == T + KeySet(keys)
    ensures AtEmptyLeaf(T, d) || Lone(T, d) ==> KeySet(Passed(keys, T, d)) !! Taken(keys, T, d)
  {
    hide Without;
    if AtEmptyLeaf(T, d) {
      var init, last := keys[..|keys| - 1], Last(keys);
      WithoutKeys(init, last);
      InitKeys(keys);
      assert {last} + KeySet(Without(init, last)) == KeySet(keys);
    } else if Lone(T, d) {
      WithoutKeys(keys, Only(T));
    }
  }

  lemma InitKeys(keys: seq<Key>)
    requires keys != []
    ensures KeySet(keys) == KeySet(keys[..|keys| - 1]) + {Last(keys)}
  {
    assert keys == keys[..|keys| - 1] + [Last(keys)];
  }

  // ---- what is reported, counted and hashed ----

  /** How many insertions the batch reports. */
  ghost function Reported(keys: seq<Key>, T: set<Key>, d: nat): nat
    requires keys != []
    decreases Rest(T + KeySet(keys), d), 257
  {
    PassedKeys(keys, T, d);
    OwnReport(keys, T, d) + Below(Passed(keys, T, d), Taken(keys, T, d), d, 256)
  }

  /** How many insertions the children with a byte below i report. */
  ghost function Below(ks: seq<Key>, U: set<Key>, d: nat, i: nat): nat
    requires i <= 256
    decreases Rest(U + KeySet(ks), d), i
  {
    if i == 0 then 0
    else
      var c := (i - 1) as byte;
      Below(ks, U, d, i - 1) +
      if GroupOf(ks, d, c) == [] then 0
      else GroupShrinks(ks, U, d, c); Reported(GroupOf(ks, d, c), Sub(U, d, c), d + 1)
  }

  /** The item count of the node afterwards. */
  ghost function ItemsAfter(keys: seq<Key>, T: set<Key>, d: nat): nat
    requires keys != []
  {
    |Taken(keys, T, d)| + Below(Passed(keys, T, d), Taken(keys, T, d), d, 256)
  }

  /** The hash of a node whose children report nothing: that of the leaf it became, of its split, or its prior one. */
  ghost function HashBefore(keys: seq<Key>, T: set<Key>, d: nat, prior: Bytes): Bytes
    requires keys != []
  {
    if AtEmptyLeaf(T, d) && Passed(keys, T, d) == [] then BLAKE3_20(Last(keys))
    else if (AtEmptyLeaf(T, d) || Lone(T, d)) && Passed(keys, T, d) != [] then InnerHash(Taken(keys, T, d), d)
    else prior
  }

  /** The hash of the node afterwards, prior being its hash before. */
  ghost function HashAfter(keys: seq<Key>, T: set<Key>, d: nat, prior: Bytes): Bytes
    requires keys != []
    decreases Rest(T + KeySet(keys), d), 258
  {
    PassedKeys(keys, T, d);
    var ks, U := Passed(keys, T, d), Taken(keys, T, d);
    if Below(ks, U, d, 256) > 0 then BLAKE3_20(CatAfter(ks, U, d, 256)) else HashBefore(keys, T, d, prior)
  }

  ghost function OldHash(U: set<Key>, d: nat, c: byte): Bytes {
    if Sub(U, d, c) == {} then [] else NodeHash(Sub(U, d, c), d + 1)
  }

  /** The hash of the child c afterwards. */
  ghost function ChildHash(ks: seq<Key>, U: set<Key>, d: nat, c: byte): Bytes
    decreases Rest(U + KeySet(ks), d), 0
  {
    if GroupOf(ks, d, c) == [] then OldHash(U, d, c)
    else GroupShrinks(ks, U, d, c); HashAfter(GroupOf(ks, d, c), Sub(U, d, c), d + 1, OldHash(U, d, c))
  }

  ghost function CatAfter(ks: seq<Key>, U: set<Key>, d: nat, i: nat): Bytes
    requires i <= 256
    decreases Rest(U + KeySet(ks), d), i
  {
    if i == 0 then [] else CatAfter(ks, U, d, i - 1) + ChildHash(ks, U, d, (i - 1) as byte)
  }

  // ---- when nothing is lost ----

  /**
   Every new key of the batch is reported: at no empty leaf that several keys reach is the first of them also the last.
   */
  ghost predicate Lossless(keys: seq<Key>, T: set<Key>, d: nat)
    requires keys != []
    decreases Rest(T + KeySet(keys), d), 2
  {
    PassedKeys(keys, T, d);
    (AtEmptyLeaf(T, d) ==> |keys| == 1 || keys[0] != Last(keys)) && Sound(keys, T, d)
  }

  /** The node holds all keys afterwards, whether or not it reports them. */
  ghost predicate Sound(keys: seq<Key>, T: set<Key>, d: nat)
    requires keys != []
    decreases Rest(T + KeySet(keys), d), 1
  {
    PassedKeys(keys, T, d);
    LosslessBelow(Passed(keys, T, d), Taken(keys, T, d), d)
  }

  ghost predicate LosslessBelow(ks: seq<Key>, U: set<Key>, d: nat)
    decreases Rest(U + KeySet(ks), d), 0
  {
    forall c: byte | GroupOf(ks, d, c) != [] ::
      GroupShrinks(ks, U, d, c);
      Lossless(GroupOf(ks, d, c), Sub(U, d, c), d + 1)
  }

  // ---- reports and losses ----

  /** The batch and the keys below p can live in one trie. */
  ghost predicate Joint(ks: seq<Key>, U: set<Key>, p: Key) {
    Fits(U, p) && Fits(KeySet(ks), p) && PrefixFree(U + KeySet(ks))
  }

  lemma PassedJoint(keys: seq<Key>, T: set<Key>, p: Key)
    requires keys != [] && Joint(keys, T, p)
    ensures Joint(Passed(keys, T, |p|), Taken(keys, T, |p|), p)
    ensures Passed(keys, T, |p|) != [] ==>
              !Lone(T + KeySet(keys), |p|) && forall k | k in T + KeySet(keys) :: |p| < |k|
  {
    var d, X := |p|, T + KeySet(keys);
    var ks, U := Passed(keys, T, d), Taken(keys, T, d);
    PassedKeys(keys, T, d);
    assert forall k | k in U + KeySet(ks) :: k in X;
    if ks != [] {
      NoKeys(ks);
      if AtEmptyLeaf(T, d) || Lone(T, d) {
        var k, u :| k in KeySet(ks) && u in U;
        assert k in X && u in X && k != u;
        CardinalityMonotone({k, u}, X);
      } else {
        CardinalityMonotone(T, X);
      }
      InnerKeysAreLonger(X, p);
    }
  }

  lemma GroupJoint(ks: seq<Key>, U: set<Key>, p: Key, c: byte)
    requires Joint(ks, U, p)
    ensures Joint(GroupOf(ks, |p|, c), Sub(U, |p|, c), p + [c])
  {
    GroupOfKeys(ks, |p|, c);
    SubFits(U, p, c);
    SubFits(KeySet(ks), p, c);
    assert Sub(U, |p|, c) + Sub(KeySet(ks), |p|, c) <= U + KeySet(ks);
  }

  lemma {:induction false} NothingBelow(U: set<Key>, d: nat, i: nat)
    requires i <= 256
    ensures Below([], U, d, i) == 0
    decreases i
  {
    if i > 0 {
      NothingBelow(U, d, i - 1);
    }
  }

  /** The new keys are the one an empty leaf takes and those passed on. */
  lemma NewKeys(keys: seq<Key>, T: set<Key>, d: nat)
    requires keys != []
    ensures |KeySet(keys) - T| ==
            (if AtEmptyLeaf(T, d) then 1 else 0) + |KeySet(Passed(keys, T, d)) - Taken(keys, T, d)|
  {
    PassedKeys(keys, T, d);
    hide Passed, KeySet;
    NewCount(KeySet(keys), T, KeySet(Passed(keys, T, d)), Taken(keys, T, d), Last(keys));
  }

  lemma NewCount(A: set<Key>, T: set<Key>, P: set<Key>, U: set<Key>, k: Key)
    requires T + A == U + P
    ensures T == {} && U == {k} && P !! U ==> |A - T| == 1 + |P - U|
    ensures U == T ==> |A - T| == |P - U|
  {
    if T == {} && U == {k} && P !! U {
      assert A - T == P + {k} && P - U == P;
    }
    if U == T {
      assert A - T == P - U;
    }
  }

  lemma BelowStep(ks: seq<Key>, U: set<Key>, d: nat, i: nat)
    requires 0 < i <= 256
    ensures var c := (i - 1) as byte;
            Below(ks, U, d, i) ==
            Below(ks, U, d, i - 1) +
            if GroupOf(ks, d, c) == [] then 0 else Reported(GroupOf(ks, d, c), Sub(U, d, c), d + 1)
  {
  }

  lemma ReportedIs(keys: seq<Key>, T: set<Key>, d: nat)
    requires keys != []
    ensures Reported(keys, T, d) == OwnReport(keys, T, d) + Below(Passed(keys, T, d), Taken(keys, T, d), d, 256)
    ensures Lossless(keys, T, d) <==> (AtEmptyLeaf(T, d) ==> OwnReport(keys, T, d) == 1) && Sound(keys, T, d)
    ensures Sound(keys, T, d) <==> LosslessBelow(Passed(keys, T, d), Taken(keys, T, d), d)
    ensures OwnReport(keys, T, d) <= if AtEmptyLeaf(T, d) then 1 else 0
  {
  }

  lemma LosslessNothing(U: set<Key>, d: nat)
    ensures LosslessBelow([], U, d) && KeySet([]) - U == {}
  {
  }

  /** The keys of the node afterwards. */
  lemma TakenCount(keys: seq<Key>, T: set<Key>, d: nat)
    requires keys != []
    ensures |T + KeySet(keys)| == |Taken(keys, T, d)| + |KeySet(Passed(keys, T, d)) - Taken(keys, T, d)|
  {
    var U, P := Taken(keys, T, d), KeySet(Passed(keys, T, d));
    PassedKeys(keys, T, d);
    assert U + P == U + (P - U);
  }

  /** No more is reported than is new, and all of it exactly when nothing is lost. */
  lemma {:induction false} ReportedBound(keys: seq<Key>, T: set<Key>, p: Key)
    requires keys != [] && Joint(keys, T, p)
    ensures Reported(keys, T, |p|) <= |KeySet(keys) - T|
    ensures Reported(keys, T, |p|) == |KeySet(keys) - T| <==> Lossless(keys, T, |p|)
    ensures ItemsAfter(keys, T, |p|) <= |T + KeySet(keys)|
    ensures ItemsAfter(keys, T, |p|) == |T + KeySet(keys)| <==> Sound(keys, T, |p|)
    decreases Rest(T + KeySet(keys), |p|), 257
  {
    hide Reported, Below, Lossless, Sound, LosslessBelow, OwnReport, Passed, Taken, AtEmptyLeaf, KeySet, Joint, Rest;
    var d := |p|;
    var ks, U := Passed(keys, T, d), Taken(keys, T, d);
    PassedKeys(keys, T, d);
    PassedJoint(keys, T, p);
    NewKeys(keys, T, d);
    TakenCount(keys, T, d);
    ReportedIs(keys, T, d);
    if ks == [] {
      NothingBelow(U, d, 256);
      LosslessNothing(U, d);
    } else {
      BelowBound(ks, U, p, 256);
      AllNew(ks, U, p, T + KeySet(keys));
      LosslessBelowIs(ks, U, d);
    }
  }

  lemma AllNew(ks: seq<Key>, U: set<Key>, p: Key, X: set<Key>)
    requires (forall k | k in X :: |p| < |k|) && U + KeySet(ks) == X
    ensures Lower(KeySet(ks) - U, |p|, 256) == KeySet(ks) - U
  {
    assert forall k | k in KeySet(ks) :: k in X;
  }

  lemma LosslessBelowIs(ks: seq<Key>, U: set<Key>, d: nat)
    ensures LosslessBelow(ks, U, d) <==>
            forall c: byte | c as nat < 256 && GroupOf(ks, d, c) != [] ::
              Lossless(GroupOf(ks, d, c), Sub(U, d, c), d + 1)
  {
    hide Lossless;
  }

  lemma {:induction false} BelowBound(ks: seq<Key>, U: set<Key>, p: Key, i: nat)
    requires Joint(ks, U, p) && i <= 256
    ensures Below(ks, U, |p|, i) <= |Lower(KeySet(ks) - U, |p|, i)|
    ensures Below(ks, U, |p|, i) == |Lower(KeySet(ks) - U, |p|, i)| <==>
            forall c: byte | c as nat < i && GroupOf(ks, |p|, c) != [] ::
              Lossless(GroupOf(ks, |p|, c), Sub(U, |p|, c), |p| + 1)
    decreases Rest(U + KeySet(ks), |p|), i
  {
    hide Reported, Lossless, KeySet, Joint, Rest, Sub, GroupOf, Lower, Below;
    if i == 0 {
      NoneLower(ks, U, |p|);
    } else {
      var c := (i - 1) as byte;
      BelowBound(ks, U, p, i - 1);
      GroupBound(ks, U, p, c);
      BelowStep(ks, U, |p|, i);
      LowerCount(KeySet(ks) - U, |p|, i - 1);
    }
  }

  lemma NoneLower(ks: seq<Key>, U: set<Key>, d: nat)
    ensures Below(ks, U, d, 0) == 0 && Lower(KeySet(ks) - U, d, 0) == {}
  {
  }

  lemma GroupBound(ks: seq<Key>, U: set<Key>, p: Key, c: byte)
    requires Joint(ks, U, p)
    ensures GroupOf(ks, |p|, c) == [] ==> |Sub(KeySet(ks) - U, |p|, c)| == 0
    ensures GroupOf(ks, |p|, c) != [] ==>
              var n := Reported(GroupOf(ks, |p|, c), Sub(U, |p|, c), |p| + 1);
              && n <= |Sub(KeySet(ks) - U, |p|, c)|
              && (n == |Sub(KeySet(ks) - U, |p|, c)| <==> Lossless(GroupOf(ks, |p|, c), Sub(U, |p|, c), |p| + 1))
    decreases Rest(U + KeySet(ks), |p|), 0
  {
    hide Reported, Lossless, Joint, Rest, GroupOf;
    var d := |p|;
    GroupOfKeys(ks, d, c);
    assert Sub(KeySet(ks) - U, d, c) == Sub(KeySet(ks), d, c) - Sub(U, d, c);
    if GroupOf(ks, d, c) != [] {
      GroupShrinks(ks, U, d, c);
      GroupJoint(ks, U, p, c);
      ReportedBound(GroupOf(ks, d, c), Sub(U, d, c), p + [c]);
    }
  }

  // ---- hashes ----

  /** When nothing is lost below, the node has the hash of all its keys. */
  lemma {:induction false} HashIsRight(keys: seq<Key>, T: set<Key>, p: Key, prior: Bytes)
    requires keys != [] && Joint(keys, T, p) && Sound(keys, T, |p|) && (T != {} ==> prior == NodeHash(T, |p|))
    ensures HashAfter(keys, T, |p|, prior) == NodeHash(T + KeySet(keys), |p|)
    decreases Rest(T + KeySet(keys), |p|), 257
  {
    var d, X := |p|, T + KeySet(keys);
    var ks, U := Passed(keys, T, d), Taken(keys, T, d);
    PassedKeys(keys, T, d);
    PassedJoint(keys, T, p);
    if ks == [] {
      NothingBelow(U, d, 256);
      LoneIsOnly(keys, T, d);
    } else {
      BelowBound(ks, U, p, 256);
      FullSegment(KeySet(ks) - U, d);
      CatIsRight(ks, U, p, 256);
      if Below(ks, U, d, 256) == 0 {
        assert KeySet(ks) - U == {};
        NoKeys(ks);
        assert U + KeySet(ks) == U;
      }
    }
  }

  lemma LoneIsOnly(keys: seq<Key>, T: set<Key>, d: nat)
    requires keys != [] && Passed(keys, T, d) == []
    ensures HashBefore(keys, T, d, NodeHash(T, d)) == NodeHash(T + KeySet(keys), d) &&
            T + KeySet(keys) == Taken(keys, T, d)
    ensures AtEmptyLeaf(T, d) || T != {}
  {
    PassedKeys(keys, T, d);
    assert Taken(keys, T, d) + KeySet([]) == Taken(keys, T, d);
    if AtEmptyLeaf(T, d) {
      assert Only({Last(keys)}) == Last(keys);
    }
  }

  lemma {:induction false} CatIsRight(ks: seq<Key>, U: set<Key>, p: Key, i: nat)
    requires Joint(ks, U, p) && LosslessBelow(ks, U, |p|) && i <= 256
    ensures CatAfter(ks, U, |p|, i) == HashCat(U + KeySet(ks), |p|, i)
    decreases Rest(U + KeySet(ks), |p|), i
  {
    hide Lossless, LosslessBelow, KeySet, Joint, Rest, Sub, GroupOf, HashCat, CatAfter, NodeHash, ChildHash, OldHash;
    if i == 0 {
      NoHashes(ks, U, |p|);
    } else {
      var c := (i - 1) as byte;
      CatIsRight(ks, U, p, i - 1);
      HashCatStep(U + KeySet(ks), |p|, i - 1);
      CatStep(ks, U, |p|, i);
      ChildHashIsRight(ks, U, p, c);
    }
  }

  lemma NoHashes(ks: seq<Key>, U: set<Key>, d: nat)
    ensures CatAfter(ks, U, d, 0) == HashCat(U + KeySet(ks), d, 0)
  {
  }

  lemma CatStep(ks: seq<Key>, U: set<Key>, d: nat, i: nat)
    requires 0 < i <= 256
    ensures CatAfter(ks, U, d, i) == CatAfter(ks, U, d, i - 1) + ChildHash(ks, U, d, (i - 1) as byte)
  {
    hide ChildHash;
  }

  lemma ChildHashIsRight(ks: seq<Key>, U: set<Key>, p: Key, c: byte)
    requires Joint(ks, U, p) && LosslessBelow(ks, U, |p|)
    ensures var S := Sub(U + KeySet(ks), |p|, c);
            ChildHash(ks, U, |p|, c) == if S == {} then [] else NodeHash(S, |p| + 1)
    decreases Rest(U + KeySet(ks), |p|), 0
  {
    hide Joint, Rest, GroupOf, NodeHash, Lossless;
    var d, X := |p|, U + KeySet(ks);
    GroupOfKeys(ks, d, c);
    if GroupOf(ks, d, c) == [] {
      assert Sub(X, d, c) == Sub(U, d, c) + Sub(KeySet(ks), d, c);
      assert Sub(X, d, c) == Sub(U, d, c);
    } else {
      GroupShrinks(ks, U, d, c);
      GroupJoint(ks, U, p, c);
      ReportedIs(GroupOf(ks, d, c), Sub(U, d, c), d + 1);
      HashIsRight(GroupOf(ks, d, c), Sub(U, d, c), p + [c], OldHash(U, d, c));
      assert |p + [c]| == d + 1;
    }
  }

  // ---- batches without repeats, and batches of one repeated key ----

  /** A key that is not in T occurs at most once. */
  lemma {:induction false} OnceByCount(keys: seq<Key>, T: set<Key>)
    ensures OnceIfAbsent(keys, T) <==> forall k | k !in T :: multiset(keys)[k] <= 1
  {
    if keys != [] {
      var m := |keys| - 1;
      var init, last := keys[..m], keys[m];
      OnceByCount(init, T);
      assert keys == init + [last];
      assert multiset(keys) == multiset(init) + multiset{last};
      if OnceIfAbsent(keys, T) {
        assert OnceIfAbsent(init, T);
        assert last in T || last !in init;
      }
      if forall k | k !in T :: multiset(keys)[k] <= 1 {
        forall k | k !in T ensures multiset(init)[k] <= 1 {
          assert multiset(keys)[k] <= 1;
        }
        forall i, j | 0 <= i < j < |keys| && keys[i] == keys[j]
          ensures keys[i] in T
        {
          if j == m {
            assert last in multiset(init) by { assert init[i] == last; }
          } else {
            assert init[i] == init[j];
          }
        }
      }
    }
  }

  lemma {:induction false} GroupCount(ks: seq<Key>, d: nat, c: byte)
    ensures multiset(GroupOf(ks, d, c)) <= multiset(ks)
  {
    if ks != [] {
      var init, last := ks[..|ks| - 1], ks[|ks| - 1];
      GroupCount(init, d, c);
      assert ks == init + [last];
    }
  }

  lemma {:induction false} WithoutCount(ks: seq<Key>, key: Key)
    ensures multiset(Without(ks, key)) <= multiset(ks)
  {
    if ks != [] {
      var init, last := ks[..|ks| - 1], ks[|ks| - 1];
      WithoutCount(init, key);
      assert ks == init + [last];
    }
  }

  lemma PassedOnce(keys: seq<Key>, T: set<Key>, d: nat)
    requires keys != [] && OnceIfAbsent(keys, T)
    ensures OnceIfAbsent(Passed(keys, T, d), Taken(keys, T, d))
    ensures AtEmptyLeaf(T, d) && |keys| > 1 ==> keys[0] != Last(keys)
  {
    var ks := Passed(keys, T, d);
    OnceByCount(keys, T);
    assert multiset(ks) <= multiset(keys) by {
      var init := keys[..|keys| - 1];
      assert keys == init + [Last(keys)];
      WithoutCount(init, Last(keys));
      if Lone(T, d) {
        WithoutCount(keys, Only(T));
      }
    }
    OnceByCount(ks, Taken(keys, T, d));
  }

  lemma GroupOnce(ks: seq<Key>, U: set<Key>, d: nat, c: byte)
    requires OnceIfAbsent(ks, U)
    ensures OnceIfAbsent(GroupOf(ks, d, c), Sub(U, d, c))
  {
    var g := GroupOf(ks, d, c);
    OnceByCount(ks, U);
    GroupCount(ks, d, c);
    GroupOfKeys(ks, d, c);
    forall k | k !in Sub(U, d, c)
      ensures multiset(g)[k] <= 1
    {
      if k in g {
        assert k in KeySet(g);
      }
    }
    OnceByCount(g, Sub(U, d, c));
  }

  /** A batch that repeats no new key loses nothing. */
  lemma {:induction false} OnceIsLossless(keys: seq<Key>, T: set<Key>, d: nat)
    requires keys != [] && OnceIfAbsent(keys, T)
    ensures Lossless(keys, T, d)
    decreases Rest(T + KeySet(keys), d)
  {
    hide OnceIfAbsent, Rest, GroupOf, Without;
    var ks, U := Passed(keys, T, d), Taken(keys, T, d);
    PassedKeys(keys, T, d);
    PassedOnce(keys, T, d);
    forall c: byte | GroupOf(ks, d, c) != []
      ensures Lossless(GroupOf(ks, d, c), Sub(U, d, c), d + 1)
    {
      GroupShrinks(ks, U, d, c);
      GroupOnce(ks, U, d, c);
      OnceIsLossless(GroupOf(ks, d, c), Sub(U, d, c), d + 1);
    }
    assert LosslessBelow(ks, U, d);
  }

  /** Of one new key given twice, nothing is reported. */
  lemma {:induction false} TwiceIsLost(k: Key, T: set<Key>, p: Key)
    requires k !in T && Joint([k, k], T, p)
    ensures Reported([k, k], T, |p|) == 0 && !Lossless([k, k], T, |p|)
    decreases Rest(T + KeySet([k, k]), |p|)
  {
    var keys, d := [k, k], |p|;
    var ks, U := Passed(keys, T, d), Taken(keys, T, d);
    hide Reported, Lossless, Sound, Below, LosslessBelow, Joint, Rest, Passed, Taken, OwnReport, GroupOf, Without, Sub,
         KeySet;
    ReportedIs(keys, T, d);
    TwicePassed(k, T, d);
    PassedKeys(keys, T, d);
    PassedJoint(keys, T, p);
    if AtEmptyLeaf(T, d) {
      NothingBelow(U, d, 256);
    } else {
      TwiceNew(k, T, d);
      var c := k[d];
      TwiceGroups(k, d, c);
      GroupShrinks(keys, T, d, c);
      GroupJoint(keys, T, p, c);
      TwiceIsLost(k, Sub(T, d, c), p + [c]);
      TwiceBelow(k, T, d, 256);
      LosslessBelowIs(keys, T, d);
    }
  }

  lemma TwiceNew(k: Key, T: set<Key>, d: nat)
    requires k !in T
    ensures k in T + KeySet([k, k]) && forall c: byte :: k !in Sub(T, d, c)
  {
  }

  lemma TwicePassed(k: Key, T: set<Key>, d: nat)
    requires k !in T
    ensures var keys := [k, k];
            if AtEmptyLeaf(T, d) then Passed(keys, T, d) == [] && OwnReport(keys, T, d) == 0
            else Passed(keys, T, d) == keys && Taken(keys, T, d) == T && OwnReport(keys, T, d) == 0
  {
    assert [k, k][..1] == [k] && [k][..0] == [];
    if AtEmptyLeaf(T, d) {
      assert Without([k], k) == [];
    } else if Lone(T, d) {
      assert Without([k], Only(T)) == [k];
      assert Without([k, k], Only(T)) == [k, k];
    }
  }

  lemma TwiceGroups(k: Key, d: nat, c: byte)
    requires d < |k|
    ensures GroupOf([k, k], d, c) == if k[d] == c then [k, k] else []
  {
    assert [k, k][..1] == [k] && [k][..0] == [];
    assert GroupOf([k], d, c) == if k[d] == c then [k] else [];
  }

  lemma {:induction false} TwiceBelow(k: Key, T: set<Key>, d: nat, i: nat)
    requires d < |k| && i <= 256 && Reported([k, k], Sub(T, d, k[d]), d + 1) == 0
    ensures Below([k, k], T, d, i) == 0
    decreases i
  {
    hide Below, Reported, GroupOf, Sub, Rest;
    if i == 0 {
      NoneLower([k, k], T, d);
    } else {
      TwiceBelow(k, T, d, i - 1);
      TwiceGroups(k, d, (i - 1) as byte);
      BelowStep([k, k], T, d, i);
    }
  }

  /** When no new key is repeated and all new keys are reported, each is reported at its own position. */
  lemma OnceResults(keys: seq<Key>, rs: seq<bool>, T: set<Key>)
    requires |rs| == |keys| && OnceIfAbsent(keys, T) && CountTrue(rs) == |KeySet(keys) - T|
    requires forall i | 0 <= i < |keys| && rs[i] :: keys[i] !in T
    ensures forall i | 0 <= i < |keys| :: rs[i] <==> keys[i] !in T
  {
    var novel := seq(|keys|, i requires 0 <= i < |keys| => keys[i] !in T);
    SuccessesAreNewKeys(keys, novel, T);
    SameCount(rs, novel);
  }

  lemma {:induction false} SameCount(a: seq<bool>, b: seq<bool>)
    requires |a| == |b| && forall i | 0 <= i < |a| && a[i] :: b[i]
    ensures CountTrue(a) <= CountTrue(b) && (CountTrue(a) == CountTrue(b) ==> a == b)
  {
    if a != [] {
      var m := |a| - 1;
      SameCount(a[..m], b[..m]);
      assert a == a[..m] + [a[m]] && b == b[..m] + [b[m]];
    }
  }
}
