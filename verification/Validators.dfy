/**
 The validator set of a shard and the choice of a proposer.
 */
module Validators {
  import opened Bytes

  /** A validator; what is beyond the shard and the address never decides the order, since addresses are unique. */
  datatype Validator = Validator(shardIndex: nat, address: Bytes, info: Bytes)

  ghost predicate Ascending(vs: seq<Validator>) {
    forall i, j | 0 <= i < j < |vs| :: Less(vs[i].address, vs[j].address)
  }

  ghost predicate OneShard(vs: seq<Validator>) {
    forall i, j | 0 <= i < |vs| && 0 <= j < |vs| :: vs[i].shardIndex == vs[j].shardIndex
  }

  ghost function Addresses(vs: seq<Validator>): set<Bytes> {
    set v | v in vs :: v.address
  }

  function AddressList(vs: seq<Validator>): (r: seq<Bytes>)
    ensures |r| == |vs| && forall i | 0 <= i < |vs| :: r[i] == vs[i].address
  {
    seq(|vs|, i requires 0 <= i < |vs| => vs[i].address)
  }

  /** What registering a validator does: nothing when its address is known or its shard is another one. */
  ghost predicate Joins(vs: seq<Validator>, v: Validator) {
    v.address !in Addresses(vs) && (vs != [] ==> vs[0].shardIndex == v.shardIndex)
  }

  class ValidatorSet {
    var validators: seq<Validator>

    ghost predicate Valid()
      reads this
    {
      Ascending(validators) && OneShard(validators)
    }

    constructor (vs: seq<Validator>)
      ensures Valid()
      ensures (forall v, w | v in vs && w in vs :: v.shardIndex == w.shardIndex) ==>
                Addresses(validators) == Addresses(vs)
      ensures forall v | v in validators :: v in vs
    {
      validators := [];
      new;
      for i := 0 to |vs|
        invariant Valid()
        invariant forall v | v in validators :: v in vs
        invariant (forall v, w | v in vs && w in vs :: v.shardIndex == w.shardIndex) ==>
                    Addresses(validators) == Addresses(vs[..i])
      {
        var before := validators;
        var added := Add(vs[i]);
        assert vs[..i + 1] == vs[..i] + [vs[i]];
        assert Addresses(vs[..i + 1]) == Addresses(vs[..i]) + {vs[i].address};
        if before != [] {
          assert before[0] in before && vs[i] in vs;
        }
      }
      assert vs[..|vs|] == vs;
    }

    method Exists(address: Bytes) returns (found: bool)
      ensures found <==> address in Addresses(validators)
    {
      found := exists v | v in validators :: v.address == address;
    }

    /** Adds a validator and keeps the set sorted by address. */
    method Add(v: Validator) returns (added: bool)
      requires Valid()
      modifies this
      ensures Valid() && (added <==> Joins(old(validators), v))
      ensures !added ==> validators == old(validators)
      ensures added ==> multiset(validators) == multiset(old(validators)) + multiset{v}
      ensures added ==> Addresses(validators) == Addresses(old(validators)) + {v.address}
      ensures forall w | w in validators :: w in old(validators) || w == v
    {
      var known := Exists(v.address);
      if known {
        return false;
      }
      if validators != [] && validators[0].shardIndex != v.shardIndex {
        return false;
      }
      validators := SortIn(validators, v);
      return true;
    }
  }

  /** Pushing an element onto a sorted list and sorting again moves it to its place. */
  method SortIn(vs: seq<Validator>, v: Validator) returns (r: seq<Validator>)
    requires Ascending(vs) && OneShard(vs) && Joins(vs, v)
    ensures Ascending(r) && OneShard(r)
    ensures multiset(r) == multiset(vs) + multiset{v}
    ensures Addresses(r) == Addresses(vs) + {v.address}
    ensures forall w | w in r :: w in vs || w == v
  {
    var i := |vs|;
    while i > 0 && Less(v.address, vs[i - 1].address)
      invariant 0 <= i <= |vs|
      invariant forall k | i <= k < |vs| :: Less(v.address, vs[k].address)
    {
      i := i - 1;
    }
    r := vs[..i] + [v] + vs[i..];
    if i > 0 {
      assert vs[i - 1] in vs;
      CompareSigns(v.address, vs[i - 1].address);
    }
    forall k | 0 <= k < i
      ensures Less(vs[k].address, v.address)
    {
      if k < i - 1 {
        LessTransitive(vs[k].address, vs[i - 1].address, v.address);
      }
    }
    Placed(vs, v, i, r);
  }

  lemma Placed(vs: seq<Validator>, v: Validator, i: nat, r: seq<Validator>)
    requires i <= |vs| && r == vs[..i] + [v] + vs[i..] && Ascending(vs) && OneShard(vs) && Joins(vs, v)
    requires forall k | 0 <= k < i :: Less(vs[k].address, v.address)
    requires forall k | i <= k < |vs| :: Less(v.address, vs[k].address)
    ensures Ascending(r) && OneShard(r)
    ensures multiset(r) == multiset(vs) + multiset{v}
    ensures Addresses(r) == Addresses(vs) + {v.address}
    ensures forall w | w in r :: w in vs || w == v
  {
    hide Less;
    assert vs == vs[..i] + vs[i..];
    forall w ensures w in r <==> w in vs || w == v {}
  }

  /** Two strictly ascending lists with the same addresses are the same list. */
  lemma {:induction false} SameAddressesSameList(a: seq<Validator>, b: seq<Validator>)
    requires Ascending(a) && Ascending(b) && Addresses(a) == Addresses(b)
    ensures AddressList(a) == AddressList(b)
  {
    EmptyTogether(a, b);
    if a != [] {
      var x, y := a[|a| - 1], b[|b| - 1];
      LastIsGreatest(a, b);
      var a', b' := a[..|a| - 1], b[..|b| - 1];
      WithoutLast(a);
      WithoutLast(b);
      SameAddressesSameList(a', b');
      assert AddressList(a) == AddressList(a') + [x.address];
      assert AddressList(b) == AddressList(b') + [y.address];
    }
  }

  lemma EmptyTogether(a: seq<Validator>, b: seq<Validator>)
    requires Addresses(a) == Addresses(b)
    ensures a == [] <==> b == []
  {
    assert a == [] || a[0].address in Addresses(a);
    assert b == [] || b[0].address in Addresses(b);
  }

  lemma LastIsGreatest(a: seq<Validator>, b: seq<Validator>)
    requires a != [] && b != [] && Ascending(a) && Ascending(b) && Addresses(a) == Addresses(b)
    ensures a[|a| - 1].address == b[|b| - 1].address
  {
    var x, y := a[|a| - 1], b[|b| - 1];
    assert x in a && y in b;
    assert x.address in Addresses(b) && y.address in Addresses(a);
    var i :| 0 <= i < |b| && b[i].address == x.address;
    var j :| 0 <= j < |a| && a[j].address == y.address;
    CompareSigns(x.address, y.address);
  }

  lemma WithoutLast(a: seq<Validator>)
    requires a != [] && Ascending(a)
    ensures Addresses(a[..|a| - 1]) == Addresses(a) - {a[|a| - 1].address}
  {
    var x, a' := a[|a| - 1], a[..|a| - 1];
    assert a == a' + [x];
    forall v | v in a' ensures v.address != x.address {
      var i :| 0 <= i < |a'| && a'[i] == v;
      assert Less(a[i].address, a[|a| - 1].address);
      CompareSigns(v.address, x.address);
    }
  }

  // ---- the proposer ----

  function ProposerIndex(n: nat, height: nat, round: nat): (i: nat)
    requires n > 0 && height >= 1
    ensures i < n
  {
    (height - 1 + round) % n
  }

  /** The validator whose turn it is. */
  function ProposerOf(vs: seq<Validator>, height: nat, round: nat): Validator
    requires vs != [] && height >= 1
  {
    vs[ProposerIndex(|vs|, height, round)]
  }

  /** The address x is the least of the validators. */
  ghost predicate IsLeast(vs: seq<Validator>, x: Bytes) {
    forall v | v in vs :: v.address == x || Less(x, v.address)
  }

  ghost predicate IsGreatest(vs: seq<Validator>, x: Bytes) {
    forall v | v in vs :: v.address == x || Less(v.address, x)
  }

  /** The address y is the next greater one after x, or x is the greatest and y the least. */
  ghost predicate Follows(vs: seq<Validator>, x: Bytes, y: Bytes) {
    || (Less(x, y) && forall v | v in vs && Less(x, v.address) :: v.address == y || Less(y, v.address))
    || (IsGreatest(vs, x) && IsLeast(vs, y))
  }

  /** Selects the proposer: the least address at height 1 and round 0, and from there on in turn. */
  method SelectProposer(vs: seq<Validator>, height: nat, round: nat) returns (v: Validator)
    requires vs != [] && height >= 1
    ensures v in vs && v == ProposerOf(vs, height, round)
    ensures Ascending(vs) && height == 1 && round == 0 ==> IsLeast(vs, v.address)
  {
    v := vs[ProposerIndex(|vs|, height, round)];
    if height == 1 && round == 0 {
      RemainderIs(0, 0, 0, |vs|);
    }
  }

  /** The next round and the next height move on to the next address. */
  method NextProposers(vs: seq<Validator>, height: nat, round: nat)
    returns (v: Validator, nextRound: Validator, nextHeight: Validator)
    requires vs != [] && Ascending(vs) && height >= 1
    ensures v == ProposerOf(vs, height, round)
    ensures Follows(vs, v.address, nextRound.address) && Follows(vs, v.address, nextHeight.address)
  {
    v := SelectProposer(vs, height, round);
    nextRound := SelectProposer(vs, height, round + 1);
    nextHeight := SelectProposer(vs, height + 1, round);
    NextFollows(vs, height, round);
  }

  lemma NextFollows(vs: seq<Validator>, height: nat, round: nat)
    requires vs != [] && Ascending(vs) && height >= 1
    ensures Follows(vs, ProposerOf(vs, height, round).address, ProposerOf(vs, height, round + 1).address)
    ensures ProposerOf(vs, height + 1, round) == ProposerOf(vs, height, round + 1)
  {
    hide Less;
    var n := |vs|;
    var i := ProposerIndex(n, height, round);
    var j := ProposerIndex(n, height, round + 1);
    if n == 1 {
      assert i == 0 && j == 0;
    } else {
      Rotate(height - 1 + round, 1, n);
    }
    assert j == if i + 1 < n then i + 1 else 0;
    forall v | v in vs
      ensures j == i + 1 && Less(vs[i].address, v.address) ==>
                v.address == vs[j].address || Less(vs[j].address, v.address)
    {
      var k :| 0 <= k < n && vs[k] == v;
      if j == i + 1 && k <= i {
        CompareSigns(vs[i].address, v.address);
        NotAbove(vs, k, i);
      }
    }
  }

  lemma NotAbove(vs: seq<Validator>, k: nat, i: nat)
    requires Ascending(vs) && k <= i < |vs|
    ensures !Less(vs[i].address, vs[k].address)
  {
    CompareSigns(vs[i].address, vs[k].address);
  }

  /** Nodes that registered the same addresses, in any order and with repeats, pick the same proposer every time. */
  lemma ProposersAgree(a: ValidatorSet, b: ValidatorSet, height: nat, round: nat)
    requires a.Valid() && b.Valid() && Addresses(a.validators) == Addresses(b.validators)
    requires a.validators != [] && height >= 1
    ensures b.validators != []
    ensures ProposerOf(a.validators, height, round).address == ProposerOf(b.validators, height, round).address
  {
    SameAddressesSameList(a.validators, b.validators);
    var i := ProposerIndex(|a.validators|, height, round);
    assert AddressList(a.validators)[i] == AddressList(b.validators)[i];
  }

  /** In any n consecutive rounds each of the n validators has exactly one turn. */
  lemma FairRotation(vs: seq<Validator>, height: nat, first: nat, v: Validator) returns (round: nat)
    requires Ascending(vs) && v in vs && height >= 1
    ensures first <= round < first + |vs| && ProposerOf(vs, height, round) == v
    ensures forall r | first <= r < first + |vs| && ProposerOf(vs, height, r).address == v.address :: r == round
  {
    var i :| 0 <= i < |vs| && vs[i] == v;
    round := OneTurn(|vs|, height, first, i);
    forall r | first <= r < first + |vs| && ProposerOf(vs, height, r).address == v.address
      ensures r == round
    {
      var j := ProposerIndex(|vs|, height, r);
      CompareSigns(vs[i].address, vs[j].address);
      CompareSigns(vs[j].address, vs[i].address);
    }
  }

  lemma OneTurn(n: nat, height: nat, first: nat, i: nat) returns (round: nat)
    requires i < n && height >= 1
    ensures first <= round < first + n && ProposerIndex(n, height, round) == i
    ensures forall r | first <= r < first + n && ProposerIndex(n, height, r) == i :: r == round
  {
    var start := ProposerIndex(n, height, first);
    var step := if i >= start then i - start else n - start + i;
    round := first + step;
    forall r | first <= r < first + n
      ensures ProposerIndex(n, height, r) ==
              if start + (r - first) < n then start + (r - first) else start + (r - first) - n
    {
      Rotate(height - 1 + first, r - first, n);
    }
  }

  lemma Rotate(a: nat, k: nat, n: nat)
    requires n > 0 && k < n
    ensures (a + k) % n == if a % n + k < n then a % n + k else a % n + k - n
  {
    var q, s := a / n, a % n;
    assert a == q * n + s;
    if s + k < n {
      RemainderIs(a + k, q, s + k, n);
    } else {
      assert a + k == (q + 1) * n + (s + k - n);
      RemainderIs(a + k, q + 1, s + k - n, n);
    }
  }

  lemma RemainderIs(x: nat, q: nat, r: nat, n: nat)
    requires n > 0 && x == q * n + r && r < n
    ensures x % n == r
  {
    DivisionIsUnique(q, r, x / n, x % n, n);
  }

  lemma DivisionIsUnique(q: int, r: int, q': int, r': int, n: int)
    requires n > 0 && 0 <= r < n && 0 <= r' < n && q * n + r == q' * n + r'
    ensures q == q' && r == r'
  {
    assert (q - q') * n == q * n - q' * n && (q' - q) * n == q' * n - q * n;
    if q > q' {
      Multiple(q - q', n);
    } else if q < q' {
      Multiple(q' - q, n);
    }
  }

  lemma Multiple(k: int, n: int)
    requires k >= 1 && n > 0
    ensures k * n >= n
  {
  }
}
