/**
 What runs of an account store promise: convergence, one holder per address or name, and faithful indices.
 */
module StoreTheorems {
  import opened Bytes
  import opened Messages
  import opened StoreSpec
  import opened StoreLayout
  import opened StoreFields

  // ---- convergence ----

  /** The store after merging a sequence of messages into an empty one. */
  ghost function MergeAll(def: StoreDef, ms: seq<Message>): set<Message> {
    if ms == [] then {} else Step(def, MergeAll(def, ms[..|ms| - 1]), ms[|ms| - 1])
  }

  /** What an empty store holds after merging a sequence of messages. */
  ghost function ActAll(def: StoreDef, ms: seq<Message>): Contents {
    if ms == [] then Whole({}) else Act(def, ActAll(def, ms[..|ms| - 1]), ms[|ms| - 1])
  }

  /** Where nothing is crossed, a store holds what competition by slots leaves, all of it named. */
  lemma {:induction false} ActAllIsMergeAll(def: StoreDef, ms: seq<Message>)
    requires (forall m | m in ms :: Storable(def, m)) && Identified(SetOf(ms)) && Uncrossed(SetOf(ms))
    ensures ActAll(def, ms) == Whole(MergeAll(def, ms)) && WellFormed(def, ActAll(def, ms))
    ensures MergeAll(def, ms) <= SetOf(ms)
  {
    hide Storable, Crossed, Step, Act, WellFormed, Conflicts;
    if ms == [] {
      WholeIsWellFormed(def, {});
      NothingStored(def);
    } else {
      var init, m := ms[..|ms| - 1], ms[|ms| - 1];
      assert ms == init + [m];
      assert SetOf(ms) == SetOf(init) + {m};
      ActAllIsMergeAll(def, init);
      var R := MergeAll(def, init);
      assert R + {m} <= SetOf(ms);
      assert m in ms;
      ActIsStep(def, R, m);
      ActIsWellFormed(def, Whole(R), m);
      StepAddsOnly(def, R, m);
    }
  }

  lemma NothingStored(def: StoreDef)
    ensures Consistent(def, {}) && Compacted({})
  {
  }

  /** Only links are crossed. */
  lemma OnlyLinksCross(def: StoreDef, M: set<Message>)
    requires def != Links && forall m | m in M :: Storable(def, m)
    ensures Uncrossed(M)
  {
    forall m | m in M ensures !m.body.LinkBody? { ShapeOf(def, m); }
  }

  /** Links of one slot, and compact states, are not crossed. */
  lemma OneSlotIsUncrossed(M: set<Message>)
    requires forall a, b | a in M && b in M && a.kind != Compact && b.kind != Compact :: Slot(a) == Slot(b)
    requires forall m | m in M :: Storable(Links, m)
    ensures Uncrossed(M)
  {
    forall m, w | m in M && w in M
      ensures !Crossed(m, w)
    {
      ShapeOf(Links, m);
      ShapeOf(Links, w);
    }
  }

  /** The messages of M that beat every rival in M. */
  ghost function Winners(def: StoreDef, M: set<Message>): set<Message> {
    set m | m in M && forall x | x in M && Conflicts(def, x, m) :: x == m || Precedes(def, x, m)
  }

  /** Competing is an equivalence on M: the messages fall into slots. */
  ghost predicate Slotted(def: StoreDef, M: set<Message>) {
    forall a, b, c | a in M && b in M && c in M && Conflicts(def, a, b) && Conflicts(def, b, c) :: Conflicts(def, a, c)
  }

  /** In every store but that of verifications, messages fall into slots. */
  lemma StoresAreSlotted(def: StoreDef, M: set<Message>)
    requires def != Verifications
    ensures Slotted(def, M)
  {
  }

  /** Verifications fall into slots when there are no removes. */
  lemma VerificationAddsAreSlotted(M: set<Message>)
    requires forall m | m in M :: m.kind == Add
    ensures Slotted(Verifications, M)
  {
  }

  /** R keeps one message per slot, and it is at least as great as every message of M in that slot. */
  ghost predicate Dominates(def: StoreDef, R: set<Message>, M: set<Message>) {
    && R <= M
    && (forall a, b | a in R && b in R && Conflicts(def, a, b) :: a == b)
    && (forall x | x in M :: exists w :: w in R && Conflicts(def, x, w) && (x == w || Precedes(def, x, w)))
  }

  ghost predicate Ordinary(def: StoreDef, M: set<Message>) {
    (forall m | m in M :: Storable(def, m) && m.kind != Compact) && Identified(M) && Slotted(def, M) && Uncrossed(M)
  }

  lemma NoRivalTie(def: StoreDef, M: set<Message>, a: Message, b: Message)
    requires Ordinary(def, M) && a in M && b in M
    ensures a == b || Precedes(def, a, b) || Precedes(def, b, a)
    ensures !(Precedes(def, a, b) && Precedes(def, b, a)) && !Precedes(def, a, a)
  {
    OrderIsTotal(def, a, b);
    OrderIsTotal(def, a, a);
  }

  lemma DominatorsAreWinners(def: StoreDef, R: set<Message>, M: set<Message>)
    requires Ordinary(def, M) && Dominates(def, R, M)
    ensures R == Winners(def, M)
  {
    hide Conflicts, Storable, Precedes;
    forall w | w in R
      ensures w in Winners(def, M)
    {
      forall x | x in M && Conflicts(def, x, w)
        ensures x == w || Precedes(def, x, w)
      {
        var v :| v in R && Conflicts(def, x, v) && (x == v || Precedes(def, x, v));
        ConflictsSymmetric(def, x, w);
        assert Conflicts(def, w, v);
      }
    }
    forall m | m in Winners(def, M)
      ensures m in R
    {
      var w :| w in R && Conflicts(def, m, w) && (m == w || Precedes(def, m, w));
      ConflictsSymmetric(def, m, w);
      NoRivalTie(def, M, m, w);
    }
  }

  lemma NotGated(def: StoreDef, R: set<Message>, m: Message)
    requires forall r | r in R :: r.kind != Compact
    ensures !Gated(R, m)
  {
  }

  /** Merging one more message keeps the winners. */
  lemma MergeDominates(def: StoreDef, R: set<Message>, M: set<Message>, m: Message)
    requires Ordinary(def, M + {m}) && Dominates(def, R, M)
    ensures Dominates(def, Step(def, R, m), M + {m})
  {
    var M' := M + {m};
    NotGated(def, R, m);
    if Blocked(def, R, m) {
      BlockedDominates(def, R, M, m);
    } else {
      UnblockedDominates(def, R, M, m);
    }
  }

  lemma BlockedDominates(def: StoreDef, R: set<Message>, M: set<Message>, m: Message)
    requires Ordinary(def, M + {m}) && Dominates(def, R, M) && Blocked(def, R, m)
    ensures Dominates(def, R, M + {m})
  {
    hide Conflicts, Storable, Precedes;
    var r :| r in R && Conflicts(def, r, m) && !Precedes(def, r, m);
    ConflictsSymmetric(def, r, m);
    NoRivalTie(def, M + {m}, m, r);
  }

  lemma UnblockedDominates(def: StoreDef, R: set<Message>, M: set<Message>, m: Message)
    requires Ordinary(def, M + {m}) && Dominates(def, R, M) && !Blocked(def, R, m)
    ensures Dominates(def, R - Rivals(def, R, m) + {m}, M + {m})
  {
    hide Conflicts, Storable, Precedes;
    var R' := R - Rivals(def, R, m) + {m};
    SelfConflict(def, m);
    forall a, b | a in R' && b in R' && Conflicts(def, a, b)
      ensures a == b
    {
      ConflictsSymmetric(def, a, b);
    }
    forall x | x in M + {m}
      ensures exists w :: w in R' && Conflicts(def, x, w) && (x == w || Precedes(def, x, w))
    {
      if x == m {
        assert m in R';
      } else {
        var w :| w in R && Conflicts(def, x, w) && (x == w || Precedes(def, x, w));
        if Conflicts(def, w, m) {
          PrecedesTransitive(def, M + {m}, x, w, m);
          assert m in R' && Conflicts(def, x, m);
        } else {
          assert w in R';
        }
      }
    }
  }

  lemma PrecedesTransitive(def: StoreDef, M: set<Message>, x: Message, w: Message, m: Message)
    requires Ordinary(def, M) && x in M && w in M && m in M && (x == w || Precedes(def, x, w)) && Precedes(def, w, m)
    ensures Precedes(def, x, m)
  {
    if x != w {
      OrderIsTransitive(def, x, w, m);
    }
  }

  /**
   Convergence: whatever the order and the repeats, each slot holds exactly its greatest merged message.
   */
  lemma {:induction false} MergesConverge(def: StoreDef, ms: seq<Message>)
    requires Ordinary(def, SetOf(ms))
    ensures ActAll(def, ms) == Whole(Winners(def, SetOf(ms)))
  {
    MergesDominate(def, ms);
    DominatorsAreWinners(def, MergeAll(def, ms), SetOf(ms));
    InSetOf(ms);
    ActAllIsMergeAll(def, ms);
  }

  lemma {:induction false} MergesDominate(def: StoreDef, ms: seq<Message>)
    requires Ordinary(def, SetOf(ms))
    ensures Dominates(def, MergeAll(def, ms), SetOf(ms))
  {
    if ms != [] {
      var init, last := ms[..|ms| - 1], ms[|ms| - 1];
      assert ms == init + [last];
      assert SetOf(ms) == SetOf(init) + {last};
      MergesDominate(def, init);
      MergeDominates(def, MergeAll(def, init), SetOf(init), last);
    }
  }

  /** Stores that merged the same messages hold the same database. */
  lemma SameMessagesSameDatabase(def: StoreDef, ms: seq<Message>, ns: seq<Message>, db: StoreDb, db': StoreDb)
    requires Ordinary(def, SetOf(ms)) && SetOf(ms) == SetOf(ns)
    requires Lays(def, db, ActAll(def, ms)) && Lays(def, db', ActAll(def, ns))
    ensures db == db'
  {
    MergesConverge(def, ms);
    MergesConverge(def, ns);
    LaysOneDatabase(def, db, db', ActAll(def, ms));
  }

  // ---- where merges do not converge ----

  ghost predicate SixOrdersAgree(def: StoreDef, a: Message, b: Message, c: Message) {
    && ActAll(def, [a, b, c]) == ActAll(def, [a, c, b]) == ActAll(def, [b, a, c])
    && ActAll(def, [b, a, c]) == ActAll(def, [b, c, a]) == ActAll(def, [c, a, b]) == ActAll(def, [c, b, a])
  }

  lemma ThreeActs(def: StoreDef, a: Message, b: Message, c: Message)
    requires Storable(def, a) && Storable(def, b) && Storable(def, c) && Identified({a, b, c}) && Uncrossed({a, b, c})
    ensures ActAll(def, [a, b, c]) == Whole(Step(def, Step(def, Step(def, {}, a), b), c))
  {
    assert SetOf([a, b, c]) == {a, b, c};
    ActAllIsMergeAll(def, [a, b, c]);
    ThreeMerges(def, a, b, c);
  }

  lemma TwoActs(def: StoreDef, a: Message, b: Message)
    requires Storable(def, a) && Storable(def, b) && Identified({a, b}) && Uncrossed({a, b})
    ensures ActAll(def, [a, b]) == Whole(Step(def, Step(def, {}, a), b))
  {
    assert SetOf([a, b]) == {a, b};
    ActAllIsMergeAll(def, [a, b]);
    assert [a, b][..1] == [a] && [a][..0] == [];
    assert MergeAll(def, []) == {};
    assert MergeAll(def, [a]) == Step(def, {}, a);
  }

  /**
   Two users verify one address and the second takes it back: the result depends on the order exactly when the second
   user's add lies between the other two.
   */
  lemma VerificationOrders(a: Message, b: Message, c: Message)
    requires Storable(Verifications, a) && Storable(Verifications, b) && Storable(Verifications, c)
    requires a.kind == Add && b.kind == Add && c.kind == Remove && Identified({a, b, c})
    requires Slot(a) == Slot(b) == Slot(c) && a.fid != b.fid && b.fid == c.fid
    ensures SixOrdersAgree(Verifications, a, b, c) <==>
            (Precedes(Verifications, a, b) <==> Precedes(Verifications, c, b))
  {
    var def := Verifications;
    OrderIsTotal(def, a, b);
    OrderIsTotal(def, b, c);
    OnlyLinksCross(def, {a, b, c});
    VerificationSteps(a, b, c);
    hide *;
    assert {a, c, b} == {a, b, c} && {b, a, c} == {a, b, c} && {b, c, a} == {a, b, c};
    assert {c, a, b} == {a, b, c} && {c, b, a} == {a, b, c};
    ThreeActs(def, a, b, c);
    ThreeActs(def, a, c, b);
    ThreeActs(def, b, a, c);
    ThreeActs(def, b, c, a);
    ThreeActs(def, c, a, b);
    ThreeActs(def, c, b, a);
    SixOrdersAre(def, a, b, c);
    SixOutcomes(Precedes(def, a, b), Precedes(def, c, b), a, b, c);
  }

  lemma SixOrdersAre(def: StoreDef, a: Message, b: Message, c: Message)
    ensures SixOrdersAgree(def, a, b, c) <==>
            && ActAll(def, [a, b, c]) == ActAll(def, [a, c, b]) == ActAll(def, [b, a, c])
            && ActAll(def, [b, a, c]) == ActAll(def, [b, c, a]) == ActAll(def, [c, a, b]) == ActAll(def, [c, b, a])
  {
  }

  /** The results of the three kinds of order, by whether b beats a and c. */
  lemma SixOutcomes(p: bool, q: bool, a: Message, b: Message, c: Message)
    requires a != b && b != c && a != c
    ensures var x := if p && q then {b} else if p then {c} else {a, c};
            var y := if p && q then {b} else {a, c};
            var z := if q && p then {b} else if q then {a} else {a, c};
            (Whole(x) == Whole(y) == Whole(z)) <==> (p <==> q)
  {
    assert a in {a, c} && a !in {c} && c in {a, c} && c !in {a};
  }

  lemma VerificationSteps(a: Message, b: Message, c: Message)
    requires a.kind == Add && b.kind == Add && c.kind == Remove && Slot(a) == Slot(b) == Slot(c)
    requires a.fid != b.fid && b.fid == c.fid
    requires Precedes(Verifications, b, a) <==> !Precedes(Verifications, a, b)
    requires Precedes(Verifications, b, c) <==> !Precedes(Verifications, c, b)
    ensures a != b && b != c && a != c
    ensures var def, p, q := Verifications, Precedes(Verifications, a, b), Precedes(Verifications, c, b);
            var x := if p && q then {b} else if p then {c} else {a, c};
            var y := if p && q then {b} else {a, c};
            var z := if q && p then {b} else if q then {a} else {a, c};
            && Step(def, Step(def, Step(def, {}, a), b), c) == x && Step(def, Step(def, Step(def, {}, b), a), c) == x
            && Step(def, Step(def, Step(def, {}, a), c), b) == y && Step(def, Step(def, Step(def, {}, c), a), b) == y
            && Step(def, Step(def, Step(def, {}, b), c), a) == z && Step(def, Step(def, Step(def, {}, c), b), a) == z
  {
    var def := Verifications;
    assert Conflicts(def, a, b) && Conflicts(def, b, a) && Conflicts(def, b, c) && Conflicts(def, c, b);
    assert !Conflicts(def, a, c) && !Conflicts(def, c, a);
    hide Conflicts, Precedes, Step, Slot;
    MergeIntoFew(def, a, c, b);
    MergeIntoFew(def, b, b, a);
    MergeIntoFew(def, b, b, c);
    MergeIntoFew(def, c, a, b);
    MergeIntoFew(def, a, a, c);
    MergeIntoFew(def, c, c, a);
    assert {a, c} == {c, a};
  }

  /** Merging into stores of at most two adds and removes. */
  lemma MergeIntoFew(def: StoreDef, x: Message, y: Message, m: Message)
    requires def != Links && x.kind != Compact && y.kind != Compact && m.kind != Compact
    ensures Step(def, {}, m) == {m}
    ensures Step(def, {x}, m) == if !Conflicts(def, x, m) then {x, m} else if Precedes(def, x, m) then {m} else {x}
    ensures Conflicts(def, x, m) && Conflicts(def, y, m) ==>
              Step(def, {x, y}, m) == if Precedes(def, x, m) && Precedes(def, y, m) then {m} else {x, y}
  {
    hide Conflicts, Precedes;
    NotGated(def, {}, m);
    NotGated(def, {x}, m);
    NotGated(def, {x, y}, m);
    assert Rivals(def, {}, m) == {};
    assert Conflicts(def, x, m) ==> x in Rivals(def, {x}, m);
    assert Blocked(def, {x}, m) <==> Conflicts(def, x, m) && !Precedes(def, x, m) by { assert x in {x}; }
    if Conflicts(def, x, m) && Conflicts(def, y, m) {
      assert Rivals(def, {x, y}, m) == {x, y};
      assert x in {x, y} && y in {x, y};
    }
  }

  /** A compact state and a link agree in both orders exactly when the state sweeps only what it also refuses. */
  lemma CompactLinkOrders(a: Message, c: Message)
    requires Storable(Links, a) && Storable(Links, c) && a.kind != Compact && c.kind == Compact && Identified({a, c})
    ensures ActAll(Links, [a, c]) == ActAll(Links, [c, a]) <==>
            (a.fid == c.fid && (a.kind == Remove || a.body.targetFid.value !in c.body.targetFids) ==>
               || a.timestamp > c.timestamp
               || (a.timestamp < c.timestamp && SameType(a.body.linkType, c.body.compactType)))
  {
    ShapeOf(Links, a);
    ShapeOf(Links, c);
    PaddedIff(a.body.linkType, c.body.compactType);
    OneSlotIsUncrossed({a, c});
    assert {c, a} == {a, c};
    TwoActs(Links, a, c);
    TwoActs(Links, c, a);
    assert Step(Links, {}, a) == {a} && Step(Links, {}, c) == {c};
    assert Step(Links, {a}, c) == if Swept(c, a) then {c} else {a, c};
    assert Step(Links, {c}, a) == if Governs(c, a) && Outdated(c, a) then {c} else {a, c};
  }

  lemma ThreeMerges(def: StoreDef, a: Message, b: Message, c: Message)
    ensures MergeAll(def, [a, b, c]) == Step(def, Step(def, Step(def, {}, a), b), c)
  {
    var s := [a, b, c];
    assert s[..2] == [a, b] && [a, b][..1] == [a] && [a][..0] == [];
    assert MergeAll(def, []) == {};
    assert MergeAll(def, [a]) == Step(def, {}, a);
    assert MergeAll(def, [a, b]) == Step(def, MergeAll(def, [a]), b);
  }

  // ---- one holder per address and name ----

  /** At most one user holds an add for an address or name, and the index names exactly that user. */
  lemma OneHolder(def: StoreDef, db: StoreDb, S: Contents, slot: Bytes)
    requires def == Verifications || def == UsernameProofs
    requires Lays(def, db, S) && WellFormed(def, S)
    ensures S == Whole(S.records)
    ensures forall a, b | a in S.records && b in S.records && a.kind == b.kind == Add && Slot(a) == Slot(b) == slot ::
              a == b
    ensures forall fid :: (HolderKey(def, slot) in db && db[HolderKey(def, slot)] == FidEntry(fid)) <==>
                          (exists a :: a in S.records && a.kind == Add && a.fid == fid && Slot(a) == slot)
  {
    hide Lays, Slot, Storable, Compacted;
    forall a, b | a in S.records && b in S.records && a.kind == b.kind == Add && Slot(a) == Slot(b) == slot
      ensures a == b
    {
      assert Conflicts(def, a, b);
    }
    forall a | a in S.records && a.kind == Add && Slot(a) == slot
      ensures HolderKey(def, slot) in db && db[HolderKey(def, slot)] == FidEntry(a.fid)
    {
      HolderRead(def, db, S, a);
    }
    if HolderKey(def, slot) in db {
      var a := HolderOwner(def, db, S, slot);
    }
  }

  /** The name belongs to the greatest proof by timestamp and hash that any user has merged. */
  lemma LatestProofHoldsName(ms: seq<Message>, db: StoreDb, m: Message) returns (w: Message)
    requires Ordinary(UsernameProofs, SetOf(ms)) && Lays(UsernameProofs, db, ActAll(UsernameProofs, ms)) && m in ms
    ensures w in ms && w in ActAll(UsernameProofs, ms).listed && Slot(w) == Slot(m)
    ensures forall x | x in ms && Slot(x) == Slot(m) && x != w :: Less(TsHash(x), TsHash(w))
    ensures HolderKey(UsernameProofs, Slot(m)) in db && db[HolderKey(UsernameProofs, Slot(m))] == FidEntry(w.fid)
  {
    MergesDominate(UsernameProofs, ms);
    var R, M := MergeAll(UsernameProofs, ms), SetOf(ms);
    InSetOf(ms);
    assert (forall x | x in ms :: Storable(UsernameProofs, x)) && Identified(M) && Uncrossed(M);
    hide *;
    ActAllIsMergeAll(UsernameProofs, ms);
    w := GreatestProof(R, M, m);
    WholeIs(R);
    HolderRead(UsernameProofs, db, ActAll(UsernameProofs, ms), w);
  }

  lemma WholeIs(R: set<Message>)
    ensures Whole(R).listed == R && Whole(R).records == R
  {
  }

  lemma InSetOf(ms: seq<Message>)
    ensures forall m :: m in ms <==> m in SetOf(ms)
  {
  }

  lemma GreatestProof(R: set<Message>, M: set<Message>, m: Message) returns (w: Message)
    requires Ordinary(UsernameProofs, M) && Dominates(UsernameProofs, R, M) && m in M
    ensures w in M && w in R && w.kind == Add && Slot(w) == Slot(m)
    ensures forall x | x in M && Slot(x) == Slot(m) && x != w :: Less(TsHash(x), TsHash(w))
  {
    DominatorsAreWinners(UsernameProofs, R, M);
    hide Ordinary, Slot, TsHash, Precedes, Less;
    w :| w in R && Conflicts(UsernameProofs, m, w);
    ProofsConflict(M, w, w);
    forall x | x in M && Slot(x) == Slot(m) && x != w
      ensures Less(TsHash(x), TsHash(w))
    {
      ProofsConflict(M, x, w);
      ProofOrder(M, x, w);
    }
  }

  lemma ProofsConflict(M: set<Message>, x: Message, w: Message)
    requires Ordinary(UsernameProofs, M) && x in M && w in M && Slot(x) == Slot(w)
    ensures Conflicts(UsernameProofs, x, w) && w.kind == Add
  {
    ShapeOf(UsernameProofs, w);
    hide Slot;
  }

  lemma ProofOrder(M: set<Message>, x: Message, w: Message)
    requires Ordinary(UsernameProofs, M) && x in M && w in M && Precedes(UsernameProofs, x, w)
    ensures Less(TsHash(x), TsHash(w)) && w.kind == Add
  {
    ShapeOf(UsernameProofs, w);
    ShapeOf(UsernameProofs, x);
    LastWriteWins(UsernameProofs, x, w);
    PrimaryOrder(x, w);
  }

  // ---- index integrity ----

  ghost predicate IsPrimary(def: StoreDef, k: DbKey) {
    k.User? && k.postfix == MessagePostfix(def)
  }

  ghost predicate IsIndex(def: StoreDef, k: DbKey) {
    k.User? && (k.postfix == AddsPostfix(def) || (RemovesSupported(def) && k.postfix == RemovesPostfix(def)))
  }

  /** The primary record p of db, with its index entry and the only one that names it. */
  ghost predicate RecordIndexed(def: StoreDef, db: StoreDb, p: DbKey)
    requires p in db && p.User?
  {
    && db[p].Record?
    && var m := db[p].message;
    && p == PrimaryKey(def, m.fid, TsHash(m))
    && IsIndex(def, IndexKey(def, m)) && IndexKey(def, m) in db && db[IndexKey(def, m)] == IndexEntry(TsHash(m))
    && (forall k | k in db && IsIndex(def, k) && k.fid == m.fid && db[k] == IndexEntry(TsHash(m)) ::
          k == IndexKey(def, m))
    && (m.kind == Add ==> forall k | k in SecondaryKeys(m) :: k in db && db[k] == SecondaryValue(m))
  }

  /** The set-index entry k of db names a stored record of its own slot. */
  ghost predicate IndexFaithful(def: StoreDef, db: StoreDb, k: DbKey)
    requires k in db && k.User?
  {
    && db[k].IndexEntry?
    && var p := PrimaryKey(def, k.fid, db[k].tsHash);
    && p in db && db[p].Record? && IndexKey(def, db[p].message) == k
  }

  /** The secondary entry k of db belongs to a stored add. */
  ghost predicate SecondaryFaithful(def: StoreDef, db: StoreDb, k: DbKey)
    requires k in db
  {
    exists p :: p in db && IsPrimary(def, p) && db[p].Record? && db[p].message.kind == Add &&
                k in SecondaryKeys(db[p].message) && db[k] == SecondaryValue(db[p].message)
  }

  /** The indices of a database agree with its records, and no slot has both an add and a remove. */
  ghost predicate IndicesFaithful(def: StoreDef, db: StoreDb) {
    && (forall p | p in db && IsPrimary(def, p) :: RecordIndexed(def, db, p))
    && (forall k | k in db && IsIndex(def, k) :: IndexFaithful(def, db, k))
    && (forall k | k in db && k.Root? :: SecondaryFaithful(def, db, k))
    && (RemovesSupported(def) ==>
          forall fid, slot :: !(User(fid, AddsPostfix(def), slot) in db && User(fid, RemovesPostfix(def), slot) in db))
  }

  /** Index integrity: the indices agree with the records exactly when every record is named. */
  lemma IndexIntegrity(def: StoreDef, db: StoreDb, S: Contents)
    requires Lays(def, db, S) && WellFormed(def, S)
    ensures IndicesFaithful(def, db) <==> S == Whole(S.records)
    ensures forall k | k in db && IsIndex(def, k) :: IndexFaithful(def, db, k)
    ensures forall k | k in db && k.Root? :: SecondaryFaithful(def, db, k)
  {
    hide Lays, RecordIndexed, IndexFaithful, SecondaryFaithful, Consistent, Compacted, Storable, Bare;
    forall k | k in db && IsIndex(def, k)
      ensures IndexFaithful(def, db, k)
    {
      IndexIsFaithful(def, db, S, k);
    }
    forall k | k in db && k.Root?
      ensures SecondaryFaithful(def, db, k)
    {
      SecondaryIsFaithful(def, db, S, k);
    }
    if RemovesSupported(def) {
      forall fid, slot | User(fid, AddsPostfix(def), slot) in db && User(fid, RemovesPostfix(def), slot) in db
        ensures false
      {
        var a := IndexOwner(def, db, S, false, fid, slot);
        var b := IndexOwner(def, db, S, true, fid, slot);
        OneOccupant(def, S.listed, a, b);
      }
    }
    forall p | p in db && IsPrimary(def, p)
      ensures S == Whole(S.records) ==> RecordIndexed(def, db, p)
    {
      if S == Whole(S.records) {
        RecordIsIndexed(def, db, S, p);
      }
    }
    if r :| r in S.records && r !in S.listed {
      UnnamedIsUnindexed(def, db, S, r);
    } else {
      assert S.records == S.listed;
    }
  }

  /** The message behind a set-index key. */
  lemma IndexedMessage(def: StoreDef, db: StoreDb, S: Contents, k: DbKey) returns (m: Message)
    requires Lays(def, db, S) && WellFormed(def, S) && k in db && IsIndex(def, k)
    ensures m in S.listed && m in OfFid(S.records, k.fid) && IndexKey(def, m) == k && db[k] == IndexEntry(TsHash(m))
  {
    hide Lays, Consistent, TsHash, Compacted, Storable;
    m := IndexOwner(def, db, S, k.postfix != AddsPostfix(def), k.fid, k.suffix);
  }

  lemma IndexIsFaithful(def: StoreDef, db: StoreDb, S: Contents, k: DbKey)
    requires Lays(def, db, S) && WellFormed(def, S) && k in db && IsIndex(def, k)
    ensures IndexFaithful(def, db, k)
  {
    hide Lays, WellFormed, TsHash;
    var m := IndexedMessage(def, db, S, k);
    RecordRead(def, db, S, m);
  }

  lemma RecordIsIndexed(def: StoreDef, db: StoreDb, S: Contents, p: DbKey)
    requires Lays(def, db, S) && WellFormed(def, S) && p in db && IsPrimary(def, p) && S == Whole(S.records)
    ensures RecordIndexed(def, db, p)
  {
    hide Lays, WellFormed, TsHash, Slot, SecondaryKeys, SecondaryValue;
    var m := RecordOwner(def, db, S, p);
    RecordRead(def, db, S, m);
    RecordIsStorable(def, S, m);
    ShapeOf(def, m);
    forall k | k in db && IsIndex(def, k) && k.fid == m.fid && db[k] == IndexEntry(TsHash(m))
      ensures k == IndexKey(def, m)
    {
      var x := IndexedMessage(def, db, S, k);
      RecordRead(def, db, S, x);
    }
    if m.kind == Add {
      SecondaryRead(def, db, S, m);
    }
  }

  /** A record that is not named is not indexed. */
  lemma UnnamedIsUnindexed(def: StoreDef, db: StoreDb, S: Contents, r: Message)
    requires Lays(def, db, S) && WellFormed(def, S) && r in S.records && r !in S.listed
    ensures !IndicesFaithful(def, db) && S != Whole(S.records)
  {
    hide Lays, TsHash, Slot, SecondaryKeys, SecondaryValue, Consistent, Compacted, IndexFaithful, SecondaryFaithful;
    var p := PrimaryKey(def, r.fid, TsHash(r));
    RecordRead(def, db, S, r);
    assert p in db && IsPrimary(def, p);
    if RecordIndexed(def, db, p) {
      var x := IndexedMessage(def, db, S, IndexKey(def, r));
      RecordRead(def, db, S, x);
    }
  }

  lemma SecondaryIsFaithful(def: StoreDef, db: StoreDb, S: Contents, k: DbKey)
    requires Lays(def, db, S) && WellFormed(def, S) && k in db && k.Root?
    ensures SecondaryFaithful(def, db, k)
  {
    hide Storable, Lays, WellFormed, TsHash, Slot, SecondaryKeys, SecondaryValue, Entries;
    var m := KeyOwner(def, db, S, k);
    EntryKeys(def, m, k);
    RecordRead(def, db, S, m);
    assert IsPrimary(def, PrimaryKey(def, m.fid, TsHash(m)));
  }
}
