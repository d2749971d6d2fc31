/**
 When the result of merging a set of messages does not depend on the order: exact conditions.
 */
module StoreOrders {
  import opened Bytes
  import opened Messages
  import opened StoreSpec
  import opened StoreTheorems

  /** Merging the messages of M gives the same store in every order and with any repeats. */
  ghost predicate OrdersAgree(def: StoreDef, M: set<Message>) {
    forall ms, ns | SetOf(ms) == M && SetOf(ns) == M :: ActAll(def, ms) == ActAll(def, ns)
  }

  /** Messages the store can hold, told apart by timestamp and hash. */
  ghost predicate Known(def: StoreDef, M: set<Message>) {
    (forall m | m in M :: Storable(def, m)) && Identified(M)
  }

  // ---- runs ----

  /** The store after merging a sequence of messages into one that holds R. */
  ghost function MergeOnto(def: StoreDef, R: set<Message>, ms: seq<Message>): set<Message> {
    if ms == [] then R else Step(def, MergeOnto(def, R, ms[..|ms| - 1]), ms[|ms| - 1])
  }

  lemma {:induction false} MergeSplits(def: StoreDef, ms: seq<Message>, ns: seq<Message>)
    ensures MergeAll(def, ms + ns) == MergeOnto(def, MergeAll(def, ms), ns)
  {
    if ns == [] {
      assert ms + ns == ms;
    } else {
      var init := ns[..|ns| - 1];
      MergeSplits(def, ms, init);
      assert (ms + ns)[..|ms + ns| - 1] == ms + init;
    }
  }

  lemma OneMerge(def: StoreDef, R: set<Message>, m: Message)
    ensures MergeOnto(def, R, [m]) == Step(def, R, m)
  {
    assert [m][..0] == [];
    assert MergeOnto(def, R, []) == R;
  }

  lemma LastSplits(ms: seq<Message>)
    requires ms != []
    ensures SetOf(ms) == SetOf(ms[..|ms| - 1]) + {ms[|ms| - 1]}
  {
    assert ms == ms[..|ms| - 1] + [ms[|ms| - 1]];
  }

  lemma {:induction false} Enumerated(S: set<Message>) returns (ms: seq<Message>)
    ensures SetOf(ms) == S
    decreases S
  {
    if S == {} {
      ms := [];
    } else {
      var m :| m in S;
      var rest := Enumerated(S - {m});
      ms := rest + [m];
      assert ms[..|ms| - 1] == rest;
      LastSplits(ms);
    }
  }

  /** A run holds messages it was given, consistent and compacted. */
  lemma {:induction false} RunIsConsistent(def: StoreDef, R: set<Message>, ms: seq<Message>)
    requires Known(def, R + SetOf(ms)) && Consistent(def, R) && Compacted(R)
    ensures MergeOnto(def, R, ms) <= R + SetOf(ms)
    ensures Consistent(def, MergeOnto(def, R, ms)) && Compacted(MergeOnto(def, R, ms))
  {
    hide Storable, Conflicts, Step, Governs, Outdated;
    if ms != [] {
      var init, m := ms[..|ms| - 1], ms[|ms| - 1];
      LastSplits(ms);
      RunIsConsistent(def, R, init);
      var X := MergeOnto(def, R, init);
      assert X + {m} <= R + SetOf(ms);
      StepKeepsInvariants(def, X, m);
      StepAddsOnly(def, X, m);
    }
  }

  lemma {:induction false} OntoEmpty(def: StoreDef, ms: seq<Message>)
    ensures MergeAll(def, ms) == MergeOnto(def, {}, ms)
  {
    MergeSplits(def, [], ms);
    assert [] + ms == ms;
  }

  lemma MergeAllIsConsistent(def: StoreDef, ms: seq<Message>)
    requires Known(def, SetOf(ms))
    ensures MergeAll(def, ms) <= SetOf(ms) && Consistent(def, MergeAll(def, ms)) && Compacted(MergeAll(def, ms))
  {
    hide Storable, MergeAll, MergeOnto;
    assert {} + SetOf(ms) == SetOf(ms);
    OntoEmpty(def, ms);
    RunIsConsistent(def, {}, ms);
  }

  /** Whatever is stored, merging x leaves x stored. */
  ghost predicate Enters(def: StoreDef, M: set<Message>, x: Message) {
    forall R | R <= M && Consistent(def, R) :: x in Step(def, R, x)
  }

  /** Once stored, x is not replaced or swept by any message of M. */
  ghost predicate Remains(def: StoreDef, M: set<Message>, x: Message) {
    forall R, m | R <= M && Consistent(def, R) && m in M && x in R :: x in Step(def, R, m)
  }

  lemma {:induction false} Persists(def: StoreDef, M: set<Message>, R: set<Message>, ms: seq<Message>, x: Message)
    requires Known(def, M) && R <= M && SetOf(ms) <= M && Consistent(def, R) && Compacted(R)
    requires Enters(def, M, x) && Remains(def, M, x) && (x in R || x in ms)
    ensures x in MergeOnto(def, R, ms)
  {
    hide Storable, Conflicts, Step, Compacted;
    if ms != [] {
      var init, m := ms[..|ms| - 1], ms[|ms| - 1];
      LastSplits(ms);
      var X := MergeOnto(def, R, init);
      KnownSubset(def, M, R + SetOf(init));
      RunIsConsistent(def, R, init);
      if x in R || x in init {
        Persists(def, M, R, init, x);
      }
    }
  }

  lemma KnownSubset(def: StoreDef, M: set<Message>, M': set<Message>)
    requires Known(def, M) && M' <= M
    ensures Known(def, M')
  {
    hide Storable;
  }

  lemma PersistsFromStart(def: StoreDef, ms: seq<Message>, x: Message)
    requires Known(def, SetOf(ms)) && x in ms && Enters(def, SetOf(ms), x) && Remains(def, SetOf(ms), x)
    ensures x in MergeAll(def, ms)
  {
    hide Storable, Known, MergeAll, MergeOnto, Enters, Remains;
    OntoEmpty(def, ms);
    Persists(def, SetOf(ms), {}, ms, x);
  }

  lemma Tie(def: StoreDef, M: set<Message>, a: Message, b: Message)
    requires Known(def, M) && a in M && b in M
    ensures a == b || Precedes(def, a, b) || Precedes(def, b, a)
    ensures !(Precedes(def, a, b) && Precedes(def, b, a)) && !Precedes(def, a, a)
  {
    OrderIsTotal(def, a, b);
    OrderIsTotal(def, a, a);
  }

  lemma Chain(def: StoreDef, M: set<Message>, a: Message, b: Message, c: Message)
    requires Known(def, M) && a in M && b in M && c in M && Precedes(def, a, b) && Precedes(def, b, c)
    ensures Precedes(def, a, c)
  {
    OrderIsTransitive(def, a, b, c);
  }

  /** Some message of a set is the greatest. */
  lemma {:induction false} Greatest(def: StoreDef, M: set<Message>, S: set<Message>) returns (g: Message)
    requires Known(def, M) && S <= M && S != {}
    ensures g in S && forall x | x in S :: x == g || Precedes(def, x, g)
    decreases S
  {
    hide Storable, Identified, Precedes;
    g :| g in S;
    if S != {g} {
      var h := Greatest(def, M, S - {g});
      Tie(def, M, g, h);
      forall x | x in S
        ensures x == g || x == h || Precedes(def, x, h)
        ensures x != g && x != h && Precedes(def, h, g) ==> Precedes(def, x, g)
      {
        if x != g && x != h && Precedes(def, h, g) {
          Chain(def, M, x, h, g);
        }
      }
      if Precedes(def, g, h) {
        g := h;
      }
    }
  }

  // ---- adds and removes ----

  ghost predicate Plain(def: StoreDef, M: set<Message>) {
    Known(def, M) && forall m | m in M :: m.kind != Compact
  }

  /** Every message beats all its rivals in M, or has a rival that does. */
  ghost predicate Covered(def: StoreDef, M: set<Message>) {
    forall y | y in M :: y in Winners(def, M) || exists w :: w in Winners(def, M) && Conflicts(def, y, w)
  }

  lemma WinnerStays(def: StoreDef, M: set<Message>, x: Message)
    requires Plain(def, M) && x in Winners(def, M)
    ensures Enters(def, M, x) && Remains(def, M, x)
  {
    hide Conflicts, Storable, Precedes, Consistent;
    forall R | R <= M && Consistent(def, R)
      ensures x in Step(def, R, x)
    {
      NotGated(def, R, x);
    }
    forall R, m | R <= M && Consistent(def, R) && m in M && x in R
      ensures x in Step(def, R, m)
    {
      NotGated(def, R, m);
      if m != x && Conflicts(def, x, m) {
        ConflictsSymmetric(def, x, m);
        Tie(def, M, m, x);
        assert Blocked(def, R, m);
      }
    }
  }

  /** A covered set ends, in every order, as the messages that beat all their rivals. */
  lemma CoveredConverge(def: StoreDef, ms: seq<Message>)
    requires Plain(def, SetOf(ms)) && Covered(def, SetOf(ms)) && Uncrossed(SetOf(ms))
    ensures ActAll(def, ms) == Whole(Winners(def, SetOf(ms)))
  {
    CoveredMerges(def, ms);
    hide Storable, Covered, Crossed, MergeAll, ActAll;
    InSetOf(ms);
    ActAllIsMergeAll(def, ms);
  }

  lemma CoveredMerges(def: StoreDef, ms: seq<Message>)
    requires Plain(def, SetOf(ms)) && Covered(def, SetOf(ms))
    ensures MergeAll(def, ms) == Winners(def, SetOf(ms))
  {
    var M, R := SetOf(ms), MergeAll(def, ms);
    hide Conflicts, Storable, Precedes, MergeAll, Enters, Remains, Identified;
    MergeAllIsConsistent(def, ms);
    forall w | w in Winners(def, M)
      ensures w in R
    {
      WinnerStays(def, M, w);
      PersistsFromStart(def, ms, w);
    }
    forall y | y in R
      ensures y in Winners(def, M)
    {
      var w :| w in Winners(def, M) && (w == y || Conflicts(def, y, w));
    }
  }

  /** Messages that are not given do not appear. */
  lemma {:induction false} NeverGiven(def: StoreDef, R: set<Message>, ms: seq<Message>, y: Message)
    requires y !in R && y !in ms
    ensures y !in MergeOnto(def, R, ms)
  {
    hide Step;
    if ms != [] {
      NeverGiven(def, R, ms[..|ms| - 1], y);
      StepAddsOnly(def, MergeOnto(def, R, ms[..|ms| - 1]), ms[|ms| - 1]);
    }
  }

  /** An order in which y is replaced by a greater rival. */
  lemma OrderWithout(def: StoreDef, M: set<Message>, y: Message, x: Message) returns (ms: seq<Message>)
    requires Plain(def, M) && y in M && x in M && Conflicts(def, y, x) && Precedes(def, y, x)
    ensures SetOf(ms) == M && y !in MergeAll(def, ms)
  {
    BeatenPair(def, M, y, x);
    hide *;
    var rest := Enumerated(M - {x, y});
    InSetOf(rest);
    ms := [y, x] + rest;
    InSetOf(ms);
    assert SetOf(ms) == M;
    MergeSplits(def, [y, x], rest);
    NeverGiven(def, MergeAll(def, [y, x]), rest, y);
  }

  lemma BeatenPair(def: StoreDef, M: set<Message>, y: Message, x: Message)
    requires Plain(def, M) && y in M && x in M && Conflicts(def, y, x) && Precedes(def, y, x)
    ensures MergeAll(def, [y, x]) == {x} && x != y
  {
    Tie(def, M, y, x);
    hide Conflicts, Precedes, Storable;
    assert [y, x][..1] == [y] && [y][..0] == [];
    assert MergeAll(def, []) == {};
    NotGated(def, {}, y);
    NotGated(def, {y}, x);
    assert Step(def, {}, y) == {y};
    assert MergeAll(def, [y]) == {y};
    assert Rivals(def, {y}, x) == {y};
  }

  lemma {:induction false} AllBlocked(def: StoreDef, R: set<Message>, ms: seq<Message>)
    requires forall m | m in ms :: Blocked(def, R, m) && m.kind != Compact
    ensures MergeOnto(def, R, ms) == R
  {
    hide Blocked;
    if ms != [] {
      AllBlocked(def, R, ms[..|ms| - 1]);
      assert ms[|ms| - 1] in ms;
    }
  }

  /** The messages of M that beat y. */
  ghost function Beaters(def: StoreDef, M: set<Message>, y: Message): set<Message> {
    set x | x in M && Conflicts(def, x, y) && Precedes(def, y, x)
  }

  ghost predicate Uncovered(def: StoreDef, M: set<Message>, y: Message) {
    y in M && y !in Winners(def, M) && forall w | w in Winners(def, M) :: !Conflicts(def, y, w)
  }

  lemma WinnersFirst(def: StoreDef, M: set<Message>, ws: seq<Message>)
    requires Plain(def, M) && SetOf(ws) == Winners(def, M)
    ensures MergeAll(def, ws) == Winners(def, M)
  {
    hide Conflicts, Storable, Precedes, MergeAll, MergeOnto, Identified, Enters, Remains, Winners;
    var W := Winners(def, M);
    assert W <= M by { WinnersAreGiven(def, M); }
    KnownSubset(def, M, W);
    MergeAllIsConsistent(def, ws);
    OntoEmpty(def, ws);
    forall w | w in W
      ensures w in MergeAll(def, ws)
    {
      WinnerStays(def, M, w);
      InSetOf(ws);
      NothingStored(def);
      Persists(def, M, {}, ws, w);
    }
  }

  lemma WinnersAreGiven(def: StoreDef, M: set<Message>)
    ensures Winners(def, M) <= M
  {
    hide Conflicts, Precedes;
  }

  /** With the winners stored first, whatever would beat y is refused. */
  lemma BeatersAreBlocked(def: StoreDef, M: set<Message>, y: Message)
    requires Plain(def, M) && Uncovered(def, M, y)
    requires forall x | Uncovered(def, M, x) :: x == y || Precedes(def, x, y)
    ensures forall x | x in Beaters(def, M, y) :: Blocked(def, Winners(def, M), x) && x !in Winners(def, M)
  {
    hide Conflicts, Storable, Precedes, Identified;
    var W := Winners(def, M);
    forall x | x in Beaters(def, M, y)
      ensures Blocked(def, W, x) && x !in W
    {
      ConflictsSymmetric(def, x, y);
      assert x !in W;
      Tie(def, M, x, y);
      assert !Uncovered(def, M, x);
      var w :| w in W && Conflicts(def, x, w);
      ConflictsSymmetric(def, x, w);
      Tie(def, M, x, w);
    }
  }

  lemma FreeMerge(def: StoreDef, R: set<Message>, y: Message)
    requires y.kind != Compact && (forall r | r in R :: r.kind != Compact && !Conflicts(def, r, y))
    ensures Step(def, R, y) == R + {y}
  {
    hide Conflicts, Precedes;
    NotGated(def, R, y);
    assert Rivals(def, R, y) == {};
  }

  /** Without its beaters, y beats all its rivals. */
  lemma WinsWithoutBeaters(def: StoreDef, M: set<Message>, y: Message)
    requires Plain(def, M) && y in M
    ensures y in Winners(def, M - Beaters(def, M, y)) && Plain(def, M - Beaters(def, M, y))
  {
    hide Conflicts, Storable, Precedes;
    var B := Beaters(def, M, y);
    assert y !in B by { Tie(def, M, y, y); }
    forall x | x in M - B && Conflicts(def, x, y)
      ensures x == y || Precedes(def, x, y)
    {
      Tie(def, M, x, y);
    }
  }

  /** An order in which the greatest uncovered message is stored in the end. */
  lemma OrderWith(def: StoreDef, M: set<Message>, y: Message) returns (ms: seq<Message>)
    requires Plain(def, M) && Uncovered(def, M, y)
    requires forall x | Uncovered(def, M, x) :: x == y || Precedes(def, x, y)
    ensures SetOf(ms) == M && y in MergeAll(def, ms)
  {
    var W, B := Winners(def, M), Beaters(def, M, y);
    WinsWithoutBeaters(def, M, y);
    WinnerStays(def, M - B, y);
    BeatersAreBlocked(def, M, y);
    assert forall w | w in W :: w in M && !Conflicts(def, w, y) by {
      hide Precedes;
      forall w | w in W ensures !Conflicts(def, w, y) { ConflictsSymmetric(def, w, y); }
    }
    assert B <= M && y in M - B && y !in W by { hide Conflicts, Precedes; }
    FreeMerge(def, W, y);
    hide Winners, Beaters, Conflicts, Storable, Precedes, MergeAll, MergeOnto, Identified, Enters, Remains, Uncovered,
         Blocked, Step;
    var ws := Enumerated(W);
    var bs := Enumerated(B);
    var rest := Enumerated(M - W - B - {y});
    InSetOf(ws);
    InSetOf(bs);
    InSetOf(rest);
    WinnersFirst(def, M, ws);
    AllBlocked(def, W, bs);
    MergeSplits(def, ws, bs);
    MergeSplits(def, ws + bs, [y]);
    OneMerge(def, W, y);
    MergeSplits(def, ws + bs + [y], rest);
    ms := ws + bs + [y] + rest;
    assert SetOf(ms) == M by { FourParts(M, W, B, y, ws, bs, rest); }
    var R := W + {y};
    KnownSubset(def, M, SetOf(ws + bs + [y]));
    MergeAllIsConsistent(def, ws + bs + [y]);
    KnownSubset(def, M, M - B);
    Persists(def, M - B, R, rest, y);
  }

  lemma FourParts(M: set<Message>, W: set<Message>, B: set<Message>, y: Message, ws: seq<Message>, bs: seq<Message>,
                  rest: seq<Message>)
    requires W <= M && B <= M && y in M && SetOf(ws) == W && SetOf(bs) == B && SetOf(rest) == M - W - B - {y}
    ensures SetOf(ws + bs + [y] + rest) == M && SetOf(ws + bs + [y]) <= M
  {
    InSetOf(ws);
    InSetOf(bs);
    InSetOf(rest);
    InSetOf(ws + bs + [y] + rest);
    InSetOf(ws + bs + [y]);
  }

  /**
   The exact condition for adds and removes, in every store: where no link lies under the unpadded key of another, all
   orders agree if and only if every message beats all its rivals or has a rival that does.
   */
  lemma OrdersAgreeIff(def: StoreDef, M: set<Message>)
    requires Plain(def, M) && Uncrossed(M)
    ensures OrdersAgree(def, M) <==> Covered(def, M)
  {
    hide Conflicts, Storable, Precedes, MergeAll, ActAll, Identified, Crossed, Uncrossed;
    if Covered(def, M) {
      forall ms, ns | SetOf(ms) == M && SetOf(ns) == M
        ensures ActAll(def, ms) == ActAll(def, ns)
      {
        CoveredConverge(def, ms);
        CoveredConverge(def, ns);
      }
    } else {
      var U := set y | y in M && Uncovered(def, M, y);
      var z :| z in M && Uncovered(def, M, z);
      assert z in U;
      var y := Greatest(def, M, U);
      var x :| x in M && Conflicts(def, x, y) && x != y && !Precedes(def, x, y);
      ConflictsSymmetric(def, x, y);
      Tie(def, M, x, y);
      var ms := OrderWithout(def, M, y, x);
      var ns := OrderWith(def, M, y);
      InSetOf(ms);
      InSetOf(ns);
      ActAllIsMergeAll(def, ms);
      ActAllIsMergeAll(def, ns);
    }
  }

  // ---- verifications ----

  ghost predicate AddAt(M: set<Message>, x: Message, s: Bytes) {
    x in M && x.kind == Add && Slot(x) == s
  }

  ghost predicate RemoveAt(M: set<Message>, r: Message, fid: nat, s: Bytes) {
    r in M && r.kind == Remove && r.fid == fid && Slot(r) == s
  }

  /** Some remove of the same user beats the add. */
  ghost predicate TakenBack(M: set<Message>, x: Message) {
    exists r :: RemoveAt(M, r, x.fid, Slot(x)) && Precedes(Verifications, x, r)
  }

  ghost predicate GreatestAdd(M: set<Message>, g: Message, s: Bytes) {
    AddAt(M, g, s) && forall x | AddAt(M, x, s) :: x == g || Precedes(Verifications, x, g)
  }

  /**
   Every add for the address is taken back; or the greatest one is not, and no other user has both a remove and an add
   that is not taken back.
   */
  ghost predicate AddressSettled(M: set<Message>, s: Bytes) {
    || (forall x | AddAt(M, x, s) :: TakenBack(M, x))
    || (exists g ::
          && GreatestAdd(M, g, s) && !TakenBack(M, g)
          && forall y, r | AddAt(M, y, s) && y.fid != g.fid && RemoveAt(M, r, y.fid, s) :: TakenBack(M, y))
  }

  lemma VerificationConflicts(M: set<Message>, a: Message, b: Message)
    requires Plain(Verifications, M) && a in M && b in M
    ensures Conflicts(Verifications, a, b) <==>
            Slot(a) == Slot(b) && (a.fid == b.fid || (a.kind == Add && b.kind == Add))
    ensures a.kind == Add || a.kind == Remove
  {
  }

  /** The greatest remove of a user whose adds are all taken back beats all its rivals. */
  lemma LastRemoveWins(M: set<Message>, r: Message) returns (top: Message)
    requires Plain(Verifications, M) && RemoveAt(M, r, r.fid, Slot(r))
    requires forall y | AddAt(M, y, Slot(r)) && y.fid == r.fid :: TakenBack(M, y)
    ensures top in Winners(Verifications, M) && RemoveAt(M, top, r.fid, Slot(r))
  {
    hide Storable, Slot, Precedes, Identified, Conflicts;
    var D := set x | x in M && RemoveAt(M, x, r.fid, Slot(r));
    assert r in D;
    top := Greatest(Verifications, M, D);
    forall x | x in M && Conflicts(Verifications, x, top)
      ensures x == top || Precedes(Verifications, x, top)
    {
      VerificationConflicts(M, x, top);
      if x.kind == Remove {
        assert x in D;
      } else {
        assert AddAt(M, x, Slot(r));
        var d :| RemoveAt(M, d, x.fid, Slot(x)) && Precedes(Verifications, x, d);
        assert d in D;
        if d != top {
          Chain(Verifications, M, x, d, top);
        }
      }
    }
  }

  lemma GreatestAddWins(M: set<Message>, g: Message)
    requires Plain(Verifications, M) && GreatestAdd(M, g, Slot(g)) && !TakenBack(M, g)
    ensures g in Winners(Verifications, M)
  {
    hide Storable, Slot, Precedes, Identified, Conflicts;
    forall x | x in M && Conflicts(Verifications, x, g)
      ensures x == g || Precedes(Verifications, x, g)
    {
      VerificationConflicts(M, x, g);
      Tie(Verifications, M, x, g);
      assert x.kind == Remove ==> RemoveAt(M, x, g.fid, Slot(g));
      assert x.kind == Add ==> AddAt(M, x, Slot(g));
    }
  }

  lemma SettledIsCovered(M: set<Message>, y: Message) returns (w: Message)
    requires Plain(Verifications, M) && y in M && AddressSettled(M, Slot(y))
    ensures w in Winners(Verifications, M) && Conflicts(Verifications, y, w)
  {
    hide Storable, Slot, Precedes, Identified, Conflicts, Winners;
    var s := Slot(y);
    VerificationConflicts(M, y, y);
    if forall x | AddAt(M, x, s) :: TakenBack(M, x) {
      var r := y;
      if y.kind == Add {
        assert AddAt(M, y, s);
        r :| RemoveAt(M, r, y.fid, Slot(y)) && Precedes(Verifications, y, r);
      }
      w := LastRemoveWins(M, r);
    } else {
      var g :| GreatestAdd(M, g, s) && !TakenBack(M, g) &&
        forall y, r | AddAt(M, y, s) && y.fid != g.fid && RemoveAt(M, r, y.fid, s) :: TakenBack(M, y);
      GreatestAddWins(M, g);
      w := g;
      if y.kind == Remove && y.fid != g.fid {
        assert RemoveAt(M, y, y.fid, s);
        w := LastRemoveWins(M, y);
      }
    }
    WinnersAreGiven(Verifications, M);
    VerificationConflicts(M, y, w);
  }

  /** An uncovered add would be one that is not taken back while a greater one is. */
  lemma GreatestNotTakenBack(M: set<Message>, g: Message, z: Message)
    requires Plain(Verifications, M) && Covered(Verifications, M)
    requires GreatestAdd(M, g, Slot(g)) && AddAt(M, z, Slot(g)) && !TakenBack(M, z)
    ensures !TakenBack(M, g)
  {
    hide Storable, Slot, Precedes, Identified, Conflicts;
    if TakenBack(M, g) {
      var r :| RemoveAt(M, r, g.fid, Slot(g)) && Precedes(Verifications, g, r);
      var w :| w in Winners(Verifications, M) && (w == z || Conflicts(Verifications, z, w));
      VerificationConflicts(M, z, w);
      VerificationConflicts(M, r, g);
      VerificationConflicts(M, g, w);
      VerificationConflicts(M, w, z);
      Tie(Verifications, M, g, r);
      Tie(Verifications, M, g, w);
      Tie(Verifications, M, z, w);
    }
  }

  /** A remove of another user whose add is not taken back would be uncovered. */
  lemma NoOtherUser(M: set<Message>, g: Message, y: Message, r: Message)
    requires Plain(Verifications, M) && Covered(Verifications, M) && GreatestAdd(M, g, Slot(g))
    requires AddAt(M, y, Slot(g)) && y.fid != g.fid && RemoveAt(M, r, y.fid, Slot(g))
    ensures TakenBack(M, y)
  {
    hide Storable, Slot, Precedes, Identified, Conflicts;
    if !TakenBack(M, y) {
      var D := set x | x in M && RemoveAt(M, x, y.fid, Slot(g));
      assert r in D;
      var top := Greatest(Verifications, M, D);
      var w :| w in Winners(Verifications, M) && (w == top || Conflicts(Verifications, top, w));
      VerificationConflicts(M, top, w);
      VerificationConflicts(M, y, top);
      VerificationConflicts(M, g, w);
      Tie(Verifications, M, g, w);
      Tie(Verifications, M, top, w);
    }
  }

  lemma CoveredIsSettled(M: set<Message>, s: Bytes)
    requires Plain(Verifications, M) && Covered(Verifications, M)
    ensures AddressSettled(M, s)
  {
    hide Storable, Slot, Precedes, Identified, Covered, TakenBack;
    if exists z :: AddAt(M, z, s) && !TakenBack(M, z) {
      var z :| AddAt(M, z, s) && !TakenBack(M, z);
      var A := set x | x in M && AddAt(M, x, s);
      assert z in A;
      var g := Greatest(Verifications, M, A);
      assert GreatestAdd(M, g, s);
      GreatestNotTakenBack(M, g, z);
      forall y, r | AddAt(M, y, s) && y.fid != g.fid && RemoveAt(M, r, y.fid, s)
        ensures TakenBack(M, y)
      {
        NoOtherUser(M, g, y, r);
      }
    }
  }

  /**
   Verifications: all orders agree if and only if, for every address, every add is taken back by its user, or the
   greatest add is not and no other user has both a remove and an add that is not taken back.
   */
  lemma VerificationsAgreeIff(M: set<Message>)
    requires Plain(Verifications, M)
    ensures OrdersAgree(Verifications, M) <==> forall s :: AddressSettled(M, s)
  {
    OnlyLinksCross(Verifications, M);
    hide Storable, Slot, Precedes, Identified, Conflicts, AddressSettled, Winners, OrdersAgree, Uncrossed;
    OrdersAgreeIff(Verifications, M);
    if Covered(Verifications, M) {
      forall s
        ensures AddressSettled(M, s)
      {
        CoveredIsSettled(M, s);
      }
    }
    if forall s :: AddressSettled(M, s) {
      forall y | y in M
        ensures exists w :: w in Winners(Verifications, M) && Conflicts(Verifications, y, w)
      {
        var w := SettledIsCovered(M, y);
      }
    }
  }
}
