/**
 When the result of merging links and compact states does not depend on the order.
 */
module LinkOrders {
  import opened Bytes
  import opened Messages
  import opened StoreSpec
  import opened StoreTheorems
  import opened StoreOrders

  /** A compact state with the latest timestamp of its user and type. */
  ghost predicate Latest(M: set<Message>, c: Message) {
    c in M && c.kind == Compact && forall d | d in M && Conflicts(Links, d, c) :: d.timestamp <= c.timestamp
  }

  /** No two compact states of one user and type share the latest timestamp. */
  ghost predicate NoTies(M: set<Message>) {
    forall c, d | Latest(M, c) && Latest(M, d) && Conflicts(Links, c, d) :: c == d
  }

  /** The link is the greatest message of its slot. */
  ghost predicate Leads(M: set<Message>, g: Message) {
    g in Winners(Links, M) && g.kind != Compact
  }

  ghost predicate Unswept(M: set<Message>, g: Message) {
    forall c | c in M :: !Swept(c, g)
  }

  /** The greatest message of its slot, and no compact state sweeps it. */
  ghost predicate Lives(M: set<Message>, g: Message) {
    Leads(M, g) && Unswept(M, g)
  }

  /** The latest compact state of its user and type turns the link away. */
  ghost predicate TurnedAway(M: set<Message>, x: Message) {
    exists c :: Latest(M, c) && Governs(c, x) && Outdated(c, x)
  }

  /** No compact state sweeps the greatest message of the slot, or the latest one turns away all of the slot. */
  ghost predicate SlotSettled(M: set<Message>, g: Message) {
    Unswept(M, g) || forall x | x in M && Conflicts(Links, x, g) :: TurnedAway(M, x)
  }

  /**
   The remove w, which names no target, lies under the unpadded key of the link m. If the greatest message of the slot
   of w lives, m is an add that it beats and does not live itself; otherwise, if m lives, it beats w.
   */
  ghost predicate PairSettled(M: set<Message>, m: Message, w: Message) {
    forall v | Leads(M, v) && Conflicts(Links, v, w) ::
      if Unswept(M, v) then m.kind == Add && Precedes(Links, m, v) && !Lives(M, m)
      else Lives(M, m) ==> Precedes(Links, w, m)
  }

  ghost predicate LinksSettled(M: set<Message>) {
    NoTies(M) && forall g | Leads(M, g) :: SlotSettled(M, g)
  }

  ghost predicate CrossingsSettled(M: set<Message>) {
    forall m, w | m in M && w in M && Crossed(m, w) :: PairSettled(M, m, w)
  }

  /** What the store ends with: the latest compact states, and the greatest messages that no state sweeps. */
  ghost function LinksEnd(M: set<Message>): set<Message> {
    set x | x in M && (Latest(M, x) || Lives(M, x))
  }

  lemma LinkConflicts(a: Message, b: Message, c: Message)
    requires Conflicts(Links, a, b)
    ensures Conflicts(Links, b, a) && (a.kind == Compact <==> b.kind == Compact) && a.fid == b.fid
    ensures Conflicts(Links, b, c) ==> Conflicts(Links, a, c)
  {
  }

  // ---- runs ----

  ghost function ActOnto(S: Contents, ms: seq<Message>): Contents {
    if ms == [] then S else Act(Links, ActOnto(S, ms[..|ms| - 1]), ms[|ms| - 1])
  }

  lemma {:induction false} ActSplits(ms: seq<Message>, ns: seq<Message>)
    ensures ActAll(Links, ms + ns) == ActOnto(ActAll(Links, ms), ns)
  {
    hide Act;
    if ns == [] {
      assert ms + ns == ms;
    } else {
      var init := ns[..|ns| - 1];
      ActSplits(ms, init);
      assert (ms + ns)[..|ms + ns| - 1] == ms + init;
    }
  }

  lemma FromStart(ms: seq<Message>)
    ensures ActAll(Links, ms) == ActOnto(Whole({}), ms)
  {
    ActSplits([], ms);
    assert [] + ms == ms;
  }

  lemma OneAct(S: Contents, m: Message)
    ensures ActOnto(S, [m]) == Act(Links, S, m)
  {
    assert [m][..0] == [];
    assert ActOnto(S, []) == S;
  }

  /** Contents that merging messages of M can lead to. */
  ghost predicate Within(M: set<Message>, S: Contents) {
    WellFormed(Links, S) && S.records <= M
  }

  ghost predicate Keeps(M: set<Message>, N: set<Message>, P: Contents -> bool) {
    forall S, m | Within(M, S) && m in N && P(S) :: P(Act(Links, S, m))
  }

  lemma EmptyIsWithin(M: set<Message>)
    ensures Within(M, Whole({}))
  {
    WholeIsWellFormed(Links, {});
    NothingStored(Links);
  }

  lemma ActIsWithin(M: set<Message>, S: Contents, m: Message)
    requires Known(Links, M) && Within(M, S) && m in M
    ensures Within(M, Act(Links, S, m))
  {
    hide Storable, Act, WellFormed;
    assert S.records + {m} <= M;
    ActIsWellFormed(Links, S, m);
  }

  /** What every merge of N keeps, a run of N keeps. */
  lemma {:induction false} RunKeeps(M: set<Message>, N: set<Message>, S: Contents, ms: seq<Message>,
                                    P: Contents -> bool)
    requires Known(Links, M) && N <= M && Within(M, S) && SetOf(ms) <= N && P(S) && Keeps(M, N, P)
    ensures Within(M, ActOnto(S, ms)) && P(ActOnto(S, ms))
  {
    hide Known, Within, Act;
    if ms != [] {
      var init, m := ms[..|ms| - 1], ms[|ms| - 1];
      LastSplits(ms);
      RunKeeps(M, N, S, init, P);
      ActIsWithin(M, ActOnto(S, init), m);
    }
  }

  /** What merging x brings about while Q holds, and every merge keeps, holds after a run with x. */
  lemma {:induction false} RunMakes(M: set<Message>, S: Contents, ms: seq<Message>, x: Message, Q: Contents -> bool,
                                    P: Contents -> bool)
    requires Known(Links, M) && Within(M, S) && SetOf(ms) <= M && x in ms && Q(S) && Keeps(M, M, Q)
    requires forall S | Within(M, S) && Q(S) :: P(Act(Links, S, x))
    requires forall S, m | Within(M, S) && m in M && Q(S) && P(S) :: P(Act(Links, S, m))
    ensures P(ActOnto(S, ms))
  {
    hide Known, Within, Act;
    var init, m := ms[..|ms| - 1], ms[|ms| - 1];
    LastSplits(ms);
    RunKeeps(M, M, S, init, Q);
    if x in init {
      RunMakes(M, S, init, x, Q, P);
    }
  }

  lemma ActAddsOnly(S: Contents, m: Message)
    ensures Act(Links, S, m).records <= S.records + {m} && Act(Links, S, m).listed <= S.listed + {m}
  {
    hide Conflicts, Swept, Crossed, Struck;
  }

  /** Messages that are not given do not appear. */
  lemma {:induction false} NotGiven(S: Contents, ms: seq<Message>, y: Message)
    requires y !in ms
    ensures y !in S.records ==> y !in ActOnto(S, ms).records
    ensures y !in S.listed ==> y !in ActOnto(S, ms).listed
  {
    hide Act;
    if ms != [] {
      NotGiven(S, ms[..|ms| - 1], y);
      ActAddsOnly(ActOnto(S, ms[..|ms| - 1]), ms[|ms| - 1]);
    }
  }

  // ---- what stays ----

  lemma LatestStays(M: set<Message>, c: Message)
    requires Latest(M, c)
    ensures Keeps(M, M, (S: Contents) => c in S.records)
  {
    forall S, m | Within(M, S) && m in M && c in S.records
      ensures c in Act(Links, S, m).records
    {
      StateStays(M, S, m, c);
    }
  }

  lemma StateStays(M: set<Message>, S: Contents, m: Message, c: Message)
    requires Latest(M, c) && Within(M, S) && m in M && c in S.records
    ensures c in Act(Links, S, m).records
  {
    hide Conflicts, WellFormed;
    if Conflicts(Links, c, m) {
      LinkConflicts(c, m, c);
    }
  }

  lemma LatestEnters(M: set<Message>, c: Message)
    requires Latest(M, c) && NoTies(M)
    ensures forall S | Within(M, S) :: c in Act(Links, S, c).records
  {
    hide Conflicts, WellFormed;
    forall S | Within(M, S)
      ensures c in Act(Links, S, c).records
    {
      if CompactBlocked(Links, S.records, c) {
        var r :| r in S.records && Conflicts(Links, r, c) && r.timestamp >= c.timestamp;
        LinkConflicts(r, c, c);
        forall d | d in M && Conflicts(Links, d, r)
          ensures d.timestamp <= r.timestamp
        {
          LinkConflicts(d, r, c);
        }
        assert Latest(M, r);
      }
    }
  }

  /** The latest compact state is stored in the end. */
  lemma LatestIsStored(M: set<Message>, ms: seq<Message>, c: Message)
    requires Known(Links, M) && NoTies(M) && SetOf(ms) <= M && Latest(M, c) && c in ms
    ensures c in ActAll(Links, ms).records
  {
    LatestStays(M, c);
    LatestEnters(M, c);
    hide Known, Latest, NoTies, Within, Act;
    EmptyIsWithin(M);
    FromStart(ms);
    RunMakes(M, Whole({}), ms, c, _ => true, (S: Contents) => c in S.records);
  }

  lemma UnsweptIsUngated(M: set<Message>, R: set<Message>, g: Message)
    requires Unswept(M, g) && R <= M && g.kind != Compact
    ensures !Gated(R, g)
  {
    forall c | c in R
      ensures !(Governs(c, g) && Outdated(c, g))
    {
      assert !Swept(c, g);
    }
  }

  lemma {:induction false} LatestOf(M: set<Message>, S: set<Message>, y: Message) returns (c: Message)
    requires S <= M && y in S && (forall x | x in S :: x.kind == Compact && Conflicts(Links, x, y))
    ensures c in S && forall d | d in S :: d.timestamp <= c.timestamp
    decreases S
  {
    c := y;
    assert forall d | d in S :: d == y || d in S - {y};
    if S - {y} != {} {
      var x :| x in S - {y};
      forall z | z in S - {y}
        ensures Conflicts(Links, z, x)
      {
        LinkConflicts(x, y, z);
        LinkConflicts(z, y, x);
      }
      c := LatestOf(M, S - {y}, x);
      if c.timestamp < y.timestamp {
        c := y;
      }
    }
  }

  /** Every compact state has a latest one. */
  lemma HasLatest(M: set<Message>, y: Message) returns (c: Message)
    requires y in M && y.kind == Compact
    ensures Latest(M, c) && Conflicts(Links, y, c)
  {
    var S := set x | x in M && Conflicts(Links, x, y);
    SelfConflict(Links, y);
    forall x | x in S
      ensures x.kind == Compact
    {
      LinkConflicts(x, y, y);
    }
    hide Conflicts;
    c := LatestOf(M, S, y);
    LinkConflicts(c, y, c);
    forall d | d in M && Conflicts(Links, d, c)
      ensures d.timestamp <= c.timestamp
    {
      LinkConflicts(d, c, y);
    }
  }

  /** Every link has a greatest message of its slot. */
  lemma HasLeader(M: set<Message>, y: Message) returns (g: Message)
    requires Known(Links, M) && y in M && y.kind != Compact
    ensures Leads(M, g) && Conflicts(Links, y, g)
  {
    hide Conflicts, Storable, Precedes, Identified;
    var S := set x | x in M && Conflicts(Links, x, y);
    SelfConflict(Links, y);
    assert y in S;
    g := Greatest(Links, M, S);
    LinkConflicts(g, y, g);
    forall x | x in M && Conflicts(Links, x, g)
      ensures x == g || Precedes(Links, x, g)
    {
      LinkConflicts(x, g, y);
    }
  }

  // ---- settled sets ----

  /** Every record of the slot of g is named. */
  ghost predicate AllNamed(S: Contents, g: Message) {
    forall r | r in S.records && Conflicts(Links, r, g) :: r in S.listed
  }

  /** In a settled set, a link under whose unpadded key a slot that lives lies is an older add. */
  lemma CrosserIsAdd(M: set<Message>, c: Message, r: Message, g: Message)
    requires CrossingsSettled(M) && Lives(M, g) && c in M && r in M && Crossed(c, r) && Conflicts(Links, r, g)
    ensures c.kind == Add && Precedes(Links, c, g) && !Lives(M, c)
  {
    hide Crossed, Conflicts, Precedes, Leads, Unswept;
    ConflictsSymmetric(Links, r, g);
    assert PairSettled(M, c, r);
  }

  /** In a settled set, deleting a message of M does not strike the slot of a message that lives. */
  lemma NotStruck(M: set<Message>, S: Contents, C: set<Message>, g: Message, r: Message)
    requires Lives(M, g) && CrossingsSettled(M) && Within(M, S) && C <= S.records && AllNamed(S, g)
    requires r in S.listed && r !in C && Conflicts(Links, r, g)
    ensures !Struck(C, r)
  {
    hide Storable, Identified, Compacted, Leads, Unswept, Bare;
    forall c | c in C
      ensures !Strikes(c, r)
    {
      LinkConflicts(r, g, r);
      if Crossed(c, r) {
        CrosserIsAdd(M, c, r, g);
      }
      if c.kind == r.kind != Compact && c.fid == r.fid && Slot(c) == Slot(r) {
        SameSlotConflicts(Links, c, r);
        LinkConflicts(c, r, g);
      }
    }
  }

  lemma AllNamedStays(M: set<Message>, g: Message)
    requires Lives(M, g) && CrossingsSettled(M)
    ensures Keeps(M, M, (S: Contents) => AllNamed(S, g))
  {
    forall S, m | Within(M, S) && m in M && AllNamed(S, g)
      ensures AllNamed(Act(Links, S, m), g)
    {
      AllNamedAfter(M, S, m, g);
    }
  }

  /** A merge that changes anything deletes some records and puts the message. */
  lemma ActShape(M: set<Message>, S: Contents, m: Message) returns (C: set<Message>)
    requires Within(M, S) && Act(Links, S, m) != S
    ensures C == (if m.kind == Compact then Sweepings(Links, S, m) else Competitors(Links, S, m)) && C <= S.records
    ensures Act(Links, S, m) == Added(Removed(S, C), m)
  {
    hide Conflicts, Swept, Crossed, Storable, Compacted, Consistent, Struck;
    C := if m.kind == Compact then Sweepings(Links, S, m) else Competitors(Links, S, m);
  }

  lemma AllNamedAfter(M: set<Message>, S: Contents, m: Message, g: Message)
    requires Lives(M, g) && CrossingsSettled(M) && Within(M, S) && m in M && AllNamed(S, g)
    ensures AllNamed(Act(Links, S, m), g)
  {
    var S' := Act(Links, S, m);
    if S' != S {
      var C := ActShape(M, S, m);
      hide Act, Struck, Conflicts, Lives, CrossingsSettled, Within;
      forall r | r in S'.records && Conflicts(Links, r, g)
        ensures r in S'.listed
      {
        if r != m {
          NotStruck(M, S, C, g, r);
        }
      }
    }
  }

  /** A message that lives beats whatever stands in its way. */
  lemma LivesBeats(M: set<Message>, g: Message, r: Message)
    requires Known(Links, M) && Lives(M, g) && CrossingsSettled(M) && r in M && Competes(Links, r, g)
    ensures r == g || Precedes(Links, r, g)
  {
    hide Storable, Precedes, Identified, Unswept, Swept, Conflicts;
    if Crossed(g, r) {
      assert PairSettled(M, g, r);
      assert r.kind != Compact;
      var v := HasLeader(M, r);
      LinkConflicts(r, v, v);
    }
  }

  lemma LiveEnters(M: set<Message>, S: Contents, g: Message)
    requires Known(Links, M) && Lives(M, g) && CrossingsSettled(M) && Within(M, S)
    ensures g in Act(Links, S, g).listed
  {
    UnsweptIsUngated(M, S.records, g);
    hide Storable, Precedes, Identified, Conflicts, Crossed, Leads, Unswept, Gated, CrossingsSettled, Compacted, Struck;
    if Refused(Links, S, g) {
      var r :| r in S.listed && Competes(Links, r, g) && !Precedes(Links, r, g);
      LivesBeats(M, g, r);
    }
  }

  lemma LiveStays(M: set<Message>, S: Contents, m: Message, g: Message)
    requires Known(Links, M) && Lives(M, g) && CrossingsSettled(M) && Within(M, S) && AllNamed(S, g)
    requires m in M && g in S.listed
    ensures g in Act(Links, S, m).listed
  {
    hide Struck, Conflicts, Lives, CrossingsSettled, WellFormed, Crossed, Swept;
    var S' := Act(Links, S, m);
    if S' != S {
      var C := ActShape(M, S, m);
      SelfConflict(Links, g);
      if g != m {
        LiveIsKept(M, S, m, g);
        hide Act, Struck, Conflicts, Lives, CrossingsSettled, Within, AllNamed;
        NotStruck(M, S, C, g, g);
      }
    }
  }

  /** No message of M takes the place of one that lives. */
  lemma LiveIsKept(M: set<Message>, S: Contents, m: Message, g: Message)
    requires Known(Links, M) && Lives(M, g) && CrossingsSettled(M) && Within(M, S) && m in M && g in S.listed && m != g
    requires Act(Links, S, m) != S
    ensures m.kind == Compact ==> g !in Sweepings(Links, S, m)
    ensures m.kind != Compact ==> g !in Competitors(Links, S, m)
  {
    hide Storable, Identified, Compacted, Gated, Precedes, Swept;
    if m.kind == Compact {
      assert !Conflicts(Links, g, m);
      assert !Swept(m, g);
    } else if Competes(Links, g, m) {
      Tie(Links, M, m, g);
      if Crossed(m, g) {
        SelfConflict(Links, g);
        CrosserIsAdd(M, m, g, g);
      } else {
        LinkConflicts(g, m, g);
      }
    }
  }

  lemma LiveIsStored(M: set<Message>, ms: seq<Message>, g: Message)
    requires Known(Links, M) && CrossingsSettled(M) && SetOf(ms) == M && Lives(M, g)
    ensures g in ActAll(Links, ms).listed && AllNamed(ActAll(Links, ms), g)
  {
    AllNamedStays(M, g);
    forall S | Within(M, S) && AllNamed(S, g)
      ensures g in Act(Links, S, g).listed
    {
      LiveEnters(M, S, g);
    }
    forall S, m | Within(M, S) && m in M && AllNamed(S, g) && g in S.listed
      ensures g in Act(Links, S, m).listed
    {
      LiveStays(M, S, m, g);
    }
    LeaderIsGiven(M, g);
    InSetOf(ms);
    hide Known, CrossingsSettled, Lives, Within, Act;
    EmptyIsWithin(M);
    FromStart(ms);
    RunMakes(M, Whole({}), ms, g, (S: Contents) => AllNamed(S, g), (S: Contents) => g in S.listed);
    RunKeeps(M, M, Whole({}), ms, (S: Contents) => AllNamed(S, g));
  }

  lemma LeaderIsGiven(M: set<Message>, g: Message)
    requires Leads(M, g)
    ensures g in M && g.kind != Compact
  {
  }

  /** A settled set ends, in every order and with any repeats, the same way, with every record named. */
  lemma SettledConverge(ms: seq<Message>)
    requires Known(Links, SetOf(ms)) && LinksSettled(SetOf(ms)) && CrossingsSettled(SetOf(ms))
    ensures ActAll(Links, ms) == Whole(LinksEnd(SetOf(ms)))
  {
    var M, S := SetOf(ms), ActAll(Links, ms);
    InSetOf(ms);
    assert Within(M, S) by {
      hide Known, Within;
      EmptyIsWithin(M);
      FromStart(ms);
      RunKeeps(M, M, Whole({}), ms, _ => true);
    }
    forall x | x in LinksEnd(M)
      ensures x in S.listed
    {
      EndIsNamed(M, ms, x);
    }
    forall y | y in S.records
      ensures y in LinksEnd(M)
    {
      NothingElse(M, ms, S, y);
    }
    hide ActAll, LinksEnd, WellFormed, Known;
    assert S.listed <= S.records by { hide Consistent, Compacted; }
  }

  lemma EndIsNamed(M: set<Message>, ms: seq<Message>, x: Message)
    requires Known(Links, M) && NoTies(M) && CrossingsSettled(M) && SetOf(ms) == M && x in LinksEnd(M)
    requires Within(M, ActAll(Links, ms))
    ensures x in ActAll(Links, ms).listed
  {
    hide ActAll, CrossingsSettled, NoTies, Consistent, Compacted, Storable, Leads, Unswept, Conflicts;
    if Latest(M, x) {
      InSetOf(ms);
      LatestIsStored(M, ms, x);
    } else {
      LiveIsStored(M, ms, x);
    }
  }

  lemma NothingElse(M: set<Message>, ms: seq<Message>, S: Contents, y: Message)
    requires Known(Links, M) && LinksSettled(M) && CrossingsSettled(M) && SetOf(ms) == M && S == ActAll(Links, ms)
    requires Within(M, S) && y in S.records
    ensures y in LinksEnd(M)
  {
    hide ActAll, CrossingsSettled, Storable, Conflicts, Precedes, Governs, Outdated, Bare, Leads, Unswept;
    InSetOf(ms);
    if y.kind == Compact {
      var c := HasLatest(M, y);
      LatestIsStored(M, ms, c);
      StatesAreNamed(S, y);
      StatesAreNamed(S, c);
    } else {
      var g := HasLeader(M, y);
      if Unswept(M, g) {
        LiveIsStored(M, ms, g);
      } else {
        var c :| Latest(M, c) && Governs(c, y) && Outdated(c, y);
        LatestIsStored(M, ms, c);
      }
    }
  }

  lemma StatesAreNamed(S: Contents, c: Message)
    requires WellFormed(Links, S) && c in S.records && c.kind == Compact
    ensures c in S.listed
  {
  }

  // ---- unsettled slots ----

  /** Tied latest states: whichever comes first stays. */
  lemma TieDepends(M: set<Message>, c: Message, d: Message)
    requires Known(Links, M) && Latest(M, c) && Latest(M, d) && Conflicts(Links, c, d) && OrdersAgree(Links, M)
    ensures c == d
  {
    var ms := LatestFirst(M, c);
    var ns := LatestFirst(M, d);
    var S := ActAll(Links, ns);
    assert c in S.records && d in S.records;
    hide ActAll, Known, Latest, Conflicts, Storable;
    StatesAreNamed(S, c);
    StatesAreNamed(S, d);
  }

  lemma LatestFirst(M: set<Message>, c: Message) returns (ms: seq<Message>)
    requires Known(Links, M) && Latest(M, c)
    ensures SetOf(ms) == M && c in ActAll(Links, ms).records && Within(M, ActAll(Links, ms))
    ensures c.kind == Compact
  {
    LatestStays(M, c);
    var rest := Enumerated(M - {c});
    ms := [c] + rest;
    InSetOf(rest);
    InSetOf(ms);
    assert SetOf(ms) == M;
    FirstAct(c);
    hide Known, Within, Act, ActAll, Keeps;
    ActSplits([c], rest);
    EmptyIsWithin(M);
    ActIsWithin(M, Whole({}), c);
    RunKeeps(M, M, Whole({c}), rest, (S: Contents) => c in S.records);
  }

  lemma FirstAct(m: Message)
    ensures Act(Links, Whole({}), m) == Whole({m}) && ActAll(Links, [m]) == Whole({m})
  {
    assert [m][..0] == [];
    assert ActAll(Links, []) == Whole({});
    hide Conflicts, Swept, Crossed, Precedes;
    assert Sweepings(Links, Whole({}), m) == {} && Competitors(Links, Whole({}), m) == {};
    assert Removed(Whole({}), {}) == Whole({});
  }

  ghost predicate SlotFull(S: Contents, y: Message) {
    exists x :: x in S.records && Conflicts(Links, x, y)
  }

  /** The compact states of S are among those of R. */
  ghost predicate StatesIn(S: Contents, R: set<Message>) {
    forall c | c in S.records && c.kind == Compact :: c in R
  }

  lemma StatesStayIn(M: set<Message>, N: set<Message>, R: set<Message>)
    requires forall m | m in N :: m.kind != Compact
    ensures Keeps(M, N, (S: Contents) => StatesIn(S, R))
  {
    forall S, m | Within(M, S) && m in N && StatesIn(S, R)
      ensures StatesIn(Act(Links, S, m), R)
    {
      ActAddsOnly(S, m);
    }
  }

  /** After merging all compact states, the stored ones are the latest. */
  lemma StoredStateIsLatest(M: set<Message>, cs: seq<Message>, c: Message)
    requires Known(Links, M) && NoTies(M) && SetOf(cs) == (set m | m in M && m.kind == Compact)
    requires c in ActAll(Links, cs).records
    ensures Latest(M, c)
  {
    InSetOf(cs);
    assert Within(M, ActAll(Links, cs)) && Within(SetOf(cs), ActAll(Links, cs)) by {
      hide Known, Within, Act;
      EmptyIsWithin(M);
      EmptyIsWithin(SetOf(cs));
      KnownSubset(Links, M, SetOf(cs));
      FromStart(cs);
      RunKeeps(M, M, Whole({}), cs, _ => true);
      RunKeeps(SetOf(cs), SetOf(cs), Whole({}), cs, _ => true);
    }
    hide Conflicts, Storable, ActAll, Identified, Latest, Compacted;
    var l := HasLatest(M, c);
    LatestIsCompact(M, l);
    LatestIsStored(M, cs, l);
    StatesAreNamed(ActAll(Links, cs), l);
    StatesAreNamed(ActAll(Links, cs), c);
  }

  lemma LatestIsCompact(M: set<Message>, l: Message)
    requires Latest(M, l)
    ensures l in M && l.kind == Compact
  {
  }

  lemma NotGatedBy(M: set<Message>, R: set<Message>, S: Contents, y: Message)
    requires StatesIn(S, R) && (forall c | c in R :: Latest(M, c)) && !TurnedAway(M, y)
    ensures !Gated(S.records, y)
  {
    hide Outdated, Latest;
  }

  /** Links merged after each other keep a slot with a target filled. */
  lemma SlotStaysFull(M: set<Message>, N: set<Message>, y: Message)
    requires (forall m | m in N :: m.kind != Compact) && Known(Links, M) && y in M && y.kind != Compact
    requires y.body.LinkBody? && y.body.targetFid.Some?
    ensures Keeps(M, N, (S: Contents) => SlotFull(S, y))
  {
    forall S, m | Within(M, S) && m in N && SlotFull(S, y)
      ensures SlotFull(Act(Links, S, m), y)
    {
      SlotFullAfter(M, S, m, y);
    }
  }

  lemma SlotFullAfter(M: set<Message>, S: Contents, m: Message, y: Message)
    requires m.kind != Compact && Within(M, S) && SlotFull(S, y) && Known(Links, M) && y in M && y.kind != Compact
    requires y.body.LinkBody? && y.body.targetFid.Some?
    ensures SlotFull(Act(Links, S, m), y)
  {
    var x :| x in S.records && Conflicts(Links, x, y);
    LinkConflicts(x, y, y);
    ShapeOf(Links, x);
    ShapeOf(Links, y);
    assert !Crossed(m, x);
    hide Conflicts, Precedes, Storable, Crossed, Slot, Gated, Compacted, Identified, Struck;
    if x !in Act(Links, S, m).records {
      LinkConflicts(x, m, y);
      LinkConflicts(m, x, y);
      assert m in Act(Links, S, m).records && Conflicts(Links, m, y);
    }
  }

  lemma BareFillsSlot(S: Contents, y: Message)
    requires y.kind != Compact && !Gated(S.records, y) && y.body.LinkBody? && y.body.targetFid.None?
    requires S.listed <= S.records
    ensures SlotFull(Act(Links, S, y), y)
  {
    SelfConflict(Links, y);
    if Refused(Links, S, y) {
      var r :| r in S.listed && Competes(Links, r, y) && !Precedes(Links, r, y);
    } else {
      hide Conflicts, Precedes, Struck;
      assert y in Act(Links, S, y).records;
    }
  }

  /** Compact states first: a slot that the latest state does not wholly turn away can be filled in the end. */
  lemma StatesFirst(M: set<Message>, y: Message) returns (ms: seq<Message>)
    requires Known(Links, M) && NoTies(M) && y in M && y.kind != Compact && !TurnedAway(M, y)
    ensures SetOf(ms) == M && SlotFull(ActAll(Links, ms), y)
  {
    var C := set m | m in M && m.kind == Compact;
    var cs := Enumerated(C);
    var rest := Enumerated(M - C - {y});
    InSetOf(cs);
    InSetOf(rest);
    var S := ActAll(Links, cs);
    var R := S.records;
    forall c | c in R
      ensures Latest(M, c)
    {
      StoredStateIsLatest(M, cs, c);
    }
    ShapeOf(Links, y);
    assert Within(M, S) by {
      hide Known, Within, Act;
      EmptyIsWithin(M);
      FromStart(cs);
      RunKeeps(M, M, Whole({}), cs, _ => true);
    }
    StatesStayIn(M, M - C, R);
    assert StatesIn(S, R);
    hide Known, Within, Act, ActAll, Latest, TurnedAway, NoTies, Keeps, StatesIn, SlotFull;
    NotGatedBy(M, R, S, y);
    ActSplits(cs, [y]);
    OneAct(S, y);
    if y.body.targetFid.Some? {
      ms := cs + [y] + rest;
      InSetOf(ms);
      assert SetOf(ms) == M;
      TargetFills(M, S, y);
      ActIsWithin(M, S, y);
      SlotStaysFull(M, M - C, y);
      ActSplits(cs + [y], rest);
      RunKeeps(M, M - C, Act(Links, S, y), rest, (X: Contents) => SlotFull(X, y));
    } else {
      ms := cs + rest + [y];
      InSetOf(ms);
      assert SetOf(ms) == M;
      ActSplits(cs, rest);
      ActSplits(cs + rest, [y]);
      RunKeeps(M, M - C, S, rest, (X: Contents) => StatesIn(X, R));
      var X := ActOnto(S, rest);
      OneAct(X, y);
      NotGatedBy(M, R, X, y);
      NamedAreRecords(M, X);
      BareFillsSlot(X, y);
    }
  }

  lemma NamedAreRecords(M: set<Message>, S: Contents)
    requires Within(M, S)
    ensures S.listed <= S.records && S.records <= M
  {
  }

  /** With compact states only, a link that is not turned away is merged. */
  lemma TargetFills(M: set<Message>, S: Contents, y: Message)
    requires y.kind != Compact && !Gated(S.records, y) && Within(M, S) && forall c | c in S.records :: Latest(M, c)
    ensures SlotFull(Act(Links, S, y), y)
  {
    SelfConflict(Links, y);
    hide Precedes, Struck, Gated, Consistent, Compacted, Storable;
    forall r | r in S.listed
      ensures !Competes(Links, r, y)
    {
      assert Latest(M, r);
    }
    assert y in Act(Links, S, y).records;
  }

  /** The slot first, then a state that sweeps its greatest message: the slot is empty in the end. */
  lemma SlotFirst(M: set<Message>, g: Message, c: Message) returns (ms: seq<Message>)
    requires Known(Links, M) && Leads(M, g) && c in M && c.kind == Compact && Swept(c, g)
    ensures SetOf(ms) == M && !SlotFull(ActAll(Links, ms), g)
  {
    var S := set x | x in M && Conflicts(Links, x, g);
    var ls := Enumerated(S);
    SlotConverges(M, g, ls);
    assert g.kind != Compact && c !in S by { LeaderIsGiven(M, g); hide Swept, Known; }
    SweepsLeader(g, c);
    hide *;
    var rest := Enumerated(M - S - {c});
    InSetOf(ls);
    InSetOf(rest);
    ms := ls + [c] + rest;
    InSetOf(ms);
    assert SetOf(ms) == M;
    ActSplits(ls, [c]);
    OneAct(Whole({g}), c);
    ActSplits(ls + [c], rest);
    EmptySlot(g, c, S, M, rest);
  }

  lemma EmptySlot(g: Message, c: Message, S: set<Message>, M: set<Message>, rest: seq<Message>)
    requires S == (set x | x in M && Conflicts(Links, x, g)) && c !in S && c in M && SetOf(rest) == M - S - {c}
    ensures !SlotFull(ActOnto(Whole({c}), rest), g)
  {
    hide Conflicts, ActOnto;
    InSetOf(rest);
    forall x | Conflicts(Links, x, g)
      ensures x !in ActOnto(Whole({c}), rest).records
    {
      NotGiven(Whole({c}), rest, x);
    }
  }

  lemma SlotConverges(M: set<Message>, g: Message, ls: seq<Message>)
    requires Known(Links, M) && Leads(M, g) && SetOf(ls) == (set x | x in M && Conflicts(Links, x, g))
    ensures ActAll(Links, ls) == Whole({g})
  {
    var S := SetOf(ls);
    forall x, y | x in S && y in S
      ensures x.kind != Compact && Conflicts(Links, x, y) && Slot(x) == Slot(y)
    {
      LinkConflicts(x, g, y);
      LinkConflicts(y, g, x);
    }
    SelfConflict(Links, g);
    KnownSubset(Links, M, S);
    OneSlotIsUncrossed(S);
    hide Storable, Precedes, ActAll, Identified, Conflicts, Uncrossed, Slot;
    assert g in Winners(Links, S);
    forall w | w in Winners(Links, S)
      ensures w == g
    {
      Tie(Links, M, w, g);
    }
    assert Winners(Links, S) == {g};
    CoveredConverge(Links, ls);
  }

  lemma SweepsLeader(g: Message, c: Message)
    requires g.kind != Compact && c.kind == Compact && Swept(c, g)
    ensures Act(Links, Whole({g}), c) == Whole({c})
  {
    hide Swept, Struck;
    assert !Conflicts(Links, g, c);
    assert Sweepings(Links, Whole({g}), c) == {g};
    assert Removed(Whole({g}), {g}) == Whole({});
  }

  lemma UnsettledSlotDepends(M: set<Message>, g: Message)
    requires Known(Links, M) && NoTies(M) && Leads(M, g) && OrdersAgree(Links, M)
    ensures SlotSettled(M, g)
  {
    hide Known, NoTies, Leads, ActAll, TurnedAway, Conflicts;
    if !SlotSettled(M, g) {
      var c :| c in M && Swept(c, g);
      var y :| y in M && Conflicts(Links, y, g) && !TurnedAway(M, y);
      LeaderIsGiven(M, g);
      LinkConflicts(y, g, g);
      StateSweeps(M, c, g);
      var ms := StatesFirst(M, y);
      var ns := SlotFirst(M, g, c);
      var x :| x in ActAll(Links, ms).records && Conflicts(Links, x, y);
      LinkConflicts(x, y, g);
    }
  }

  lemma StateSweeps(M: set<Message>, c: Message, g: Message)
    requires Known(Links, M) && c in M && Swept(c, g)
    ensures c.kind == Compact
  {
    ShapeOf(Links, c);
  }

  // ---- unsettled crossings ----

  lemma CrossedShapes(M: set<Message>, m: Message, w: Message)
    requires Known(Links, M) && m in M && w in M && Crossed(m, w)
    ensures m.kind != Compact && w.kind == Remove && m != w && !Conflicts(Links, m, w) && !Conflicts(Links, w, m)
    ensures forall x :: !Crossed(w, x) && !Crossed(x, m)
    ensures forall v | v in M && Conflicts(Links, v, w) :: Crossed(m, v) && v.kind == Remove
  {
    ShapeOf(Links, m);
    ShapeOf(Links, w);
    forall v | v in M && Conflicts(Links, v, w)
      ensures Crossed(m, v) && v.kind == Remove
    {
      ShapeOf(Links, v);
    }
  }

  /** A remove and then a link under whose unpadded key it lies. */
  lemma CrossedPair(M: set<Message>, m: Message, w: Message)
    requires Known(Links, M) && m in M && w in M && Crossed(m, w)
    ensures ActAll(Links, [w, m]) == if Precedes(Links, w, m) then Whole({m}) else Whole({w})
  {
    CrossedShapes(M, m, w);
    FirstAct(w);
    assert [w, m][..1] == [w];
    hide Conflicts, Crossed, Precedes, Struck;
    NotGated(Links, {w}, m);
    assert Competitors(Links, Whole({w}), m) == {w};
    assert Removed(Whole({w}), {w}) == Whole({});
  }

  /** The link first: the remove joins it. */
  lemma BothStored(M: set<Message>, m: Message, w: Message)
    requires Known(Links, M) && m in M && w in M && Crossed(m, w)
    ensures ActAll(Links, [m, w]) == Whole({m, w})
  {
    CrossedShapes(M, m, w);
    FirstAct(m);
    assert [m, w][..1] == [m];
    hide Conflicts, Crossed, Precedes;
    NotGated(Links, {m}, w);
    assert Competitors(Links, Whole({m}), w) == {};
    assert Removed(Whole({m}), {}) == Whole({m});
  }

  /** Deleting the link then strikes the remove. */
  lemma StruckByState(M: set<Message>, m: Message, v: Message, c: Message)
    requires Known(Links, M) && m in M && v in M && c in M && Crossed(m, v) && m.kind == Remove && c.kind == Compact
    requires Swept(c, m) && !Swept(c, v)
    ensures ActAll(Links, [m, v, c]) == Contents({v, c}, {c})
  {
    CrossedShapes(M, m, v);
    BothStored(M, m, v);
    assert [m, v, c][..2] == [m, v];
    assert !Conflicts(Links, m, c) && !Conflicts(Links, v, c);
    assert Strikes(m, v);
    hide Conflicts, Crossed, Swept, Strikes;
    assert Sweepings(Links, Whole({m, v}), c) == {m};
    StrikeOne(m, v);
  }

  lemma StruckByLink(M: set<Message>, m: Message, v: Message, g: Message)
    requires Known(Links, M) && m in M && v in M && g in M && Crossed(m, v) && m.kind == Remove
    requires Conflicts(Links, m, g) && Precedes(Links, m, g) && !Crossed(g, v)
    ensures ActAll(Links, [m, v, g]) == Contents({v, g}, {g})
  {
    CrossedShapes(M, m, v);
    BothStored(M, m, v);
    assert [m, v, g][..2] == [m, v];
    LinkConflicts(m, g, v);
    NotGated(Links, {m, v}, g);
    assert Strikes(m, v);
    assert !Conflicts(Links, v, g) by {
      if Conflicts(Links, v, g) {
        LinkConflicts(v, g, m);
      }
    }
    hide Conflicts, Crossed, Strikes, Precedes;
    assert Competitors(Links, Whole({m, v}), g) == {m};
    StrikeOne(m, v);
  }

  lemma StrikeOne(m: Message, v: Message)
    requires m != v && Strikes(m, v)
    ensures Removed(Whole({m, v}), {m}) == Contents({v}, {})
  {
    hide Strikes;
    assert Struck({m}, v);
  }

  /** A remove that lives can come last, and then it is named. */
  lemma BareLast(M: set<Message>, v: Message) returns (ms: seq<Message>)
    requires Known(Links, M) && Lives(M, v) && (forall x :: !Crossed(v, x))
    ensures SetOf(ms) == M && v in ActAll(Links, ms).listed
  {
    LeaderIsGiven(M, v);
    var rest := Enumerated(M - {v});
    ms := rest + [v];
    InSetOf(rest);
    InSetOf(ms);
    assert SetOf(ms) == M;
    var S := ActAll(Links, rest);
    assert Within(M, S) by {
      hide Known, Within, Act;
      EmptyIsWithin(M);
      FromStart(rest);
      RunKeeps(M, M, Whole({}), rest, _ => true);
    }
    ActSplits(rest, [v]);
    OneAct(S, v);
    UnsweptIsUngated(M, S.records, v);
    hide Storable, Precedes, Identified, Conflicts, Gated, Compacted, Struck, ActAll, Swept, Crossed;
    if Refused(Links, S, v) {
      var r :| r in S.listed && Competes(Links, r, v) && !Precedes(Links, r, v);
      assert r == v;
    }
  }

  /** An order that starts with the given messages and leaves v unnamed leaves it so. */
  lemma StaysUnnamed(M: set<Message>, start: seq<Message>, v: Message) returns (ms: seq<Message>)
    requires v in start && SetOf(start) <= M && v !in ActAll(Links, start).listed
    ensures SetOf(ms) == M && v !in ActAll(Links, ms).listed
    ensures v !in ActAll(Links, start).records ==> v !in ActAll(Links, ms).records
  {
    var rest := Enumerated(M - SetOf(start));
    InSetOf(rest);
    InSetOf(start);
    ms := start + rest;
    InSetOf(ms);
    assert SetOf(ms) == M;
    ActSplits(start, rest);
    NotGiven(ActAll(Links, start), rest, v);
  }

  /** A live link that comes first is stored in the end. */
  lemma LiveFirst(M: set<Message>, g: Message) returns (ms: seq<Message>)
    requires Known(Links, M) && Lives(M, g) && (forall x :: !Crossed(x, g))
    ensures SetOf(ms) == M && g in ActAll(Links, ms).records
  {
    LeaderIsGiven(M, g);
    var rest := Enumerated(M - {g});
    InSetOf(rest);
    ms := [g] + rest;
    InSetOf(ms);
    assert SetOf(ms) == M;
    FirstAct(g);
    forall S, m | Within(M, S) && m in M && g in S.records
      ensures g in Act(Links, S, m).records
    {
      LiveRecordStays(M, S, m, g);
    }
    hide Known, Within, Act, ActAll, Lives;
    ActSplits([g], rest);
    EmptyIsWithin(M);
    ActIsWithin(M, Whole({}), g);
    RunKeeps(M, M, Whole({g}), rest, (S: Contents) => g in S.records);
  }

  lemma LiveRecordStays(M: set<Message>, S: Contents, m: Message, g: Message)
    requires Known(Links, M) && Lives(M, g) && (forall x :: !Crossed(x, g)) && Within(M, S) && m in M && g in S.records
    ensures g in Act(Links, S, m).records
  {
    assert m.kind == Compact ==> !Conflicts(Links, g, m);
    hide Storable, Precedes, Identified, Gated, Compacted, Struck, Crossed, Swept, Conflicts;
    Tie(Links, M, m, g);
    if Conflicts(Links, g, m) {
      LinkConflicts(g, m, g);
    }
  }

  /** A live link is lost to a crossed remove that it does not beat, or not, as the order will have it. */
  lemma LiveDepends(M: set<Message>, m: Message, w: Message)
    requires Known(Links, M) && OrdersAgree(Links, M) && m in M && w in M && Crossed(m, w) && Lives(M, m)
    ensures Precedes(Links, w, m)
  {
    CrossedShapes(M, m, w);
    CrossedPair(M, m, w);
    hide Known, Lives, ActAll, Crossed, Conflicts, Precedes;
    if !Precedes(Links, w, m) {
      var ms := LiveFirst(M, m);
      assert SetOf([w, m]) == {w, m};
      var ns := StaysUnnamed(M, [w, m], m);
    }
  }

  /** A live remove without a target is beaten by no link that it crosses. */
  lemma BareDepends(M: set<Message>, m: Message, v: Message)
    requires Known(Links, M) && OrdersAgree(Links, M) && m in M && Crossed(m, v) && Lives(M, v)
    ensures !Precedes(Links, v, m)
  {
    LeaderIsGiven(M, v);
    CrossedShapes(M, m, v);
    CrossedPair(M, m, v);
    hide Known, Lives, ActAll, Crossed, Conflicts, Precedes;
    if Precedes(Links, v, m) {
      var ms := BareLast(M, v);
      assert SetOf([v, m]) == {v, m};
      var ns := StaysUnnamed(M, [v, m], v);
    }
  }

  /** When orders agree, a live remove without a target is named after every start. */
  lemma NamedAlways(M: set<Message>, start: seq<Message>, v: Message)
    requires Known(Links, M) && OrdersAgree(Links, M) && Lives(M, v) && (forall x :: !Crossed(v, x))
    requires v in start && SetOf(start) <= M
    ensures v in ActAll(Links, start).listed
  {
    hide Known, Lives, ActAll, Crossed;
    if v !in ActAll(Links, start).listed {
      var ms := BareLast(M, v);
      var ns := StaysUnnamed(M, start, v);
    }
  }

  /** Nor does a remove cross it: the remove could leave after it. */
  lemma RemoveDepends(M: set<Message>, m: Message, v: Message)
    requires Known(Links, M) && OrdersAgree(Links, M) && LinksSettled(M) && m in M && Crossed(m, v) && Lives(M, v)
    ensures m.kind == Add
  {
    LeaderIsGiven(M, v);
    CrossedShapes(M, m, v);
    hide Known, ActAll, Crossed, Conflicts, Precedes, Swept, Leads, Governs, Outdated, Latest, NoTies, Unswept,
         OrdersAgree;
    if m.kind == Remove {
      var g := HasLeader(M, m);
      LeaderIsGiven(M, g);
      if !Unswept(M, g) {
        var c :| Latest(M, c) && Governs(c, m) && Outdated(c, m);
        RemoveLeavesByState(M, m, v, c);
      } else if Crossed(g, v) {
        LiveDepends(M, g, v);
        BareDepends(M, g, v);
      } else {
        RemoveLeavesByLink(M, m, v, g);
      }
    }
  }

  lemma RemoveLeavesByState(M: set<Message>, m: Message, v: Message, c: Message)
    requires Known(Links, M) && OrdersAgree(Links, M) && m in M && Crossed(m, v) && Lives(M, v)
    requires Latest(M, c) && Governs(c, m) && Outdated(c, m)
    ensures m.kind != Remove
  {
    LeaderIsGiven(M, v);
    CrossedShapes(M, m, v);
    OutdatedIsSwept(M, c, m);
    assert !Swept(c, v);
    assert SetOf([m, v, c]) == {m, v, c};
    hide Known, ActAll, Crossed, Conflicts, Swept, Leads, Unswept, Governs, Outdated, Latest, OrdersAgree;
    NamedAlways(M, [m, v, c], v);
    if m.kind == Remove {
      StruckByState(M, m, v, c);
    }
  }

  lemma RemoveLeavesByLink(M: set<Message>, m: Message, v: Message, g: Message)
    requires Known(Links, M) && OrdersAgree(Links, M) && m in M && Crossed(m, v) && Lives(M, v)
    requires Leads(M, g) && Conflicts(Links, m, g) && !Crossed(g, v)
    ensures m.kind != Remove
  {
    LeaderIsGiven(M, v);
    LeaderIsGiven(M, g);
    CrossedShapes(M, m, v);
    LeaderIsGreater(M, m, g, v);
    CrossedIsNot(M, m, v, g);
    assert SetOf([m, v, g]) == {m, v, g};
    hide Known, ActAll, Crossed, Conflicts, Precedes, Leads, Unswept, OrdersAgree;
    NamedAlways(M, [m, v, g], v);
    if m.kind == Remove {
      StruckByLink(M, m, v, g);
    }
  }

  lemma CrossedIsNot(M: set<Message>, m: Message, v: Message, g: Message)
    requires Known(Links, M) && m in M && v in M && Crossed(m, v) && Conflicts(Links, m, g)
    ensures g != v
  {
    CrossedShapes(M, m, v);
  }

  lemma OutdatedIsSwept(M: set<Message>, c: Message, m: Message)
    requires Latest(M, c) && Governs(c, m) && Outdated(c, m)
    ensures Swept(c, m) && c in M && c.kind == Compact
  {
  }

  lemma LeaderIsGreater(M: set<Message>, m: Message, g: Message, v: Message)
    requires Known(Links, M) && Leads(M, g) && m in M && Conflicts(Links, m, g) && Crossed(m, v) && !Crossed(g, v)
    ensures Precedes(Links, m, g)
  {
    hide Storable, Precedes, Identified, Conflicts;
  }

  lemma UnsettledPairDepends(M: set<Message>, m: Message, w: Message)
    requires Known(Links, M) && OrdersAgree(Links, M) && LinksSettled(M) && m in M && w in M && Crossed(m, w)
    ensures PairSettled(M, m, w)
  {
    CrossedShapes(M, m, w);
    hide Known, ActAll, Crossed, Conflicts, Precedes, Leads, Unswept, LinksSettled, OrdersAgree;
    forall v | Leads(M, v) && Conflicts(Links, v, w)
      ensures if Unswept(M, v) then m.kind == Add && Precedes(Links, m, v) && !Lives(M, m)
              else Lives(M, m) ==> Precedes(Links, w, m)
    {
      LeaderIsGiven(M, v);
      if Unswept(M, v) {
        RemoveDepends(M, m, v);
        BareDepends(M, m, v);
        Tie(Links, M, m, v);
        CrossedShapes(M, m, v);
        if Lives(M, m) {
          LiveDepends(M, m, v);
        }
      } else if Lives(M, m) {
        LiveDepends(M, m, w);
      }
    }
  }

  /**
   Links and compact states: all orders agree if and only if no two states of one user and type tie for the latest
   timestamp, in every slot the greatest message is swept by no state or all messages are turned away by the latest,
   and every link under whose unpadded key a remove without a target lies is settled with it.
   */
  lemma LinksAgreeIff(M: set<Message>)
    requires Known(Links, M)
    ensures OrdersAgree(Links, M) <==> LinksSettled(M) && CrossingsSettled(M)
  {
    hide Known, Latest, Leads, Conflicts, ActAll, LinksEnd, Crossed, SlotSettled, PairSettled;
    if LinksSettled(M) && CrossingsSettled(M) {
      forall ms, ns | SetOf(ms) == M && SetOf(ns) == M
        ensures ActAll(Links, ms) == ActAll(Links, ns)
      {
        SettledConverge(ms);
        SettledConverge(ns);
      }
    }
    if OrdersAgree(Links, M) {
      forall c, d | Latest(M, c) && Latest(M, d) && Conflicts(Links, c, d)
        ensures c == d
      {
        TieDepends(M, c, d);
      }
      forall g | Leads(M, g)
        ensures SlotSettled(M, g)
      {
        UnsettledSlotDepends(M, g);
      }
      forall m, w | m in M && w in M && Crossed(m, w)
        ensures PairSettled(M, m, w)
      {
        UnsettledPairDepends(M, m, w);
      }
    }
  }

  // ---- witnesses ----

  /** Two compact states of one age: the first one stays. */
  lemma TiedStates(c: Message, d: Message)
    requires Storable(Links, c) && Storable(Links, d) && c.kind == d.kind == Compact && Conflicts(Links, c, d) && c != d
    requires c.timestamp == d.timestamp
    ensures ActAll(Links, [c, d]) == Whole({c}) && ActAll(Links, [d, c]) == Whole({d})
  {
    assert [c, d][..1] == [c] && [d, c][..1] == [d];
    FirstAct(c);
    FirstAct(d);
    ConflictsSymmetric(Links, c, d);
    hide Conflicts, Swept;
    assert c in Whole({c}).records && d in Whole({d}).records;
  }

  /**
   A link that the compact state lists and a later remove of it, both older than the state: the state turns the remove
   away but, coming last, finds that it has already replaced the link. All pairs agree, the three do not.
   */
  lemma ListedLinkRemoved(a: Message, r: Message, c: Message)
    requires Storable(Links, a) && Storable(Links, r) && Storable(Links, c) && Identified({a, r, c})
    requires a.kind == Add && r.kind == Remove && c.kind == Compact && Conflicts(Links, a, r)
    requires Governs(c, a) && Governs(c, r) && a.timestamp < r.timestamp < c.timestamp
    requires a.body.targetFid.Some? && a.body.targetFid.value in c.body.targetFids
    ensures ActAll(Links, [a, r, c]) == Whole({c}) && ActAll(Links, [a, c, r]) == Whole({a, c})
    ensures ActAll(Links, [a, c]) == ActAll(Links, [c, a]) && ActAll(Links, [r, c]) == ActAll(Links, [c, r])
    ensures ActAll(Links, [a, r]) == ActAll(Links, [r, a])
  {
    OneSlotIsUncrossed({a, r, c});
    LastWriteWins(Links, a, r);
    LastWriteWins(Links, r, a);
    ListedSteps(a, r, c);
    hide *;
    ThreeActs(Links, a, r, c);
    assert {a, c, r} == {a, r, c} && {c, a} == {a, c} && {c, r} == {r, c} && {r, a} == {a, r};
    ThreeActs(Links, a, c, r);
    PartOf({a, r, c}, {a, c});
    PartOf({a, r, c}, {r, c});
    PartOf({a, r, c}, {a, r});
    TwoActs(Links, a, c);
    TwoActs(Links, c, a);
    TwoActs(Links, r, c);
    TwoActs(Links, c, r);
    TwoActs(Links, a, r);
    TwoActs(Links, r, a);
  }

  lemma PartOf(M: set<Message>, M': set<Message>)
    requires M' <= M && Identified(M) && Uncrossed(M)
    ensures Identified(M') && Uncrossed(M')
  {
    hide Crossed;
  }

  lemma ListedSteps(a: Message, r: Message, c: Message)
    requires a.kind == Add && r.kind == Remove && c.kind == Compact && Conflicts(Links, a, r)
    requires Governs(c, a) && Governs(c, r) && a.timestamp < r.timestamp < c.timestamp
    requires a.body.targetFid.Some? && a.body.targetFid.value in c.body.targetFids
    requires Precedes(Links, a, r) && !Precedes(Links, r, a)
    ensures Step(Links, {}, a) == {a} && Step(Links, {}, r) == {r} && Step(Links, {}, c) == {c}
    ensures Step(Links, {a}, r) == {r} && Step(Links, {r}, a) == {r} && Step(Links, {r}, c) == {c}
    ensures Step(Links, {a}, c) == {a, c} && Step(Links, {c}, a) == {a, c}
    ensures Step(Links, {c}, r) == {c} && Step(Links, {a, c}, r) == {a, c}
  {
    assert Conflicts(Links, r, a);
    assert Swept(c, r) && !Swept(c, a) && Outdated(c, r) && !Outdated(c, a);
    assert !Conflicts(Links, a, c) && !Conflicts(Links, r, c) && !Conflicts(Links, c, a);
    hide Conflicts, Precedes, Swept, Outdated, Governs;
    assert Gated({a, c}, r) && Gated({c}, r);
    assert Step(Links, {}, a) == {a} && Step(Links, {}, r) == {r} by { NotGated(Links, {}, a); NotGated(Links, {}, r); }
    assert !Gated({c}, a);
    NotGated(Links, {a}, r);
    NotGated(Links, {r}, a);
    assert Blocked(Links, {r}, a);
    assert Rivals(Links, {a}, r) == {a} && Rivals(Links, {c}, a) == {};
  }
}
