/**
 Runs of account stores: what merging sequences of messages into new stores leads to.
 */
module StoreRuns {
  import opened Bytes
  import opened RocksDb
  import opened Messages
  import opened StoreSpec
  import opened StoreLayout
  import opened StoreTheorems
  import opened StoreOrders
  import opened LinkOrders
  import opened Store
  import opened EventIds

  // ---- merges ----

  /** Merges messages one by one into an empty store; not ok means that an event id could not be issued. */
  method MergeSequence(s: Store, ms: seq<Message>, clock: nat -> nat) returns (ok: bool)
    requires s.Valid() && s.contents == Whole({}) && Known(s.def, SetOf(ms))
    requires forall i :: clock(i) >= s.generator.epoch
    modifies s, s.generator
    ensures s.Valid() && (ok ==> s.contents == ActAll(s.def, ms))
  {
    hide Storable, Identified, Lays, WellFormed, Act, Admits, Hits, Competitors;
    ok := true;
    var i := 0;
    while i < |ms|
      invariant 0 <= i <= |ms| && s.Valid()
      invariant ok ==> s.contents == ActAll(s.def, ms[..i])
      invariant s.contents.records <= SetOf(ms)
    {
      NextIsAllowed(s.def, ms, i, s.contents);
      var r := s.Merge(ms[i], clock(i));
      if r == Err(NoEventId) {
        ok := false;
      }
      assert ms[..i + 1][..i] == ms[..i];
      i := i + 1;
    }
    assert ms[..|ms|] == ms;
  }

  lemma NextIsAllowed(def: StoreDef, ms: seq<Message>, i: nat, S: Contents)
    requires Known(def, SetOf(ms)) && i < |ms| && S.records <= SetOf(ms) && WellFormed(def, S)
    ensures Storable(def, ms[i]) && 0 < ms[i].fid < Messages.U32 && ms[i].timestamp < Messages.U32 && ms[i] in SetOf(ms)
    ensures Identified(S.records + {ms[i]}) && Act(def, S, ms[i]).records <= SetOf(ms)
  {
    assert ms[i] in SetOf(ms);
    hide Act, WellFormed;
    assert S.records + {ms[i]} <= SetOf(ms);
    ActIsWellFormed(def, S, ms[i]);
  }

  method MergeIntoNew(def: StoreDef, ms: seq<Message>, clock: nat -> nat) returns (s: Store, ok: bool)
    requires Known(def, SetOf(ms))
    ensures fresh(s) && s.Valid() && s.def == def && (ok ==> s.contents == ActAll(def, ms))
  {
    hide *;
    var g := new HubEventIdGenerator(None, None, None);
    s := new Store(def, 0, g);
    ok := MergeSequence(s, ms, clock);
  }

  /** Two new stores that merge the same messages end with the same database, if orders agree on these messages. */
  method SameMessages(def: StoreDef, ms: seq<Message>, ns: seq<Message>, clock: nat -> nat)
    returns (a: Store, b: Store, ok: bool)
    requires SetOf(ms) == SetOf(ns) && Known(def, SetOf(ms)) && OrdersAgree(def, SetOf(ms))
    ensures ok ==> a.db == b.db && a.contents == b.contents == ActAll(def, ms)
  {
    hide Known, Lays, WellFormed, ActAll;
    var okA, okB;
    a, okA := MergeIntoNew(def, ms, clock);
    b, okB := MergeIntoNew(def, ns, clock);
    ok := okA && okB;
    if ok {
      LaysOneDatabase(def, a.db, b.db, a.contents);
    }
  }

  /** After a run of username proofs, the index names the user of the greatest proof that any user has merged. */
  method NameHolder(ms: seq<Message>, m: Message, clock: nat -> nat) returns (s: Store, ok: bool, ghost w: Message)
    requires Ordinary(UsernameProofs, SetOf(ms)) && m in ms
    ensures ok ==> s.HolderOf(Slot(m)) == w.fid && w in ms && Slot(w) == Slot(m)
    ensures ok ==> forall x | x in ms && Slot(x) == Slot(m) && x != w :: Less(TsHash(x), TsHash(w))
  {
    assert Known(UsernameProofs, SetOf(ms)) by { hide Storable; }
    hide Lays, WellFormed, ActAll, Slot, Ordinary, TsHash, Known;
    s, ok := MergeIntoNew(UsernameProofs, ms, clock);
    w := m;
    if ok {
      w := LatestProofHoldsName(ms, s.db, m);
    }
  }

  // ---- merges and prunes ----

  datatype Op = MergeOp(message: Message, now: nat) | PruneOp(fid: nat, cached: nat, max: nat, clock: nat -> nat)

  ghost predicate Allowed(op: Op, M: set<Message>, epoch: nat) {
    match op
    case MergeOp(m, now) => m in M && 0 < m.fid < Messages.U32 && m.timestamp < Messages.U32 && now >= epoch
    case PruneOp(_, _, _, clock) => forall i :: clock(i) >= epoch
  }

  /** No step of the run deletes the index entry of a message that it keeps. */
  ghost predicate Unhit(states: seq<Contents>) {
    forall j | 0 < j < |states| :: !Hits(states[j - 1].records, states[j - 1].records - states[j].records)
  }

  /**
   Merges and prunes in any order, on a new store: its contents run as specified, and without a hit the indices agree
   with the records in the end.
   */
  method Operate(s: Store, ops: seq<Op>, ghost M: set<Message>) returns (ghost states: seq<Contents>)
    requires s.Valid() && s.contents == Whole({}) && Identified(M)
    requires forall op | op in ops :: Allowed(op, M, s.generator.epoch)
    modifies s, s.generator
    ensures s.Valid() && Run(s.def, M, states) && states[|states| - 1] == s.contents
    ensures Unhit(states) ==> s.Complete() && IndicesFaithful(s.def, s.db)
  {
    hide Storable, Identified, Lays, WellFormed, Act, Admits, Hits, Competitors, StoreStep, Removed, IndicesFaithful,
         OfFid, Named;
    states := [s.contents];
    assert Run(s.def, M, states);
    for i := 0 to |ops|
      invariant s.Valid() && Run(s.def, M, states) && states[|states| - 1] == s.contents
    {
      ghost var S := s.contents;
      assert ops[i] in ops;
      RunsKeepInvariants(s.def, M, states, |states| - 1);
      match ops[i] {
        case MergeOp(m, now) =>
          PartIsIdentified(M, S.records + {m});
          var r := s.Merge(m, now);
          MergeIsStep(s.def, M, S, m, s.contents);
        case PruneOp(fid, cached, max, clock) =>
          var r := s.PruneMessages(fid, cached, max, clock);
          if r.Ok? {
            PruneIsStep(s.def, M, S, Named(r.value), fid);
          } else {
            NoStep(s.def, M, S);
          }
      }
      states := states + [s.contents];
    }
    IndexIntegrity(s.def, s.db, s.contents);
    if Unhit(states) {
      UnhitRunsStayWhole(s.def, M, states, |states| - 1);
    }
  }

  lemma PartIsIdentified(M: set<Message>, M': set<Message>)
    requires Identified(M) && M' <= M
    ensures Identified(M')
  {
  }

  lemma NoStep(def: StoreDef, M: set<Message>, S: Contents)
    requires WellFormed(def, S)
    ensures StoreStep(def, M, S, S)
  {
    hide Act, Consistent, Compacted, Storable;
    assert Removed(S, {}) == S;
  }

  lemma MergeIsStep(def: StoreDef, M: set<Message>, S: Contents, m: Message, S': Contents)
    requires WellFormed(def, S) && m in M && (S' == S || (Storable(def, m) && S' == Act(def, S, m)))
    ensures StoreStep(def, M, S, S')
  {
    hide Act, Storable, Consistent, Compacted;
    if S' == S {
      NoStep(def, M, S);
    }
  }

  lemma PruneIsStep(def: StoreDef, M: set<Message>, S: Contents, C: set<Message>, fid: nat)
    requires C <= OfFid(S.records, fid)
    ensures StoreStep(def, M, S, Removed(S, C))
  {
    hide Act, Removed;
    assert C <= S.records;
  }

  // ---- crossed keys ----

  /** A remove of a link with a type of four bytes, and a later one without a target whose type ends in the target. */
  ghost predicate CrossedRemoves(m: Message, w: Message) {
    && Storable(Links, m) && Storable(Links, w) && m.kind == Remove && w.kind == Remove && m.fid == w.fid
    && m.hash != w.hash && m.timestamp < w.timestamp && |m.body.linkType| == 4 && m.body.targetFid.Some?
    && w.body.targetFid.None? && w.body.linkType == m.body.linkType + FidBytes(m.body.targetFid.value)
  }

  lemma CrossedRemovesAre(m: Message, w: Message)
    requires CrossedRemoves(m, w)
    ensures Crossed(m, w) && m != w && Known(Links, {m, w}) && Less(TsHash(m), TsHash(w))
  {
    ShapeOf(Links, m);
    ShapeOf(Links, w);
    assert Padded(w.body.linkType) == w.body.linkType;
    PrimaryOrder(m, w);
  }

  /** Such messages exist. */
  lemma CrossedRemovesExist(hash: Bytes, other: Bytes) returns (m: Message, w: Message)
    requires |hash| == |other| == HASH_LENGTH && hash != other
    ensures CrossedRemoves(m, w)
  {
    m := Message(Remove, true, 1, 1, hash, LinkBody([102, 97, 110, 115], Some(7)), []);
    w := Message(Remove, true, 1, 2, other, LinkBody([102, 97, 110, 115] + FidBytes(7), None), []);
  }

  /** A link and a remove under its unpadded key: the two orders of merging end with different databases. */
  method CrossedOrders(m: Message, w: Message, clock: nat -> nat) returns (a: Store, b: Store, ok: bool)
    requires Known(Links, {m, w}) && Crossed(m, w)
    ensures ok ==> a.contents == Whole({m, w}) && b.contents != a.contents && a.db != b.db
  {
    CrossedPair({m, w}, m, w);
    BothStored({m, w}, m, w);
    CrossedShapes({m, w}, m, w);
    assert SetOf([m, w]) == {m, w} && SetOf([w, m]) == {m, w};
    hide Known, Lays, WellFormed, ActAll, Crossed, Precedes, Conflicts, SetOf;
    var okA, okB;
    a, okA := MergeIntoNew(Links, [m, w], clock);
    b, okB := MergeIntoNew(Links, [w, m], clock);
    ok := okA && okB;
    if ok {
      OneIsMissing(a.db, a.contents, b.db, b.contents, m, w);
    }
  }

  lemma OneIsMissing(db: StoreDb, S: Contents, db': StoreDb, S': Contents, m: Message, w: Message)
    requires Lays(Links, db, S) && WellFormed(Links, S) && Lays(Links, db', S') && WellFormed(Links, S')
    requires S == Whole({m, w}) && (S' == Whole({m}) || S' == Whole({w}))
    requires m.kind != Compact && w.kind != Compact && m != w
    ensures db != db'
  {
    hide Lays, WellFormed, TsHash;
    var x := if S' == Whole({m}) then w else m;
    RecordRead(Links, db, S, x);
    if db == db' {
      var y := RecordOwner(Links, db', S', PrimaryKey(Links, x.fid, TsHash(x)));
    }
  }

  /**
   Both removes are merged, then the user is pruned to one message: the deletion of the first also deletes the index
   entry of the second, whose record stays behind.
   */
  method CrossedRun(m: Message, w: Message) returns (s: Store)
    requires CrossedRemoves(m, w)
    ensures s.Valid() && s.contents == Contents({w}, {}) && !s.Complete() && !IndicesFaithful(Links, s.db)
  {
    CrossedRemovesAre(m, w);
    s := MergeBoth(m, w);
    var clock: nat -> nat := _ => 3;
    FirstTickIssues(clock);
    TwoOfFid(m, w);
    PruneExcess();
    assert Strikes(m, w);
    StrikeOne(m, w);
    hide *;
    var p := s.PruneMessages(m.fid, 2, 0, clock);
    RemovedRecords(Whole({m, w}), Named(p.value));
    OldestIsGone(m, w, Named(p.value));
    IndexIntegrity(Links, s.db, s.contents);
    NotWhole(w);
  }

  lemma RemovedRecords(S: Contents, C: set<Message>)
    ensures Removed(S, C).records == S.records - C
    ensures forall R :: Whole(R).records == R
  {
  }

  lemma NotWhole(w: Message)
    ensures forall R :: Contents({w}, {}) != Whole(R)
  {
    assert w in {w};
  }

  lemma PruneExcess()
    ensures Excess(2, 2, 1) == 1
  {
  }

  method MergeBoth(m: Message, w: Message) returns (s: Store)
    requires CrossedRemoves(m, w)
    ensures s.Valid() && s.contents == Whole({m, w}) && s.def == Links && s.pruneSizeLimit == 1
    ensures s.generator.epoch == 0 && s.generator.Current() == State(2, 0) && fresh(s) && fresh(s.generator)
  {
    BothAdmitted(m, w);
    hide Storable, Identified, Lays, WellFormed, Act, Admits, Slot, CrossedRemoves, Hits, Competitors;
    var g := new HubEventIdGenerator(None, None, None);
    s := new Store(Links, 1, g);
    var r := s.Merge(m, 1);
    r := s.Merge(w, 2);
  }

  lemma BothAdmitted(m: Message, w: Message)
    requires CrossedRemoves(m, w)
    ensures Act(Links, Whole({}), m) == Whole({m}) && Admits(Links, Whole({}), m)
    ensures Act(Links, Whole({m}), w) == Whole({m, w}) && Admits(Links, Whole({m}), w)
    ensures Identified({} + {m}) && Identified({m} + {w}) && m.fid > 0 && w.fid == m.fid
    ensures m.fid < Messages.U32 && m.timestamp < Messages.U32 && w.timestamp < Messages.U32
  {
    CrossedRemovesAre(m, w);
    FirstAct(m);
    BothStored({m, w}, m, w);
    CrossedShapes({m, w}, m, w);
    assert [m, w][..1] == [m];
    NotGated(Links, {}, m);
    NotGated(Links, {m}, w);
    hide Conflicts, Crossed, Precedes, Act;
    assert {m} + {w} == {m, w};
  }

  lemma FirstTickIssues(clock: nat -> nat)
    requires clock(0) == 3
    ensures IssuesAt(State(2, 0), clock, 0, 0)
  {
    var s := State(2, 0);
    var t := Ticks(clock, 0, 1);
    assert t[..0] == [] && t[0] == 3;
    assert After(s, []) == s;
    assert After(s, t) == State(3, 0);
  }

  lemma TwoOfFid(m: Message, w: Message)
    requires m.fid == w.fid && m.kind != Compact && w.kind != Compact && m != w
    ensures OfFid({m, w}, m.fid) == {m, w} && |{m, w}| == 2
  {
  }

  lemma OldestIsGone(m: Message, w: Message, gone: set<Message>)
    requires m.fid == w.fid && m.kind != Compact && w.kind != Compact && m != w && |gone| == 1 && gone <= {m, w}
    requires forall x, y | x in gone && y in OfFid({m, w} - gone, m.fid) :: Less(TsHash(x), TsHash(y))
    requires Less(TsHash(m), TsHash(w))
    ensures gone == {m} && {m, w} - gone == {w}
  {
    hide TsHash, Compare;
    CompareSigns(TsHash(m), TsHash(w));
    var x :| x in gone;
    assert |gone - {x}| == 0;
    assert gone == {x};
    assert m in gone || m in OfFid({m, w} - gone, m.fid);
  }
}
