/**
 The account store: merges and prunes of messages, on a key-value database with write batches.
 */
module Store {
  import opened Bytes
  import opened RocksDb
  import opened Messages
  import opened StoreSpec
  import opened StoreLayout
  import opened StoreFields
  import opened EventIds

  datatype StoreError = InvalidType | BadHash | InvalidParam | Conflict | Duplicate | Prunable | NoEventId | NotFound

  datatype StoreResult<T> = Ok(value: T) | Err(error: StoreError)

  datatype EventArgs = MergeMessage(message: Message, deleted: seq<Message>) | PruneMessage(message: Message)

  datatype HubEvent = HubEvent(id: nat, args: EventArgs)

  // ---- transactions ----

  function MentionKeys(m: Message, mentions: seq<nat>): set<DbKey> {
    set f | f in mentions :: Root(CASTS_BY_MENTION, FidBytes(f) + Tail(m))
  }

  function ParentKeys(m: Message, parent: Option<Target>): set<DbKey> {
    if parent.Some? then {Root(CASTS_BY_PARENT, TargetKey(parent.value) + Tail(m))} else {}
  }

  /** Sets the index entries of a cast, by parent and by each mention. */
  method CastIndices(txn: StoreBatch, m: Message, op: Option<Value>) returns (t: StoreBatch)
    requires m.body.CastAddBody?
    ensures t == txn + All(SecondaryKeys(m), op)
  {
    hide All, FidBytes, TargetKey, Tail;
    var CastAddBody(parent, mentions) := m.body;
    t := txn;
    AllMore(txn, {}, Root(0, []), op);
    if parent.Some? {
      var k := Root(CASTS_BY_PARENT, TargetKey(parent.value) + Tail(m));
      t := t[k := op];
      AllMore(txn, {}, k, op);
    }
    assert ParentKeys(m, parent) + MentionKeys(m, []) == ParentKeys(m, parent);
    for i := 0 to |mentions|
      invariant t == txn + All(ParentKeys(m, parent) + MentionKeys(m, mentions[..i]), op)
    {
      var k := Root(CASTS_BY_MENTION, FidBytes(mentions[i]) + Tail(m));
      t := t[k := op];
      AllMore(txn, ParentKeys(m, parent) + MentionKeys(m, mentions[..i]), k, op);
      assert mentions[..i + 1] == mentions[..i] + [mentions[i]];
      assert MentionKeys(m, mentions[..i + 1]) == MentionKeys(m, mentions[..i]) + {k};
      assert ParentKeys(m, parent) + MentionKeys(m, mentions[..i + 1])
          == ParentKeys(m, parent) + MentionKeys(m, mentions[..i]) + {k};
    }
    assert mentions[..|mentions|] == mentions;
    assert SecondaryKeys(m) == ParentKeys(m, parent) + MentionKeys(m, mentions);
  }

  /** The one index key of an add that is not a cast. */
  method IndexKeyOf(m: Message) returns (k: Option<DbKey>)
    requires !m.body.CastAddBody? && !SecondaryError(m)
    ensures SecondaryKeys(m) == if k.Some? then {k.value} else {}
  {
    match m.body
    case ReactionBody(_, target) =>
      return Some(Root(REACTIONS_BY_TARGET, TargetKey(target.value) + Tail(m)));
    case LinkBody(_, target) =>
      return Some(Root(LINKS_BY_TARGET, FidBytes(target.value) + Tail(m)));
    case VerificationBody(address) =>
      return Some(Root(VERIFICATION_BY_ADDRESS, address));
    case UsernameProofBody(name) =>
      return Some(Root(USERNAME_PROOF_BY_NAME, name));
    case _ =>
      return None;
  }

  method BuildSecondaryIndices(txn: StoreBatch, m: Message) returns (r: StoreResult<StoreBatch>)
    requires m.kind == Add
    ensures r == if SecondaryError(m) then Err(InvalidParam)
                 else Ok(txn + All(SecondaryKeys(m), Some(SecondaryValue(m))))
  {
    if SecondaryError(m) {
      return Err(InvalidParam);
    }
    hide SecondaryKeys, All;
    AllMore(txn, {}, Root(0, []), Some(SecondaryValue(m)));
    if m.body.CastAddBody? {
      var t := CastIndices(txn, m, Some(SecondaryValue(m)));
      return Ok(t);
    }
    var k := IndexKeyOf(m);
    if k.None? {
      return Ok(txn);
    }
    AllMore(txn, {}, k.value, Some(SecondaryValue(m)));
    return Ok(txn[k.value := Some(SecondaryValue(m))]);
  }

  method DeleteSecondaryIndices(txn: StoreBatch, m: Message) returns (t: StoreBatch)
    requires m.kind == Add && !SecondaryError(m)
    ensures t == txn + All(IndexDeletions(m), None)
  {
    hide SecondaryKeys, SecondaryError, All;
    AllMore(txn, {}, Root(0, []), None);
    if m.body.CastAddBody? {
      t := CastIndices(txn, m, None);
      assert IndexDeletions(m) == SecondaryKeys(m);
    } else {
      t := txn;
      var keys := {};
      if m.body.LinkBody? {
        t := t[UnpaddedKey(m) := None];
        AllMore(txn, {}, UnpaddedKey(m), None);
        keys := {UnpaddedKey(m)};
      }
      var k := IndexKeyOf(m);
      if k.Some? {
        t := t[k.value := None];
        AllMore(txn, keys, k.value, None);
        keys := keys + {k.value};
      }
      assert IndexDeletions(m) == keys;
    }
  }

  /** Deletes everything a stored message has put. */
  method DeleteTransaction(def: StoreDef, txn: StoreBatch, m: Message) returns (t: StoreBatch)
    requires Storable(def, m)
    ensures t == txn + All(DeletedKeys(def, m), None)
  {
    if IsCompact(def, m) {
      t := txn[CompactKey(m) := None];
      assert DeletedKeys(def, m) == {CompactKey(m)};
      AllMore(txn, {}, CompactKey(m), None);
    } else if IsAdd(def, m) {
      t := DeleteSecondaryIndices(txn, m);
      t := t[AddKey(def, m) := None];
      t := t[PrimaryKey(def, m.fid, TsHash(m)) := None];
      hide *;
      AllMore(txn, IndexDeletions(m), AddKey(def, m), None);
      AllMore(txn, IndexDeletions(m) + {AddKey(def, m)}, PrimaryKey(def, m.fid, TsHash(m)), None);
      AddDeletions(def, m);
    } else {
      t := DeleteRemove(def, txn, m);
    }
  }

  method DeleteRemove(def: StoreDef, txn: StoreBatch, m: Message) returns (t: StoreBatch)
    requires m.kind == Remove
    ensures t == txn + All(DeletedKeys(def, m), None)
  {
    hide *;
    t := txn;
    var keys := {};
    AllMore(txn, {}, Root(0, []), None);
    if m.body.LinkBody? {
      t := t[UnpaddedKey(m) := None];
      AllMore(txn, {}, UnpaddedKey(m), None);
      keys := {UnpaddedKey(m)};
    }
    t := t[RemoveKey(def, m) := None];
    AllMore(txn, keys, RemoveKey(def, m), None);
    keys := keys + {RemoveKey(def, m)};
    t := t[PrimaryKey(def, m.fid, TsHash(m)) := None];
    AllMore(txn, keys, PrimaryKey(def, m.fid, TsHash(m)), None);
    RemoveDeletions(def, m);
  }

  method DeleteMany(def: StoreDef, ms: seq<Message>) returns (txn: StoreBatch)
    requires forall m | m in ms :: Storable(def, m)
    ensures Deletes(def, txn, SetOf(ms))
  {
    hide Storable, DeletedKeys, All;
    txn := map[];
    for i := 0 to |ms|
      invariant Deletes(def, txn, SetOf(ms[..i]))
    {
      var before := txn;
      txn := DeleteTransaction(def, txn, ms[i]);
      DeletesMore(def, before, txn, SetOf(ms[..i]), ms[i]);
      assert SetOf(ms[..i + 1]) == SetOf(ms[..i]) + {ms[i]} by { assert ms[..i + 1] == ms[..i] + [ms[i]]; }
    }
    assert ms[..|ms|] == ms;
  }

  method PutAdd(def: StoreDef, txn: StoreBatch, m: Message) returns (r: StoreResult<StoreBatch>)
    requires m.kind == Add
    ensures r == if KeyError(m) || SecondaryError(m) then Err(InvalidParam) else Ok(txn + Puts(def, m))
  {
    hide *;
    var t := txn[PrimaryKey(def, m.fid, TsHash(m)) := Some(Record(m))];
    if KeyError(m) {
      return Err(InvalidParam);
    }
    t := t[AddKey(def, m) := Some(IndexEntry(TsHash(m)))];
    r := BuildSecondaryIndices(t, m);
    AddPuts(def, txn, m);
  }

  method PutRemove(def: StoreDef, txn: StoreBatch, m: Message) returns (r: StoreResult<StoreBatch>)
    requires m.kind == Remove
    ensures r == if KeyError(m) then Err(InvalidParam) else Ok(txn + Puts(def, m))
  {
    hide *;
    var t := txn[PrimaryKey(def, m.fid, TsHash(m)) := Some(Record(m))];
    if KeyError(m) {
      return Err(InvalidParam);
    }
    RemovePuts(def, txn, m);
    return Ok(t[RemoveKey(def, m) := Some(IndexEntry(TsHash(m)))]);
  }

  // ---- the store ----

  /** The stored message x refuses m: as a duplicate if they compare as equal, as a conflict if x is greater. */
  ghost predicate Weighed(def: StoreDef, x: Message, m: Message, e: StoreError) {
    && InRange(x) && InRange(m) && Order(def, x, m) >= 0
    && e == if Order(def, x, m) == 0 then Duplicate else Conflict
  }

  /** A named competitor that m does not beat: m itself, or another one. */
  ghost predicate Refusal(def: StoreDef, R: set<Message>, m: Message, e: StoreError) {
    exists x :: x in R && Competes(def, x, m) && !Precedes(def, x, m) && e == if x == m then Duplicate else Conflict
  }

  /** The competitors of m, all of which it beats. */
  ghost predicate Beaten(def: StoreDef, R: set<Message>, m: Message, cs: seq<Message>) {
    && (forall x | x in cs :: x in R && Competes(def, x, m) && Precedes(def, x, m))
    && (forall x | x in R && Competes(def, x, m) :: x in cs)
  }

  lemma WeighedRefuses(def: StoreDef, R: set<Message>, x: Message, m: Message, e: StoreError)
    requires Identified(R + {m}) && x in R && Weighed(def, x, m, e) && Competes(def, x, m)
    ensures Refusal(def, R, m, e)
  {
    hide Competes, Order, Identified;
    if Order(def, x, m) == 0 {
      EqualOrder(def, R, x, m);
    } else if x == m {
      SelfOrder(def, m);
    }
  }

  lemma SameConflicts(def: StoreDef, x: Message, m: Message)
    requires m.kind != Compact && Storable(def, x)
    ensures Same(x, m) ==> Conflicts(def, x, m)
    ensures def != UsernameProofs && def != Verifications ==> (Same(x, m) <==> Conflicts(def, x, m))
    ensures def == Verifications && m.kind == Remove ==> (Same(x, m) <==> Conflicts(def, x, m))
    ensures Conflicts(def, x, m) && !Same(x, m) ==>
              x.kind == Add && Slot(x) == Slot(m) && (def == UsernameProofs || m.kind == Add)
  {
    ShapeOf(def, x);
    hide Slot;
  }

  lemma OccupantRefuses(def: StoreDef, R: set<Message>, kind: Kind, fid: nat, slot: Bytes, m: Message, e: StoreError)
    requires Identified(R + {m}) && forall x | x in R && Occupies(x, kind, fid, slot) :: Competes(def, x, m)
    requires exists x :: x in R && Occupies(x, kind, fid, slot) && Weighed(def, x, m, e)
    ensures Refusal(def, R, m, e)
  {
    hide Competes, Weighed, Identified, Occupies, Refusal;
    var x :| x in R && Occupies(x, kind, fid, slot) && Weighed(def, x, m, e);
    WeighedRefuses(def, R, x, m, e);
  }

  /** Outside links, messages compete by their slots alone. */
  lemma OnlyLinksAreCrossed(def: StoreDef, x: Message, m: Message)
    requires def != Links && IsLinkable(def, m)
    ensures Competes(def, x, m) <==> Conflicts(def, x, m)
  {
  }

  lemma SlotCompetes(def: StoreDef, R: set<Message>, m: Message)
    requires Consistent(def, R) && m.kind != Compact && IsLinkable(def, m)
    ensures forall x | x in R && Same(x, m) :: Competes(def, x, m)
    ensures forall x, kind: Kind | x in R && kind != Compact && Occupies(x, kind, m.fid, Slot(m)) :: Competes(def, x, m)
    ensures def in {Casts, Reactions, UserData} ==> forall x | x in R :: Same(x, m) <==> Competes(def, x, m)
    ensures def == Verifications && m.kind == Remove ==> forall x | x in R :: Same(x, m) <==> Competes(def, x, m)
    ensures def == Links ==> forall x | x in R :: Competes(def, x, m) <==> Same(x, m) || Crossed(m, x)
  {
    hide Conflicts, Slot, Storable, Crossed, IsLinkable;
    forall x | x in R
      ensures Same(x, m) ==> Competes(def, x, m)
      ensures def in {Casts, Reactions, UserData} ==> (Same(x, m) <==> Competes(def, x, m))
      ensures def == Verifications && m.kind == Remove ==> (Same(x, m) <==> Competes(def, x, m))
      ensures def == Links ==> (Competes(def, x, m) <==> Same(x, m) || Crossed(m, x))
    {
      SameConflicts(def, x, m);
      if def != Links {
        OnlyLinksAreCrossed(def, x, m);
      }
    }
  }

  /** What lies under the unpadded key of a link competes with it, and nothing else is crossed. */
  lemma UnpaddedCompetes(R: set<Message>, m: Message)
    requires Consistent(Links, R) && m.kind != Compact && m.body.LinkBody? && !KeyError(m)
    ensures forall x, kind: Kind | x in R && kind != Compact && Occupies(x, kind, m.fid, UnpaddedSlot(m)) ::
              Competes(Links, x, m)
    ensures forall x | Crossed(m, x) :: Occupies(x, Remove, m.fid, UnpaddedSlot(m))
  {
    hide Slot, Storable, KeyError;
    forall x, kind: Kind | x in R && kind != Compact && Occupies(x, kind, m.fid, UnpaddedSlot(m))
      ensures Competes(Links, x, m)
    {
      UnpaddedKeyIsOwn(m, x);
    }
  }

  /** The one named remove under the unpadded key is found there. */
  lemma CrossedIsFound(R: set<Message>, cs: seq<Message>, m: Message, x: Message)
    requires m.body.LinkBody? && Consistent(Links, R) && x in R && Occupies(x, Remove, m.fid, UnpaddedSlot(m))
    requires exists y :: y in cs && y in R && Occupies(y, Remove, m.fid, UnpaddedSlot(m))
    ensures x in cs
  {
    hide Consistent, Slot;
    var y :| y in cs && y in R && Occupies(y, Remove, m.fid, UnpaddedSlot(m));
    OneOccupant(Links, R, x, y);
  }

  /** Adds of other users for the same address or name compete too. */
  lemma HolderCompetes(def: StoreDef, R: set<Message>, fid: nat, m: Message)
    requires Consistent(def, R) && (def == Verifications || def == UsernameProofs) && m.kind == Add
    ensures forall x | x in R && Occupies(x, Add, fid, Slot(m)) :: Competes(def, x, m)
  {
    hide Slot;
  }

  /** A tie with a message of another user cannot be: it would be the same message. */
  lemma OtherFidConflicts(def: StoreDef, R: set<Message>, fid: nat, m: Message, e: StoreError)
    requires Identified(R + {m}) && fid != m.fid
    requires forall x | x in R && Occupies(x, Add, fid, Slot(m)) :: Competes(def, x, m)
    requires exists x :: x in R && Occupies(x, Add, fid, Slot(m)) && Weighed(def, x, m, e)
    ensures Refusal(def, R, m, Conflict)
  {
    hide Competes, Identified, Slot, Refusal, Order;
    var x :| x in R && Occupies(x, Add, fid, Slot(m)) && Weighed(def, x, m, e);
    if Order(def, x, m) == 0 {
      EqualOrder(def, R, x, m);
    }
    WeighedRefuses(def, R, x, m, Conflict);
  }

  lemma HoldersAreFound(def: StoreDef, R: set<Message>, fid: nat, cs: seq<Message>, m: Message)
    requires Consistent(def, R) && (def == Verifications || def == UsernameProofs) && IsAdd(def, m)
    requires forall x | x in cs :: x in R && Competes(def, x, m) && Precedes(def, x, m)
    requires def == Verifications ==> forall x | x in R && Same(x, m) :: x in cs
    requires forall x | x in R && x.kind == Add && Slot(x) == Slot(m) :: x.fid == fid > 0
    requires fid > 0 && (def == Verifications ==> fid != m.fid) ==>
               exists x :: x in cs && Occupies(x, Add, fid, Slot(m))
    ensures Beaten(def, R, m, cs)
  {
    hide Conflicts, Slot, Precedes, Storable, Competes;
    forall x | x in R && Competes(def, x, m)
      ensures x in cs
    {
      OnlyLinksAreCrossed(def, x, m);
      SameConflicts(def, x, m);
      if !Same(x, m) || def == UsernameProofs {
        ShapeOf(def, x);
        var y :| y in cs && Occupies(y, Add, fid, Slot(m));
        OneOccupant(def, R, x, y);
      }
    }
  }

  /** A message that is refused for what is stored changes nothing in the specification either. */
  lemma RefusedAct(def: StoreDef, S: Contents, m: Message)
    requires Storable(def, m) && !Admits(def, S, m)
    ensures Act(def, S, m) == S
  {
    ShapeOf(def, m);
  }

  lemma BeatenCompetitors(def: StoreDef, S: Contents, m: Message, cs: seq<Message>)
    requires Beaten(def, S.listed, m, cs)
    ensures !Refused(def, S, m) && SetOf(cs) == Competitors(def, S, m)
  {
    hide Competes, Precedes;
  }

  /** What a merge of an add or a remove commits is the next state of the specification. */
  lemma MergeLayout(def: StoreDef, db: StoreDb, S: Contents, m: Message, cs: seq<Message>, txn: StoreBatch)
    requires Lays(def, db, S) && WellFormed(def, S) && Storable(def, m) && Identified(S.records + {m})
    requires m.kind != Compact && !Gated(S.records, m) && Beaten(def, S.listed, m, cs) && Deletes(def, txn, SetOf(cs))
    ensures Lays(def, Applied(db, txn + Puts(def, m)), Act(def, S, m)) && WellFormed(def, Act(def, S, m))
    ensures m in Act(def, S, m).listed && SetOf(cs) == Competitors(def, S, m) == S.records - Act(def, S, m).records
  {
    hide Competes, Lays, Storable, Identified, Gated, Deletes, Puts, Beaten, Refused, Consistent, Compacted, Bare,
         Struck;
    BeatenCompetitors(def, S, m, cs);
    NotBeatenByItself(def, S, m, cs);
    ActIsWellFormed(def, S, m);
    assert Act(def, S, m) == Added(Removed(S, SetOf(cs)), m);
    ReplaceLayout(def, db, S, SetOf(cs), m, txn);
  }

  lemma NotBeatenByItself(def: StoreDef, S: Contents, m: Message, cs: seq<Message>)
    requires Beaten(def, S.listed, m, cs) && Storable(def, m) && WellFormed(def, S)
    ensures m !in cs && SetOf(cs) <= S.records
  {
    hide Competes, Conflicts, Compacted;
    SelfOrder(def, m);
  }

  lemma RefusalRefuses(def: StoreDef, S: Contents, m: Message, e: StoreError)
    requires Refusal(def, S.listed, m, e) && WellFormed(def, S)
    ensures Refused(def, S, m) && (e == Duplicate ==> m in S.listed) && (e == Duplicate || e == Conflict)
  {
    hide Competes, Precedes, Storable, Compacted;
    var x :| x in S.listed && Competes(def, x, m) && !Precedes(def, x, m) &&
      e == if x == m then Duplicate else Conflict;
  }

  /** A link that its compact state refuses is not stored. */
  lemma GatedIsNew(def: StoreDef, S: Contents, m: Message)
    requires WellFormed(def, S) && Gated(S.records, m)
    ensures m !in S.listed && !Admits(def, S, m)
  {
  }

  lemma OnlyLinksAreGated(def: StoreDef, S: Contents, m: Message)
    requires WellFormed(def, S) && def != Links
    ensures !Gated(S.records, m)
  {
    hide Conflicts;
    forall c | c in S.records
      ensures !Governs(c, m)
    {
      ShapeOf(def, c);
    }
  }

  lemma OneCompactState(S: Contents, c: Message, d: Message)
    requires WellFormed(Links, S) && c in S.records && d in S.records && c.kind == d.kind == Compact
    requires c.body.LinkCompactStateBody? && d.body.LinkCompactStateBody? && CompactKey(c) == CompactKey(d)
    ensures c == d
  {
    hide Storable, Compacted;
    assert Conflicts(Links, c, d);
  }

  lemma RefusedMerge(def: StoreDef, S: Contents, m: Message, e: StoreError)
    requires WellFormed(def, S) && m.kind != Compact && IsLinkable(def, m) && InRange(m)
    requires if KeyError(m) then e == InvalidParam else Refusal(def, S.listed, m, e)
    requires m in S.listed && !KeyError(m) ==> e == Duplicate
    ensures !Admits(def, S, m) && e in {InvalidParam, Conflict, Duplicate} && (e == Duplicate <==> m in S.listed)
    ensures e == InvalidParam ==> KeyError(m)
  {
    hide Refusal, Refused, KeyError, Gated, WellFormed;
    if m in S.listed {
      NamedIsStorable(def, S, m);
    }
    if !KeyError(m) {
      RefusalRefuses(def, S, m, e);
    }
  }

  /** A named message is the one in its own slot. */
  lemma NamedIsStorable(def: StoreDef, S: Contents, m: Message)
    requires WellFormed(def, S) && m in S.listed
    ensures Storable(def, m)
  {
  }

  lemma CompetitorsAreStorable(def: StoreDef, S: Contents, m: Message, cs: seq<Message>)
    requires WellFormed(def, S) && Beaten(def, S.listed, m, cs)
    ensures forall x | x in cs :: Storable(def, x)
  {
    hide Competes, Conflicts, Storable, Compacted;
  }

  lemma UnindexableIsNew(def: StoreDef, S: Contents, m: Message)
    requires WellFormed(def, S) && IsAdd(def, m) && SecondaryError(m)
    ensures m !in S.listed && !Admits(def, S, m)
  {
    hide Conflicts, SecondaryError, Gated, Refused, Compacted;
  }

  /** A message that beats its competitors is new and admitted. */
  lemma BeatenAdmits(def: StoreDef, S: Contents, m: Message, cs: seq<Message>)
    requires Beaten(def, S.listed, m, cs) && InRange(m) && IsLinkable(def, m) && !Gated(S.records, m) && !KeyError(m)
    requires m.kind == Add ==> !SecondaryError(m)
    ensures m !in S.listed && Admits(def, S, m) && Storable(def, m)
  {
    hide Conflicts, Gated, Crossed;
    BeatenCompetitors(def, S, m, cs);
    SelfOrder(def, m);
    SelfConflict(def, m);
  }

  // ---- scans ----

  /** The least of some byte strings. */
  method Least(keys: set<Bytes>) returns (k: Bytes)
    requires keys != {}
    ensures k in keys && forall l | l in keys && l != k :: Less(k, l)
  {
    hide Compare;
    k :| k in keys;
    var rest := keys - {k};
    while rest != {}
      invariant k in keys && rest <= keys
      invariant forall l | l in keys && l !in rest && l != k :: Less(k, l)
      decreases rest
    {
      var l :| l in rest;
      rest := rest - {l};
      CompareSigns(k, l);
      if Less(l, k) {
        forall x | x in keys && x !in rest && x != l
          ensures Less(l, x)
        {
          if x != k {
            LessTransitive(l, k, x);
          }
        }
        k := l;
      }
    }
  }

  ghost predicate InKeyOrder(ms: seq<Message>) {
    forall i, j | 0 <= i < j < |ms| :: Less(TsHash(ms[i]), TsHash(ms[j]))
  }

  lemma InKeyOrderIsDistinct(ms: seq<Message>)
    requires InKeyOrder(ms)
    ensures |SetOf(ms)| == |ms|
    ensures forall i, j | 0 <= i < j < |ms| :: ms[i] != ms[j]
  {
    hide TsHash, Compare;
    forall i, j | 0 <= i < j < |ms|
      ensures ms[i] != ms[j]
    {
      CompareSigns(TsHash(ms[i]), TsHash(ms[j]));
    }
    DistinctSize(ms);
  }

  lemma {:induction false} DistinctSize(ms: seq<Message>)
    requires forall i, j | 0 <= i < j < |ms| :: ms[i] != ms[j]
    ensures |SetOf(ms)| == |ms|
  {
    if ms == [] {
      assert SetOf(ms) == {};
    } else {
      var init, last := ms[..|ms| - 1], ms[|ms| - 1];
      DistinctSize(init);
      assert SetOf(ms) == SetOf(init) + {last};
      assert last !in SetOf(init);
    }
  }

  /** The scan may stop at the first message later than a compact state. */
  lemma NothingLaterIsSwept(c: Message, ms: seq<Message>, i: nat)
    requires InKeyOrder(ms) && (forall m | m in ms :: InRange(m)) && i < |ms| && ms[i].timestamp > c.timestamp
    ensures forall j | i <= j < |ms| :: !Swept(c, ms[j])
  {
    forall j | i < j < |ms|
      ensures ms[j].timestamp >= ms[i].timestamp
    {
      PrimaryOrder(ms[i], ms[j]);
    }
  }

  /** What a merge of a compact state commits is the next state of the specification. */
  lemma CompactLayout(db: StoreDb, S: Contents, c: Message, cs: seq<Message>, txn: StoreBatch)
    requires Lays(Links, db, S) && WellFormed(Links, S) && Storable(Links, c) && Identified(S.records + {c})
    requires c.kind == Compact && !CompactBlocked(Links, S.records, c) && Deletes(Links, txn, SetOf(cs))
    requires forall x :: x in cs <==> x in S.records && (Conflicts(Links, x, c) || Swept(c, x))
    ensures Lays(Links, Applied(db, txn + Puts(Links, c)), Act(Links, S, c)) && WellFormed(Links, Act(Links, S, c))
    ensures c in Act(Links, S, c).listed
  {
    hide Conflicts, Lays, Storable, Identified, Deletes, Puts, Swept, CompactBlocked, WellFormed, Struck;
    assert SetOf(cs) == Sweepings(Links, S, c);
    ActIsWellFormed(Links, S, c);
    ReplaceLayout(Links, db, S, SetOf(cs), c, txn);
  }

  lemma SweepIsComplete(def: StoreDef, S: Contents, c: Message, ms: seq<Message>, i: nat, swept: seq<Message>)
    requires WellFormed(def, S) && InKeyOrder(ms) && SetOf(ms) == OfFid(S.records, c.fid) && i <= |ms|
    requires i < |ms| ==> ms[i].timestamp > c.timestamp
    requires forall j | 0 <= j < i && Swept(c, ms[j]) :: ms[j] in swept
    ensures forall x | x in S.records && Swept(c, x) :: x in swept
  {
    hide WellFormed, InKeyOrder;
    forall x | x in S.records && Swept(c, x)
      ensures x in swept
    {
      assert x in SetOf(ms);
      var j :| 0 <= j < |ms| && ms[j] == x;
      if i <= j {
        forall y | y in ms
          ensures InRange(y)
        {
          assert y in SetOf(ms);
          RecordIsStorable(def, S, y);
        }
        NothingLaterIsSwept(c, ms, i);
      }
    }
  }

  lemma CompactConflictsAreStorable(def: StoreDef, S: Contents, cs: seq<Message>)
    requires WellFormed(def, S) && forall x | x in cs :: x in S.records
    ensures forall x | x in cs :: Storable(def, x)
  {
    hide Consistent, Storable, Compacted;
  }

  lemma LinkShape(def: StoreDef, x: Message)
    requires Storable(def, x) && def == Links && x.kind != Compact
    ensures x.body.LinkBody? && (x.kind == Remove <==> IsRemove(def, x)) && (x.kind == Add <==> IsAdd(def, x))
  {
  }

  lemma CompactPuts(m: Message)
    requires m.kind == Compact && m.body.LinkCompactStateBody?
    ensures Puts(Links, m) == map[CompactKey(m) := Some(Record(m))]
  {
  }

  lemma CompactIsStorable(def: StoreDef, m: Message)
    requires IsCompact(def, m) && InRange(m)
    ensures Storable(def, m) && |m.hash| == HASH_LENGTH
  {
  }

  // ---- pruning ----

  function Min(a: nat, b: nat): nat {
    if a < b then a else b
  }

  /** How many of n messages a prune removes, by the cached count. */
  function Excess(n: nat, cached: nat, limit: nat): nat {
    Min(n, if cached > limit then cached - limit else 0)
  }

  /** The messages named in the events. */
  ghost function Named(es: seq<HubEvent>): set<Message> {
    set e | e in es :: e.args.message
  }

  /** The event log of some events, each under its id. */
  ghost function Logged(es: seq<HubEvent>): map<nat, HubEvent> {
    if es == [] then map[] else Logged(es[..|es| - 1])[es[|es| - 1].id := es[|es| - 1]]
  }

  ghost function IdsIn(es: seq<HubEvent>): seq<nat> {
    seq(|es|, i requires 0 <= i < |es| => es[i].id)
  }

  /** The first n readings of the clock, relative to the epoch. */
  ghost function Ticks(clock: nat -> nat, epoch: nat, n: nat): seq<nat> {
    seq(n, i requires 0 <= i < n => if clock(i) >= epoch then clock(i) - epoch else 0)
  }

  /** The generator has an id for the i-th event. */
  ghost predicate IssuesAt(s: State, clock: nat -> nat, epoch: nat, i: nat) {
    Issued(After(s, Ticks(clock, epoch, i + 1))).Id?
  }

  lemma NextTick(s: State, clock: nat -> nat, epoch: nat, n: nat)
    requires clock(n) >= epoch
    ensures IssuesAt(s, clock, epoch, n) <==> Issued(After(s, Ticks(clock, epoch, n + 1))).Id?
    ensures After(s, Ticks(clock, epoch, n + 1)) == Advanced(After(s, Ticks(clock, epoch, n)), clock(n) - epoch)
    ensures IssuesAt(s, clock, epoch, n) ==>
              IdsOf(s, Ticks(clock, epoch, n + 1)) ==
              IdsOf(s, Ticks(clock, epoch, n)) + [Issued(After(s, Ticks(clock, epoch, n + 1))).value]
  {
    hide Issued, Advanced;
    assert Ticks(clock, epoch, n + 1)[..n] == Ticks(clock, epoch, n);
  }

  /** The events of a run with a clock that does not go back are all kept in the log. */
  lemma {:induction false} OneEventEach(s: State, clock: seq<nat>, es: seq<HubEvent>)
    requires IdsIn(es) == IdsOf(s, clock) && NonDecreasing(s, clock)
    ensures |Logged(es)| == |es| && forall e | e in es :: e.id in Logged(es) && Logged(es)[e.id] == e
  {
    hide IdsOf;
    IdsIncrease(s, clock);
    assert forall i, j | 0 <= i < j < |es| :: es[i].id < es[j].id by {
      forall i, j | 0 <= i < j < |es| ensures es[i].id < es[j].id {
        assert IdsIn(es)[i] < IdsIn(es)[j];
      }
    }
    IncreasingLog(es);
  }

  lemma {:induction false} IncreasingLog(es: seq<HubEvent>)
    requires forall i, j | 0 <= i < j < |es| :: es[i].id < es[j].id
    ensures |Logged(es)| == |es|
    ensures forall id | id in Logged(es) :: es != [] && id <= es[|es| - 1].id
    ensures forall i | 0 <= i < |es| :: es[i].id in Logged(es) && Logged(es)[es[i].id] == es[i]
  {
    if es != [] {
      var init, last := es[..|es| - 1], es[|es| - 1];
      IncreasingLog(init);
      assert forall i | 0 <= i < |init| :: es[i] == init[i] && es[i].id < last.id;
      LogGrows(Logged(init), last);
    }
  }

  lemma LogGrows(log: map<nat, HubEvent>, e: HubEvent)
    requires e.id !in log
    ensures |log[e.id := e]| == |log| + 1
  {
    assert log[e.id := e].Keys == log.Keys + {e.id};
    assert |log.Keys| == |log| && |log[e.id := e].Keys| == |log[e.id := e]|;
  }

  lemma SplitSets(ms: seq<Message>, k: nat)
    requires k <= |ms| && forall i, j | 0 <= i < j < |ms| :: ms[i] != ms[j]
    ensures SetOf(ms) == SetOf(ms[..k]) + SetOf(ms[k..]) && SetOf(ms[..k]) !! SetOf(ms[k..])
    ensures |SetOf(ms)| == |ms| && |SetOf(ms[..k])| == k && |SetOf(ms[k..])| == |ms| - k
  {
    SplitUnion(ms, k);
    hide SetOf;
    DistinctSize(ms);
    DistinctSize(ms[..k]);
    DistinctSize(ms[k..]);
  }

  lemma SplitUnion(ms: seq<Message>, k: nat)
    requires k <= |ms| && forall i, j | 0 <= i < j < |ms| :: ms[i] != ms[j]
    ensures SetOf(ms) == SetOf(ms[..k]) + SetOf(ms[k..]) && SetOf(ms[..k]) !! SetOf(ms[k..])
  {
    assert ms == ms[..k] + ms[k..];
  }

  /** What a prune removes and keeps, when it deletes the first k messages of the scan. */
  lemma PruneSplits(R: set<Message>, fid: nat, ms: seq<Message>, k: nat)
    requires InKeyOrder(ms) && SetOf(ms) == OfFid(R, fid) && k <= |ms|
    ensures |OfFid(R, fid)| == |ms| && |SetOf(ms[..k])| == k && SetOf(ms[..k]) <= OfFid(R, fid) <= R
    ensures |OfFid(R - SetOf(ms[..k]), fid)| == |ms| - k
    ensures forall x, y | x in SetOf(ms[..k]) && y in OfFid(R - SetOf(ms[..k]), fid) :: Less(TsHash(x), TsHash(y))
  {
    hide TsHash, Compare;
    InKeyOrderIsDistinct(ms);
    SplitSets(ms, k);
    assert OfFid(R - SetOf(ms[..k]), fid) == OfFid(R, fid) - SetOf(ms[..k]) == SetOf(ms[k..]);
    assert forall x, y | x in ms[..k] && y in ms[k..] :: Less(TsHash(x), TsHash(y)) by {
      hide OfFid;
      forall x, y | x in ms[..k] && y in ms[k..]
        ensures Less(TsHash(x), TsHash(y))
      {
        var i :| 0 <= i < k && ms[i] == x;
        var j :| k <= j < |ms| && ms[j] == y;
      }
    }
  }

  lemma PrunedAreNamed(es: seq<HubEvent>, ms: seq<Message>)
    requires |es| <= |ms| && forall i | 0 <= i < |es| :: es[i].args == PruneMessage(ms[i])
    ensures Named(es) == SetOf(ms[..|es|])
    ensures forall e | e in es :: e.args.PruneMessage?
  {
    forall x
      ensures x in Named(es) <==> x in ms[..|es|]
    {
      if x in ms[..|es|] {
        var i :| 0 <= i < |es| && ms[i] == x;
        assert es[i] in es;
      }
    }
  }

  lemma SetGrows(ms: seq<Message>, k: nat)
    requires k < |ms|
    ensures SetOf(ms[..k + 1]) == SetOf(ms[..k]) + {ms[k]}
  {
    assert ms[..k + 1] == ms[..k] + [ms[k]];
  }

  lemma NoTicks(s: State, clock: nat -> nat, epoch: nat)
    ensures After(s, Ticks(clock, epoch, 0)) == s && IdsOf(s, Ticks(clock, epoch, 0)) == []
  {
  }

  lemma NothingDeleted(def: StoreDef, ms: seq<Message>)
    ensures Deletes(def, map[], SetOf(ms[..0]))
  {
  }

  lemma ListedIsConsistent(def: StoreDef, S: Contents)
    requires WellFormed(def, S)
    ensures Consistent(def, S.listed) && S.listed <= S.records
    ensures forall m | Identified(S.records + {m}) :: Identified(S.listed + {m})
  {
    hide Storable, Conflicts, Compacted;
  }

  /** Weighing a named message against the one in its slot is weighing it against itself. */
  lemma OccupantIsItself(def: StoreDef, R: set<Message>, kind: Kind, fid: nat, m: Message, e: StoreError)
    requires Consistent(def, R) && m in R && kind != Compact && m.kind != Compact
    requires fid == m.fid || ((def == Verifications || def == UsernameProofs) && kind == m.kind == Add)
    requires exists x :: x in R && Occupies(x, kind, fid, Slot(m)) && Weighed(def, x, m, e)
    ensures e == Duplicate
  {
    hide Slot, Storable, Order;
    var x :| x in R && Occupies(x, kind, fid, Slot(m)) && Weighed(def, x, m, e);
    assert Conflicts(def, x, m);
    SelfOrder(def, m);
  }

  lemma BeatenIsNew(def: StoreDef, R: set<Message>, cs: seq<Message>, m: Message)
    requires InRange(m) && Beaten(def, R, m, cs)
    ensures m !in R
  {
    hide Conflicts, Precedes, Crossed;
    SelfConflict(def, m);
    NotAmong(def, R, cs, m);
  }

  lemma NotAmong(def: StoreDef, R: set<Message>, cs: seq<Message>, m: Message)
    requires InRange(m) && (forall x | x in cs :: Precedes(def, x, m)) && (m in R ==> m in cs)
    ensures m !in R
  {
    SelfOrder(def, m);
  }

  lemma NothingHit(R: set<Message>)
    ensures !Hits(R, R - R)
  {
  }

  lemma LinkIsIndexed(db: StoreDb, S: Contents, user: nat, x: Message)
    requires Lays(Links, db, S) && WellFormed(Links, S) && user < 0x1_0000_0000
    requires x in S.records && LinksTo(x, user)
    ensures Root(LINKS_BY_TARGET, BigEndian(user, 4) + EntryTail(x)) in db && x.kind == Add && x.body.LinkBody?
  {
    hide Lays, WellFormed, BigEndian;
    RecordIsStorable(Links, S, x);
    TailIsEntryTail(Links, x);
    LinksByTarget(db, S, user, EntryTail(x));
  }

  lemma LinksSort(S: Contents, x: Message, a: Message, head: Bytes)
    requires WellFormed(Links, S) && x in S.records && a in S.records && Less(head + EntryTail(x), head + EntryTail(a))
    ensures Less(TsHash(x), TsHash(a))
  {
    hide Consistent, Compacted, Storable, EntryTail, TsHash, Less;
    RecordIsStorable(Links, S, x);
    RecordIsStorable(Links, S, a);
    EntriesSort(x, a, head);
  }

  lemma SameEntry(S: Contents, x: Message, a: Message, head: Bytes)
    requires WellFormed(Links, S) && x in S.records && a in S.records && head + EntryTail(x) == head + EntryTail(a)
    ensures x == a
  {
    hide Consistent, Compacted, Storable, BigEndian, Less;
    RecordIsStorable(Links, S, x);
    RecordIsStorable(Links, S, a);
    SplitTail(head, EntryTail(x), head, EntryTail(a));
    SplitTail(TsHash(x), BigEndian(x.fid, 4), TsHash(a), BigEndian(a.fid, 4));
    SameTsHash(x, a);
  }

  class Store {
    const def: StoreDef
    const pruneSizeLimit: nat
    const generator: HubEventIdGenerator
    var db: StoreDb
    var events: map<nat, HubEvent>
    ghost var contents: Contents

    /** The database holds exactly the entries of well-formed contents. */
    ghost predicate Valid()
      reads this
    {
      Lays(def, db, contents) && WellFormed(def, contents)
    }

    /** Every record is named by the set indices. */
    ghost predicate Complete()
      reads this
    {
      contents == Whole(contents.records)
    }

    constructor (def: StoreDef, pruneSizeLimit: nat, generator: HubEventIdGenerator)
      ensures Valid() && contents == Whole({}) && db == map[] && events == map[]
      ensures this.def == def && this.pruneSizeLimit == pruneSizeLimit && this.generator == generator
    {
      this.def, this.pruneSizeLimit, this.generator := def, pruneSizeLimit, generator;
      db, events, contents := map[], map[], Whole({});
    }

    function ReadIndex(k: DbKey): Option<Bytes>
      reads this
    {
      if k in db && db[k].IndexEntry? then Some(db[k].tsHash) else None
    }

    function GetMessage(fid: nat, tsHash: Bytes): Option<Message>
      reads this
    {
      var k := PrimaryKey(def, fid, tsHash);
      if k in db && db[k].Record? then Some(db[k].message) else None
    }

    /** Looks for the add or the remove in a slot and weighs it against m. */
    method FindRival(remove: bool, fid: nat, slot: Bytes, m: Message) returns (r: StoreResult<Option<Message>>)
      requires Valid() && InRange(m) && m.kind != Compact && (remove ==> RemovesSupported(def))
      ensures var kind := if remove then Remove else Add;
              match r
              case Ok(None) => forall x | x in contents.listed :: !Occupies(x, kind, fid, slot)
              case Ok(Some(x)) => x in contents.listed && Occupies(x, kind, fid, slot) && Precedes(def, x, m)
              case Err(e) =>
                && (e == Conflict || e == Duplicate)
                && exists x :: x in contents.listed && Occupies(x, kind, fid, slot) && Weighed(def, x, m, e)
    {
      hide Lays, WellFormed, Consistent, Competes, Storable, Slot, TsHash, MessageCompare;
      var key := User(fid, if remove then RemovesPostfix(def) else AddsPostfix(def), slot);
      var tsHash := ReadIndex(key);
      if key !in db {
        NoOccupant(def, db, contents, remove, fid, slot);
        return Ok(None);
      }
      ghost var x := IndexOwner(def, db, contents, remove, fid, slot);
      ListedIsConsistent(def, contents);
      RecordIsStorable(def, contents, x);
      RecordRead(def, db, contents, x);
      TsHashParts(m);
      var order := MessageCompare(def, remove, tsHash.value, m.kind == Remove, TsHash(m));
      assert order == Order(def, x, m);
      if order > 0 {
        return Err(Conflict);
      }
      if order == 0 {
        return Err(Duplicate);
      }
      return Ok(GetMessage(fid, tsHash.value));
    }

    method GetDefaultMergeConflicts(m: Message) returns (r: StoreResult<seq<Message>>)
      requires Valid() && InRange(m) && IsLinkable(def, m)
      requires Identified(contents.records + {m})
      ensures match r
              case Ok(cs) =>
                && !KeyError(m)
                && (forall x | x in cs :: x in contents.listed && Same(x, m) && Precedes(def, x, m))
                && (forall x | x in contents.listed && Same(x, m) :: x in cs)
              case Err(e) => if KeyError(m) then e == InvalidParam else Refusal(def, contents.listed, m, e)
      ensures m in contents.listed && !KeyError(m) ==> r == Err(Duplicate)
    {
      hide Lays, WellFormed, Consistent, Competes, Slot, Precedes, Weighed, KeyError, Refusal, Identified, Conflicts;
      ListedIsConsistent(def, contents);
      SlotCompetes(def, contents.listed, m);
      var conflicts := [];
      if KeyError(m) {
        return Err(InvalidParam);
      }
      if RemovesSupported(def) {
        var found := FindRival(true, m.fid, Slot(m), m);
        if found.Err? {
          OccupantRefuses(def, contents.listed, Remove, m.fid, Slot(m), m, found.error);
          if m in contents.listed {
            OccupantIsItself(def, contents.listed, Remove, m.fid, m, found.error);
          }
          return Err(found.error);
        }
        if found.value.Some? {
          conflicts := conflicts + [found.value.value];
        }
      } else {
        OnlyAdds(def, contents.listed);
      }
      var found := FindRival(false, m.fid, Slot(m), m);
      if found.Err? {
        OccupantRefuses(def, contents.listed, Add, m.fid, Slot(m), m, found.error);
        if m in contents.listed {
          OccupantIsItself(def, contents.listed, Add, m.fid, m, found.error);
        }
        return Err(found.error);
      }
      if found.value.Some? {
        conflicts := conflicts + [found.value.value];
      }
      forall x | x in contents.listed && Same(x, m)
        ensures x in conflicts
      {
        if x.kind == Remove {
          assert Occupies(x, Remove, m.fid, Slot(m));
        } else {
          assert Occupies(x, Add, m.fid, Slot(m));
        }
        if conflicts != [] {
          AllTheSame(def, contents.listed, conflicts, x, m);
        }
      }
      NotAmong(def, contents.listed, conflicts, m);
      return Ok(conflicts);
    }

    /** Links are also looked for under the keys they had before their types were padded. */
    method GetLinkMergeConflicts(m: Message) returns (r: StoreResult<seq<Message>>)
      requires Valid() && InRange(m) && IsLinkable(def, m) && def == Links && Identified(contents.records + {m})
      ensures match r
              case Ok(cs) => !KeyError(m) && Beaten(def, contents.listed, m, cs)
              case Err(e) => if KeyError(m) then e == InvalidParam else Refusal(def, contents.listed, m, e)
      ensures m in contents.listed && !KeyError(m) ==> r == Err(Duplicate)
    {
      hide Lays, WellFormed, Consistent, Competes, Slot, Precedes, Weighed, KeyError, Refusal, Identified, Conflicts,
           Occupies;
      r := GetDefaultMergeConflicts(m);
      if r.Err? {
        return r;
      }
      ListedIsConsistent(def, contents);
      SlotCompetes(def, contents.listed, m);
      UnpaddedCompetes(contents.listed, m);
      var conflicts := r.value;
      var found := FindRival(true, m.fid, UnpaddedSlot(m), m);
      if found.Err? {
        OccupantRefuses(def, contents.listed, Remove, m.fid, UnpaddedSlot(m), m, found.error);
        return Err(found.error);
      }
      if found.value.Some? {
        conflicts := conflicts + [found.value.value];
      }
      found := FindRival(false, m.fid, UnpaddedSlot(m), m);
      if found.Err? {
        OccupantRefuses(def, contents.listed, Add, m.fid, UnpaddedSlot(m), m, found.error);
        return Err(found.error);
      }
      if found.value.Some? {
        conflicts := conflicts + [found.value.value];
      }
      forall x | x in contents.listed && Crossed(m, x)
        ensures x in conflicts
      {
        CrossedIsFound(contents.listed, conflicts, m, x);
      }
      return Ok(conflicts);
    }

    /** The user whose add holds the address or name, as the index by address or by name has it. */
    function HolderOf(slot: Bytes): nat
      reads this
    {
      var k := HolderKey(def, slot);
      if k in db && db[k].FidEntry? then db[k].fid else 0
    }

    /** The index tells who holds a slot, if anybody does. */
    lemma HolderIsIndexed(slot: Bytes)
      requires Valid() && (def == Verifications || def == UsernameProofs)
      ensures forall x | x in contents.listed && x.kind == Add && Slot(x) == slot :: x.fid == HolderOf(slot) > 0
      ensures HolderOf(slot) > 0 ==> exists x :: x in contents.listed && Occupies(x, Add, HolderOf(slot), slot)
    {
      hide Lays, WellFormed, Consistent, Competes, Slot;
      ListedIsConsistent(def, contents);
      forall x | x in contents.listed && x.kind == Add && Slot(x) == slot
        ensures x.fid == HolderOf(slot) > 0
      {
        HolderRead(def, db, contents, x);
        StoredIsStorable(def, contents.listed, x);
      }
      if HolderKey(def, slot) in db {
        var x := HolderOwner(def, db, contents, slot);
        assert Occupies(x, Add, x.fid, slot);
      }
    }

    /** Verification adds also compete with the add of another user for the same address. */
    method GetVerificationMergeConflicts(m: Message) returns (r: StoreResult<seq<Message>>)
      requires Valid() && InRange(m) && IsLinkable(def, m) && def == Verifications && Identified(contents.records + {m})
      ensures match r
              case Ok(cs) => !KeyError(m) && Beaten(def, contents.listed, m, cs)
              case Err(e) => if KeyError(m) then e == InvalidParam else Refusal(def, contents.listed, m, e)
      ensures m in contents.listed && !KeyError(m) ==> r == Err(Duplicate)
    {
      hide Lays, WellFormed, Consistent, Competes, Slot, Precedes, Weighed, KeyError, Refusal, Identified, Conflicts;
      r := GetDefaultMergeConflicts(m);
      if r.Err? {
        return r;
      }
      ListedIsConsistent(def, contents);
      SlotCompetes(def, contents.listed, m);
      var conflicts := r.value;
      if IsRemove(def, m) {
        return r;
      }
      var fid := HolderOf(Slot(m));
      HolderIsIndexed(Slot(m));
      if fid > 0 && fid != m.fid {
        var found := FindRival(false, fid, Slot(m), m);
        HolderCompetes(def, contents.listed, fid, m);
        if found.Err? {
          OtherFidConflicts(def, contents.listed, fid, m, found.error);
          return Err(Conflict);
        }
        if found.value.Some? {
          conflicts := conflicts + [found.value.value];
        }
      }
      HoldersAreFound(def, contents.listed, fid, conflicts, m);
      return Ok(conflicts);
    }

    /** Username proofs compete only with the proof that the index by name points to. */
    method GetUsernameMergeConflicts(m: Message) returns (r: StoreResult<seq<Message>>)
      requires Valid() && InRange(m) && IsLinkable(def, m) && def == UsernameProofs
      requires Identified(contents.records + {m})
      ensures match r
              case Ok(cs) => !KeyError(m) && Beaten(def, contents.listed, m, cs)
              case Err(e) => if KeyError(m) then e == InvalidParam else Refusal(def, contents.listed, m, e)
      ensures m in contents.listed && !KeyError(m) ==> r == Err(Duplicate)
    {
      hide Lays, WellFormed, Consistent, Competes, Slot, Precedes, Weighed, Refusal, Identified, Conflicts;
      ListedIsConsistent(def, contents);
      var conflicts := [];
      var fid := HolderOf(Slot(m));
      HolderIsIndexed(Slot(m));
      if fid > 0 {
        var found := FindRival(false, fid, Slot(m), m);
        HolderCompetes(def, contents.listed, fid, m);
        if found.Err? {
          OccupantRefuses(def, contents.listed, Add, fid, Slot(m), m, found.error);
          if m in contents.listed {
            OccupantIsItself(def, contents.listed, Add, fid, m, found.error);
          }
          return Err(found.error);
        }
        if found.value.Some? {
          conflicts := conflicts + [found.value.value];
        }
      }
      HoldersAreFound(def, contents.listed, fid, conflicts, m);
      BeatenIsNew(def, contents.listed, conflicts, m);
      return Ok(conflicts);
    }

    method GetMergeConflicts(m: Message) returns (r: StoreResult<seq<Message>>)
      requires Valid() && InRange(m) && IsLinkable(def, m) && Identified(contents.records + {m})
      ensures match r
              case Ok(cs) => !KeyError(m) && Beaten(def, contents.listed, m, cs)
              case Err(e) => if KeyError(m) then e == InvalidParam else Refusal(def, contents.listed, m, e)
      ensures m in contents.listed && !KeyError(m) ==> r == Err(Duplicate)
    {
      hide Lays, WellFormed, Consistent, Competes, Slot, Precedes, KeyError, Refusal, Identified, Conflicts, InRange;
      match def
      case Links =>
        r := GetLinkMergeConflicts(m);
      case Verifications =>
        r := GetVerificationMergeConflicts(m);
      case UsernameProofs =>
        r := GetUsernameMergeConflicts(m);
      case _ =>
        ListedIsConsistent(def, contents);
      SlotCompetes(def, contents.listed, m);
        r := GetDefaultMergeConflicts(m);
    }

    // ---- merging ----

    /** Whether the event generator issues an id at the given time, and which. */
    ghost function NextId(now: nat): (r: IdResult)
      requires now >= generator.epoch
      reads generator
      ensures var k := if now - generator.epoch == generator.lastTimestamp then generator.lastSeq + 1 else 0;
              && (r.Id? <==> now - generator.epoch < 0x200_0000_0000 && k < 4096)
              && (r.Id? ==> r.value == (now - generator.epoch) * 4096 + k)
    {
      IssuedIff(Advanced(generator.Current(), now - generator.epoch));
      Issued(Advanced(generator.Current(), now - generator.epoch))
    }

    /** Issues an event id and commits the batch together with the event. */
    method CommitTransaction(txn: StoreBatch, args: EventArgs, now: nat, ghost next: Contents)
      returns (r: StoreResult<HubEvent>)
      requires now >= generator.epoch
      modifies this, generator
      ensures generator.Current() == Advanced(old(generator.Current()), now - generator.epoch)
      ensures match old(NextId(now))
              case Id(id) =>
                && r == Ok(HubEvent(id, args)) && events == old(events)[id := r.value]
                && db == Applied(old(db), txn) && contents == next
              case Failed(_) =>
                r == Err(NoEventId) && events == old(events) && db == old(db) && contents == old(contents)
    {
      var id := generator.GenerateId(now);
      if id.Failed? {
        return Err(NoEventId);
      }
      var event := HubEvent(id.value, args);
      events := events[id.value := event];
      db := Commit(db, txn);
      contents := next;
      return Ok(event);
    }

    /** The compact state that governs a link. */
    function CompactStateOf(m: Message): Option<Message>
      requires m.body.LinkBody? || m.body.LinkCompactStateBody?
      reads this
    {
      var k := CompactKey(m);
      if k in db && db[k].Record? then Some(db[k].message) else None
    }

    lemma CompactStateIsStored(m: Message)
      requires Valid() && def == Links && (m.body.LinkBody? || m.body.LinkCompactStateBody?)
      ensures var c := CompactStateOf(m);
              if c.Some? then
                && c.value in contents.records && c.value.kind == Compact && c.value.body.LinkCompactStateBody?
                && CompactKey(c.value) == CompactKey(m)
              else
                forall c | c in contents.records && c.kind == Compact && c.body.LinkCompactStateBody? ::
                  CompactKey(c) != CompactKey(m)
    {
      hide Lays, WellFormed;
      if CompactKey(m) in db {
        var c := CompactOwner(db, contents, m);
      } else {
        forall c | c in contents.records && c.kind == Compact && c.body.LinkCompactStateBody?
          ensures CompactKey(c) != CompactKey(m)
        {
          CompactRead(db, contents, c);
        }
      }
    }

    /** The compact state decides whether a link is refused. */
    lemma GateIsCompactState(m: Message)
      requires Valid() && def == Links && m.body.LinkBody? && m.kind != Compact
      ensures Gated(contents.records, m) <==> CompactStateOf(m).Some? && Outdated(CompactStateOf(m).value, m)
    {
      hide Lays, WellFormed;
      CompactStateIsStored(m);
      var c := CompactStateOf(m);
      if c.Some? {
        assert Governs(c.value, m);
        forall d | d in contents.records && Governs(d, m)
          ensures d == c.value
        {
          OneCompactState(contents, c.value, d);
        }
      }
    }

    /** The outcome of a merge. */
    twostate predicate MergeOutcome(m: Message, now: nat, new r: StoreResult<HubEvent>)
      requires now >= generator.epoch
      reads this, generator
    {
      && (r.Ok? <==> Admits(def, old(contents), m) && old(NextId(now)).Id?)
      && generator.Current() == (if Admits(def, old(contents), m)
                                 then Advanced(old(generator.Current()), now - generator.epoch)
                                 else old(generator.Current()))
      && match r
         case Ok(event) =>
           && Storable(def, m) && contents == Act(def, old(contents), m) && m in contents.listed
           && event.id == old(NextId(now)).value && events == old(events)[event.id := event]
           && event.args.MergeMessage? && event.args.message == m
           && (if m.kind == Compact then event.args.deleted == []
               else SetOf(event.args.deleted) == Competitors(def, old(contents), m)
                    == old(contents).records - contents.records)
         case Err(e) =>
           && db == old(db) && contents == old(contents) && events == old(events)
           && (e == NoEventId <==> Admits(def, old(contents), m))
           && (e == Duplicate <==> m.kind != Compact && m in old(contents).listed)
    }

    method MergeAdd(m: Message, now: nat) returns (r: StoreResult<HubEvent>)
      requires Valid() && InRange(m) && IsAdd(def, m) && Identified(contents.records + {m}) && now >= generator.epoch
      modifies this, generator
      ensures Valid() && MergeOutcome(m, now, r)
      ensures r.Err? ==> r.error in {InvalidParam, Conflict, Duplicate, NoEventId}
      ensures r == Err(InvalidParam) ==> !Storable(def, m)
    {
      hide Lays, WellFormed, Identified, KeyError, SecondaryError, Refusal, Beaten, Refused, Puts, Deletes, Act, Slot,
           Conflicts, InRange, Gated, Issued, Advanced, Competitors;
      if def == Links {
        GateIsCompactState(m);
        var c := CompactStateOf(m);
        if c.Some? {
          CompactStateIsStored(m);
          var target := m.body.targetFid;
          if target.Some? && m.timestamp < c.value.timestamp && target.value !in c.value.body.targetFids {
            GatedIsNew(def, contents, m);
            return Err(Conflict);
          }
        }
      } else {
        OnlyLinksAreGated(def, contents, m);
      }
      var found := GetMergeConflicts(m);
      if found.Err? {
        RefusedMerge(def, contents, m, found.error);
        return Err(found.error);
      }
      CompetitorsAreStorable(def, contents, m, found.value);
      var txn := DeleteMany(def, found.value);
      var put := PutAdd(def, txn, m);
      if put.Err? {
        UnindexableIsNew(def, contents, m);
        return Err(put.error);
      }
      BeatenAdmits(def, contents, m, found.value);
      MergeLayout(def, db, contents, m, found.value, txn);
      r := CommitTransaction(put.value, MergeMessage(m, found.value), now, Act(def, contents, m));
    }

    method MergeRemove(m: Message, now: nat) returns (r: StoreResult<HubEvent>)
      requires Valid() && InRange(m) && IsRemove(def, m) && Identified(contents.records + {m}) && now >= generator.epoch
      modifies this, generator
      ensures Valid() && MergeOutcome(m, now, r)
      ensures r.Err? ==> r.error in {InvalidParam, Conflict, Duplicate, NoEventId, Prunable}
      ensures r == Err(Prunable) <==> exists c :: c in old(contents).records && Overrules(c, m)
      ensures r == Err(InvalidParam) ==> !Storable(def, m)
    {
      hide Lays, WellFormed, Identified, KeyError, SecondaryError, Refusal, Beaten, Refused, Puts, Deletes, Act, Slot,
           Conflicts, InRange, Gated, Issued, Advanced, Competitors;
      GatedIff(contents.records, m);
      if def == Links {
        GateIsCompactState(m);
        var c := CompactStateOf(m);
        if c.Some? {
          CompactStateIsStored(m);
          if m.timestamp < c.value.timestamp {
            GatedIsNew(def, contents, m);
            return Err(Prunable);
          }
        }
      } else {
        OnlyLinksAreGated(def, contents, m);
      }
      var found := GetMergeConflicts(m);
      if found.Err? {
        RefusedMerge(def, contents, m, found.error);
        return Err(found.error);
      }
      CompetitorsAreStorable(def, contents, m, found.value);
      var txn := DeleteMany(def, found.value);
      var put := PutRemove(def, txn, m);
      BeatenAdmits(def, contents, m, found.value);
      MergeLayout(def, db, contents, m, found.value, txn);
      r := CommitTransaction(put.value, MergeMessage(m, found.value), now, Act(def, contents, m));
    }

    /** Reads the messages of a user in the order of their primary keys. */
    method Scan(fid: nat) returns (ms: seq<Message>)
      requires Valid()
      ensures InKeyOrder(ms) && SetOf(ms) == OfFid(contents.records, fid) && forall m | m in ms :: Storable(def, m)
    {
      hide Lays, WellFormed, TsHash, Compare, Storable;
      var rest := set k | k in db && k.User? && k.fid == fid && k.postfix == MessagePostfix(def) :: k.suffix;
      ms := [];
      forall x | x in OfFid(contents.records, fid)
        ensures TsHash(x) in rest
      {
        RecordRead(def, db, contents, x);
        assert PrimaryKey(def, fid, TsHash(x)) in db;
      }
      while rest != {}
        invariant forall k | k in rest :: PrimaryKey(def, fid, k) in db
        invariant forall m | m in ms :: m in OfFid(contents.records, fid) && Storable(def, m)
        invariant forall i, k | 0 <= i < |ms| && k in rest :: Less(TsHash(ms[i]), k)
        invariant InKeyOrder(ms)
        invariant forall x | x in OfFid(contents.records, fid) :: x in ms || TsHash(x) in rest
        decreases rest
      {
        var k := Least(rest);
        ghost var owner := RecordOwner(def, db, contents, PrimaryKey(def, fid, k));
        RecordIsStorable(def, contents, owner);
        var m := GetMessage(fid, k).value;
        forall x | x in OfFid(contents.records, fid) && TsHash(x) == k
          ensures x == m
        {
          RecordRead(def, db, contents, x);
        }
        ms := ms + [m];
        rest := rest - {k};
      }
    }

    /** The links a compact state removes, found by a scan that stops at the first later message. */
    method Sweep(c: Message) returns (swept: seq<Message>)
      requires Valid() && IsCompact(def, c)
      ensures forall x :: x in swept <==> x in contents.records && Swept(c, x)
    {
      hide Lays, WellFormed, Slot, Conflicts, InRange, Storable, TsHash;
      var ms := Scan(c.fid);
      swept := [];
      var i := 0;
      while i < |ms| && ms[i].timestamp <= c.timestamp
        invariant i <= |ms|
        invariant forall x | x in swept :: x in contents.records && Swept(c, x)
        invariant forall j | 0 <= j < i && Swept(c, ms[j]) :: ms[j] in swept
      {
        var x := ms[i];
        assert x in SetOf(ms);
        LinkShape(def, x);
        if IsRemove(def, x) {
          swept := swept + [x];
        } else if IsAdd(def, x) {
          if x.body.targetFid.Some? && x.body.targetFid.value !in c.body.targetFids {
            swept := swept + [x];
          }
        }
        i := i + 1;
      }
      SweepIsComplete(def, contents, c, ms, i, swept);
    }

    method MergeCompactState(m: Message, now: nat) returns (r: StoreResult<HubEvent>)
      requires Valid() && InRange(m) && IsCompact(def, m) && now >= generator.epoch
      requires Identified(contents.records + {m})
      modifies this, generator
      ensures Valid() && MergeOutcome(m, now, r)
      ensures r.Err? ==> r.error in {Conflict, NoEventId}
    {
      hide Lays, WellFormed, Identified, Puts, Deletes, Act, Slot, Conflicts, InRange, Issued, Advanced, Storable,
           TsHash;
      var conflicts := [];
      var existing := CompactStateOf(m);
      CompactRivals(m);
      if existing.Some? {
        if existing.value.timestamp < m.timestamp {
          conflicts := [existing.value];
        } else {
          return Err(Conflict);
        }
      }
      var swept := Sweep(m);
      conflicts := conflicts + swept;
      CompactConflictsAreStorable(def, contents, conflicts);
      var txn := DeleteMany(def, conflicts);
      var put := txn + map[CompactKey(m) := Some(Record(m))];
      CompactPuts(m);
      CompactIsStorable(def, m);
      CompactLayout(db, contents, m, conflicts, txn);
      r := CommitTransaction(put, MergeMessage(m, []), now, Act(def, contents, m));
    }

    /** A compact state competes with the one under its key. */
    lemma CompactRivals(m: Message)
      requires Valid() && IsCompact(def, m)
      ensures var c := CompactStateOf(m);
              forall x | x in contents.records :: Conflicts(def, x, m) <==> c == Some(x)
      ensures CompactStateOf(m).Some? ==> CompactStateOf(m).value in contents.records
    {
      hide Lays, Storable, Compacted;
      CompactStateIsStored(m);
      forall x | x in contents.records
        ensures Conflicts(def, x, m) <==> CompactStateOf(m) == Some(x)
      {
        ShapeOf(def, x);
        if Conflicts(def, x, m) {
          OneCompactState(contents, x, CompactStateOf(m).value);
        }
      }
    }

    /**
     Merges a message into the store. Every record goes on being named exactly when no named remove lies under the
     unpadded key of a remove that leaves.
     */
    method Merge(m: Message, now: nat) returns (r: StoreResult<HubEvent>)
      requires Valid() && 0 < m.fid < Messages.U32 && m.timestamp < Messages.U32
      requires Identified(contents.records + {m}) && now >= generator.epoch
      modifies this, generator
      ensures Valid() && MergeOutcome(m, now, r)
      ensures r == Err(InvalidType) <==> !(IsAdd(def, m) || IsRemove(def, m) || IsCompact(def, m))
      ensures r == Err(BadHash) <==> (IsAdd(def, m) || IsRemove(def, m) || IsCompact(def, m)) && |m.hash| != 20
      ensures r == Err(Prunable) <==>
              IsRemove(def, m) && |m.hash| == 20 && exists c :: c in old(contents).records && Overrules(c, m)
      ensures r == Err(InvalidParam) ==> !Formed(def, m)
      ensures r.Ok? ==> MergedInFields(def, old(contents), m, contents)
      ensures Storable(def, m) && r != Err(NoEventId) ==> contents == Act(def, old(contents), m)
      ensures old(Complete()) ==>
                (Complete() <==> !Hits(old(contents).records, old(contents).records - contents.records))
    {
      hide Lays, WellFormed, Identified, KeyError, SecondaryError, Refused, Act, Gated, Conflicts, Issued, Advanced,
           MergedInFields, Overrules, Formed,
           Competitors, Hits;
      NothingHit(contents.records);
      if m in contents.listed {
        NamedIsStorable(def, contents, m);
      }
      if !IsAdd(def, m) && !(RemovesSupported(def) && IsRemove(def, m)) && !IsCompact(def, m) {
        return Err(InvalidType);
      }
      if |m.hash| != HASH_LENGTH {
        return Err(BadHash);
      }
      if Storable(def, m) {
        if !Admits(def, contents, m) {
          RefusedAct(def, contents, m);
        }
        if Complete() {
          MergeStaysWhole(def, contents.records, m);
        }
        if Admits(def, contents, m) {
          MergeInFields(def, contents, m);
        }
      }
      StorableIff(def, m);
      if IsCompact(def, m) {
        r := MergeCompactState(m, now);
      } else if IsAdd(def, m) {
        r := MergeAdd(m, now);
      } else {
        r := MergeRemove(m, now);
      }
    }

    /** Deletes the oldest messages of a user, until the cached count is down to the limit. */
    method PruneMessages(fid: nat, cachedCount: nat, maxCount: nat, clock: nat -> nat)
      returns (r: StoreResult<seq<HubEvent>>)
      requires Valid() && forall i :: clock(i) >= generator.epoch
      modifies this, generator
      ensures Valid()
      ensures old(Complete()) ==>
                (Complete() <==> !Hits(old(contents).records, old(contents).records - contents.records))
      ensures
        var n := |OfFid(old(contents).records, fid)|;
        var limit := if pruneSizeLimit > 0 then pruneSizeLimit else maxCount;
        var excess := if cachedCount <= limit then 0 else if cachedCount - limit <= n then cachedCount - limit else n;
        && (r.Ok? <==> forall i | 0 <= i < excess :: IssuesAt(old(generator.Current()), clock, generator.epoch, i))
        && match r
           case Ok(pruned) =>
             && |pruned| == excess == |Named(pruned)| && (forall e | e in pruned :: e.args.PruneMessage?)
             && Named(pruned) <= OfFid(old(contents).records, fid) && contents == Removed(old(contents), Named(pruned))
             && contents.records == old(contents).records - Named(pruned)
             && (forall x, y | x in Named(pruned) && y in OfFid(contents.records, fid) :: Less(TsHash(x), TsHash(y)))
             && (cachedCount == n ==> |OfFid(contents.records, fid)| == Min(n, limit))
             && IdsIn(pruned) == IdsOf(old(generator.Current()), Ticks(clock, generator.epoch, |pruned|))
             && events == old(events) + Logged(pruned)
           case Err(e) =>
             e == NoEventId && db == old(db) && contents == old(contents) && events == old(events)
    {
      hide Lays, WellFormed, Storable, Deletes, TsHash, Compare, IdsOf, Ticks, InKeyOrder, OfFid, SetOf, Named,
           IssuesAt, Logged, Hits, Struck;
      var limit := if pruneSizeLimit > 0 then pruneSizeLimit else maxCount;
      var ms := Scan(fid);
      ghost var S := contents;
      NothingHit(S.records);
      PruneSplits(S.records, fid, ms, Excess(|ms|, cachedCount, limit));
      var txn, log;
      txn, log, r := DeleteOldest(ms, cachedCount, limit, clock);
      if r.Ok? {
        ghost var gone := SetOf(ms[..|r.value|]);
        PrunedAreNamed(r.value, ms);
        DeletionLayout(def, db, S, gone, txn);
        RemovedIsWellFormed(def, S, gone);
        if Complete() {
          NothingStruck(def, S.records, gone);
        }
        db := Commit(db, txn);
        events := events + log;
        contents := Removed(S, gone);
        assert S.records - contents.records == gone;
      }
    }

    /** Deletes messages in the given order while the count is over the limit, with an event for each. */
    method DeleteOldest(ms: seq<Message>, cachedCount: nat, limit: nat, clock: nat -> nat)
      returns (txn: StoreBatch, log: map<nat, HubEvent>, r: StoreResult<seq<HubEvent>>)
      requires (forall m | m in ms :: Storable(def, m)) && forall i :: clock(i) >= generator.epoch
      modifies generator
      ensures
        var excess := Excess(|ms|, cachedCount, limit);
        && (r.Ok? <==> forall i | 0 <= i < excess :: IssuesAt(old(generator.Current()), clock, generator.epoch, i))
        && match r
           case Ok(pruned) =>
             && |pruned| == excess && (forall i | 0 <= i < excess :: pruned[i].args == PruneMessage(ms[i]))
             && Deletes(def, txn, SetOf(ms[..excess])) && log == Logged(pruned)
             && IdsIn(pruned) == IdsOf(old(generator.Current()), Ticks(clock, generator.epoch, excess))
           case Err(e) => e == NoEventId
    {
      hide Storable, Deletes, TsHash, Issued, Advanced, After, IdsOf, Ticks, All, DeletedKeys, SetOf, IssuesAt;
      var pruned: seq<HubEvent> := [];
      var count := cachedCount;
      txn, log := map[], map[];
      ghost var start, epoch := generator.Current(), generator.epoch;
      NothingDeleted(def, ms);
      NoTicks(start, clock, epoch);
      var k := 0;
      while k < |ms| && count > limit
        invariant k <= |ms| && count == cachedCount - k && (k > 0 ==> count >= limit)
        invariant Deletes(def, txn, SetOf(ms[..k]))
        invariant |pruned| == k && forall i | 0 <= i < k :: pruned[i].args == PruneMessage(ms[i])
        invariant log == Logged(pruned)
        invariant generator.Current() == After(start, Ticks(clock, epoch, k))
        invariant IdsIn(pruned) == IdsOf(start, Ticks(clock, epoch, k))
        invariant forall i | 0 <= i < k :: IssuesAt(start, clock, epoch, i)
      {
        var m := ms[k];
        ghost var before := txn;
        txn := DeleteTransaction(def, txn, m);
        DeletesMore(def, before, txn, SetOf(ms[..k]), m);
        SetGrows(ms, k);
        NextTick(start, clock, epoch, k);
        var id := generator.GenerateId(clock(k));
        if id.Failed? {
          r := Err(NoEventId);
          return;
        }
        var event := HubEvent(id.value, PruneMessage(m));
        log := log[id.value := event];
        count := count - 1;
        assert (pruned + [event])[..|pruned|] == pruned;
        assert IdsIn(pruned + [event]) == IdsIn(pruned) + [id.value];
        pruned := pruned + [event];
        k := k + 1;
      }
      r := Ok(pruned);
    }

    // ---- reading ----

    /** The add in the slot of a partial message. */
    method GetAdd(m: Message) returns (r: StoreResult<Option<Message>>)
      requires Valid()
      ensures r.Err? <==> m.fid == 0 || KeyError(m)
      ensures r.Ok? ==> forall x | x in contents.listed :: r.value == Some(x) <==> Occupies(x, Add, m.fid, Slot(m))
      ensures r.Ok? && r.value.Some? ==> r.value.value in contents.listed
    {
      hide Lays, WellFormed, Storable, TsHash, Slot, KeyError;
      if m.fid == 0 || KeyError(m) {
        return Err(InvalidParam);
      }
      var found := Occupant(false, m.fid, Slot(m));
      return Ok(found);
    }

    method GetRemove(m: Message) returns (r: StoreResult<Option<Message>>)
      requires Valid()
      ensures r.Err? <==> !RemovesSupported(def) || m.fid == 0 || KeyError(m)
      ensures r.Ok? ==> forall x | x in contents.listed :: r.value == Some(x) <==> Occupies(x, Remove, m.fid, Slot(m))
      ensures r.Ok? && r.value.Some? ==> r.value.value in contents.listed
    {
      hide Lays, WellFormed, Storable, TsHash, Slot, KeyError;
      if !RemovesSupported(def) || m.fid == 0 || KeyError(m) {
        return Err(InvalidParam);
      }
      var found := Occupant(true, m.fid, Slot(m));
      return Ok(found);
    }

    /** The links of a type that target a user, or those of all types: a scan of the index by target. */
    method GetLinksByTarget(target: nat, linkType: Bytes) returns (r: StoreResult<seq<Message>>)
      requires Valid() && def == Links
      ensures r.Ok? && InKeyOrder(r.value)
      ensures forall x :: x in r.value <==>
                x in contents.records && LinksTo(x, target % 0x1_0000_0000) &&
                (linkType == [] || x.body.linkType == linkType)
    {
      hide Lays, WellFormed, TsHash, Compare, Storable, BigEndian, FromBigEndian, EntryTail, LinksTo;
      var user := target % 0x1_0000_0000;
      var prefix := BigEndian(user, 4);
      var rest := set k | k in db && k.Root? && k.prefix == LINKS_BY_TARGET && prefix <= k.rest :: k.rest;
      var ms := [];
      forall x | x in contents.records && LinksTo(x, user)
        ensures prefix + EntryTail(x) in rest
      {
        LinkIsIndexed(db, contents, user, x);
      }
      while rest != {}
        invariant forall k | k in rest :: Root(LINKS_BY_TARGET, k) in db && prefix <= k
        invariant forall m | m in ms ::
                    m in contents.records && LinksTo(m, user) && m.body.LinkBody? &&
                    (linkType == [] || m.body.linkType == linkType)
        invariant forall i, k | 0 <= i < |ms| && k in rest :: Less(prefix + EntryTail(ms[i]), k)
        invariant InKeyOrder(ms)
        invariant forall x | x in contents.records && LinksTo(x, user) ::
                    x in ms || prefix + EntryTail(x) in rest ||
                    (x.body.LinkBody? && linkType != [] && x.body.linkType != linkType)
        decreases rest
      {
        var k := Least(rest);
        ghost var a := LinkEntryRead(db, contents, user, k);
        RecordIsStorable(def, contents, a);
        LinkIsIndexed(db, contents, user, a);
        RecordRead(def, db, contents, a);
        if linkType == [] || db[Root(LINKS_BY_TARGET, k)].bytes == linkType {
          var m := GetMessage(FromBigEndian(k[28..32]), k[4..28]);
          if m.None? {
            return Err(NotFound);
          }
          forall i | 0 <= i < |ms|
            ensures Less(TsHash(ms[i]), TsHash(a))
          {
            assert ms[i] in ms;
            LinksSort(contents, ms[i], a, prefix);
          }
          ms := ms + [m.value];
        }
        forall x | x in contents.records && LinksTo(x, user) && prefix + EntryTail(x) == k
          ensures x == a
        {
          SameEntry(contents, x, a, prefix);
        }
        rest := rest - {k};
      }
      return Ok(ms);
    }

    /** Follows a set-index key to its message. */
    method Occupant(remove: bool, fid: nat, slot: Bytes) returns (r: Option<Message>)
      requires Valid() && (remove ==> RemovesSupported(def))
      ensures forall x | x in contents.listed ::
                r == Some(x) <==> Occupies(x, if remove then Remove else Add, fid, slot)
      ensures r.Some? ==> r.value in contents.listed
    {
      hide Lays, WellFormed, Storable, TsHash, Slot;
      var key := User(fid, if remove then RemovesPostfix(def) else AddsPostfix(def), slot);
      var tsHash := ReadIndex(key);
      if key !in db {
        NoOccupant(def, db, contents, remove, fid, slot);
        return None;
      }
      ghost var x := IndexOwner(def, db, contents, remove, fid, slot);
      ListedIsConsistent(def, contents);
      RecordRead(def, db, contents, x);
      forall y | y in contents.listed && Occupies(y, x.kind, fid, slot)
        ensures x == y
      {
        OneOccupant(def, contents.listed, x, y);
      }
      return GetMessage(fid, tsHash.value);
    }
  }
}
