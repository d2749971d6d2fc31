/**
 How the messages of a store sit in the database: who owns a key, and what deleting and putting messages does.
 */
module StoreLayout {
  import opened Bytes
  import opened RocksDb
  import opened Messages
  import opened StoreSpec

  type StoreBatch = WriteBatch<DbKey, Value>

  /** The set-index key of an add or a remove. */
  function IndexKey(def: StoreDef, m: Message): DbKey {
    if m.kind == Remove then RemoveKey(def, m) else AddKey(def, m)
  }

  /** The messages of one user under primary keys. */
  ghost function OfFid(R: set<Message>, fid: nat): set<Message> {
    set r | r in R && r.fid == fid && r.kind != Compact
  }

  // ---- batches ----

  /** The batch does nothing but delete the keys of the messages. */
  ghost predicate Deletes(def: StoreDef, txn: StoreBatch, C: set<Message>) {
    && (forall c, k | c in C && k in DeletedKeys(def, c) :: k in txn)
    && (forall k | k in txn :: txn[k] == None && exists c :: c in C && k in DeletedKeys(def, c))
  }

  /** The batch that does the same to every key of a set. */
  function All(keys: set<DbKey>, op: Option<Value>): StoreBatch {
    map k | k in keys :: op
  }

  lemma AllMore(txn: StoreBatch, keys: set<DbKey>, k: DbKey, op: Option<Value>)
    ensures (txn + All(keys, op))[k := op] == txn + All(keys + {k}, op)
    ensures txn[k := op] == txn + All({k}, op)
    ensures txn + All({}, op) == txn
  {
  }

  /** The operations that put the entries of a message. */
  function Puts(def: StoreDef, m: Message): StoreBatch {
    map k | k in Entries(def, m) :: Some(Entries(def, m)[k])
  }

  lemma AddPuts(def: StoreDef, txn: StoreBatch, m: Message)
    requires m.kind == Add
    ensures txn[PrimaryKey(def, m.fid, TsHash(m)) := Some(Record(m))][AddKey(def, m) := Some(IndexEntry(TsHash(m)))]
            + All(SecondaryKeys(m), Some(SecondaryValue(m))) == txn + Puts(def, m)
  {
    hide SecondaryKeys, SecondaryValue, TsHash, Slot;
  }

  lemma RemovePuts(def: StoreDef, txn: StoreBatch, m: Message)
    requires m.kind == Remove
    ensures txn[PrimaryKey(def, m.fid, TsHash(m)) := Some(Record(m))][RemoveKey(def, m) := Some(IndexEntry(TsHash(m)))]
            == txn + Puts(def, m)
  {
    hide TsHash, Slot;
  }

  /** The index entries of an add, and the unpadded key if it is a link. */
  function IndexDeletions(m: Message): set<DbKey> {
    SecondaryKeys(m) + if m.body.LinkBody? then {UnpaddedKey(m)} else {}
  }

  lemma AddDeletions(def: StoreDef, m: Message)
    requires m.kind == Add
    ensures DeletedKeys(def, m) == IndexDeletions(m) + {AddKey(def, m)} + {PrimaryKey(def, m.fid, TsHash(m))}
  {
    hide SecondaryKeys, SecondaryValue, TsHash, Slot;
  }

  lemma RemoveDeletions(def: StoreDef, m: Message)
    requires m.kind == Remove
    ensures DeletedKeys(def, m) == (if m.body.LinkBody? then {UnpaddedKey(m)} else {})
                                   + {RemoveKey(def, m)} + {PrimaryKey(def, m.fid, TsHash(m))}
  {
    hide TsHash, Slot;
  }

  lemma {:induction false} DeletesMore(def: StoreDef, txn: StoreBatch, txn': StoreBatch, C: set<Message>, m: Message)
    requires Deletes(def, txn, C)
    requires txn' == txn + All(DeletedKeys(def, m), None)
    ensures Deletes(def, txn', C + {m})
  {
    hide DeletedKeys;
    assert m in C + {m};
    forall k | k in txn'
      ensures txn'[k] == None && exists c :: c in C + {m} && k in DeletedKeys(def, c)
    {
      if k !in DeletedKeys(def, m) {
        var c :| c in C && k in DeletedKeys(def, c);
        assert c in C + {m};
      }
    }
  }

  // ---- layout ----

  /** What a record puts into the database: all its entries, without its set-index entry if it has lost that. */
  ghost function EntriesIn(def: StoreDef, S: Contents, r: Message): map<DbKey, Value> {
    if r in S.listed then Entries(def, r) else Entries(def, r) - {IndexKey(def, r)}
  }

  /** The database holds exactly the entries of the contents. */
  ghost predicate Lays(def: StoreDef, db: StoreDb, S: Contents) {
    && (forall r, k | r in S.records && k in EntriesIn(def, S, r) :: k in db && db[k] == EntriesIn(def, S, r)[k])
    && (forall k | k in db :: exists r :: r in S.records && k in EntriesIn(def, S, r))
  }

  /** The contents determine the whole database. */
  lemma {:induction false} LaysOneDatabase(def: StoreDef, db: StoreDb, db': StoreDb, S: Contents)
    requires Lays(def, db, S) && Lays(def, db', S)
    ensures db == db'
  {
    hide EntriesIn;
    forall k | k in db
      ensures k in db' && db'[k] == db[k]
    {
      var r :| r in S.records && k in EntriesIn(def, S, r);
    }
    forall k | k in db'
      ensures k in db
    {
      var r :| r in S.records && k in EntriesIn(def, S, r);
    }
  }

  lemma EntriesInAre(def: StoreDef, S: Contents, r: Message, k: DbKey)
    ensures k in EntriesIn(def, S, r) <==> k in Entries(def, r) && (r in S.listed || k != IndexKey(def, r))
    ensures k in EntriesIn(def, S, r) ==> EntriesIn(def, S, r)[k] == Entries(def, r)[k]
  {
    hide Entries;
  }

  // ---- what a deletion touches ----

  /** An unpadded key is a padded key only of the same slot, or of a remove that names no target. */
  lemma UnpaddedKeyIsOwn(m: Message, x: Message)
    requires m.body.LinkBody? && !KeyError(m) && Storable(Links, x) && x.kind != Compact && x.fid == m.fid
    requires Slot(x) == UnpaddedSlot(m)
    ensures Slot(x) == Slot(m) || Crossed(m, x)
  {
    ShapeOf(Links, x);
    if |m.body.linkType| == 8 {
      assert Padded(m.body.linkType) == m.body.linkType;
    }
  }

  /** Deleting one link touches another only at its set-index key, which it strikes. */
  lemma LinkDeletionStrikes(c: Message, r: Message, k: DbKey)
    requires Storable(Links, c) && Storable(Links, r) && c != r && Identified({c, r})
    requires c.kind != Compact && r.kind != Compact && k in DeletedKeys(Links, c) && k in Entries(Links, r)
    ensures k == IndexKey(Links, r) && Strikes(c, r)
  {
    ShapeOf(Links, c);
    ShapeOf(Links, r);
    EntryKeys(Links, r, k);
    if k in Entries(Links, c) {
      EntryKeys(Links, c, k);
      if k.Root? {
        SecondaryTail(Links, c, k);
        SecondaryTail(Links, r, k);
        SameTsHash(c, r);
      } else if k == PrimaryKey(Links, c.fid, TsHash(c)) {
        SameTsHash(c, r);
      }
    } else {
      assert k == UnpaddedKey(c);
      UnpaddedKeyIsOwn(c, r);
    }
  }

  lemma DeletionStrikes(def: StoreDef, S: Contents, c: Message, r: Message, k: DbKey)
    requires WellFormed(def, S) && c in S.records && r in S.records && c != r
    requires k in DeletedKeys(def, c) && k in Entries(def, r)
    ensures k == IndexKey(def, r) && Strikes(c, r)
  {
    hide Entries, Storable, Strikes, Compacted, UnpaddedKey;
    ShapeOf(def, c);
    ShapeOf(def, r);
    if def == Links && c.kind != Compact && r.kind != Compact {
      LinkDeletionStrikes(c, r, k);
    } else {
      ConflictsSymmetric(def, c, r);
      EntriesDisjoint(def, c, r);
      if c.body.LinkBody? {
        UnpaddedIsNoState(c, r);
      }
    }
  }

  lemma UnpaddedIsNoState(c: Message, r: Message)
    requires Storable(Links, r) && c.body.LinkBody? && r.kind == Compact
    ensures UnpaddedKey(c) !in Entries(Links, r)
  {
    ShapeOf(Links, r);
  }

  lemma StrikesDeletes(def: StoreDef, c: Message, r: Message)
    requires Storable(def, c) && Storable(def, r) && Strikes(c, r)
    ensures IndexKey(def, r) in DeletedKeys(def, c)
  {
    ShapeOf(def, c);
    ShapeOf(def, r);
    if c.kind == r.kind {
      OwnKeys(def, c);
    }
  }

  lemma OwnEntriesDeleted(def: StoreDef, m: Message, k: DbKey)
    requires k in Entries(def, m)
    ensures k in DeletedKeys(def, m)
  {
  }

  /** Deleting some records leaves exactly the others, without the index entries that are struck. */
  lemma {:induction false} DeletionLayout(def: StoreDef, db: StoreDb, S: Contents, C: set<Message>, txn: StoreBatch)
    requires Lays(def, db, S) && WellFormed(def, S) && C <= S.records && Deletes(def, txn, C)
    ensures Lays(def, Applied(db, txn), Removed(S, C))
  {
    hide Entries, DeletedKeys, WellFormed, Strikes, EntriesIn, IndexKey, Crossed;
    var db', S' := Applied(db, txn), Removed(S, C);
    forall r, k | r in S'.records && k in EntriesIn(def, S', r)
      ensures k in db' && db'[k] == EntriesIn(def, S', r)[k]
    {
      EntriesInAre(def, S', r, k);
      EntriesInAre(def, S, r, k);
      if k in txn {
        var c :| c in C && k in DeletedKeys(def, c);
        DeletionStrikes(def, S, c, r, k);
      }
      assert Look(db', map[], k) == Look(db, txn, k);
    }
    forall k | k in db'
      ensures exists r :: r in S'.records && k in EntriesIn(def, S', r)
    {
      assert Look(db', map[], k) == Look(db, txn, k);
      var r :| r in S.records && k in EntriesIn(def, S, r);
      EntriesInAre(def, S, r, k);
      StillThere(def, S, C, txn, r, k);
      EntriesInAre(def, S', r, k);
    }
  }

  lemma StillThere(def: StoreDef, S: Contents, C: set<Message>, txn: StoreBatch, r: Message, k: DbKey)
    requires WellFormed(def, S) && C <= S.records && Deletes(def, txn, C) && k !in txn
    requires r in S.records && k in Entries(def, r) && (r in S.listed || k != IndexKey(def, r))
    ensures r in Removed(S, C).records && (r in Removed(S, C).listed || k != IndexKey(def, r))
  {
    hide Entries, DeletedKeys, Storable, Conflicts, Strikes, IndexKey, Crossed, Compacted;
    if r in C {
      OwnEntriesDeleted(def, r, k);
    }
    if Struck(C, r) {
      var c :| c in C && Strikes(c, r);
      StrikesDeletes(def, c, r);
    }
  }

  /** Putting a message that competes with no named one adds exactly that message. */
  lemma {:induction false} PutLayout(def: StoreDef, db: StoreDb, S: Contents, m: Message)
    requires Lays(def, db, S) && WellFormed(def, Added(S, m))
    ensures Lays(def, Applied(db, Puts(def, m)), Added(S, m))
  {
    hide Entries, WellFormed, EntriesIn, IndexKey;
    var db', S' := Applied(db, Puts(def, m)), Added(S, m);
    forall r, k | r in S'.records && k in EntriesIn(def, S', r)
      ensures k in db' && db'[k] == EntriesIn(def, S', r)[k]
    {
      EntriesInAre(def, S', r, k);
      EntriesInAre(def, S, r, k);
      if r != m {
        PutTouchesNone(def, S, m, r, k);
      }
      assert Look(db', map[], k) == Look(db, Puts(def, m), k);
    }
    forall k | k in db'
      ensures exists r :: r in S'.records && k in EntriesIn(def, S', r)
    {
      assert Look(db', map[], k) == Look(db, Puts(def, m), k);
      if k in Entries(def, m) {
        EntriesInAre(def, S', m, k);
      } else {
        var r :| r in S.records && k in EntriesIn(def, S, r);
        EntriesInAre(def, S, r, k);
        EntriesInAre(def, S', r, k);
      }
    }
  }

  lemma PutTouchesNone(def: StoreDef, S: Contents, m: Message, r: Message, k: DbKey)
    requires WellFormed(def, Added(S, m)) && r in S.records && r != m
    requires k in Entries(def, r) && (r in S.listed || k != IndexKey(def, r))
    ensures k !in Entries(def, m)
  {
    hide Entries, Storable, Conflicts, Compacted, IndexKey;
    if r in S.listed {
      EntriesDisjoint(def, r, m);
    } else {
      BareRecord(def, r, k);
      if k in Entries(def, m) {
        EntryKeys(def, m, k);
        PrimaryIsOwn(def, m, r, k);
      }
    }
  }

  /** Without its index entry, a bare remove has its record only. */
  lemma BareRecord(def: StoreDef, r: Message, k: DbKey)
    requires Storable(def, r) && Bare(def, r) && k in Entries(def, r) && k != IndexKey(def, r)
    ensures k == PrimaryKey(def, r.fid, TsHash(r))
  {
  }

  lemma PrimaryIsOwn(def: StoreDef, m: Message, r: Message, k: DbKey)
    requires Storable(def, m) && Storable(def, r) && Identified({m, r}) && k in Entries(def, m)
    requires k == PrimaryKey(def, r.fid, TsHash(r))
    ensures m == r
  {
    ShapeOf(def, m);
    EntryKeys(def, m, k);
    SameTsHash(m, r);
  }

  lemma AppliedTwice(db: StoreDb, a: StoreBatch, b: StoreBatch)
    ensures Applied(Applied(db, a), b) == Applied(db, a + b)
  {
    forall k
      ensures Look(Applied(Applied(db, a), b), map[], k) == Look(Applied(db, a + b), map[], k)
    {
      assert Look(Applied(Applied(db, a), b), map[], k) == Look(Applied(db, a), b, k);
      assert Look(Applied(db, a), map[], k) == Look(db, a, k);
    }
    SameReads(Applied(Applied(db, a), b), Applied(db, a + b));
  }

  /** Deleting the messages C and putting m replaces C by m. */
  lemma ReplaceLayout(def: StoreDef, db: StoreDb, S: Contents, C: set<Message>, m: Message, txn: StoreBatch)
    requires Lays(def, db, S) && WellFormed(def, S) && C <= S.records && Deletes(def, txn, C)
    requires WellFormed(def, Added(Removed(S, C), m))
    ensures Lays(def, Applied(db, txn + Puts(def, m)), Added(Removed(S, C), m))
  {
    hide *;
    DeletionLayout(def, db, S, C, txn);
    PutLayout(def, Applied(db, txn), Removed(S, C), m);
    AppliedTwice(db, txn, Puts(def, m));
  }

  // ---- lookups ----

  lemma OwnKeys(def: StoreDef, m: Message)
    requires m.kind != Compact && Storable(def, m)
    ensures PrimaryKey(def, m.fid, TsHash(m)) in Entries(def, m)
    ensures Entries(def, m)[PrimaryKey(def, m.fid, TsHash(m))] == Record(m)
    ensures IndexKey(def, m) in Entries(def, m) && Entries(def, m)[IndexKey(def, m)] == IndexEntry(TsHash(m))
  {
    var k := PrimaryKey(def, m.fid, TsHash(m));
    SecondaryAreRoots(m);
    assert k !in SecondaryKeys(m) && IndexKey(def, m) !in SecondaryKeys(m);
  }

  lemma SecondaryAreRoots(m: Message)
    ensures forall k | k in SecondaryKeys(m) :: k.Root?
  {
  }

  /** A record read back by its primary key is the stored message, and its set-index entry names it. */
  lemma RecordRead(def: StoreDef, db: StoreDb, S: Contents, m: Message)
    requires Lays(def, db, S) && WellFormed(def, S) && m in S.records && m.kind != Compact
    ensures var k := PrimaryKey(def, m.fid, TsHash(m)); k in db && db[k] == Record(m)
    ensures m in S.listed ==> IndexKey(def, m) in db && db[IndexKey(def, m)] == IndexEntry(TsHash(m))
  {
    hide Entries, Storable, Conflicts, Slot, TsHash, EntriesIn, Compacted, Bare;
    OwnKeys(def, m);
    EntriesInAre(def, S, m, PrimaryKey(def, m.fid, TsHash(m)));
    EntriesInAre(def, S, m, IndexKey(def, m));
    IndexIsNotPrimary(def, m);
  }

  lemma IndexIsNotPrimary(def: StoreDef, m: Message)
    ensures IndexKey(def, m) != PrimaryKey(def, m.fid, TsHash(m))
  {
    hide TsHash, Slot;
  }

  /** Who owns a key of the database. */
  lemma KeyOwner(def: StoreDef, db: StoreDb, S: Contents, k: DbKey) returns (m: Message)
    requires Lays(def, db, S) && WellFormed(def, S) && k in db
    ensures m in S.records && Storable(def, m) && k in Entries(def, m) && db[k] == Entries(def, m)[k]
    ensures m in S.listed || k != IndexKey(def, m)
  {
    hide Entries, Storable, Conflicts, EntriesIn, Compacted, Bare, IndexKey;
    m :| m in S.records && k in EntriesIn(def, S, m);
    EntriesInAre(def, S, m, k);
  }

  /** The secondary entries of a named add. */
  lemma SecondaryRead(def: StoreDef, db: StoreDb, S: Contents, m: Message)
    requires Lays(def, db, S) && WellFormed(def, S) && m in S.listed && m.kind == Add
    ensures forall k | k in SecondaryKeys(m) :: k in db && db[k] == SecondaryValue(m)
  {
    hide Consistent, TsHash, Slot, SecondaryKeys, SecondaryValue, EntriesIn, Compacted, Storable;
    forall k | k in SecondaryKeys(m)
      ensures k in db && db[k] == SecondaryValue(m)
    {
      assert k in Entries(def, m) && Entries(def, m)[k] == SecondaryValue(m);
      EntriesInAre(def, S, m, k);
    }
  }

  /** Whose is a set-index key. */
  lemma IndexOwner(def: StoreDef, db: StoreDb, S: Contents, remove: bool, fid: nat, slot: Bytes) returns (m: Message)
    requires Lays(def, db, S) && WellFormed(def, S) && (remove ==> RemovesSupported(def))
    requires User(fid, if remove then RemovesPostfix(def) else AddsPostfix(def), slot) in db
    ensures m in S.listed && m.kind == (if remove then Remove else Add) && m.fid == fid && Slot(m) == slot
    ensures db[User(fid, if remove then RemovesPostfix(def) else AddsPostfix(def), slot)] == IndexEntry(TsHash(m))
  {
    hide Entries, Storable, Conflicts, Slot, TsHash, SecondaryKeys, WellFormed, Lays;
    var k := User(fid, if remove then RemovesPostfix(def) else AddsPostfix(def), slot);
    m := KeyOwner(def, db, S, k);
    EntryKeys(def, m, k);
  }

  /** Whose is a primary key. */
  lemma RecordOwner(def: StoreDef, db: StoreDb, S: Contents, k: DbKey) returns (m: Message)
    requires Lays(def, db, S) && WellFormed(def, S) && k in db && k.User? && k.postfix == MessagePostfix(def)
    ensures m in OfFid(S.records, k.fid) && k == PrimaryKey(def, m.fid, TsHash(m)) && db[k] == Record(m)
  {
    hide Entries, Storable, Conflicts, Slot, TsHash, SecondaryKeys, WellFormed, Lays;
    m := KeyOwner(def, db, S, k);
    EntryKeys(def, m, k);
  }

  /** Whose is a compact-state key. */
  lemma CompactOwner(db: StoreDb, S: Contents, m: Message) returns (c: Message)
    requires Lays(Links, db, S) && WellFormed(Links, S) && (m.body.LinkBody? || m.body.LinkCompactStateBody?)
    requires CompactKey(m) in db
    ensures c in S.records && c.kind == Compact && c.body.LinkCompactStateBody? && CompactKey(c) == CompactKey(m)
    ensures db[CompactKey(m)] == Record(c)
  {
    hide Entries, Storable, Conflicts, Slot, TsHash, SecondaryKeys, WellFormed, Lays;
    c := KeyOwner(Links, db, S, CompactKey(m));
    EntryKeys(Links, c, CompactKey(m));
    ShapeOf(Links, c);
  }

  lemma CompactRead(db: StoreDb, S: Contents, c: Message)
    requires Lays(Links, db, S) && WellFormed(Links, S) && c in S.records && c.kind == Compact
    ensures c.body.LinkCompactStateBody? && CompactKey(c) in db && db[CompactKey(c)] == Record(c)
    ensures c in S.listed
  {
    hide Storable, Conflicts, EntriesIn, Compacted;
    ShapeOf(Links, c);
    assert CompactKey(c) in Entries(Links, c);
    EntriesInAre(Links, S, c, CompactKey(c));
  }

  /** The key by address or by name. */
  function HolderKey(def: StoreDef, slot: Bytes): DbKey {
    Root(if def == Verifications then VERIFICATION_BY_ADDRESS else USERNAME_PROOF_BY_NAME, slot)
  }

  /** Whose is a key by address or by name. */
  lemma HolderOwner(def: StoreDef, db: StoreDb, S: Contents, slot: Bytes) returns (m: Message)
    requires def == Verifications || def == UsernameProofs
    requires Lays(def, db, S) && WellFormed(def, S) && HolderKey(def, slot) in db
    ensures m in S.listed && m.kind == Add && Slot(m) == slot && db[HolderKey(def, slot)] == FidEntry(m.fid)
  {
    hide Entries, Storable, Conflicts, TsHash, SecondaryKeys, Lays, Compacted;
    var k := HolderKey(def, slot);
    m := KeyOwner(def, db, S, k);
    EntryKeys(def, m, k);
    ShapeOf(def, m);
    SecondaryTail(def, m, k);
  }

  lemma HolderRead(def: StoreDef, db: StoreDb, S: Contents, m: Message)
    requires def == Verifications || def == UsernameProofs
    requires Lays(def, db, S) && WellFormed(def, S) && m in S.listed && m.kind == Add
    ensures HolderKey(def, Slot(m)) in db && db[HolderKey(def, Slot(m))] == FidEntry(m.fid)
  {
    hide Conflicts, EntriesIn, Compacted;
    ShapeOf(def, m);
    assert HolderKey(def, Slot(m)) in SecondaryKeys(m);
    assert HolderKey(def, Slot(m)) in Entries(def, m);
    EntryKeys(def, m, HolderKey(def, Slot(m)));
    EntriesInAre(def, S, m, HolderKey(def, Slot(m)));
  }

  // ---- competitors ----

  ghost predicate Occupies(x: Message, kind: Kind, fid: nat, slot: Bytes) {
    x.kind == kind && x.fid == fid && Slot(x) == slot
  }

  /** The add or remove x is in the slot of m. */
  ghost predicate Same(x: Message, m: Message) {
    x.kind != Compact && x.fid == m.fid && Slot(x) == Slot(m)
  }

  lemma RecordIsStorable(def: StoreDef, S: Contents, x: Message)
    requires WellFormed(def, S) && x in S.records
    ensures Storable(def, x) && InRange(x) && |TsHash(x)| == TS_HASH_LENGTH
  {
    TsHashParts(x);
  }

  lemma StoredIsStorable(def: StoreDef, R: set<Message>, x: Message)
    requires Consistent(def, R) && x in R
    ensures Storable(def, x) && InRange(x) && |TsHash(x)| == TS_HASH_LENGTH
  {
    TsHashParts(x);
  }

  /** An empty set-index key means that nobody occupies the slot. */
  lemma NoOccupant(def: StoreDef, db: StoreDb, S: Contents, remove: bool, fid: nat, slot: Bytes)
    requires Lays(def, db, S) && WellFormed(def, S)
    requires User(fid, if remove then RemovesPostfix(def) else AddsPostfix(def), slot) !in db
    ensures forall x | x in S.listed :: !Occupies(x, if remove then Remove else Add, fid, slot)
  {
    hide Lays, Slot, Consistent, Storable, Compacted;
    forall x | x in S.listed && Occupies(x, if remove then Remove else Add, fid, slot)
      ensures false
    {
      RecordRead(def, db, S, x);
    }
  }

  lemma OneOccupant(def: StoreDef, R: set<Message>, x: Message, y: Message)
    requires Consistent(def, R) && x in R && y in R && x.kind != Compact && y.kind != Compact
    requires x.fid == y.fid && Slot(x) == Slot(y)
    ensures x == y
  {
    hide Slot, Storable;
    assert Conflicts(def, x, y);
  }

  /** The messages of one slot are one message. */
  lemma AllTheSame(def: StoreDef, R: set<Message>, found: seq<Message>, x: Message, m: Message)
    requires Consistent(def, R) && found != [] && (forall c | c in found :: c in R && Same(c, m)) && x in R &&
             Same(x, m)
    ensures x in found
  {
    hide Consistent, Slot;
    assert found[0] in found;
    OneOccupant(def, R, x, found[0]);
  }

  lemma OnlyAdds(def: StoreDef, R: set<Message>)
    requires Consistent(def, R) && !RemovesSupported(def)
    ensures forall x | x in R :: x.kind == Add
  {
    forall x | x in R
      ensures x.kind == Add
    {
      ShapeOf(def, x);
    }
  }

  /** Messages of one kind that compare as equal are the same. */
  lemma EqualOrder(def: StoreDef, R: set<Message>, x: Message, m: Message)
    requires Identified(R + {m}) && x in R && InRange(x) && InRange(m) && Order(def, x, m) == 0
    ensures x == m
  {
    OrderIsTotal(def, x, m);
  }

  lemma SelfOrder(def: StoreDef, m: Message)
    requires InRange(m)
    ensures Order(def, m, m) == 0 && !Precedes(def, m, m)
  {
    OrderIsTotal(def, m, m);
  }
}
