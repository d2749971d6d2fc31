/**
 What an account store holds: which messages compete, and what merges and prunes do, both by competition between slots
 alone and as the store really does it.
 */
module StoreSpec {
  import opened Bytes
  import opened RocksDb
  import opened Messages

  type StoreDb = map<DbKey, Value>

  ghost function SetOf(ms: seq<Message>): set<Message> {
    set m | m in ms
  }

  /** A message the store can hold. */
  ghost predicate Storable(def: StoreDef, m: Message) {
    && InRange(m)
    && (IsAdd(def, m) || IsRemove(def, m) || IsCompact(def, m))
    && (IsLinkable(def, m) ==> !KeyError(m))
    && (IsAdd(def, m) ==> !SecondaryError(m))
  }

  /** Messages that cannot both be stored. */
  ghost predicate Conflicts(def: StoreDef, a: Message, b: Message) {
    (a.kind == Compact <==> b.kind == Compact) &&
    match def
    case UsernameProofs => Slot(a) == Slot(b)
    case Verifications => Slot(a) == Slot(b) && (a.fid == b.fid || (a.kind == Add && b.kind == Add))
    case _ => a.fid == b.fid && Slot(a) == Slot(b)
  }

  /** Timestamp and hash identify a message. */
  ghost predicate Identified(M: set<Message>) {
    forall a, b | a in M && b in M && a.timestamp == b.timestamp && a.hash == b.hash :: a == b
  }

  /** A set of messages a store can be in. */
  ghost predicate Consistent(def: StoreDef, R: set<Message>) {
    && (forall r | r in R :: Storable(def, r))
    && (forall a, b | a in R && b in R && Conflicts(def, a, b) :: a == b)
    && Identified(R)
  }

  // ---- whose key is it ----

  lemma ShapeOf(def: StoreDef, m: Message)
    requires Storable(def, m)
    ensures def != Links ==> !m.body.LinkBody? && !m.body.LinkCompactStateBody?
    ensures m.kind == Compact ==> def == Links && m.body.LinkCompactStateBody?
    ensures def == Links && m.kind != Compact ==>
              m.body.LinkBody? && |Slot(m)| == (if m.body.targetFid.Some? then 12 else 8)
    ensures def == Links && m.kind == Add ==> m.body.targetFid.Some?
    ensures def == Casts ==> m.body.CastAddBody? || m.body.CastRemoveBody?
    ensures def != Verifications ==> !m.body.VerificationBody?
    ensures def != UsernameProofs ==> !m.body.UsernameProofBody?
    ensures m.kind == Remove ==> RemovesSupported(def)
    ensures def == Verifications ==> m.body.VerificationBody?
    ensures def == UsernameProofs ==> m.body.UsernameProofBody? && m.kind == Add
  {
  }

  /** The entries of a message by the kind of their key. */
  lemma EntryKeys(def: StoreDef, m: Message, k: DbKey)
    requires Storable(def, m) && k in Entries(def, m)
    ensures k.Root? ==> m.kind == Add && k in SecondaryKeys(m) && Entries(def, m)[k] == SecondaryValue(m)
    ensures k.User? ==> k.fid == m.fid
    ensures k.User? && m.kind == Compact ==> k == CompactKey(m) && Entries(def, m)[k] == Record(m)
    ensures k.User? && m.kind != Compact ==>
              || (k == PrimaryKey(def, m.fid, TsHash(m)) && Entries(def, m)[k] == Record(m))
              || (k == (if m.kind == Add then AddKey(def, m) else RemoveKey(def, m)) &&
                  Entries(def, m)[k] == IndexEntry(TsHash(m)))
  {
  }

  /** All secondary keys but those by address or name end with the message's own timestamp hash and fid. */
  lemma SecondaryTail(def: StoreDef, m: Message, k: DbKey)
    requires Storable(def, m) && m.kind == Add && k in SecondaryKeys(m)
    ensures k.Root?
    ensures def == Verifications ==> k == Root(VERIFICATION_BY_ADDRESS, Slot(m))
    ensures def == UsernameProofs ==> k == Root(USERNAME_PROOF_BY_NAME, Slot(m))
    ensures def != Verifications && def != UsernameProofs ==>
              |k.rest| >= 28 && k.rest[|k.rest| - 28..|k.rest| - 4] == TsHash(m)
  {
    ShapeOf(def, m);
    TsHashParts(m);
    hide Storable, TsHash, InRange;
    if def != Verifications && def != UsernameProofs {
      var head := SecondaryHead(m, k);
      TailIs(m, head, k.rest);
    }
  }

  lemma SecondaryHead(m: Message, k: DbKey) returns (head: Bytes)
    requires k in SecondaryKeys(m) && !m.body.VerificationBody? && !m.body.UsernameProofBody?
    ensures k.Root? && k.rest == head + Tail(m)
  {
    hide FidBytes, TargetKey, Tail;
    match m.body
    case CastAddBody(parent, mentions) =>
      if parent.Some? && k == Root(CASTS_BY_PARENT, TargetKey(parent.value) + Tail(m)) {
        head := TargetKey(parent.value);
      } else {
        var f :| f in mentions && k == Root(CASTS_BY_MENTION, FidBytes(f) + Tail(m));
        head := FidBytes(f);
      }
    case ReactionBody(_, target) => head := TargetKey(target.value);
    case LinkBody(_, target) => head := FidBytes(target.value);
  }

  lemma TailIs(m: Message, head: Bytes, rest: Bytes)
    requires |TsHash(m)| == TS_HASH_LENGTH && rest == head + Tail(m)
    ensures |rest| >= 28 && rest[|rest| - 28..|rest| - 4] == TsHash(m)
  {
    hide TsHash;
    assert |Tail(m)| == 28;
  }

  /** Messages that do not conflict share no key. */
  lemma EntriesDisjoint(def: StoreDef, a: Message, b: Message)
    requires Storable(def, a) && Storable(def, b) && a != b && !Conflicts(def, a, b) && Identified({a, b})
    ensures Entries(def, a).Keys !! Entries(def, b).Keys
  {
    forall k | k in Entries(def, a) && k in Entries(def, b)
      ensures false
    {
      EntryKeys(def, a, k);
      EntryKeys(def, b, k);
      ShapeOf(def, a);
      ShapeOf(def, b);
      if k.Root? {
        SecondaryTail(def, a, k);
        SecondaryTail(def, b, k);
        if def != Verifications && def != UsernameProofs {
          SameTsHash(a, b);
        }
      } else if a.kind != Compact && b.kind != Compact && k == PrimaryKey(def, a.fid, TsHash(a)) {
        SameTsHash(a, b);
      }
    }
  }

  /** The store whose messages use a key of this form. */
  function StoreOf(k: DbKey): Option<StoreDef> {
    match k
    case User(_, postfix, _) =>
      if postfix in {1, 87, 88} then Some(Casts) else if postfix in {2, 89, 90, 100} then Some(Links)
      else if postfix in {3, 91, 92} then Some(Reactions) else if postfix in {4, 93, 94} then Some(Verifications)
      else if postfix in {6, 97} then Some(UserData) else if postfix in {7, 99} then Some(UsernameProofs)
      else None
    case Root(prefix, _) =>
      if prefix in {2, 3} then Some(Casts) else if prefix == 4 then Some(Links) else if prefix == 5 then Some(Reactions)
      else if prefix == 25 then Some(Verifications) else if prefix == 19 then Some(UsernameProofs)
      else None
  }

  lemma KeysOfStore(def: StoreDef, m: Message, k: DbKey)
    requires Storable(def, m) && k in DeletedKeys(def, m)
    ensures StoreOf(k) == Some(def)
  {
    ShapeOf(def, m);
    hide TsHash, FidBytes, TargetKey, Tail, Padded, Slot, KeyError, SecondaryError, InRange;
    if k in Entries(def, m) {
      EntryKeys(def, m, k);
    }
  }

  /** Stores can share a database: what one of them puts or deletes is no key of another. */
  lemma StoresShareNoKey(def: StoreDef, a: Message, def': StoreDef, b: Message)
    requires Storable(def, a) && Storable(def', b) && def != def'
    ensures DeletedKeys(def, a) !! Entries(def', b).Keys
  {
    hide Storable, Entries, StoreOf;
    forall k | k in DeletedKeys(def, a) && k in Entries(def', b)
      ensures false
    {
      KeysOfStore(def, a, k);
      KeysOfStore(def', b, k);
    }
  }

  // ---- merging ----

  /** The stored messages that compete with m. */
  ghost function Rivals(def: StoreDef, R: set<Message>, m: Message): set<Message> {
    set r | r in R && Conflicts(def, r, m)
  }

  /** Some stored rival is not older: the merge is refused. */
  ghost predicate Blocked(def: StoreDef, R: set<Message>, m: Message) {
    exists r :: r in R && Conflicts(def, r, m) && !Precedes(def, r, m)
  }

  /** A merge takes the place of its rivals, or changes nothing. */
  ghost function Merged(def: StoreDef, R: set<Message>, m: Message): set<Message> {
    if Blocked(def, R, m) then R else R - Rivals(def, R, m) + {m}
  }

  /** The compact state c decides over the link r. */
  ghost predicate Governs(c: Message, r: Message) {
    && c.kind == Compact && r.kind != Compact && c.fid == r.fid
    && c.body.LinkCompactStateBody? && r.body.LinkBody? && CompactKey(c) == CompactKey(r)
  }

  /** The link is older than the compact state and not among its targets. */
  ghost predicate Outdated(c: Message, r: Message) {
    && c.body.LinkCompactStateBody? && r.body.LinkBody? && r.timestamp < c.timestamp
    && (r.kind == Remove || (r.body.targetFid.Some? && r.body.targetFid.value !in c.body.targetFids))
  }

  ghost predicate Gated(R: set<Message>, m: Message) {
    exists c :: c in R && Governs(c, m) && Outdated(c, m)
  }

  /** The links a compact state removes when it is merged: of every link type, up to its own timestamp. */
  ghost predicate Swept(c: Message, r: Message) {
    && c.body.LinkCompactStateBody? && r.body.LinkBody? && r.kind != Compact
    && r.fid == c.fid && r.timestamp <= c.timestamp
    && (r.kind == Remove || (r.body.targetFid.Some? && r.body.targetFid.value !in c.body.targetFids))
  }

  ghost predicate CompactBlocked(def: StoreDef, R: set<Message>, c: Message) {
    exists r :: r in R && Conflicts(def, r, c) && r.timestamp >= c.timestamp
  }

  ghost function MergedCompact(def: StoreDef, R: set<Message>, c: Message): set<Message> {
    if CompactBlocked(def, R, c) then R
    else (set r | r in R && !Conflicts(def, r, c) && !Swept(c, r)) + {c}
  }

  /** The store after a message that it can hold has been offered to it. */
  ghost function Step(def: StoreDef, R: set<Message>, m: Message): set<Message> {
    if m.kind == Compact then MergedCompact(def, R, m)
    else if Gated(R, m) then R
    else Merged(def, R, m)
  }

  /** Link compaction: no stored remove, and no stored add outside the targets, is older than its compact state. */
  ghost predicate Compacted(R: set<Message>) {
    forall c, r | c in R && r in R && Governs(c, r) :: !Outdated(c, r)
  }

  lemma ConflictsSymmetric(def: StoreDef, a: Message, b: Message)
    ensures Conflicts(def, a, b) <==> Conflicts(def, b, a)
  {
  }

  lemma SelfConflict(def: StoreDef, m: Message)
    ensures Conflicts(def, m, m)
  {
  }

  /** Replacing the rivals of m by m keeps the set consistent. */
  lemma ReplaceConsistent(def: StoreDef, R: set<Message>, R': set<Message>, m: Message)
    requires Consistent(def, R) && Storable(def, m) && Identified(R + {m}) && R' <= R
    requires forall r | r in R' :: !Conflicts(def, r, m)
    ensures Consistent(def, R' + {m})
  {
    hide Conflicts, Storable;
    forall a, b | a in R' + {m} && b in R' + {m} && Conflicts(def, a, b)
      ensures a == b
    {
      ConflictsSymmetric(def, a, b);
    }
  }

  /** Every merge keeps the store consistent and compacted. */
  lemma StepKeepsInvariants(def: StoreDef, R: set<Message>, m: Message)
    requires Consistent(def, R) && Compacted(R) && Storable(def, m) && Identified(R + {m})
    ensures Consistent(def, Step(def, R, m)) && Compacted(Step(def, R, m))
  {
    if m.kind == Compact {
      CompactKeepsInvariants(def, R, m);
    } else if !Gated(R, m) && !Blocked(def, R, m) {
      var kept := R - Rivals(def, R, m);
      ReplaceConsistent(def, R, kept, m);
      assert Compacted(kept + {m}) by {
        hide Conflicts, Storable;
        forall c, r | c in kept + {m} && r in kept + {m} && Governs(c, r)
          ensures !Outdated(c, r)
        {
          if r == m {
            assert c in R;
          }
        }
      }
    }
  }

  lemma CompactKeepsInvariants(def: StoreDef, R: set<Message>, c: Message)
    requires Consistent(def, R) && Compacted(R) && Storable(def, c) && Identified(R + {c}) && c.kind == Compact
    ensures Consistent(def, MergedCompact(def, R, c)) && Compacted(MergedCompact(def, R, c))
  {
    if !CompactBlocked(def, R, c) {
      var kept := set r | r in R && !Conflicts(def, r, c) && !Swept(c, r);
      ReplaceConsistent(def, R, kept, c);
      hide Conflicts, Storable;
      forall d, r | d in kept + {c} && r in kept + {c} && Governs(d, r)
        ensures !Outdated(d, r)
      {
        if d == c {
          assert r in kept;
        }
      }
    }
  }

  // ---- what a store does ----

  /** The records of a store, and those of them that its set indices name. */
  datatype Contents = Contents(records: set<Message>, listed: set<Message>)

  /** All records are named by the set indices. */
  ghost function Whole(R: set<Message>): Contents {
    Contents(R, R)
  }

  /** A link remove that names no target: the only kind of record that can lose its index entry. */
  ghost predicate Bare(def: StoreDef, m: Message) {
    def == Links && m.kind == Remove && m.body.LinkBody? && m.body.targetFid.None?
  }

  /** What a store can hold: competitors are not both named, and link compaction has been carried out. */
  ghost predicate WellFormed(def: StoreDef, S: Contents) {
    && S.listed <= S.records && Consistent(def, S.listed)
    && (forall r | r in S.records :: Storable(def, r)) && Identified(S.records) && Compacted(S.records)
    && (forall r | r in S.records && r !in S.listed :: Bare(def, r))
  }

  /** A stored message that stands in the way of m: of its slot, or found under its unpadded key. */
  ghost predicate Competes(def: StoreDef, r: Message, m: Message) {
    Conflicts(def, r, m) || Crossed(m, r)
  }

  ghost function Competitors(def: StoreDef, S: Contents, m: Message): set<Message> {
    set r | r in S.listed && Competes(def, r, m)
  }

  /** Some competitor is not older: the merge is refused. */
  ghost predicate Refused(def: StoreDef, S: Contents, m: Message) {
    exists r :: r in S.listed && Competes(def, r, m) && !Precedes(def, r, m)
  }

  /** Deleting c deletes the set-index key of r: of the same slot, or under the unpadded key of c. */
  ghost predicate Strikes(c: Message, r: Message) {
    || (c.kind == r.kind != Compact && c.fid == r.fid && Slot(c) == Slot(r))
    || (c.kind == Remove && Crossed(c, r))
  }

  ghost predicate Struck(C: set<Message>, r: Message) {
    exists c :: c in C && Strikes(c, r)
  }

  /** The messages C are deleted, and others lose their index entries. */
  ghost function Removed(S: Contents, C: set<Message>): Contents {
    Contents(S.records - C, set r | r in S.listed && r !in C && !Struck(C, r))
  }

  ghost function Added(S: Contents, m: Message): Contents {
    Contents(S.records + {m}, S.listed + {m})
  }

  /** What a compact state takes away: the older state under its key, and the links it sweeps. */
  ghost function Sweepings(def: StoreDef, S: Contents, c: Message): set<Message> {
    set r | r in S.records && (Conflicts(def, r, c) || Swept(c, r))
  }

  /** What the store holds after a message that it can hold has been offered to it. */
  ghost function Act(def: StoreDef, S: Contents, m: Message): Contents {
    if m.kind == Compact then
      if CompactBlocked(def, S.records, m) then S else Added(Removed(S, Sweepings(def, S, m)), m)
    else if Gated(S.records, m) || Refused(def, S, m) then S
    else Added(Removed(S, Competitors(def, S, m)), m)
  }

  /** A merge is accepted, provided that an event id can be issued. */
  ghost predicate Admits(def: StoreDef, S: Contents, m: Message) {
    && (IsAdd(def, m) || IsRemove(def, m) || IsCompact(def, m)) && |m.hash| == HASH_LENGTH
    && if m.kind == Compact then !CompactBlocked(def, S.records, m)
       else !Gated(S.records, m) && !KeyError(m) && !Refused(def, S, m) && (m.kind == Add ==> !SecondaryError(m))
  }

  /** Deleting C deletes the index entry of a stored message outside C. */
  ghost predicate Hits(R: set<Message>, C: set<Message>) {
    exists c, w :: c in C && w in R - C && c.kind == Remove && Crossed(c, w)
  }

  /** No link lies under the unpadded key of another. */
  ghost predicate Uncrossed(M: set<Message>) {
    forall m, w | m in M && w in M :: !Crossed(m, w)
  }

  lemma WholeIsWellFormed(def: StoreDef, R: set<Message>)
    ensures WellFormed(def, Whole(R)) <==> Consistent(def, R) && Compacted(R)
  {
  }

  /** A slot that a bare remove is in holds bare removes only. */
  lemma BareSlot(def: StoreDef, c: Message, r: Message)
    requires Storable(def, c) && Storable(def, r) && Bare(def, c) && r.kind != Compact && Slot(c) == Slot(r)
    ensures Bare(def, r)
  {
    ShapeOf(def, c);
    ShapeOf(def, r);
  }

  lemma CrossedIsBare(def: StoreDef, c: Message, r: Message)
    requires Storable(def, r) && Crossed(c, r)
    ensures Bare(def, r)
  {
    ShapeOf(def, r);
  }

  /** Whoever loses an index entry is a bare remove. */
  lemma StruckIsBare(def: StoreDef, S: Contents, C: set<Message>, r: Message)
    requires WellFormed(def, S) && C <= S.records && r in S.listed && r !in C && Struck(C, r)
    ensures Bare(def, r)
  {
    hide Storable, Identified, Compacted;
    var c :| c in C && Strikes(c, r);
    if Crossed(c, r) {
      CrossedIsBare(def, c, r);
    } else if c in S.listed {
      SameSlotConflicts(def, c, r);
    } else {
      BareSlot(def, c, r);
    }
  }

  lemma SameSlotConflicts(def: StoreDef, c: Message, r: Message)
    requires c.kind != Compact && r.kind != Compact && c.fid == r.fid && Slot(c) == Slot(r)
    ensures Conflicts(def, c, r)
  {
    hide Slot;
  }

  lemma RemovedIsWellFormed(def: StoreDef, S: Contents, C: set<Message>)
    requires WellFormed(def, S) && C <= S.records
    ensures WellFormed(def, Removed(S, C))
  {
    hide Storable, Conflicts, Governs, Outdated, Bare;
    forall r | r in Removed(S, C).records && r !in Removed(S, C).listed
      ensures Bare(def, r)
    {
      if r in S.listed {
        StruckIsBare(def, S, C, r);
      }
    }
  }

  /** A message whose competitors are not named can be put. */
  lemma AddedIsWellFormed(def: StoreDef, S: Contents, m: Message)
    requires WellFormed(def, S) && Storable(def, m) && Identified(S.records + {m}) && Compacted(S.records + {m})
    requires forall r | r in S.listed :: !Conflicts(def, r, m)
    ensures WellFormed(def, Added(S, m))
  {
    hide Storable, Compacted, Bare;
    ReplaceConsistent(def, S.listed, S.listed, m);
    hide Conflicts;
  }

  /** Every merge keeps the contents well-formed, whatever is crossed. */
  lemma ActIsWellFormed(def: StoreDef, S: Contents, m: Message)
    requires WellFormed(def, S) && Storable(def, m) && Identified(S.records + {m})
    ensures WellFormed(def, Act(def, S, m)) && Act(def, S, m).records <= S.records + {m}
  {
    if m.kind == Compact {
      CompactActIsWellFormed(def, S, m);
    } else if !Gated(S.records, m) && !Refused(def, S, m) {
      var C := Competitors(def, S, m);
      RemovedIsWellFormed(def, S, C);
      MergedIsCompacted(S.records, S.records - C, m);
      hide Storable, Conflicts, Gated, Refused, WellFormed, Compacted;
      assert Identified(S.records - C + {m});
      AddedIsWellFormed(def, Removed(S, C), m);
    }
  }

  lemma MergedIsCompacted(R: set<Message>, R': set<Message>, m: Message)
    requires Compacted(R) && R' <= R && m.kind != Compact && !Gated(R, m)
    ensures Compacted(R' + {m})
  {
    hide Outdated;
  }

  lemma CompactActIsWellFormed(def: StoreDef, S: Contents, c: Message)
    requires WellFormed(def, S) && Storable(def, c) && Identified(S.records + {c}) && c.kind == Compact
    ensures WellFormed(def, Act(def, S, c)) && Act(def, S, c).records <= S.records + {c}
  {
    if !CompactBlocked(def, S.records, c) {
      var C := Sweepings(def, S, c);
      RemovedIsWellFormed(def, S, C);
      SweptIsCompacted(def, S, c);
      hide Storable, Conflicts, Swept, WellFormed, Compacted;
      assert Identified(S.records - C + {c});
      SweepingsAreGone(def, S, c);
      AddedIsWellFormed(def, Removed(S, C), c);
    }
  }

  lemma SweepingsAreGone(def: StoreDef, S: Contents, c: Message)
    requires S.listed <= S.records
    ensures forall r | r in Removed(S, Sweepings(def, S, c)).listed :: !Conflicts(def, r, c)
  {
    hide Conflicts, Swept;
  }

  lemma SweptIsCompacted(def: StoreDef, S: Contents, c: Message)
    requires Compacted(S.records) && c.kind == Compact
    ensures Compacted(S.records - Sweepings(def, S, c) + {c})
  {
    hide Conflicts;
    var R' := S.records - Sweepings(def, S, c);
    forall d, r | d in R' + {c} && r in R' + {c} && Governs(d, r)
      ensures !Outdated(d, r)
    {
      if d == c {
        assert r in R';
      }
    }
  }

  /** Where nothing is crossed, the store does what competition by slots says. */
  lemma ActIsStep(def: StoreDef, R: set<Message>, m: Message)
    requires WellFormed(def, Whole(R)) && Uncrossed(R + {m})
    ensures Act(def, Whole(R), m) == Whole(Step(def, R, m))
  {
    var S := Whole(R);
    hide Storable, Conflicts, Crossed, Precedes, Swept, Governs, Outdated, Identified;
    assert forall r | r in R :: Competes(def, r, m) <==> Conflicts(def, r, m);
    if m.kind == Compact {
      NothingStruck(def, R, Sweepings(def, S, m));
    } else {
      assert Competitors(def, S, m) == Rivals(def, R, m);
      NothingStruck(def, R, Rivals(def, R, m));
    }
  }

  lemma NothingStruck(def: StoreDef, R: set<Message>, C: set<Message>)
    requires WellFormed(def, Whole(R)) && C <= R
    ensures Removed(Whole(R), C) == Whole(R - C) <==> !Hits(R, C)
  {
    hide Storable, Identified, Compacted, Crossed, Bare;
    forall r | r in R - C
      ensures Struck(C, r) <==> exists c :: c in C && c.kind == Remove && Crossed(c, r)
    {
      forall c | c in C && c.kind == r.kind != Compact && c.fid == r.fid && Slot(c) == Slot(r)
        ensures false
      {
        SameSlotConflicts(def, c, r);
      }
    }
    hide Strikes, Conflicts;
    if Hits(R, C) {
      var c, w :| c in C && w in R - C && c.kind == Remove && Crossed(c, w);
      assert Struck(C, w);
      assert w !in Removed(Whole(R), C).listed;
    } else {
      assert Removed(Whole(R), C).listed == R - C;
    }
  }

  /** A merge into whole contents leaves them whole exactly when no crossed key is hit. */
  lemma MergeStaysWhole(def: StoreDef, R: set<Message>, m: Message)
    requires WellFormed(def, Whole(R)) && Storable(def, m)
    ensures var S' := Act(def, Whole(R), m);
            S' == Whole(S'.records) <==> !Hits(R, R - S'.records)
  {
    var S := Whole(R);
    var S' := Act(def, S, m);
    if S' == S {
      assert R - S'.records == {};
    } else {
      var C := if m.kind == Compact then Sweepings(def, S, m) else Competitors(def, S, m);
      AdmittedIsNew(def, R, m);
      hide Storable, Conflicts, Crossed, Swept, Precedes;
      assert C <= R && m !in R;
      assert R - S'.records == C;
      NothingStruck(def, R, C);
      assert S' == Added(Removed(S, C), m);
    }
  }

  lemma AdmittedIsNew(def: StoreDef, R: set<Message>, m: Message)
    requires Act(def, Whole(R), m) != Whole(R) && InRange(m)
    ensures m !in R
  {
    SelfConflict(def, m);
    OrderIsTotal(def, m, m);
    hide Conflicts;
    assert Competes(def, m, m);
  }

  // ---- runs ----

  /** One step of a store: a message is offered, or messages are pruned. */
  ghost predicate StoreStep(def: StoreDef, M: set<Message>, S: Contents, S': Contents) {
    || (exists C :: C <= S.records && S' == Removed(S, C))
    || (exists m :: m in M && Storable(def, m) && S' == Act(def, S, m))
  }

  /** The contents of a store that starts empty and is offered messages of M, in any order, with prunes in between. */
  ghost predicate Run(def: StoreDef, M: set<Message>, states: seq<Contents>) {
    && states != [] && states[0] == Whole({})
    && forall i | 0 < i < |states| :: StoreStep(def, M, states[i - 1], states[i])
  }

  /**
   In every state of every run no two named messages compete, every record but a bare remove is named, and compaction
   has been carried out.
   */
  lemma {:induction false} RunsKeepInvariants(def: StoreDef, M: set<Message>, states: seq<Contents>, i: nat)
    requires Run(def, M, states) && Identified(M) && i < |states|
    ensures states[i].records <= M && WellFormed(def, states[i])
  {
    if i > 0 {
      RunsKeepInvariants(def, M, states, i - 1);
      hide Storable, Act, WellFormed;
      var S, S' := states[i - 1], states[i];
      assert StoreStep(def, M, S, S');
      if C :| C <= S.records && S' == Removed(S, C) {
        RemovedIsWellFormed(def, S, C);
      } else {
        var m :| m in M && Storable(def, m) && S' == Act(def, S, m);
        assert S.records + {m} <= M;
        assert Identified(S.records + {m});
        ActIsWellFormed(def, S, m);
      }
    } else {
      WholeIsWellFormed(def, {});
    }
  }

  /** In a run in which no step hits a crossed key, every record is named in every state. */
  lemma {:induction false} UnhitRunsStayWhole(def: StoreDef, M: set<Message>, states: seq<Contents>, i: nat)
    requires Run(def, M, states) && Identified(M) && i < |states|
    requires forall j | 0 < j <= i :: !Hits(states[j - 1].records, states[j - 1].records - states[j].records)
    ensures states[i] == Whole(states[i].records)
  {
    if i > 0 {
      UnhitRunsStayWhole(def, M, states, i - 1);
      RunsKeepInvariants(def, M, states, i - 1);
      hide Storable, Act, WellFormed, Hits;
      var S, S' := states[i - 1], states[i];
      assert StoreStep(def, M, S, S');
      if C :| C <= S.records && S' == Removed(S, C) {
        assert S.records - S'.records == C;
        NothingStruck(def, S.records, C);
      } else {
        var m :| m in M && Storable(def, m) && S' == Act(def, S, m);
        MergeStaysWhole(def, S.records, m);
      }
    }
  }

  lemma StepAddsOnly(def: StoreDef, R: set<Message>, m: Message)
    ensures Step(def, R, m) <= R + {m}
  {
    hide Conflicts;
  }
}
