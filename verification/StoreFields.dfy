/**
 What competing, being stored, being swept and being indexed mean in the fields of messages, with no mention of the keys
 that messages are stored under.
 */
module StoreFields {
  import opened Bytes
  import opened Messages
  import opened StoreSpec
  import opened StoreLayout

  // ---- the subject of a message ----

  function ByteAt(s: Bytes, i: nat): byte {
    if i < |s| then s[i] else 0
  }

  /** Link types are the same if they differ in trailing zero bytes only, or beyond the eighth byte. */
  ghost predicate SameType(s: Bytes, t: Bytes) {
    forall i: nat | i < 8 :: ByteAt(s, i) == ByteAt(t, i)
  }

  /** A target is the same cast or the same url, or the url happens to spell the cast. */
  ghost predicate SameTarget(x: Target, y: Target) {
    match (x, y)
    case (Url(u), Url(v)) => u == v
    case (Cast(a), Cast(b)) => a.fid % 0x1_0000_0000 == b.fid % 0x1_0000_0000 && a.hash == b.hash
    case (Url(u), Cast(a)) => Spells(u, a)
    case (Cast(a), Url(u)) => Spells(u, a)
  }

  /** The url is the four bytes of the user and the hash. */
  ghost predicate Spells(url: Bytes, id: CastId) {
    |url| >= 4 && FromBigEndian(url[..4]) == id.fid % 0x1_0000_0000 && url[4..] == id.hash
  }

  /** The same for targets that may be absent, which is like an empty url. */
  ghost predicate SameReactionTarget(x: Option<Target>, y: Option<Target>) {
    match (x, y)
    case (Some(t), Some(u)) => SameTarget(t, u)
    case (Some(t), None) => t == Url([])
    case (None, Some(t)) => t == Url([])
    case (None, None) => true
  }

  /** Only positive types leave a byte in a key; next to one that leaves none, a target may begin with it. */
  ghost predicate SameReaction(r: int, x: Option<Target>, s: int, y: Option<Target>) {
    if r > 0 && s > 0 then r % 256 == s % 256 && SameReactionTarget(x, y)
    else if r <= 0 && s <= 0 then SameReactionTarget(x, y)
    else if r > 0 then y.Some? && TargetKey(y.value) == [(r % 256) as byte] + OptionalTargetKey(x)
    else x.Some? && TargetKey(x.value) == [(s % 256) as byte] + OptionalTargetKey(y)
  }

  function OptionalTargetKey(x: Option<Target>): Bytes {
    if x.Some? then TargetKey(x.value) else []
  }

  ghost predicate SameTargetFid(x: Option<nat>, y: Option<nat>) {
    (x.Some? <==> y.Some?) && (x.Some? ==> x.value % 0x1_0000_0000 == y.value % 0x1_0000_0000)
  }

  /** The messages are about the same cast, reaction, datum, address, link, compact state or name. */
  ghost predicate SameSubject(a: Message, b: Message) {
    match (a.body, b.body)
    case (CastAddBody(_, _), CastAddBody(_, _)) => a.hash == b.hash
    case (CastAddBody(_, _), CastRemoveBody(t)) => a.hash == t
    case (CastRemoveBody(t), CastAddBody(_, _)) => t == b.hash
    case (CastRemoveBody(s), CastRemoveBody(t)) => s == t || (|s| != 20 && |t| != 20)
    case (ReactionBody(r, x), ReactionBody(s, y)) => SameReaction(r, x, s, y)
    case (UserDataBody(r), UserDataBody(s)) => (r > 0 && s > 0 && r % 256 == s % 256) || (r <= 0 && s <= 0)
    case (VerificationBody(x), VerificationBody(y)) => x == y
    case (LinkBody(s, x), LinkBody(t, y)) => SameType(s, t) && SameTargetFid(x, y)
    case (LinkCompactStateBody(s, _), LinkCompactStateBody(t, _)) => SameType(s, t)
    case (UsernameProofBody(x), UsernameProofBody(y)) => x == y
    case _ => false
  }

  /** Subjects belong to users, but a name has one proof and an address one add among all users. */
  ghost predicate Contends(def: StoreDef, a: Message, b: Message) {
    SameSubject(a, b) && (a.fid == b.fid || def == UsernameProofs || (def == Verifications && a.kind == b.kind == Add))
  }

  lemma PaddedIff(s: Bytes, t: Bytes)
    ensures Padded(s) == Padded(t) <==> SameType(s, t)
  {
    assert forall i: nat | i < 8 :: Padded(s)[i] == ByteAt(s, i) && Padded(t)[i] == ByteAt(t, i);
  }

  lemma FidBytesIff(x: nat, y: nat)
    ensures FidBytes(x) == FidBytes(y) <==> x % U32 == y % U32
  {
    hide BigEndian;
    if FidBytes(x) == FidBytes(y) {
      FidBytesInjective(x % U32, y % U32);
    }
  }

  lemma SpellsIff(url: Bytes, id: CastId)
    ensures url == FidBytes(id.fid) + id.hash <==> Spells(url, id)
  {
    hide BigEndian, FromBigEndian;
    FourBytes();
    BigEndianRoundTrip(id.fid % U32, 4);
    if |url| >= 4 {
      BigEndianOfBytes(url[..4]);
      assert url == url[..4] + url[4..];
    }
  }

  lemma TargetIff(x: Target, y: Target)
    ensures TargetKey(x) == TargetKey(y) <==> SameTarget(x, y)
  {
    hide BigEndian, FromBigEndian;
    match (x, y) {
      case (Url(_), Url(_)) =>
      case (Cast(a), Cast(b)) =>
        FidBytesIff(a.fid, b.fid);
        assert (FidBytes(a.fid) + a.hash)[..4] == FidBytes(a.fid) && (FidBytes(b.fid) + b.hash)[..4] == FidBytes(b.fid);
        assert (FidBytes(a.fid) + a.hash)[4..] == a.hash && (FidBytes(b.fid) + b.hash)[4..] == b.hash;
      case (Url(u), Cast(a)) => SpellsIff(u, a);
      case (Cast(a), Url(u)) => SpellsIff(u, a);
    }
  }

  lemma ReactionTargetIff(x: Option<Target>, y: Option<Target>)
    ensures OptionalTargetKey(x) == OptionalTargetKey(y) <==> SameReactionTarget(x, y)
  {
    hide BigEndian, FromBigEndian;
    if x.Some? && y.Some? {
      TargetIff(x.value, y.value);
    }
  }

  lemma ReactionIff(a: Message, b: Message)
    requires a.body.ReactionBody? && b.body.ReactionBody?
    ensures Slot(a) == Slot(b) <==>
            SameReaction(a.body.reactionType, a.body.target, b.body.reactionType, b.body.target)
  {
    hide TargetKey, SameReactionTarget;
    var r, x, s, y := a.body.reactionType, a.body.target, b.body.reactionType, b.body.target;
    ReactionTargetIff(x, y);
    var u, v := OptionalTargetKey(x), OptionalTargetKey(y);
    assert Slot(a) == (if r > 0 then [(r % 256) as byte] + u else u);
    assert Slot(b) == (if s > 0 then [(s % 256) as byte] + v else v);
    if r > 0 {
      assert Slot(a)[0] == (r % 256) as byte && Slot(a)[1..] == u;
    }
    if s > 0 {
      assert Slot(b)[0] == (s % 256) as byte && Slot(b)[1..] == v;
    }
  }

  lemma LinkIff(a: Message, b: Message)
    requires a.body.LinkBody? && b.body.LinkBody?
    ensures Slot(a) == Slot(b) <==>
            SameType(a.body.linkType, b.body.linkType) && SameTargetFid(a.body.targetFid, b.body.targetFid)
  {
    hide BigEndian, SameType, Padded;
    var LinkBody(s, x) := a.body;
    var LinkBody(t, y) := b.body;
    PaddedIff(s, t);
    if x.Some? && y.Some? {
      FidBytesIff(x.value, y.value);
    }
    assert Slot(a)[..8] == Padded(s) && Slot(a)[8..] == TargetFidBytes(x);
    assert Slot(b)[..8] == Padded(t) && Slot(b)[8..] == TargetFidBytes(y);
  }

  /** Which messages of a store compete: exactly those of one subject, by one user or for what users share. */
  lemma ConflictsIff(def: StoreDef, a: Message, b: Message)
    requires Storable(def, a) && Storable(def, b)
    ensures Conflicts(def, a, b) <==> Contends(def, a, b)
  {
    ShapeOf(def, a);
    ShapeOf(def, b);
    hide SameReaction, SameType, SameTargetFid, Padded, TargetKey, FidBytes;
    match def {
      case Casts =>
      case Reactions => ReactionIff(a, b);
      case UserData =>
      case Verifications =>
      case UsernameProofs =>
      case Links =>
        if a.kind == b.kind == Compact {
          PaddedIff(a.body.compactType, b.body.compactType);
        } else if a.kind != Compact && b.kind != Compact {
          LinkIff(a, b);
        }
    }
  }

  /** Written out: reactions to casts, or to urls, compete exactly if user, type and target are the same. */
  lemma ReactionsCompete(a: Message, b: Message)
    requires Storable(Reactions, a) && Storable(Reactions, b)
    requires 0 < a.body.reactionType < 256 && 0 < b.body.reactionType < 256
    requires a.body.target.Some? && b.body.target.Some?
    requires a.body.target.value.Url? <==> b.body.target.value.Url?
    requires a.body.target.value.Cast? ==>
               a.body.target.value.id.fid < 0x1_0000_0000 && b.body.target.value.id.fid < 0x1_0000_0000
    ensures Conflicts(Reactions, a, b) <==>
            a.fid == b.fid && a.body.reactionType == b.body.reactionType && a.body.target == b.body.target
  {
    ConflictsIff(Reactions, a, b);
    hide Conflicts;
  }

  /** Links compete exactly if user, type and target are the same, for types that do not end in a zero byte. */
  lemma LinksCompete(a: Message, b: Message)
    requires Storable(Links, a) && Storable(Links, b) && a.body.LinkBody? && b.body.LinkBody?
    requires a.body.linkType != [] && a.body.linkType[|a.body.linkType| - 1] != 0
    requires b.body.linkType != [] && b.body.linkType[|b.body.linkType| - 1] != 0
    requires a.body.targetFid.Some? ==> a.body.targetFid.value < 0x1_0000_0000
    requires b.body.targetFid.Some? ==> b.body.targetFid.value < 0x1_0000_0000
    ensures Conflicts(Links, a, b) <==>
            a.fid == b.fid && a.body.linkType == b.body.linkType && a.body.targetFid == b.body.targetFid
  {
    ShapeOf(Links, a);
    ShapeOf(Links, b);
    ConflictsIff(Links, a, b);
    hide Conflicts;
    FullTypes(a.body.linkType, b.body.linkType);
    SameFid(a.body.targetFid, b.body.targetFid);
  }

  lemma SameFid(x: Option<nat>, y: Option<nat>)
    requires (x.Some? ==> x.value < 0x1_0000_0000) && (y.Some? ==> y.value < 0x1_0000_0000)
    ensures SameTargetFid(x, y) <==> x == y
  {
  }

  lemma FullTypes(s: Bytes, t: Bytes)
    requires 0 < |s| <= 8 && s[|s| - 1] != 0 && 0 < |t| <= 8 && t[|t| - 1] != 0
    ensures SameType(s, t) <==> s == t
  {
    if SameType(s, t) {
      assert ByteAt(s, |s| - 1) == ByteAt(t, |s| - 1) && ByteAt(s, |t| - 1) == ByteAt(t, |t| - 1);
      forall i | 0 <= i < |s|
        ensures s[i] == t[i]
      {
        assert ByteAt(s, i) == ByteAt(t, i);
      }
    }
  }

  /** The other stores: casts by hash and target hash, user data by type, addresses and names for themselves. */
  lemma OthersCompete(def: StoreDef, a: Message, b: Message)
    requires Storable(def, a) && Storable(def, b)
    ensures def == Casts && a.kind == Add && b.kind == Add ==>
              (Conflicts(def, a, b) <==> a.fid == b.fid && a.hash == b.hash)
    ensures def == Casts && a.kind == Add && b.kind == Remove ==>
              (Conflicts(def, a, b) <==> a.fid == b.fid && a.hash == b.body.targetHash)
    ensures def == UserData && 0 < a.body.dataType < 256 && 0 < b.body.dataType < 256 ==>
              (Conflicts(def, a, b) <==> a.fid == b.fid && a.body.dataType == b.body.dataType)
    ensures def == Verifications ==>
              (Conflicts(def, a, b) <==>
               a.body.address == b.body.address && (a.fid == b.fid || a.kind == b.kind == Add))
    ensures def == UsernameProofs ==> (Conflicts(def, a, b) <==> a.body.name == b.body.name)
  {
    ShapeOf(def, a);
    ShapeOf(def, b);
    ConflictsIff(def, a, b);
    hide Conflicts;
  }

  // ---- unpadded keys ----

  /** The remove w without a target lies where the link m lay before types were padded: its type is type and target. */
  ghost predicate Overlaps(m: Message, w: Message) {
    && m.body.LinkBody? && w.body.LinkBody? && w.kind == Remove && m.fid == w.fid
    && m.body.targetFid.Some? && w.body.targetFid.None? && |m.body.linkType| == 4
    && var b := EightBytes(w.body.linkType);
       b[..4] == m.body.linkType && FromBigEndian(b[4..]) == m.body.targetFid.value % 0x1_0000_0000
  }

  /** The type with its trailing zero bytes. */
  function EightBytes(s: Bytes): (r: Bytes)
    ensures |r| == 8
  {
    seq(8, i requires 0 <= i < 8 => ByteAt(s, i))
  }

  lemma CrossedIff(m: Message, w: Message)
    requires m.body.LinkBody? && w.body.LinkBody?
    ensures Crossed(m, w) <==> Overlaps(m, w)
  {
    if w.body.targetFid.None? && m.body.targetFid.Some? {
      var b, id := EightBytes(w.body.linkType), CastId(m.body.targetFid.value, []);
      assert Padded(w.body.linkType) == b;
      assert b == b[..4] + b[4..];
      SpellsIff(b[4..], id);
      assert FidBytes(id.fid) + id.hash == FidBytes(id.fid) && b[4..][..4] == b[4..] && b[4..][4..] == [];
      hide BigEndian, FromBigEndian, EightBytes;
      if Crossed(m, w) {
        assert |UnpaddedSlot(m)| == 8;
        assert UnpaddedSlot(m)[..4] == m.body.linkType && UnpaddedSlot(m)[4..] == FidBytes(id.fid);
      }
    }
  }

  // ---- the order of two messages ----

  /** The message r loses against m: by the remove among casts, by time, by the remove, by hash. */
  ghost predicate Loses(def: StoreDef, r: Message, m: Message) {
    if def == Casts && (r.kind == Remove) != (m.kind == Remove) then m.kind == Remove
    else
      || r.timestamp < m.timestamp
      || (r.timestamp == m.timestamp && r.kind != Remove && m.kind == Remove)
      || (r.timestamp == m.timestamp && (r.kind == Remove <==> m.kind == Remove) && Less(r.hash, m.hash))
  }

  lemma PrecedesIff(def: StoreDef, r: Message, m: Message)
    requires InRange(r) && InRange(m)
    ensures Precedes(def, r, m) <==> Loses(def, r, m)
  {
    hide Order, Less;
    if def == Casts {
      RemoveWins(r, m);
    } else {
      LastWriteWins(def, r, m);
    }
  }

  // ---- what stores accept and what merges do ----

  /** The form of the messages that a store can hold. */
  ghost predicate Formed(def: StoreDef, m: Message) {
    && m.signed && 0 < m.fid < 0x1_0000_0000 && m.timestamp < 0x1_0000_0000 && |m.hash| == 20
    && match m.body
       case CastAddBody(_, _) => def == Casts && m.kind == Add
       case CastRemoveBody(_) => def == Casts && m.kind == Remove
       case ReactionBody(r, x) =>
         def == Reactions && m.kind != Compact && (x.Some? ==> r != 0) && (m.kind == Add ==> x.Some?)
       case UserDataBody(_) => def == UserData && m.kind == Add
       case VerificationBody(address) => def == Verifications && m.kind != Compact && (m.kind == Add ==> address != [])
       case LinkBody(s, x) =>
         def == Links && m.kind != Compact && |s| <= 8 && (x.Some? ==> s != []) && (m.kind == Add ==> x.Some?)
       case LinkCompactStateBody(_, _) => def == Links && m.kind == Compact
       case UsernameProofBody(name) => def == UsernameProofs && m.kind == Add && name != []
  }

  lemma StorableIff(def: StoreDef, m: Message)
    ensures Storable(def, m) <==> Formed(def, m)
  {
  }

  /** The compact state c of m's user and link type is later than the link m, and m is a remove or not listed in c. */
  ghost predicate Overrules(c: Message, m: Message) {
    && c.kind == Compact && c.body.LinkCompactStateBody? && m.kind != Compact && m.body.LinkBody?
    && c.fid == m.fid && SameType(c.body.compactType, m.body.linkType) && m.timestamp < c.timestamp
    && (m.kind == Remove || (m.body.targetFid.Some? && m.body.targetFid.value !in c.body.targetFids))
  }

  lemma OverrulesIff(c: Message, m: Message)
    ensures Governs(c, m) && Outdated(c, m) <==> Overrules(c, m)
  {
    if c.body.LinkCompactStateBody? && m.body.LinkBody? {
      PaddedIff(c.body.compactType, m.body.linkType);
    }
  }

  /** The stored message r stands in the way of m: it is about the same subject, or lies under the unpadded key of m. */
  ghost predicate Opposes(def: StoreDef, r: Message, m: Message) {
    Contends(def, r, m) || Overlaps(m, r)
  }

  lemma CompetesIff(def: StoreDef, r: Message, m: Message)
    requires Storable(def, r) && Storable(def, m)
    ensures Competes(def, r, m) <==> Opposes(def, r, m)
  {
    ConflictsIff(def, r, m);
    hide Conflicts, Contends, Crossed, Overlaps, Storable;
    if m.body.LinkBody? && r.body.LinkBody? {
      CrossedIff(m, r);
    } else {
      NotLinks(m, r);
    }
  }

  lemma NotLinks(m: Message, r: Message)
    requires !(m.body.LinkBody? && r.body.LinkBody?)
    ensures !Crossed(m, r) && !Overlaps(m, r)
  {
  }

  /** What a merge accepts, provided that an event id can be issued. */
  lemma AdmitsIff(def: StoreDef, S: Contents, m: Message)
    requires WellFormed(def, S) && 0 < m.fid < U32 && m.timestamp < U32
    ensures Admits(def, S, m) <==>
            && Formed(def, m)
            && if m.kind == Compact then
                 forall r | r in S.records && Contends(def, r, m) :: r.timestamp < m.timestamp
               else
                 && (forall c | c in S.records :: !Overrules(c, m))
                 && (forall r | r in S.listed && Opposes(def, r, m) :: Loses(def, r, m))
  {
    StorableIff(def, m);
    AdmittedIsStorable(def, S, m);
    hide Conflicts, Contends, Competes, Opposes, Formed, Governs, Outdated, Overrules, Precedes, Loses, Compacted,
         Storable, Identified, Bare;
    if Storable(def, m) {
      forall r | r in S.records
        ensures Conflicts(def, r, m) <==> Contends(def, r, m)
        ensures Competes(def, r, m) <==> Opposes(def, r, m)
        ensures Precedes(def, r, m) <==> Loses(def, r, m)
        ensures Governs(r, m) && Outdated(r, m) <==> Overrules(r, m)
      {
        ConflictsIff(def, r, m);
        CompetesIff(def, r, m);
        RangesOf(def, r, m);
        PrecedesIff(def, r, m);
        OverrulesIff(r, m);
      }
    }
  }

  lemma RangesOf(def: StoreDef, r: Message, m: Message)
    requires Storable(def, r) && Storable(def, m)
    ensures InRange(r) && InRange(m)
  {
  }

  lemma AdmittedIsStorable(def: StoreDef, S: Contents, m: Message)
    requires 0 < m.fid < U32 && m.timestamp < U32
    ensures Admits(def, S, m) ==> Storable(def, m)
    ensures Storable(def, m) ==>
              (Admits(def, S, m) <==>
               if m.kind == Compact then !CompactBlocked(def, S.records, m)
               else !Gated(S.records, m) && !Refused(def, S, m))
  {
    hide CompactBlocked, Gated, Refused;
  }

  /** What a merge that is accepted takes away. */
  lemma AdmittedAct(def: StoreDef, S: Contents, m: Message)
    requires WellFormed(def, S) && Storable(def, m) && Admits(def, S, m)
    ensures m.kind != Compact ==>
              Act(def, S, m).records == (set r | r in S.records && !(r in S.listed && Opposes(def, r, m))) + {m}
    ensures m.kind == Compact ==>
              forall r :: r in Act(def, S, m).records <==>
                r == m || (r in S.records && !Contends(def, r, m) &&
                           !(r.body.LinkBody? && r.fid == m.fid && r.timestamp <= m.timestamp &&
                             (r.kind == Remove || r.body.targetFid.value !in m.body.targetFids)))
  {
    hide Conflicts, Contends, Competes, Opposes, Gated, Refused, Compacted, Storable, Identified, Bare, Struck,
         CompactBlocked;
    RangesOf(def, m, m);
    AdmittedIsStorable(def, S, m);
    ActOf(def, S, m);
    forall r | r in S.records
      ensures Conflicts(def, r, m) <==> Contends(def, r, m)
      ensures Competes(def, r, m) <==> Opposes(def, r, m)
      ensures r.body.LinkBody? ==> r.kind != Compact && (r.kind != Remove ==> r.body.targetFid.Some?)
      ensures m.kind == Compact ==> m.body.LinkCompactStateBody?
    {
      ConflictsIff(def, r, m);
      CompetesIff(def, r, m);
      ShapeOf(def, r);
      ShapeOf(def, m);
    }
  }

  lemma ActOf(def: StoreDef, S: Contents, m: Message)
    requires Storable(def, m) && Admits(def, S, m)
    ensures Act(def, S, m).records ==
            S.records - (if m.kind == Compact then Sweepings(def, S, m) else Competitors(def, S, m)) + {m}
  {
  }

  /** A reaction of a one-byte type to a cast, or to a url that is not as long as the key of a cast. */
  ghost predicate PlainReaction(m: Message) {
    && m.body.ReactionBody? && 0 < m.body.reactionType < 256 && m.body.target.Some?
    && match m.body.target.value
       case Url(url) => |url| != 24
       case Cast(id) => id.fid < 0x1_0000_0000 && |id.hash| == 20
  }

  /** Only the named messages that stand in the way of m leave. */
  ghost predicate OnlyOpposedLeave(def: StoreDef, S: Contents, m: Message, S': Contents) {
    forall x :: x in S'.records <==> x == m || (x in S.records && !(x in S.listed && Opposes(def, x, m)))
  }

  /** The user's reactions to other targets, or of other types, stay. */
  ghost predicate OtherReactionsStay(S: Contents, m: Message, S': Contents) {
    PlainReaction(m) ==> forall x | x in S.records && PlainReaction(x) && x.body != m.body :: x in S'.records
  }

  /** Of the user's links up to the time of the compact state c, exactly the adds that it lists stay. */
  ghost predicate OnlyListedLinksStay(S: Contents, c: Message, S': Contents) {
    && c.body.LinkCompactStateBody?
    && (forall x | x in S'.records && x.body.LinkBody? && x.fid == c.fid && x.timestamp <= c.timestamp ::
          x.kind == Add && x.body.targetFid.Some? && x.body.targetFid.value in c.body.targetFids)
    && (forall x | x in S'.records && x.body.LinkCompactStateBody? && x.fid == c.fid &&
                   SameType(x.body.compactType, c.body.compactType) :: x == c)
    && (forall x | x in S.records && x !in S'.records ::
          && x.fid == c.fid
          && if x.body.LinkBody? then
               && x.timestamp <= c.timestamp
               && (x.kind == Remove || x.body.targetFid.None? || x.body.targetFid.value !in c.body.targetFids)
             else
               && x.body.LinkCompactStateBody? && x.timestamp < c.timestamp
               && SameType(x.body.compactType, c.body.compactType))
  }

  lemma ReactionsStay(S: Contents, m: Message)
    requires WellFormed(Reactions, S) && Storable(Reactions, m) && Admits(Reactions, S, m)
    ensures OtherReactionsStay(S, m, Act(Reactions, S, m))
  {
    AdmittedAct(Reactions, S, m);
    ShapeOf(Reactions, m);
    hide Act, Admits, Storable, WellFormed, PlainReaction, Opposes;
    if PlainReaction(m) {
      forall x | x in S.records && PlainReaction(x) && x.body != m.body
        ensures !Opposes(Reactions, x, m)
      {
        PlainReactionsDiffer(x, m);
      }
    }
  }

  lemma PlainReactionsDiffer(x: Message, m: Message)
    requires PlainReaction(x) && PlainReaction(m) && x.body != m.body
    ensures !Opposes(Reactions, x, m)
  {
    hide FromBigEndian;
    var ReactionBody(r, t) := x.body;
    var ReactionBody(s, u) := m.body;
    assert SameReaction(r, t, s, u) <==> r == s && SameTarget(t.value, u.value);
    assert SameTarget(t.value, u.value) ==> t == u;
  }

  lemma ListedLinksStay(S: Contents, c: Message)
    requires WellFormed(Links, S) && Storable(Links, c) && Admits(Links, S, c) && c.kind == Compact
    ensures OnlyListedLinksStay(S, c, Act(Links, S, c))
  {
    AdmittedAct(Links, S, c);
    RangesOf(Links, c, c);
    AdmitsIff(Links, S, c);
    ShapeOf(Links, c);
    forall x | x in S.records
      ensures Storable(Links, x) && x.kind != Compact ==> x.body.LinkBody?
      ensures x.body.LinkBody? ==> x.kind != Compact && (x.kind != Remove ==> x.body.targetFid.Some?)
      ensures !x.body.LinkBody? ==> x.body.LinkCompactStateBody?
    {
      ShapeOf(Links, x);
    }
    hide Act, Admits, Storable, Consistent, Compacted, Identified, SameType;
  }

  /** What an accepted merge leaves, in the fields of messages. */
  ghost predicate MergedInFields(def: StoreDef, S: Contents, m: Message, S': Contents) {
    && Formed(def, m) && m in S'.records
    && (m.kind != Compact ==> OnlyOpposedLeave(def, S, m, S'))
    && (def == Reactions ==> OtherReactionsStay(S, m, S'))
    && (m.kind == Compact ==> OnlyListedLinksStay(S, m, S'))
  }

  lemma MergeInFields(def: StoreDef, S: Contents, m: Message)
    requires WellFormed(def, S) && Storable(def, m) && Admits(def, S, m)
    ensures MergedInFields(def, S, m, Act(def, S, m))
  {
    StorableIff(def, m);
    ShapeOf(def, m);
    AdmittedAct(def, S, m);
    hide Act, Admits, Storable, WellFormed, OtherReactionsStay, OnlyListedLinksStay, Formed, Opposes, Contends;
    if def == Reactions {
      ReactionsStay(S, m);
    }
    if m.kind == Compact {
      ListedLinksStay(S, m);
    }
  }

  /** A link is gated exactly if a stored compact state overrules it. */
  lemma GatedIff(R: set<Message>, m: Message)
    ensures Gated(R, m) <==> exists c :: c in R && Overrules(c, m)
  {
    hide Governs, Outdated, Overrules;
    forall c | c in R
      ensures Governs(c, m) && Outdated(c, m) <==> Overrules(c, m)
    {
      OverrulesIff(c, m);
    }
  }

  // ---- secondary indices ----

  /** What ends the index entries of a message: its timestamp, its hash and its user. */
  function EntryTail(m: Message): Bytes {
    BigEndian(m.timestamp, 4) + m.hash + BigEndian(m.fid, 4)
  }

  function TargetBytes(t: Target): Bytes {
    match t
    case Url(url) => url
    case Cast(id) => BigEndian(id.fid % 0x1_0000_0000, 4) + id.hash
  }

  /** A secondary entry is in the database exactly if a stored add has put it. */
  lemma RootKeyIff(def: StoreDef, db: StoreDb, S: Contents, k: DbKey)
    requires Lays(def, db, S) && WellFormed(def, S) && k.Root?
    ensures k in db <==> exists a :: a in S.records && a.kind == Add && k in SecondaryKeys(a)
    ensures forall a | a in S.records && a.kind == Add && k in SecondaryKeys(a) :: k in db && db[k] == SecondaryValue(a)
  {
    hide Lays, SecondaryKeys, SecondaryValue, Storable, Entries, Consistent, Compacted, TsHash, Slot;
    if k in db {
      var a := KeyOwner(def, db, S, k);
      EntryKeys(def, a, k);
    }
    forall a | a in S.records && a.kind == Add && k in SecondaryKeys(a)
      ensures k in db && db[k] == SecondaryValue(a)
    {
      SecondaryRead(def, db, S, a);
    }
  }

  lemma TailIsEntryTail(def: StoreDef, m: Message)
    requires Storable(def, m)
    ensures Tail(m) == EntryTail(m) && |EntryTail(m)| == 28
  {
  }

  /** Equal keys with tails of one length have equal heads and tails. */
  lemma SplitTail(x: Bytes, a: Bytes, y: Bytes, b: Bytes)
    requires |a| == |b|
    ensures x + a == y + b <==> x == y && a == b
  {
    if x + a == y + b {
      assert x == (x + a)[..|x|] && y == (y + b)[..|y|];
      assert a == (x + a)[|x|..] && b == (y + b)[|y|..];
    }
  }

  ghost predicate LinksTo(a: Message, user: nat) {
    && a.kind == Add && a.body.LinkBody? && a.body.targetFid.Some?
    && a.body.targetFid.value % 0x1_0000_0000 == user
  }

  ghost predicate ReactsTo(a: Message, t: Target) {
    a.kind == Add && a.body.ReactionBody? && a.body.target.Some? && SameTarget(a.body.target.value, t)
  }

  ghost predicate RepliesTo(a: Message, t: Target) {
    a.kind == Add && a.body.CastAddBody? && a.body.parent.Some? && SameTarget(a.body.parent.value, t)
  }

  ghost predicate Mentions(a: Message, user: nat) {
    a.kind == Add && a.body.CastAddBody? && exists f :: f in a.body.mentions && f % 0x1_0000_0000 == user
  }

  /** The entries under a user in the index of links by target are those of the stored adds that target the user. */
  lemma LinksByTarget(db: StoreDb, S: Contents, user: nat, tail: Bytes)
    requires Lays(Links, db, S) && WellFormed(Links, S) && user < 0x1_0000_0000 && |tail| == 28
    ensures var k := Root(LINKS_BY_TARGET, BigEndian(user, 4) + tail);
            && (k in db <==> exists a :: a in S.records && LinksTo(a, user) && EntryTail(a) == tail)
            && forall a | a in S.records && LinksTo(a, user) && EntryTail(a) == tail :: db[k] == Flag(a.body.linkType)
  {
    hide Lays, Storable, BigEndian, Tail, EntryTail, Consistent, Compacted;
    var k := Root(LINKS_BY_TARGET, BigEndian(user, 4) + tail);
    RootKeyIff(Links, db, S, k);
    forall a | a in S.records && a.kind == Add
      ensures k in SecondaryKeys(a) <==> LinksTo(a, user) && EntryTail(a) == tail
    {
      ShapeOf(Links, a);
      TailIsEntryTail(Links, a);
      FidBytesIff(a.body.targetFid.value, user);
      SplitTail(FidBytes(a.body.targetFid.value), Tail(a), BigEndian(user, 4), tail);
    }
  }

  /** Reading an entry back gives the timestamp hash and the user of the link that has put it. */
  lemma LinkEntryRead(db: StoreDb, S: Contents, user: nat, rest: Bytes) returns (a: Message)
    requires Lays(Links, db, S) && WellFormed(Links, S) && user < 0x1_0000_0000
    requires Root(LINKS_BY_TARGET, rest) in db && BigEndian(user, 4) <= rest
    ensures a in S.records && LinksTo(a, user) && rest == BigEndian(user, 4) + EntryTail(a)
    ensures db[Root(LINKS_BY_TARGET, rest)] == Flag(a.body.linkType)
    ensures |rest| == 32 && rest[4..28] == TsHash(a) && FromBigEndian(rest[28..32]) == a.fid
  {
    hide Lays, BigEndian, FromBigEndian, Consistent, Compacted, LinksTo;
    var k := Root(LINKS_BY_TARGET, rest);
    RootKeyIff(Links, db, S, k);
    var x :| x in S.records && x.kind == Add && k in SecondaryKeys(x);
    ShapeOf(Links, x);
    TailIsEntryTail(Links, x);
    assert rest == FidBytes(x.body.targetFid.value) + Tail(x);
    assert |rest| == 32 && rest == BigEndian(user, 4) + rest[4..];
    LinksByTarget(db, S, user, rest[4..]);
    a :| a in S.records && LinksTo(a, user) && EntryTail(a) == rest[4..];
    TailParts(a, rest);
  }

  lemma TailParts(a: Message, rest: Bytes)
    requires InRange(a) && |rest| == 32 && rest[4..] == EntryTail(a)
    ensures rest[4..28] == TsHash(a) && FromBigEndian(rest[28..32]) == a.fid
  {
    hide BigEndian, FromBigEndian;
    FourBytes();
    BigEndianRoundTrip(a.fid, 4);
    assert rest[4..28] == rest[4..][..24] && rest[28..32] == rest[4..][24..];
  }

  /** Entries of one user sort like the timestamp hashes. */
  lemma EntriesSort(a: Message, b: Message, head: Bytes)
    requires InRange(a) && InRange(b) && Identified({a, b}) && Less(head + EntryTail(a), head + EntryTail(b))
    ensures Less(TsHash(a), TsHash(b))
  {
    hide BigEndian, Compare;
    CompareCommonPrefix(head, EntryTail(a), EntryTail(b));
    CompareConcat(TsHash(a), TsHash(b), BigEndian(a.fid, 4), BigEndian(b.fid, 4));
    CompareSigns(head + EntryTail(a), head + EntryTail(b));
    if TsHash(a) == TsHash(b) {
      SameTsHash(a, b);
    }
    assert EntryTail(a) == TsHash(a) + BigEndian(a.fid, 4) && EntryTail(b) == TsHash(b) + BigEndian(b.fid, 4);
  }

  /** Reactions by target: the same for a cast or a url, with the reaction type as value. */
  lemma ReactionsByTarget(db: StoreDb, S: Contents, t: Target, tail: Bytes)
    requires Lays(Reactions, db, S) && WellFormed(Reactions, S) && |tail| == 28
    ensures var k := Root(REACTIONS_BY_TARGET, TargetBytes(t) + tail);
            && (k in db <==> exists a :: a in S.records && ReactsTo(a, t) && EntryTail(a) == tail)
            && forall a | a in S.records && ReactsTo(a, t) && EntryTail(a) == tail ::
                 db[k] == Flag([(a.body.reactionType % 256) as byte])
  {
    hide Lays, BigEndian, Tail, EntryTail, Consistent, Compacted, SameTarget, TargetKey, TargetBytes;
    var k := Root(REACTIONS_BY_TARGET, TargetBytes(t) + tail);
    RootKeyIff(Reactions, db, S, k);
    forall a | a in S.records && a.kind == Add
      ensures k in SecondaryKeys(a) <==> ReactsTo(a, t) && EntryTail(a) == tail
    {
      TailIsEntryTail(Reactions, a);
      TargetBytesIff(a.body.target.value, t);
      SplitTail(TargetKey(a.body.target.value), Tail(a), TargetBytes(t), tail);
    }
  }

  lemma TargetBytesIff(x: Target, t: Target)
    ensures TargetKey(x) == TargetBytes(t) <==> SameTarget(x, t)
  {
    TargetIff(x, t);
  }

  /** Casts by parent. */
  lemma CastsByParent(db: StoreDb, S: Contents, t: Target, tail: Bytes)
    requires Lays(Casts, db, S) && WellFormed(Casts, S) && |tail| == 28
    ensures var k := Root(CASTS_BY_PARENT, TargetBytes(t) + tail);
            k in db <==> exists a :: a in S.records && RepliesTo(a, t) && EntryTail(a) == tail
  {
    hide Lays, BigEndian, Tail, EntryTail, Consistent, Compacted, SameTarget, TargetKey, TargetBytes;
    var k := Root(CASTS_BY_PARENT, TargetBytes(t) + tail);
    RootKeyIff(Casts, db, S, k);
    forall a | a in S.records && a.kind == Add
      ensures k in SecondaryKeys(a) <==> RepliesTo(a, t) && EntryTail(a) == tail
    {
      TailIsEntryTail(Casts, a);
      if a.body.parent.Some? {
        TargetBytesIff(a.body.parent.value, t);
        SplitTail(TargetKey(a.body.parent.value), Tail(a), TargetBytes(t), tail);
      }
    }
  }

  /** Casts by mention. */
  lemma CastsByMention(db: StoreDb, S: Contents, user: nat, tail: Bytes)
    requires Lays(Casts, db, S) && WellFormed(Casts, S) && user < 0x1_0000_0000 && |tail| == 28
    ensures var k := Root(CASTS_BY_MENTION, BigEndian(user, 4) + tail);
            k in db <==> exists a :: a in S.records && Mentions(a, user) && EntryTail(a) == tail
  {
    hide Lays, BigEndian, Tail, EntryTail, Consistent, Compacted;
    var k := Root(CASTS_BY_MENTION, BigEndian(user, 4) + tail);
    RootKeyIff(Casts, db, S, k);
    forall a | a in S.records && a.kind == Add
      ensures k in SecondaryKeys(a) <==> Mentions(a, user) && EntryTail(a) == tail
    {
      TailIsEntryTail(Casts, a);
      forall f: nat
        ensures Root(CASTS_BY_MENTION, FidBytes(f) + Tail(a)) == k <==> f % U32 == user && EntryTail(a) == tail
      {
        FidBytesIff(f, user);
        SplitTail(FidBytes(f), Tail(a), BigEndian(user, 4), tail);
      }
    }
  }

  /** The user under an address or a name is the one whose add or proof is stored, if there is one. */
  lemma HoldersByKey(def: StoreDef, db: StoreDb, S: Contents, x: Bytes)
    requires Lays(def, db, S) && WellFormed(def, S)
    ensures def == Verifications ==>
              var k := Root(VERIFICATION_BY_ADDRESS, x);
              && (k in db <==> exists a :: a in S.records && a.kind == Add && a.body == VerificationBody(x))
              && forall a | a in S.records && a.kind == Add && a.body == VerificationBody(x) :: db[k] == FidEntry(a.fid)
    ensures def == UsernameProofs ==>
              var k := Root(USERNAME_PROOF_BY_NAME, x);
              && (k in db <==> exists a :: a in S.records && a.body == UsernameProofBody(x))
              && forall a | a in S.records && a.body == UsernameProofBody(x) :: db[k] == FidEntry(a.fid)
  {
    hide Lays, Storable, Consistent, Compacted;
    RootKeyIff(def, db, S, Root(VERIFICATION_BY_ADDRESS, x));
    RootKeyIff(def, db, S, Root(USERNAME_PROOF_BY_NAME, x));
    forall a | a in S.records
      ensures def == Verifications ==> a.body.VerificationBody?
      ensures def == UsernameProofs ==> a.body.UsernameProofBody? && a.kind == Add
    {
      ShapeOf(def, a);
    }
  }
}
