/**
 Account messages, the keys they are stored under, and the order in which they override each other.
 */
module Messages {
  import opened Bytes

  const U32 := 0x1_0000_0000
  const TS_HASH_LENGTH := 24
  const LINK_TYPE_BYTE_SIZE := 8

  datatype CastId = CastId(fid: nat, hash: Bytes)

  /** What a cast replies to or a reaction points at. */
  datatype Target = Url(url: Bytes) | Cast(id: CastId)

  datatype Body =
    | CastAddBody(parent: Option<Target>, mentions: seq<nat>)
    | CastRemoveBody(targetHash: Bytes)
    | ReactionBody(reactionType: int, target: Option<Target>)
    | UserDataBody(dataType: int)
    | VerificationBody(address: Bytes)
    | LinkBody(linkType: Bytes, targetFid: Option<nat>)
    | LinkCompactStateBody(compactType: Bytes, targetFids: seq<nat>)
    | UsernameProofBody(name: Bytes)

  datatype Kind = Add | Remove | Compact

  /** A message. Its type and its body go together; rest is everything the stores do not look at. */
  datatype Message = Message(kind: Kind, signed: bool, fid: nat, timestamp: nat, hash: Bytes, body: Body, rest: Bytes)

  /** The account stores, which share one implementation. */
  datatype StoreDef = Casts | Reactions | UserData | Verifications | Links | UsernameProofs

  // ---- message types ----

  predicate RemovesSupported(def: StoreDef) {
    def != UserData && def != UsernameProofs
  }

  predicate IsAdd(def: StoreDef, m: Message) {
    && m.signed && m.kind == Add
    && match def
       case Casts => m.body.CastAddBody?
       case Reactions => m.body.ReactionBody?
       case UserData => m.body.UserDataBody?
       case Verifications => m.body.VerificationBody?
       case Links => m.body.LinkBody?
       case UsernameProofs => m.body.UsernameProofBody?
  }

  predicate IsRemove(def: StoreDef, m: Message) {
    && m.signed && m.kind == Remove
    && match def
       case Casts => m.body.CastRemoveBody?
       case Reactions => m.body.ReactionBody?
       case Verifications => m.body.VerificationBody?
       case Links => m.body.LinkBody?
       case _ => false
  }

  predicate IsCompact(def: StoreDef, m: Message) {
    m.signed && m.kind == Compact && def == Links && m.body.LinkCompactStateBody?
  }

  predicate IsLinkable(def: StoreDef, m: Message) {
    IsAdd(def, m) || IsRemove(def, m)
  }

  // ---- keys ----

  /** A database key: under a user, or under another root prefix. */
  datatype DbKey = User(fid: nat, postfix: byte, suffix: Bytes) | Root(prefix: byte, rest: Bytes)

  const USER_PREFIX: byte := 1
  const CASTS_BY_PARENT: byte := 2
  const CASTS_BY_MENTION: byte := 3
  const LINKS_BY_TARGET: byte := 4
  const REACTIONS_BY_TARGET: byte := 5
  const USERNAME_PROOF_BY_NAME: byte := 19
  const VERIFICATION_BY_ADDRESS: byte := 25
  const LINK_COMPACT_STATE: byte := 100

  function FidBytes(fid: nat): Bytes {
    BigEndian(fid % U32, 4)
  }

  /** The key as bytes. */
  function EncodeKey(k: DbKey): Bytes {
    match k
    case User(fid, postfix, suffix) => [USER_PREFIX] + FidBytes(fid) + [postfix] + suffix
    case Root(prefix, rest) => [prefix] + rest
  }

  lemma FourBytes()
    ensures Power256(4) == U32
  {
    assert Power256(2) == 0x1_0000;
    assert Power256(4) == 0x1_0000 * Power256(2);
  }

  lemma FidBytesInjective(a: nat, b: nat)
    requires a < U32 && b < U32 && FidBytes(a) == FidBytes(b)
    ensures a == b
  {
    hide Power256, BigEndian, FromBigEndian;
    FourBytes();
    BigEndianRoundTrip(a, 4);
    BigEndianRoundTrip(b, 4);
  }

  ghost predicate KeyInRange(k: DbKey) {
    match k
    case User(fid, _, _) => fid < U32
    case Root(prefix, _) => prefix != USER_PREFIX
  }

  /** Different keys are different byte strings, so the store can be modelled over structured keys. */
  lemma EncodeKeyInjective(k: DbKey, l: DbKey)
    requires KeyInRange(k) && KeyInRange(l) && EncodeKey(k) == EncodeKey(l)
    ensures k == l
  {
    var e, f := EncodeKey(k), EncodeKey(l);
    assert e[0] == f[0];
    if k.User? {
      assert e[1..5] == FidBytes(k.fid) && f[1..5] == FidBytes(l.fid);
      FidBytesInjective(k.fid, l.fid);
      assert e[5] == k.postfix && f[5] == l.postfix;
      assert e[6..] == k.suffix && f[6..] == l.suffix;
    } else {
      assert e[1..] == k.rest && f[1..] == l.rest;
    }
  }

  function MessagePostfix(def: StoreDef): byte {
    match def
    case Casts => 1
    case Links => 2
    case Reactions => 3
    case Verifications => 4
    case UserData => 6
    case UsernameProofs => 7
  }

  function AddsPostfix(def: StoreDef): byte {
    match def
    case Casts => 87
    case Links => 89
    case Reactions => 91
    case Verifications => 93
    case UserData => 97
    case UsernameProofs => 99
  }

  /** Stores without removes never build this key. */
  function RemovesPostfix(def: StoreDef): byte {
    match def
    case Casts => 88
    case Links => 90
    case Reactions => 92
    case _ => 94
  }

  function TsHash(m: Message): Bytes {
    BigEndian(m.timestamp % U32, 4) + m.hash
  }

  function TargetKey(t: Target): Bytes {
    match t
    case Url(url) => url
    case Cast(id) => FidBytes(id.fid) + id.hash
  }

  function Padded(linkType: Bytes): (r: Bytes)
    ensures |r| == LINK_TYPE_BYTE_SIZE
  {
    if |linkType| >= LINK_TYPE_BYTE_SIZE then linkType[..LINK_TYPE_BYTE_SIZE]
    else linkType + seq(LINK_TYPE_BYTE_SIZE - |linkType|, _ => 0 as byte)
  }

  function TargetFidBytes(t: Option<nat>): Bytes {
    if t.Some? then FidBytes(t.value) else []
  }

  /** The part of the set-index keys that names the slot a message competes for. */
  function Slot(m: Message): Bytes {
    match m.body
    case CastAddBody(_, _) => if |m.hash| == HASH_LENGTH then m.hash else []
    case CastRemoveBody(targetHash) => if |targetHash| == HASH_LENGTH then targetHash else []
    case ReactionBody(rtype, target) =>
      (if rtype > 0 then [(rtype % 256) as byte] else []) + if target.Some? then TargetKey(target.value) else []
    case UserDataBody(dtype) => if dtype > 0 then [(dtype % 256) as byte] else []
    case VerificationBody(address) => address
    case LinkBody(linkType, target) => Padded(linkType) + TargetFidBytes(target)
    case LinkCompactStateBody(linkType, _) => Padded(linkType)
    case UsernameProofBody(name) => name
  }

  function PrimaryKey(def: StoreDef, fid: nat, tsHash: Bytes): DbKey {
    User(fid, MessagePostfix(def), tsHash)
  }

  function AddKey(def: StoreDef, m: Message): DbKey {
    User(m.fid, AddsPostfix(def), Slot(m))
  }

  function RemoveKey(def: StoreDef, m: Message): DbKey {
    User(m.fid, RemovesPostfix(def), Slot(m))
  }

  /** The key of the compact state that governs a link or that a compact state is stored under. */
  function CompactKey(m: Message): DbKey
    requires m.body.LinkBody? || m.body.LinkCompactStateBody?
  {
    User(m.fid, LINK_COMPACT_STATE, Padded(if m.body.LinkBody? then m.body.linkType else m.body.compactType))
  }

  /** The part of a link's key that names its slot, before the padding was fixed. */
  function UnpaddedSlot(m: Message): Bytes
    requires m.body.LinkBody?
  {
    m.body.linkType + TargetFidBytes(m.body.targetFid)
  }

  /** Links written before the padding was fixed have a shorter key, which every deletion also removes. */
  function UnpaddedKey(m: Message): DbKey
    requires m.body.LinkBody?
  {
    User(m.fid, if m.kind == Add then AddsPostfix(Links) else RemovesPostfix(Links),
         UnpaddedSlot(m))
  }

  /** The unpadded key of the link m is the key of w, a remove of the same user that names no target. */
  predicate Crossed(m: Message, w: Message) {
    && m.body.LinkBody? && w.body.LinkBody? && m.fid == w.fid
    && m.body.targetFid.Some? && w.body.targetFid.None? && w.kind == Remove && Slot(w) == UnpaddedSlot(m)
  }

  /** No set-index key can be built. */
  predicate KeyError(m: Message) {
    match m.body
    case ReactionBody(rtype, target) => target.Some? && rtype == 0
    case LinkBody(linkType, target) => (target.Some? && linkType == []) || |linkType| > LINK_TYPE_BYTE_SIZE
    case _ => false
  }

  /** No secondary index can be built for an add. */
  predicate SecondaryError(m: Message) {
    match m.body
    case ReactionBody(_, target) => target.None?
    case LinkBody(_, target) => target.None?
    case VerificationBody(address) => address == []
    case UsernameProofBody(name) => name == []
    case _ => false
  }

  // ---- values and entries ----

  datatype Value = Record(message: Message) | IndexEntry(tsHash: Bytes) | FidEntry(fid: nat) | Flag(bytes: Bytes)

  function Tail(m: Message): Bytes {
    TsHash(m) + FidBytes(m.fid)
  }

  /** The keys of the secondary index entries of an add. */
  function SecondaryKeys(m: Message): set<DbKey> {
    match m.body
    case CastAddBody(parent, mentions) =>
      (if parent.Some? then {Root(CASTS_BY_PARENT, TargetKey(parent.value) + Tail(m))} else {}) +
      (set f | f in mentions :: Root(CASTS_BY_MENTION, FidBytes(f) + Tail(m)))
    case ReactionBody(_, target) =>
      if target.Some? then {Root(REACTIONS_BY_TARGET, TargetKey(target.value) + Tail(m))} else {}
    case LinkBody(_, target) =>
      if target.Some? then {Root(LINKS_BY_TARGET, FidBytes(target.value) + Tail(m))} else {}
    case VerificationBody(address) => {Root(VERIFICATION_BY_ADDRESS, address)}
    case UsernameProofBody(name) => {Root(USERNAME_PROOF_BY_NAME, name)}
    case _ => {}
  }

  function SecondaryValue(m: Message): Value {
    match m.body
    case ReactionBody(rtype, _) => Flag([(rtype % 256) as byte])
    case LinkBody(linkType, _) => Flag(linkType)
    case VerificationBody(_) => FidEntry(m.fid)
    case UsernameProofBody(_) => FidEntry(m.fid)
    case _ => Flag([1])
  }

  /** Everything a stored message puts into the database. */
  function Entries(def: StoreDef, m: Message): map<DbKey, Value> {
    if m.kind == Compact then
      if m.body.LinkCompactStateBody? then map[CompactKey(m) := Record(m)] else map[]
    else
      map[PrimaryKey(def, m.fid, TsHash(m)) := Record(m)]
      + map[(if m.kind == Add then AddKey(def, m) else RemoveKey(def, m)) := IndexEntry(TsHash(m))]
      + if m.kind == Add then map k | k in SecondaryKeys(m) :: SecondaryValue(m) else map[]
  }

  /** What a deletion removes: the entries, and for links also the unpadded key. */
  function DeletedKeys(def: StoreDef, m: Message): set<DbKey> {
    Entries(def, m).Keys + if m.body.LinkBody? then {UnpaddedKey(m)} else {}
  }

  // ---- order ----

  /** Compares two messages given by their kind and timestamp hash, as the stores do. */
  function MessageCompare(def: StoreDef, aRemove: bool, a: Bytes, bRemove: bool, b: Bytes): int
    requires |a| == |b| == TS_HASH_LENGTH
  {
    var ts := Compare(a[0..4], b[0..4]);
    var hash := Compare(a[4..24], b[4..24]);
    var kind := if aRemove && !bRemove then 1 else if !aRemove && bRemove then -1 else 0;
    if def == Casts then
      if kind != 0 then kind else if ts != 0 then ts else hash
    else
      if ts != 0 then ts else if kind != 0 then kind else hash
  }

  /** The ranges the wire format guarantees, and a hash of the right length. */
  ghost predicate InRange(m: Message) {
    0 < m.fid < U32 && m.timestamp < U32 && |m.hash| == HASH_LENGTH
  }

  function Order(def: StoreDef, a: Message, b: Message): int
    requires |a.hash| == |b.hash| == HASH_LENGTH
  {
    MessageCompare(def, a.kind == Remove, TsHash(a), b.kind == Remove, TsHash(b))
  }

  ghost predicate Precedes(def: StoreDef, a: Message, b: Message) {
    |a.hash| == |b.hash| == HASH_LENGTH && Order(def, a, b) < 0
  }

  lemma TsHashParts(m: Message)
    requires InRange(m)
    ensures |TsHash(m)| == TS_HASH_LENGTH && TsHash(m)[0..4] == BigEndian(m.timestamp, 4) && TsHash(m)[4..24] == m.hash
  {
    hide BigEndian;
  }

  /** The byte order of the timestamp prefix is the order of the timestamps. */
  lemma TimestampOrder(a: Message, b: Message)
    requires InRange(a) && InRange(b)
    ensures Compare(TsHash(a)[0..4], TsHash(b)[0..4]) ==
            if a.timestamp < b.timestamp then -1 else if a.timestamp == b.timestamp then 0 else 1
  {
    TsHashParts(a);
    TsHashParts(b);
    FourBytes();
    BigEndianOrder(a.timestamp, b.timestamp, 4);
  }

  /** The order by primary key is the order by timestamp, then hash. */
  lemma PrimaryOrder(a: Message, b: Message)
    requires InRange(a) && InRange(b)
    ensures Compare(TsHash(a), TsHash(b)) ==
            if a.timestamp < b.timestamp then -1 else if a.timestamp > b.timestamp then 1 else Compare(a.hash, b.hash)
  {
    TimestampOrder(a, b);
    TsHashParts(a);
    TsHashParts(b);
    CompareSigns(TsHash(a)[0..4], TsHash(b)[0..4]);
    CompareConcat(BigEndian(a.timestamp, 4), BigEndian(b.timestamp, 4), a.hash, b.hash);
  }

  lemma SameTsHash(a: Message, b: Message)
    requires InRange(a) && InRange(b) && TsHash(a) == TsHash(b)
    ensures a.timestamp == b.timestamp && a.hash == b.hash
  {
    TsHashParts(a);
    TsHashParts(b);
    TimestampOrder(a, b);
    CompareSigns(TsHash(a)[0..4], TsHash(b)[0..4]);
  }

  /** The order of a store is total on messages that differ in kind, timestamp or hash. */
  lemma OrderIsTotal(def: StoreDef, a: Message, b: Message)
    requires InRange(a) && InRange(b)
    ensures Order(def, b, a) == -Order(def, a, b)
    ensures Order(def, a, b) == 0 <==>
            (a.kind == Remove <==> b.kind == Remove) && a.timestamp == b.timestamp && a.hash == b.hash
  {
    TsHashParts(a);
    TsHashParts(b);
    TimestampOrder(a, b);
    TimestampOrder(b, a);
    CompareSigns(a.hash, b.hash);
  }

  lemma OrderIsTransitive(def: StoreDef, a: Message, b: Message, c: Message)
    requires InRange(a) && InRange(b) && InRange(c) && Order(def, a, b) < 0 && Order(def, b, c) < 0
    ensures Order(def, a, c) < 0
  {
    TsHashParts(a);
    TsHashParts(b);
    TsHashParts(c);
    TimestampOrder(a, b);
    TimestampOrder(b, c);
    TimestampOrder(a, c);
    CompareSigns(a.hash, b.hash);
    CompareSigns(b.hash, c.hash);
    if Less(a.hash, b.hash) && Less(b.hash, c.hash) {
      LessTransitive(a.hash, b.hash, c.hash);
    }
  }

  /** The last-write-wins rule of all stores but casts: later wins, then removes win, then the greater hash. */
  lemma LastWriteWins(def: StoreDef, a: Message, b: Message)
    requires InRange(a) && InRange(b) && def != Casts
    ensures Order(def, a, b) < 0 <==>
            || a.timestamp < b.timestamp
            || (a.timestamp == b.timestamp && a.kind != Remove && b.kind == Remove)
            || (a.timestamp == b.timestamp && (a.kind == Remove <==> b.kind == Remove) && Less(a.hash, b.hash))
  {
    TsHashParts(a);
    TsHashParts(b);
    TimestampOrder(a, b);
  }

  /** The rule of casts: removes win, then later wins, then the greater hash. */
  lemma RemoveWins(a: Message, b: Message)
    requires InRange(a) && InRange(b)
    ensures Order(Casts, a, b) < 0 <==>
            || (a.kind != Remove && b.kind == Remove)
            || ((a.kind == Remove <==> b.kind == Remove) && a.timestamp < b.timestamp)
            || ((a.kind == Remove <==> b.kind == Remove) && a.timestamp == b.timestamp && Less(a.hash, b.hash))
  {
    TsHashParts(a);
    TsHashParts(b);
    TimestampOrder(a, b);
  }
}
