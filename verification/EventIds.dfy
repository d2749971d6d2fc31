/**
 Identifiers of hub events: a millisecond timestamp and a sequence number packed into 53 bits.
 */
module EventIds {
  import opened Bytes

  const TIMESTAMP_BITS := 41
  const SEQUENCE_BITS := 12
  const MAX_TIMESTAMP := 0x200_0000_0000  // 2^41
  const MAX_SEQUENCE := 0x1000            // 2^12
  const U64 := 0x1_0000_0000_0000_0000
  const HUB_EVENTS_PREFIX: byte := 15
  const FARCASTER_EPOCH := 1609459200000

  datatype IdError = TimestampTooLarge | SequenceTooLarge

  datatype IdResult = Id(value: nat) | Failed(error: IdError)

  /** The timestamp shifted left by twelve bits, with the low twelve bits of the sequence below it. */
  function MakeEventId(timestamp: nat, seq_: nat): nat {
    timestamp * MAX_SEQUENCE % U64 + seq_ % MAX_SEQUENCE
  }

  /** An id in range decodes to the timestamp and sequence it was made of, and fits in 53 bits. */
  lemma EventIdDecodes(timestamp: nat, seq_: nat)
    requires timestamp < MAX_TIMESTAMP && seq_ < MAX_SEQUENCE
    ensures var id := MakeEventId(timestamp, seq_);
            id == timestamp * MAX_SEQUENCE + seq_ && id / MAX_SEQUENCE == timestamp && id % MAX_SEQUENCE == seq_ &&
            id < 0x20_0000_0000_0000
  {
  }

  function MakeEventKey(id: nat): Bytes {
    [HUB_EVENTS_PREFIX] + BigEndian(id, 8)
  }

  /** The generator's state and what one call does to it. */
  datatype State = State(lastTimestamp: nat, lastSeq: nat)

  function Advanced(s: State, current: nat): State {
    if current == s.lastTimestamp then s.(lastSeq := s.lastSeq + 1) else State(current, 0)
  }

  function Issued(s: State): IdResult {
    if s.lastTimestamp >= MAX_TIMESTAMP then Failed(TimestampTooLarge)
    else if s.lastSeq >= MAX_SEQUENCE then Failed(SequenceTooLarge)
    else Id(MakeEventId(s.lastTimestamp, s.lastSeq))
  }

  class HubEventIdGenerator {
    var lastTimestamp: nat
    var lastSeq: nat
    const epoch: nat

    function Current(): State
      reads this
    {
      State(lastTimestamp, lastSeq)
    }

    constructor (epoch: Option<nat>, lastTimestamp: Option<nat>, lastSeq: Option<nat>)
      ensures this.epoch == if epoch.Some? then epoch.value else 0
      ensures Current() == State(if lastTimestamp.Some? then lastTimestamp.value else 0,
                                 if lastSeq.Some? then lastSeq.value else 0)
    {
      this.epoch := if epoch.Some? then epoch.value else 0;
      this.lastTimestamp := if lastTimestamp.Some? then lastTimestamp.value else 0;
      this.lastSeq := if lastSeq.Some? then lastSeq.value else 0;
    }

    /**
     Issues the next id for a clock reading, which must not lie before the epoch: the reading and the number of earlier
     calls in the same millisecond, if they fit in 41 and 12 bits.
     */
    method GenerateId(now: nat) returns (r: IdResult)
      requires now >= epoch
      modifies this
      ensures Current() == Advanced(old(Current()), now - epoch) && r == Issued(Current())
      ensures lastTimestamp == now - epoch
      ensures lastSeq == if now - epoch == old(lastTimestamp) then old(lastSeq) + 1 else 0
      ensures r.Id? <==> now - epoch < 0x200_0000_0000 && lastSeq < 4096
      ensures r.Id? ==> r.value == (now - epoch) * 4096 + lastSeq
      ensures r == Failed(TimestampTooLarge) <==> now - epoch >= 0x200_0000_0000
    {
      var current := now - epoch;
      if current == lastTimestamp {
        lastSeq := lastSeq + 1;
      } else {
        lastTimestamp := current;
        lastSeq := 0;
      }
      if lastTimestamp >= MAX_TIMESTAMP {
        return Failed(TimestampTooLarge);
      }
      if lastSeq >= MAX_SEQUENCE {
        return Failed(SequenceTooLarge);
      }
      EventIdDecodes(lastTimestamp, lastSeq);
      return Id(MakeEventId(lastTimestamp, lastSeq));
    }
  }

  /** An id is issued exactly if the timestamp fits in 41 bits and the sequence in 12, and it is made of both. */
  lemma IssuedIff(s: State)
    ensures Issued(s).Id? <==> s.lastTimestamp < 0x200_0000_0000 && s.lastSeq < 4096
    ensures Issued(s).Id? ==> Issued(s).value == s.lastTimestamp * 4096 + s.lastSeq
    ensures Issued(s) == Failed(TimestampTooLarge) <==> s.lastTimestamp >= 0x200_0000_0000
  {
    if s.lastTimestamp < MAX_TIMESTAMP && s.lastSeq < MAX_SEQUENCE {
      EventIdDecodes(s.lastTimestamp, s.lastSeq);
    }
  }

  // ---- runs ----

  /** The generator after a sequence of clock readings, relative to the epoch. */
  ghost function After(s: State, clock: seq<nat>): State {
    if clock == [] then s else Advanced(After(s, clock[..|clock| - 1]), clock[|clock| - 1])
  }

  /** The ids issued along a sequence of clock readings; failed calls issue none. */
  ghost function IdsOf(s: State, clock: seq<nat>): seq<nat> {
    if clock == [] then []
    else
      var r := Issued(After(s, clock));
      IdsOf(s, clock[..|clock| - 1]) + if r.Id? then [r.value] else []
  }

  /** The clock starts no earlier than the generator's last timestamp and never goes back. */
  ghost predicate NonDecreasing(s: State, clock: seq<nat>) {
    && (clock != [] ==> s.lastTimestamp <= clock[0])
    && forall i | 0 < i < |clock| :: clock[i - 1] <= clock[i]
  }

  /** One call issues a greater id than the state before it stands for exactly when the clock has not gone back. */
  lemma LaterIsGreater(s: State, current: nat)
    requires Issued(s).Id? && Issued(Advanced(s, current)).Id?
    ensures Issued(s).value < Issued(Advanced(s, current)).value <==> s.lastTimestamp <= current
  {
    EventIdDecodes(s.lastTimestamp, s.lastSeq);
    var t := Advanced(s, current);
    EventIdDecodes(t.lastTimestamp, t.lastSeq);
  }

  /** A clock that goes back by one and forward again repeats an id. */
  lemma GoingBackRepeats(t: nat)
    requires 2 <= t < MAX_TIMESTAMP
    ensures IdsOf(State(0, 0), [t, t - 1, t]) == [MakeEventId(t, 0), MakeEventId(t - 1, 0), MakeEventId(t, 0)]
  {
    var s := State(0, 0);
    var c := [t, t - 1, t];
    assert c[..2] == [t, t - 1] && c[..2][..1] == [t] && c[..2][..1][..0] == [];
    assert After(s, []) == s && After(s, [t]) == State(t, 0);
    assert After(s, c[..2]) == State(t - 1, 0) && After(s, c) == State(t, 0);
    assert IdsOf(s, []) == [] && IdsOf(s, [t]) == [MakeEventId(t, 0)];
    assert IdsOf(s, c[..2]) == [MakeEventId(t, 0), MakeEventId(t - 1, 0)];
  }

  /** The last calls of a run, from the one with index first on, are those of one millisecond. */
  ghost predicate OneMillisecond(s: State, clock: seq<nat>, first: nat) {
    && first < |clock| && (forall i | first <= i < |clock| :: clock[i] == clock[first])
    && (if first == 0 then s.lastTimestamp else clock[first - 1]) != clock[first]
  }

  lemma {:induction false} AfterMillisecond(s: State, clock: seq<nat>, first: nat)
    requires OneMillisecond(s, clock, first)
    ensures After(s, clock) == State(clock[first], |clock| - 1 - first)
  {
    var m := |clock| - 1;
    if first < m {
      AfterMillisecond(s, clock[..m], first);
    } else {
      LastReading(s, clock[..m]);
    }
  }

  lemma LastReading(s: State, clock: seq<nat>)
    ensures After(s, clock).lastTimestamp == if clock == [] then s.lastTimestamp else clock[|clock| - 1]
  {
  }

  /** Call k within a millisecond, from 0 on, issues the id of k, and from 4096 on no more are issued. */
  lemma CallsInOneMillisecond(s: State, clock: seq<nat>, first: nat)
    requires OneMillisecond(s, clock, first)
    ensures var t, k := clock[first], |clock| - 1 - first;
            Issued(After(s, clock)) == if t >= 0x200_0000_0000 then Failed(TimestampTooLarge)
                                       else if k >= 4096 then Failed(SequenceTooLarge)
                                       else Id(t * 4096 + k)
  {
    AfterMillisecond(s, clock, first);
    IssuedIff(After(s, clock));
  }

  /** The id does not lie after the state. */
  ghost predicate NotAfter(id: nat, s: State) {
    id / MAX_SEQUENCE < s.lastTimestamp || (id / MAX_SEQUENCE == s.lastTimestamp && id % MAX_SEQUENCE <= s.lastSeq)
  }

  /**
   On a clock that does not go back, the issued ids strictly increase and fit in 53 bits.
   */
  lemma {:induction false} IdsIncrease(s: State, clock: seq<nat>)
    requires NonDecreasing(s, clock)
    ensures forall id | id in IdsOf(s, clock) :: id < 0x20_0000_0000_0000 && NotAfter(id, After(s, clock))
    ensures forall i, j | 0 <= i < j < |IdsOf(s, clock)| :: IdsOf(s, clock)[i] < IdsOf(s, clock)[j]
    ensures s.lastTimestamp <= After(s, clock).lastTimestamp
    ensures clock != [] ==> After(s, clock).lastTimestamp == clock[|clock| - 1]
  {
    hide NotAfter, MakeEventId, Issued;
    if clock != [] {
      var m := |clock| - 1;
      IdsIncrease(s, clock[..m]);
      var before, after := After(s, clock[..m]), After(s, clock);
      var ids := IdsOf(s, clock[..m]);
      assert before.lastTimestamp <= clock[m];
      if Issued(after).Id? {
        IssuedIsLast(after);
        forall id | id in ids
          ensures id < Issued(after).value && NotAfter(id, after)
        {
          IdBelow(id, before, clock[m]);
        }
        assert IdsOf(s, clock) == ids + [Issued(after).value];
        forall i | 0 <= i < |ids| ensures ids[i] < Issued(after).value { assert ids[i] in ids; }
      } else {
        forall id | id in ids ensures NotAfter(id, after) { StillNotAfter(id, before, clock[m]); }
      }
    }
  }

  lemma IssuedIsLast(s: State)
    requires Issued(s).Id?
    ensures Issued(s).value < 0x20_0000_0000_0000 && NotAfter(Issued(s).value, s)
  {
    EventIdDecodes(s.lastTimestamp, s.lastSeq);
  }

  lemma StillNotAfter(id: nat, s: State, current: nat)
    requires NotAfter(id, s) && s.lastTimestamp <= current
    ensures NotAfter(id, Advanced(s, current))
  {
  }

  lemma IdBelow(id: nat, s: State, current: nat)
    requires NotAfter(id, s) && s.lastTimestamp <= current && Issued(Advanced(s, current)).Id?
    ensures id < Issued(Advanced(s, current)).value && NotAfter(id, Advanced(s, current))
  {
    var t := Advanced(s, current);
    EventIdDecodes(t.lastTimestamp, t.lastSeq);
  }

  lemma EightBytes()
    ensures Power256(8) == U64
  {
    assert Power256(2) == 0x1_0000;
    assert Power256(4) == 0x1_0000 * Power256(2);
    assert Power256(6) == 0x1_0000 * Power256(4);
    assert Power256(8) == 0x1_0000 * Power256(6);
  }

  /** The database keys of the issued ids sort in issue order. */
  lemma EventKeysSort(s: State, clock: seq<nat>, i: nat, j: nat)
    requires NonDecreasing(s, clock) && i < j < |IdsOf(s, clock)|
    ensures Less(MakeEventKey(IdsOf(s, clock)[i]), MakeEventKey(IdsOf(s, clock)[j]))
  {
    IdsIncrease(s, clock);
    EightBytes();
    var a, b := IdsOf(s, clock)[i], IdsOf(s, clock)[j];
    assert a in IdsOf(s, clock) && b in IdsOf(s, clock);
    BigEndianOrder(a, b, 8);
    CompareCommonPrefix([HUB_EVENTS_PREFIX], BigEndian(a, 8), BigEndian(b, 8));
  }
}
