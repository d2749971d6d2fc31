/**
 The timer scheduler of the consensus actor. A timeout message may still be in the actor's mailbox when its timer is
 cancelled or restarted; generations tell such late messages apart.
 */
module Timers {
  import opened Bytes

  datatype TimeoutElapsed<Key> = TimeoutElapsed(key: Key, generation: nat)

  const MAX_GENERATION := 0x1_0000_0000_0000_0000

  class TimerScheduler<Key(==, !new)> {
    var timers: map<Key, nat>       // the generation of each active timer
    var nextGeneration: nat
    ghost var trace: seq<Event<Key>> // what has happened so far

    ghost predicate Valid()
      reads this
    {
      && nextGeneration == Starts(trace) + 1
      && forall k: Key :: Read(timers, k) == Active(trace, k)
    }

    constructor ()
      ensures Valid() && trace == []
    {
      timers := map[];
      nextGeneration := 1;
      trace := [];
    }

    /** Starts a timer, cancelling the previous one of the same key, and returns the message it will send. */
    method StartTimer(key: Key) returns (msg: TimeoutElapsed<Key>)
      requires Valid() && nextGeneration < MAX_GENERATION
      modifies this
      ensures Valid() && trace == old(trace) + [Start(key)]
      ensures msg == TimeoutElapsed(key, Starts(trace)) && timers == old(timers)[key := msg.generation]
      ensures msg.generation == old(nextGeneration) && nextGeneration == old(nextGeneration) + 1
    {
      Cancel(key);
      var generation := nextGeneration;
      nextGeneration := nextGeneration + 1;
      timers := timers[key := generation];
      trace := old(trace) + [Start(key)];
      Extend(old(trace), Stop(key));
      Extend(old(trace), Start(key));
      forall k: Key
        ensures Read(timers, k) == Active(trace, k)
      {
        assert k == key || Read(timers, k) == Active(old(trace) + [Stop(key)], k);
      }
      msg := TimeoutElapsed(key, generation);
    }

    method IsTimerActive(key: Key) returns (active: bool)
      requires Valid()
      ensures active <==> Active(trace, key).Some?
    {
      active := key in timers;
      assert Read(timers, key) == Active(trace, key);
    }

    method Cancel(key: Key)
      requires Valid()
      modifies this
      ensures Valid() && trace == old(trace) + [Stop(key)]
      ensures timers == old(timers) - {key} && nextGeneration == old(nextGeneration)
    {
      timers := timers - {key};
      trace := trace + [Stop(key)];
      Extend(old(trace), Stop(key));
    }

    method CancelAll()
      requires Valid()
      modifies this
      ensures Valid() && trace == old(trace) + [StopAll] && timers == map[] && nextGeneration == old(nextGeneration)
    {
      timers := map[];
      trace := trace + [StopAll];
      Extend(old(trace), StopAll);
    }

    /**
     Accepts a timeout message exactly when it comes from the latest start of its key and that timer has since been
     neither cancelled nor accepted.
     */
    method InterceptTimerMsg(msg: TimeoutElapsed<Key>) returns (r: Option<Key>)
      requires Valid()
      modifies this
      ensures Valid() && trace == old(trace) + [Deliver(msg)]
      ensures r == if Accepted(old(trace), msg) then Some(msg.key) else None
      ensures r.Some? <==> msg.key in old(timers) && old(timers)[msg.key] == msg.generation
      ensures timers == (if r.Some? then old(timers) - {msg.key} else old(timers))
      ensures nextGeneration == old(nextGeneration)
    {
      r := None;
      assert Read(timers, msg.key) == Active(trace, msg.key);
      if msg.key in timers && msg.generation == timers[msg.key] {
        timers := timers - {msg.key};
        r := Some(msg.key);
      }
      trace := trace + [Deliver(msg)];
      Extend(old(trace), Deliver(msg));
      assert Starts(trace) == Starts(old(trace));
      forall k: Key
        ensures Read(timers, k) == Active(trace, k)
      {
        assert Read(old(timers), k) == Active(old(trace), k);
      }
    }
  }

  function Read<K, V>(m: map<K, V>, k: K): Option<V> {
    if k in m then Some(m[k]) else None
  }

  // ---- what a history of calls means ----

  /** A call on the scheduler. Deliver is a message reaching the actor, at any time and any number of times. */
  datatype Event<Key> = Start(key: Key) | Stop(key: Key) | StopAll | Deliver(msg: TimeoutElapsed<Key>)

  /** How many timers have been started: the generation of the latest start. */
  ghost function Starts<Key>(trace: seq<Event<Key>>): nat {
    if trace == [] then 0 else Starts(trace[..|trace| - 1]) + if trace[|trace| - 1].Start? then 1 else 0
  }

  /** The generation of the timer of k that is still running after the trace. */
  ghost function Active<Key>(trace: seq<Event<Key>>, k: Key): Option<nat> {
    if trace == [] then None
    else
      var init := trace[..|trace| - 1];
      match trace[|trace| - 1]
      case Start(key) => if key == k then Some(Starts(trace)) else Active(init, k)
      case Stop(key) => if key == k then None else Active(init, k)
      case StopAll => None
      case Deliver(msg) => if msg.key == k && Active(init, k) == Some(msg.generation) then None else Active(init, k)
  }

  ghost predicate Accepted<Key>(trace: seq<Event<Key>>, msg: TimeoutElapsed<Key>) {
    Active(trace, msg.key) == Some(msg.generation)
  }

  lemma Extend<Key>(trace: seq<Event<Key>>, e: Event<Key>)
    ensures (trace + [e])[..|trace|] == trace
  {
  }

  /** The event at position i starts the timer of the message. */
  ghost predicate StartedAt<Key>(trace: seq<Event<Key>>, i: nat, msg: TimeoutElapsed<Key>) {
    i < |trace| && trace[i] == Start(msg.key) && Starts(trace[..i + 1]) == msg.generation
  }

  /** The event at position i ends the timer of the message: it cancels, restarts or accepts it. */
  ghost predicate EndedAt<Key>(trace: seq<Event<Key>>, i: nat, msg: TimeoutElapsed<Key>) {
    && i < |trace|
    && match trace[i]
       case Start(key) => key == msg.key
       case Stop(key) => key == msg.key
       case StopAll => true
       case Deliver(other) => other == msg && Accepted(trace[..i], msg)
  }

  ghost predicate NotEndedSince<Key>(trace: seq<Event<Key>>, s: nat, msg: TimeoutElapsed<Key>) {
    forall i: nat | s < i < |trace| :: !EndedAt(trace, i, msg)
  }

  /** Timer safety: a message is accepted exactly when its start is the last event that concerns its timer. */
  lemma {:induction false} AcceptedIff<Key>(trace: seq<Event<Key>>, msg: TimeoutElapsed<Key>)
    ensures Accepted(trace, msg) <==>
            exists s: nat :: StartedAt(trace, s, msg) && NotEndedSince(trace, s, msg)
  {
    if trace != [] {
      var m := |trace| - 1;
      var init := trace[..m];
      AcceptedIff(init, msg);
      PrefixFacts(trace, msg);
      if s: nat :| StartedAt(init, s, msg) && NotEndedSince(init, s, msg) && !EndedAt(trace, m, msg) {
        assert StartedAt(trace, s, msg) && NotEndedSince(trace, s, msg);
      }
      if s: nat :| s < m && StartedAt(trace, s, msg) && NotEndedSince(trace, s, msg) {
        assert !EndedAt(trace, m, msg);
        assert StartedAt(init, s, msg) && NotEndedSince(init, s, msg);
      }
      if StartedAt(trace, m, msg) {
        assert NotEndedSince(trace, m, msg);
      }
    }
  }

  lemma PrefixFacts<Key>(trace: seq<Event<Key>>, msg: TimeoutElapsed<Key>)
    requires trace != []
    ensures var m := |trace| - 1;
            var init := trace[..m];
            && trace[..m + 1] == trace
            && (forall i: nat | i < m :: StartedAt(trace, i, msg) <==> StartedAt(init, i, msg))
            && (forall i: nat | i < m :: EndedAt(trace, i, msg) <==> EndedAt(init, i, msg))
  {
    var m := |trace| - 1;
    var init := trace[..m];
    forall i: nat | i < m
      ensures StartedAt(trace, i, msg) <==> StartedAt(init, i, msg)
      ensures EndedAt(trace, i, msg) <==> EndedAt(init, i, msg)
    {
      assert trace[..i + 1] == init[..i + 1] && trace[..i] == init[..i];
    }
  }

  lemma {:induction false} StartsGrow<Key>(trace: seq<Event<Key>>, i: nat)
    requires i <= |trace|
    ensures Starts(trace[..i]) <= Starts(trace)
  {
    if i < |trace| {
      var m := |trace| - 1;
      StartsGrow(trace[..m], i);
      assert trace[..m][..i] == trace[..i];
    } else {
      assert trace[..i] == trace;
    }
  }

  /** A generation is issued once. */
  lemma GenerationsAreUnique<Key>(trace: seq<Event<Key>>, i: nat, j: nat, m1: TimeoutElapsed<Key>,
                                  m2: TimeoutElapsed<Key>)
    requires StartedAt(trace, i, m1) && StartedAt(trace, j, m2) && i < j
    ensures m1.generation < m2.generation
  {
    StartsGrow(trace[..j], i + 1);
    assert trace[..j][..i + 1] == trace[..i + 1];
    assert trace[..j + 1][..j] == trace[..j];
  }

  /** Each start is accepted at most once, however often and however late its message is delivered. */
  lemma AcceptedOnce<Key>(trace: seq<Event<Key>>, i: nat, j: nat, msg: TimeoutElapsed<Key>)
    requires i < j < |trace| && trace[i] == Deliver(msg) && trace[j] == Deliver(msg)
    requires Accepted(trace[..i], msg)
    ensures !Accepted(trace[..j], msg)
  {
    var t := trace[..j];
    AcceptedIff(trace[..i], msg);
    var s: nat :| StartedAt(trace[..i], s, msg) && NotEndedSince(trace[..i], s, msg);
    assert trace[..i][..s + 1] == trace[..s + 1] && t[..s + 1] == trace[..s + 1] && t[..i] == trace[..i];
    if Accepted(t, msg) {
      AcceptedIff(t, msg);
      var s': nat :| StartedAt(t, s', msg) && NotEndedSince(t, s', msg);
      assert EndedAt(t, i, msg);
      assert s < s';
      GenerationsAreUnique(t, s, s', msg, msg);
    }
  }
}
