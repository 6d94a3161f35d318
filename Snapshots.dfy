/**
 * Snapshots: for every name, the index of its latest event at one moment,
 * with -1 for a name not seen yet.  `Consistent` ties the sequence of
 * snapshots and the per-name log to the chronological history of appends.
 */
module Snapshots {
  import opened Basis
  import opened EventLog

  /** The pointer of a name that has no event yet. */
  const INITIAL_STATE: int := -1

  /** `Snapshot(events_pointer=...)`; a name absent from the map points at INITIAL_STATE. */
  datatype Snapshot = Snapshot(eventsPointer: map<string, int>)

  /** The seed snapshot: every name points at INITIAL_STATE. */
  const Seed: Snapshot := Snapshot(map[])

  /** `snapshot.events_pointer[name]` with the default-dict fallback. */
  function Pointer(s: Snapshot, name: string): (p: int)
    ensures s == Seed ==> p == INITIAL_STATE
  {
    if name in s.eventsPointer then s.eventsPointer[name] else INITIAL_STATE
  }

  /** The next snapshot: a copy of `s` with the pointer of `name` incremented. */
  function Advance(s: Snapshot, name: string): (r: Snapshot)
    ensures Pointer(r, name) == Pointer(s, name) + 1
    ensures forall n :: n != name ==> Pointer(r, n) == Pointer(s, n)
  {
    Snapshot(s.eventsPointer[name := Pointer(s, name) + 1])
  }

  /** The events of `history` whose target is `name`, in order. */
  function Project(history: seq<Event>, name: string): (r: seq<Event>)
    ensures |r| <= |history|
    decreases |history|
  {
    if history == [] then []
    else
      var last := history[|history| - 1];
      Project(history[..|history| - 1], name) + (if last.target == name then [last] else [])
  }

  /**
   * The bookkeeping invariant of a frame whose events, in the order they
   * were appended, are `history`: one snapshot per event after the seed,
   * each name's log is the history restricted to that name, snapshot i
   * points every name at its latest event among the first i, no name is
   * empty, and no InitialValue follows another event.
   */
  ghost predicate Consistent(history: seq<Event>, log: Log, snaps: seq<Snapshot>) {
    && |snaps| == |history| + 1
    && "" !in log
    && (forall n :: n in log ==> log[n] != [] && InitialOnce(log[n]))
    && (forall n :: Events(log, n) == Project(history, n))
    && TotalEvents(log) == |history|
    && (forall i, n :: 0 <= i < |snaps| ==> Pointer(snaps[i], n) == |Project(history[..i], n)| - 1)
  }

  lemma ConsistentSeed()
    ensures Consistent([], map[], [Seed])
  {
  }

  /**
   * What `_add_new_event` does when its two checks pass keeps the invariant:
   * the event joins the history and its target's log, and one advanced copy
   * of the last snapshot is added.
   */
  lemma ConsistentAppend(history: seq<Event>, log: Log, snaps: seq<Snapshot>, e: Event)
    requires Consistent(history, log, snaps)
    requires e.target != ""
    requires e.InitialValue? ==> Events(log, e.target) == []
    ensures Consistent(history + [e], Append(log, e), snaps + [Advance(snaps[|snaps| - 1], e.target)])
  {
    AppendKeepsLog(history, log, e);
    AppendKeepsNames(history, log, e);
    TotalAfterAppend(log, e);
    AppendKeepsPointers(history, log, snaps, e);
  }

  lemma AppendKeepsLog(history: seq<Event>, log: Log, e: Event)
    requires forall n :: Events(log, n) == Project(history, n)
    ensures forall n :: Events(Append(log, e), n) == Project(history + [e], n)
  {
    forall n ensures Events(Append(log, e), n) == Project(history + [e], n) {
      ProjectAppend(history, e, n);
    }
  }

  lemma AppendKeepsNames(history: seq<Event>, log: Log, e: Event)
    requires "" !in log && e.target != ""
    requires forall n :: n in log ==> log[n] != [] && InitialOnce(log[n])
    requires e.InitialValue? ==> Events(log, e.target) == []
    ensures "" !in Append(log, e)
    ensures forall n :: n in Append(log, e) ==> Append(log, e)[n] != [] && InitialOnce(Append(log, e)[n])
  {
    var log' := Append(log, e);
    forall n | n in log' ensures log'[n] != [] && InitialOnce(log'[n]) {
      assert log'[n] == Events(log', n);
    }
  }

  lemma AppendKeepsPointers(history: seq<Event>, log: Log, snaps: seq<Snapshot>, e: Event)
    requires Consistent(history, log, snaps)
    ensures forall i, n :: 0 <= i < |snaps| + 1 ==>
      Pointer((snaps + [Advance(snaps[|snaps| - 1], e.target)])[i], n) == |Project((history + [e])[..i], n)| - 1
  {
    var h := history + [e];
    var snaps' := snaps + [Advance(snaps[|snaps| - 1], e.target)];
    forall i, n | 0 <= i < |snaps'| ensures Pointer(snaps'[i], n) == |Project(h[..i], n)| - 1 {
      if i < |snaps| {
        assert h[..i] == history[..i];
      } else {
        assert h[..i] == h;
        LastPointer(history, log, snaps, e, n);
      }
    }
  }

  lemma ProjectAppend(history: seq<Event>, e: Event, name: string)
    ensures Project(history + [e], name) == Project(history, name) + (if e.target == name then [e] else [])
  {
    assert (history + [e])[..|history|] == history;
  }

  lemma LastPointer(history: seq<Event>, log: Log, snaps: seq<Snapshot>, e: Event, name: string)
    requires Consistent(history, log, snaps)
    ensures Pointer(Advance(snaps[|snaps| - 1], e.target), name) == |Project(history + [e], name)| - 1
  {
    var h := history + [e];
    assert history[..|history|] == history;
    ProjectAppend(history, e, name);
  }

  /** The latest snapshot points every name at the last of its events: `pointer[t] == |raw_events[t]| - 1`. */
  lemma LatestPointer(history: seq<Event>, log: Log, snaps: seq<Snapshot>)
    requires Consistent(history, log, snaps)
    ensures forall n :: Pointer(snaps[|snaps| - 1], n) == |Events(log, n)| - 1
  {
    assert history[..|history|] == history;
  }

  /**
   * Consecutive snapshots differ in the pointer of exactly one name, the
   * target of the event appended between them, and only by +1.
   */
  lemma SnapshotStep(history: seq<Event>, log: Log, snaps: seq<Snapshot>, i: nat)
    requires Consistent(history, log, snaps)
    requires i < |history|
    ensures Pointer(snaps[i + 1], history[i].target) == Pointer(snaps[i], history[i].target) + 1
    ensures forall n :: n != history[i].target ==> Pointer(snaps[i + 1], n) == Pointer(snaps[i], n)
  {
    assert history[..i + 1][..i] == history[..i];
  }

  /** The events of a prefix of the history are a prefix of each name's log. */
  lemma {:induction false} ProjectPrefix(history: seq<Event>, i: nat, name: string)
    requires i <= |history|
    ensures Project(history[..i], name) <= Project(history, name)
    decreases |history|
  {
    if i < |history| {
      var p := history[..|history| - 1];
      assert p[..i] == history[..i];
      ProjectPrefix(p, i, name);
    } else {
      assert history[..i] == history;
    }
  }

  /**
   * Snapshot i is a point-in-time view: a name it has seen points at an
   * event that is still at that index of the name's log, and the log up to
   * that index is exactly what had been recorded for the name after i events.
   */
  lemma SnapshotIndexesPast(history: seq<Event>, log: Log, snaps: seq<Snapshot>, i: nat, name: string)
    requires Consistent(history, log, snaps)
    requires i < |snaps|
    ensures Pointer(snaps[i], name) < |Events(log, name)|
    ensures Events(log, name)[..Pointer(snaps[i], name) + 1] == Project(history[..i], name)
  {
    ProjectPrefix(history, i, name);
  }
}
