/**
 * A traced execution frame: the event log, the snapshots taken after every
 * append, and the entry points that record initial values and changes.
 */
module Frames {
  import opened Wrappers
  import opened Codec
  import opened Basis
  import opened EventLog
  import opened Snapshots
  import opened Tracing

  class Frame {
    /** `raw_events`. */
    var rawEvents: Log
    /** `snapshots`: the seed snapshot, then one per recorded event. */
    var snapshots: seq<Snapshot>
    /** `_latest_snapshot`. */
    var latestSnapshot: Snapshot
    /** Every recorded event, in the order it was appended. */
    ghost var history: seq<Event>

    ghost predicate Valid()
      reads this
    {
      && Consistent(history, rawEvents, snapshots)
      && latestSnapshot == snapshots[|snapshots| - 1]
    }

    /** The new state after `e` was appended to the state `log0`, `snaps0`, `history0`. */
    ghost predicate RecordedFrom(log0: Log, snaps0: seq<Snapshot>, history0: seq<Event>, e: Event)
      reads this
      requires |snaps0| > 0
    {
      && rawEvents == Append(log0, e)
      && snapshots == snaps0 + [Advance(snaps0[|snaps0| - 1], e.target)]
      && history == history0 + [e]
    }

    /** The frame state part of `Frame.__init__`: no events and the seed snapshot. */
    constructor ()
      ensures Valid()
      ensures rawEvents == map[] && snapshots == [Seed] && latestSnapshot == Seed && history == []
      ensures TidyLog(rawEvents)
    {
      rawEvents := map[];
      snapshots := [Seed];
      latestSnapshot := Seed;
      history := [];
    }

    /** `latest_snapshot`: the last snapshot, pointing every name at its last event. */
    function LatestSnapshot(): (s: Snapshot)
      reads this
      requires Valid()
      ensures s == snapshots[|snapshots| - 1]
      ensures forall n :: Pointer(s, n) == |Events(rawEvents, n)| - 1
    {
      LatestPointer(history, rawEvents, snapshots);
      latestSnapshot
    }

    /** `_knows(name)`: a known name never raises "does not exist" in `_latest_value_of`. */
    predicate Knows(name: string)
      reads this
      ensures Knows(name) <==> LatestValue(rawEvents, name) != Err(NotFound(name))
    {
      Contains(rawEvents, name)
    }

    /** `_add_new_event(event)`. */
    method AddNewEvent(e: Event) returns (r: Outcome<Fault>)
      requires Valid()
      modifies this
      ensures Valid()
      ensures r == AppendCheck(old(rawEvents), e)
      ensures r.Fail? ==> unchanged(this)
      ensures r.Pass? ==> RecordedFrom(old(rawEvents), old(snapshots), old(history), e)
      ensures r.Pass? ==> latestSnapshot == Advance(old(latestSnapshot), e.target)
      ensures |snapshots| == 1 + TotalEvents(rawEvents)
    {
      if e.target == "" {
        return Fail(EmptyTarget);
      }
      var t := e.target;
      var es := Events(rawEvents, t);
      if es != [] && e.InitialValue? {
        return Fail(InitialValueTwice(t));
      }
      var newLog := rawEvents[t := es + [e]];
      assert newLog == Append(rawEvents, e);

      // The next snapshot: the previous pointer map with the target advanced.
      var previous := snapshots[|snapshots| - 1];
      var newEventsPointer := previous.eventsPointer;
      newEventsPointer := newEventsPointer[t := Pointer(previous, t) + 1];
      var newSnapshot := Snapshot(newEventsPointer);
      assert newSnapshot == Advance(previous, t);

      ConsistentAppend(history, rawEvents, snapshots, e);
      rawEvents, latestSnapshot := newLog, newSnapshot;
      snapshots, history := snapshots + [newSnapshot], history + [e];
      r := Pass;
    }

    /** `_latest_value_of(name)`: the first event's value with every later delta applied in turn. */
    method LatestValueOf(name: string) returns (r: Result<Value, Fault>)
      ensures r == LatestValue(rawEvents, name)
    {
      if !Knows(name) {
        return Err(NotFound(name));
      }
      var relevantEvents := rawEvents[name];
      if !(relevantEvents[0].InitialValue? || relevantEvents[0].Creation?) {
        RebuildPrefixErr(relevantEvents, 1);
        return Err(BadFirstEvent(relevantEvents[0]));
      }
      var value := relevantEvents[0].value;
      var i := 1;
      while i < |relevantEvents|
        invariant 1 <= i <= |relevantEvents|
        invariant Rebuild(relevantEvents[..i]) == Ok(value)
      {
        var mutation := relevantEvents[i];
        assert relevantEvents[..i + 1][..i] == relevantEvents[..i];
        if !mutation.Mutation? {
          RebuildPrefixErr(relevantEvents, i + 1);
          return Err(NotAMutation(mutation));
        }
        value := Apply(value, mutation.delta);
        i := i + 1;
      }
      assert relevantEvents[..i] == relevantEvents;
      r := Ok(value);
    }

    /**
     * The guard of `log_initial_value_events`: names in `excluded` (tracer
     * objects, builtins) are ignored; otherwise, when the name exists in the
     * live frame (`live` is its copied value) and is not known, an
     * InitialValue is appended.
     */
    method LogInitialValue(target: string, live: Option<Value>, excluded: set<string>, uid: string)
      returns (r: Outcome<Fault>)
      requires Valid()
      modifies this
      ensures Valid()
      ensures target in excluded || live.None? || old(Knows(target)) ==> r == Pass && unchanged(this)
      ensures target !in excluded && live.Some? && !old(Knows(target)) ==>
        var e := InitialValue(target, live.value, uid);
        && r == AppendCheck(old(rawEvents), e)
        && (r.Fail? ==> unchanged(this))
        && (r.Pass? ==> RecordedFrom(old(rawEvents), old(snapshots), old(history), e))
        && (r.Pass? ==> LatestValue(rawEvents, target) == Ok(live.value))
      ensures old(TidyLog(rawEvents)) ==> TidyLog(rawEvents)
    {
      if target in excluded {
        return Pass;
      }
      if live.Some? && !Knows(target) {
        ghost var log0 := rawEvents;
        var e := InitialValue(target, live.value, uid);
        r := AddNewEvent(e);
        if r.Pass? {
          assert Events(log0, target) == [];
          assert Events(rawEvents, target) == [e];
          if TidyLog(log0) {
            TidyAppend(Events(log0, target), e);
          }
        }
      } else {
        r := Pass;
      }
    }

    /**
     * `log_events`: the change the value stack reports (if any) becomes a
     * Mutation, a Creation or a Deletion and is appended.  `live` is the
     * target's live value.  The value reconstruction and tidiness promises
     * hold while the target was never deleted: after a deletion, an assignment
     * re-creates the name, which `RecreationUnrebuildable` shows breaks
     * `_latest_value_of`.
     */
    method LogEvents(info: Option<EventInfo>, live: Value, uid: string) returns (r: Outcome<Fault>)
      requires Valid()
      modifies this
      ensures Valid()
      ensures info.None? ==> r == Pass && unchanged(this)
      ensures info.Some? ==>
        match Classify(old(rawEvents), info.value, live, uid)
        case Err(f) => r == Fail(f) && unchanged(this)
        case Ok(e) =>
          && r == AppendCheck(old(rawEvents), e)
          && (r.Fail? ==> unchanged(this))
          && (r.Pass? ==> RecordedFrom(old(rawEvents), old(snapshots), old(history), e))
      ensures r.Pass? && info.Some? && info.value.kind.MutationKind? && !old(EverDeleted(rawEvents, info.value.target)) ==>
        LatestValue(rawEvents, info.value.target) == Ok(live)
      ensures r.Pass? && info.Some? && info.value.kind.DeletionKind? ==> !Knows(info.value.target)
      ensures old(TidyLog(rawEvents)) && !(info.Some? && info.value.kind.MutationKind? && old(EverDeleted(rawEvents, info.value.target))) ==>
        TidyLog(rawEvents)
      ensures old(TidyLog(rawEvents)) ==> (r.Pass? <==> info.None? || info.value.target != "")
    {
      if info.None? {
        return Pass;
      }
      ghost var log0 := rawEvents;
      var eventInfo := info.value;
      var target := eventInfo.target;
      var event: Event;
      if eventInfo.kind.MutationKind? {
        if Knows(target) {
          if TidyLog(rawEvents) {
            TidyLatestValue(rawEvents, target);
          }
          var latest := LatestValueOf(target);
          if latest.Err? {
            return Fail(latest.error);
          }
          event := Mutation(target, Diff(latest.value, live), eventInfo.sources, uid);
        } else {
          event := Creation(target, live, eventInfo.sources, uid);
        }
      } else {
        event := Deletion(target, uid);
      }
      assert Classify(log0, eventInfo, live, uid) == Ok(event);
      r := AddNewEvent(event);
      if r.Pass? {
        LoggedValueIsLive(log0, eventInfo, live, uid, event);
        if TidyLog(log0) && (eventInfo.kind.MutationKind? ==> !EverDeleted(log0, target)) {
          ClassifyKeepsTidy(log0, eventInfo, live, uid, event);
        }
      }
    }

    /** `accumulated_events`: a fresh view in which every Mutation also carries its value. */
    method AccumulatedEvents() returns (r: Option<map<string, seq<Accumulated>>>)
      ensures r == AccumulateAll(rawEvents)
    {
      var result: map<string, seq<Accumulated>> := map[];
      var names := rawEvents.Keys;
      while names != {}
        invariant names <= rawEvents.Keys
        invariant result.Keys == rawEvents.Keys - names
        invariant forall n :: n in result ==> Accumulate(rawEvents[n]) == Ok(result[n])
        decreases names
      {
        var name :| name in names;
        var events := rawEvents[name];
        var accumulated: seq<Accumulated> := [];
        var i := 0;
        while i < |events|
          invariant 0 <= i <= |events|
          invariant Accumulate(events[..i]) == Ok(accumulated)
        {
          var rawEvent := events[i];
          assert events[..i + 1][..i] == events[..i];
          if !rawEvent.Mutation? {
            accumulated := accumulated + [Kept(rawEvent)];
          } else {
            if accumulated == [] {
              AccumulatePrefixErr(events, i + 1);
              return None;
            }
            var previous := ValueAttr(accumulated[|accumulated| - 1]);
            if previous.None? {
              AccumulatePrefixErr(events, i + 1);
              return None;
            }
            accumulated := accumulated + [Valued(rawEvent, Apply(previous.value, rawEvent.delta))];
          }
          i := i + 1;
        }
        assert events[..i] == events;
        result := result[name := accumulated];
        names := names - {name};
      }
      assert result == map n | n in rawEvents :: Accumulate(rawEvents[n]).value;
      r := Some(result);
    }
  }

  // ----- the swap example of the tracing design -----

  const Foo: Value := 1
  const Bar: Value := 2
  const CreationX: Event := Creation("x", Foo, {}, "1")
  const CreationY: Event := Creation("y", Bar, {}, "3")
  const MutationX: Event := Mutation("x", Diff(Foo, Bar), {Source("y", 0)}, "2")
  const MutationY: Event := Mutation("y", Diff(Bar, Foo), {Source("x", 0)}, "4")

  /** The log after each of the four steps of the swap example. */
  lemma SwapSteps()
    ensures Classify(map[], EventInfo("x", MutationKind, {}), Foo, "1") == Ok(CreationX)
    ensures AppendCheck(map[], CreationX) == Pass
    ensures Append(map[], CreationX) == map["x" := [CreationX]]
    ensures Classify(map["x" := [CreationX]], EventInfo("y", MutationKind, {}), Bar, "3") == Ok(CreationY)
    ensures AppendCheck(map["x" := [CreationX]], CreationY) == Pass
    ensures Append(map["x" := [CreationX]], CreationY) == map["x" := [CreationX], "y" := [CreationY]]
    ensures Classify(map["x" := [CreationX], "y" := [CreationY]],
                     EventInfo("x", MutationKind, {Source("y", 0)}), Bar, "2") == Ok(MutationX)
    ensures AppendCheck(map["x" := [CreationX], "y" := [CreationY]], MutationX) == Pass
    ensures Append(map["x" := [CreationX], "y" := [CreationY]], MutationX)
         == map["x" := [CreationX, MutationX], "y" := [CreationY]]
    ensures Classify(map["x" := [CreationX, MutationX], "y" := [CreationY]],
                     EventInfo("y", MutationKind, {Source("x", 0)}), Foo, "4") == Ok(MutationY)
    ensures AppendCheck(map["x" := [CreationX, MutationX], "y" := [CreationY]], MutationY) == Pass
    ensures Append(map["x" := [CreationX, MutationX], "y" := [CreationY]], MutationY)
         == map["x" := [CreationX, MutationX], "y" := [CreationY, MutationY]]
  {
    var log1 := map["x" := [CreationX]];
    var log2 := map["x" := [CreationX], "y" := [CreationY]];
    var log3 := map["x" := [CreationX, MutationX], "y" := [CreationY]];
    var log4 := map["x" := [CreationX, MutationX], "y" := [CreationY, MutationY]];
    assert Events(map[], "x") + [CreationX] == [CreationX];
    assert Append(map[], CreationX) == log1;
    assert Events(log1, "y") + [CreationY] == [CreationY];
    assert Append(log1, CreationY) == log2;
    assert LatestValue(log2, "x") == Ok(Foo);
    assert Events(log2, "x") + [MutationX] == [CreationX, MutationX];
    assert Append(log2, MutationX) == log3;
    assert LatestValue(log3, "y") == Ok(Bar);
    assert Events(log3, "y") + [MutationY] == [CreationY, MutationY];
    assert Append(log3, MutationY) == log4;
  }

  /**
   * The swap example, traced on the final log: each Mutation traces to the
   * other name's Creation.
   */
  lemma SwapTraces()
    ensures TraceBack(map["x" := [CreationX, MutationX], "y" := [CreationY, MutationY]], MutationX) == Ok({"3"})
    ensures TraceBack(map["x" := [CreationX, MutationX], "y" := [CreationY, MutationY]], MutationY) == Ok({"1"})
  {
    var log := map["x" := [CreationX, MutationX], "y" := [CreationY, MutationY]];
    assert SourcesOf(MutationX) == {Source("y", 0)} && SourcesOf(MutationY) == {Source("x", 0)};
    assert Events(log, "y")[0] == CreationY && Events(log, "x")[0] == CreationX;
    OneSourceTrace(log, MutationX, Source("y", 0));
    OneSourceTrace(log, MutationY, Source("x", 0));
  }

  /**
   * The naive resolver on the same log, given the snapshots taken just
   * before each store: '2' still traces to '3', but '4' traces to '2'.
   */
  lemma SwapNaiveTraces(before2: Snapshot, before4: Snapshot)
    requires Pointer(before2, "y") == 0
    requires Pointer(before4, "x") == 1
    ensures NaiveTraceBack(before2, map["x" := [CreationX, MutationX], "y" := [CreationY, MutationY]], MutationX)
         == Ok({"3"})
    ensures NaiveTraceBack(before4, map["x" := [CreationX, MutationX], "y" := [CreationY, MutationY]], MutationY)
         == Ok({"2"})
  {
    var log := map["x" := [CreationX, MutationX], "y" := [CreationY, MutationY]];
    assert SourcesOf(MutationX) == {Source("y", 0)} && SourcesOf(MutationY) == {Source("x", 0)};
    assert Events(log, "y")[0] == CreationY && Events(log, "x")[1] == MutationX;
    OneSourceNaive(before2, log, MutationX, Source("y", 0));
    OneSourceNaive(before4, log, MutationY, Source("x", 0));
  }

  lemma OneSourceNaive(before: Snapshot, log: Log, e: Event, s: Source)
    requires SourcesOf(e) == {s}
    requires 0 <= Pointer(before, s.name) < |Events(log, s.name)|
    ensures NaiveTraceBack(before, log, e) == Ok({Events(log, s.name)[Pointer(before, s.name)].uid})
  {
    var naive := set x | x in SourcesOf(e) :: Events(log, x.name)[Pointer(before, x.name)].uid;
    assert naive == {Events(log, s.name)[Pointer(before, s.name)].uid};
  }

  lemma OneSourceTrace(log: Log, e: Event, s: Source)
    requires SourcesOf(e) == {s}
    requires s.index < |Events(log, s.name)|
    ensures TraceBack(log, e) == Ok({Events(log, s.name)[s.index].uid})
  {
    var traced := set x | x in SourcesOf(e) :: Events(log, x.name)[x.index].uid;
    assert traced == {Events(log, s.name)[s.index].uid};
  }

  /** One change notification whose classification and append are known in advance. */
  method RecordStep(frame: Frame, info: EventInfo, live: Value, uid: string, e: Event, next: Log)
    requires frame.Valid()
    requires Classify(frame.rawEvents, info, live, uid) == Ok(e)
    requires AppendCheck(frame.rawEvents, e) == Pass && Append(frame.rawEvents, e) == next
    modifies frame
    ensures frame.Valid() && frame.rawEvents == next
  {
    var r := frame.LogEvents(Some(info), live, uid);
  }

  /** `x = "foo"; y = "bar"` on a fresh frame. */
  method SwapCreations(frame: Frame)
    requires frame.Valid() && frame.rawEvents == map[]
    modifies frame
    ensures frame.Valid() && frame.rawEvents == map["x" := [CreationX], "y" := [CreationY]]
  {
    SwapSteps();
    RecordStep(frame, EventInfo("x", MutationKind, {}), Foo, "1", CreationX, map["x" := [CreationX]]);
    RecordStep(frame, EventInfo("y", MutationKind, {}), Bar, "3", CreationY,
               map["x" := [CreationX], "y" := [CreationY]]);
  }

  /**
   * `x, y = y, x`: both values are read, and bound to the latest snapshot,
   * before either is stored.  Returns the snapshots taken just before each
   * store.
   */
  method SwapAssignments(frame: Frame) returns (before2: Snapshot, before4: Snapshot)
    requires frame.Valid() && frame.rawEvents == map["x" := [CreationX], "y" := [CreationY]]
    modifies frame
    ensures frame.Valid() && frame.rawEvents == map["x" := [CreationX, MutationX], "y" := [CreationY, MutationY]]
    ensures Pointer(before2, "y") == 0 && Pointer(before4, "x") == 1
  {
    SwapSteps();
    var snap := frame.LatestSnapshot();
    before2 := snap;
    var fromY := Bind(snap, "y");
    var fromX := Bind(snap, "x");
    assert fromY == Source("y", 0) && fromX == Source("x", 0);
    RecordStep(frame, EventInfo("x", MutationKind, {fromY}), Bar, "2", MutationX,
               map["x" := [CreationX, MutationX], "y" := [CreationY]]);
    before4 := frame.LatestSnapshot();
    RecordStep(frame, EventInfo("y", MutationKind, {fromX}), Foo, "4", MutationY,
               map["x" := [CreationX, MutationX], "y" := [CreationY, MutationY]]);
  }

  /**
   * The swap example driven through the frame: `x = "foo"; y = "bar";
   * x, y = y, x`, with "foo" and "bar" stood for by 1 and 2.  Tracing the
   * two Mutations gives '2' -> {'3'} and '4' -> {'1'}; the naive resolver
   * gives '2' -> {'3'} and '4' -> {'2'}.
   */
  method SwapScenario() returns (trace2: Result<set<string>, Fault>, trace4: Result<set<string>, Fault>,
                                 naive2: Result<set<string>, Fault>, naive4: Result<set<string>, Fault>)
    ensures trace2 == Ok({"3"}) && trace4 == Ok({"1"})
    ensures naive2 == Ok({"3"}) && naive4 == Ok({"2"})
  {
    var frame := new Frame();
    SwapCreations(frame);
    var before2, before4 := SwapAssignments(frame);
    var log := frame.rawEvents;
    var mutationX, mutationY := log["x"][1], log["y"][1];
    assert mutationX == MutationX && mutationY == MutationY;
    SwapTraces();
    SwapNaiveTraces(before2, before4);
    trace2 := TraceBack(log, mutationX);
    trace4 := TraceBack(log, mutationY);
    naive2 := NaiveTraceBack(before2, log, mutationX);
    naive4 := NaiveTraceBack(before4, log, mutationY);
  }
}
