/**
 * The per-name event log of a frame (`raw_events`) and the pure queries over
 * it: membership with tombstones, value reconstruction by folding deltas, the
 * classification of a reported change, and the accumulated view.
 */
module EventLog {
  import opened Wrappers
  import opened Codec
  import opened Basis

  /** `raw_events`: each name's events in the order they were recorded. */
  type Log = map<string, seq<Event>>

  /** The events of `name`; a name never seen has none. */
  function Events(log: Log, name: string): seq<Event> {
    if name in log then log[name] else []
  }

  /** `raw_events[event.target].append(event)`. */
  function Append(log: Log, e: Event): (r: Log)
    ensures Events(r, e.target) == Events(log, e.target) + [e]
    ensures forall n :: n != e.target ==> Events(r, n) == Events(log, n)
    ensures r.Keys == log.Keys + {e.target}
  {
    log[e.target := Events(log, e.target) + [e]]
  }

  /** `name in raw_events`: some event was recorded and the last one is not a Deletion. */
  predicate Contains(log: Log, name: string)
    ensures Contains(log, name) ==> name in log && log[name] != []
  {
    var es := Events(log, name);
    if es == [] then false
    else if es[|es| - 1].Deletion? then false
    else true
  }

  /** Some Deletion was ever recorded for `name`. */
  predicate EverDeleted(log: Log, name: string) {
    exists i :: 0 <= i < |Events(log, name)| && Events(log, name)[i].Deletion?
  }

  lemma ContainsAfterDeletion(log: Log, name: string, uid: string)
    ensures !Contains(Append(log, Deletion(name, uid)), name)
    ensures forall n :: n != name ==> (Contains(Append(log, Deletion(name, uid)), n) <==> Contains(log, n))
  {
  }

  lemma ContainsAfterValue(log: Log, e: Event)
    requires !e.Deletion?
    ensures Contains(Append(log, e), e.target)
    ensures forall n :: n != e.target ==> (Contains(Append(log, e), n) <==> Contains(log, n))
  {
  }

  /**
   * The two checks `_add_new_event` makes before appending: the target is
   * not empty, and an InitialValue only goes to a name with no events.
   */
  function AppendCheck(log: Log, e: Event): (r: Outcome<Fault>)
    ensures r.Pass? <==> e.target != "" && (e.InitialValue? ==> Events(log, e.target) == [])
  {
    if e.target == "" then Fail(EmptyTarget)
    else if Events(log, e.target) != [] && e.InitialValue? then Fail(InitialValueTwice(e.target))
    else Pass
  }

  // ----- value reconstruction -----

  /**
   * The value after the last of `es`: the first event's full value, with the
   * delta of every later event applied in turn.  The earliest offending event
   * is the reported error.
   */
  function Rebuild(es: seq<Event>): (r: Result<Value, Fault>)
    requires |es| > 0
    ensures r.Err? ==>
      || (r.error == BadFirstEvent(es[0]) && !es[0].InitialValue? && !es[0].Creation?)
      || (r.error.NotAMutation? && r.error.event in es[1..] && !r.error.event.Mutation?)
    decreases |es|
  {
    if |es| == 1 then
      if es[0].InitialValue? || es[0].Creation? then Ok(es[0].value) else Err(BadFirstEvent(es[0]))
    else
      var prior := Rebuild(es[..|es| - 1]);
      var last := es[|es| - 1];
      if prior.Err? then prior
      else if !last.Mutation? then Err(NotAMutation(last))
      else Ok(Apply(prior.value, last.delta))
  }

  /** The shape `_latest_value_of` asserts: a full value, then only Mutations. */
  predicate Live(es: seq<Event>) {
    && |es| > 0
    && (es[0].InitialValue? || es[0].Creation?)
    && forall i :: 0 < i < |es| ==> es[i].Mutation?
  }

  /** `_latest_value_of(name)`. */
  function LatestValue(log: Log, name: string): (r: Result<Value, Fault>)
    ensures r.Ok? <==> Contains(log, name) && Live(Events(log, name))
    ensures r == Err(NotFound(name)) <==> !Contains(log, name)
  {
    if !Contains(log, name) then Err(NotFound(name))
    else
      RebuildOkIff(Events(log, name));
      Rebuild(Events(log, name))
  }

  lemma {:induction false} RebuildOkIff(es: seq<Event>)
    requires |es| > 0
    ensures Rebuild(es).Ok? <==> Live(es)
    decreases |es|
  {
    if |es| > 1 {
      var p := es[..|es| - 1];
      RebuildOkIff(p);
      assert forall i :: 0 <= i < |p| ==> p[i] == es[i];
    }
  }

  /** Once a prefix fails, the whole fold fails with the same error. */
  lemma {:induction false} RebuildPrefixErr(es: seq<Event>, j: nat)
    requires 1 <= j <= |es|
    requires Rebuild(es[..j]).Err?
    ensures Rebuild(es) == Rebuild(es[..j])
    decreases |es|
  {
    if j == |es| {
      assert es[..j] == es;
    } else {
      var p := es[..|es| - 1];
      assert p[..j] == es[..j];
      RebuildPrefixErr(p, j);
    }
  }

  /** Appending a Mutation applies its delta to the value rebuilt so far. */
  lemma RebuildAppendMutation(es: seq<Event>, m: Event)
    requires |es| > 0 && m.Mutation?
    requires Rebuild(es).Ok?
    ensures Rebuild(es + [m]) == Ok(Apply(Rebuild(es).value, m.delta))
  {
    assert (es + [m])[..|es|] == es;
  }

  // ----- timelines produced by the logging entry points -----

  /** No InitialValue after the first event. */
  predicate InitialOnce(es: seq<Event>) {
    forall i :: 0 < i < |es| ==> !es[i].InitialValue?
  }

  /**
   * The shape of a timeline built by the logging entry points when a name is
   * never re-created: a full value is only ever first, and a Mutation always
   * follows a non-Deletion.
   */
  predicate Tidy(es: seq<Event>) {
    && (|es| > 0 ==> !es[0].Mutation?)
    && forall i :: 0 < i < |es| ==>
      && !es[i].InitialValue? && !es[i].Creation?
      && (es[i].Mutation? ==> !es[i - 1].Deletion?)
  }

  predicate TidyLog(log: Log) {
    forall n :: n in log ==> Tidy(log[n])
  }

  lemma TidyPrefix(es: seq<Event>, k: nat)
    requires Tidy(es) && k <= |es|
    ensures Tidy(es[..k])
  {
  }

  /** A tidy timeline whose last event is not a Deletion has the Live shape. */
  lemma {:induction false} TidyLive(es: seq<Event>)
    requires Tidy(es) && |es| > 0 && !es[|es| - 1].Deletion?
    ensures Live(es)
    decreases |es|
  {
    if |es| > 1 {
      var p := es[..|es| - 1];
      TidyPrefix(es, |es| - 1);
      TidyLive(p);
    }
  }

  /** In a tidy log, `_latest_value_of` succeeds for every contained name. */
  lemma TidyLatestValue(log: Log, name: string)
    requires TidyLog(log) && Contains(log, name)
    ensures LatestValue(log, name).Ok?
  {
    TidyLive(Events(log, name));
    RebuildOkIff(Events(log, name));
  }

  lemma TidyAppend(es: seq<Event>, e: Event)
    requires Tidy(es)
    requires e.Mutation? ==> es != [] && !es[|es| - 1].Deletion?
    requires e.InitialValue? || e.Creation? ==> es == []
    ensures Tidy(es + [e])
  {
  }

  // ----- classification of a reported change (`log_events`) -----

  /**
   * The event `log_events` builds for a change to `info.target` whose live
   * value is `live`: a Deletion for a deletion, a Mutation holding the delta
   * from the latest value for a known name, a Creation with the full value
   * otherwise.  Rebuilding the latest value can fail.
   */
  function Classify(log: Log, info: EventInfo, live: Value, uid: string): (r: Result<Event, Fault>)
    ensures r.Err? <==> info.kind.MutationKind? && Contains(log, info.target) && LatestValue(log, info.target).Err?
    ensures r.Err? ==> r == Err(LatestValue(log, info.target).error)
    ensures r.Ok? ==> r.value.target == info.target && r.value.uid == uid && !r.value.InitialValue?
    ensures r.Ok? && !r.value.Deletion? ==> r.value.sources == info.sources
    ensures r.Ok? && r.value.Creation? ==> r.value.value == live
    ensures r.Ok? && r.value.Mutation? ==>
      LatestValue(log, info.target).Ok? && Apply(LatestValue(log, info.target).value, r.value.delta) == live
  {
    if info.kind.DeletionKind? then
      Ok(Deletion(info.target, uid))
    else if Contains(log, info.target) then
      match LatestValue(log, info.target)
      case Err(f) => Err(f)
      case Ok(v) => Ok(Mutation(info.target, Diff(v, live), info.sources, uid))
    else
      Ok(Creation(info.target, live, info.sources, uid))
  }

  /**
   * After recording the classified event, the latest value of the target is
   * the live value for an assignment, and the target is unknown for a deletion.
   */
  lemma LoggedValueIsLive(log: Log, info: EventInfo, live: Value, uid: string, e: Event)
    requires Classify(log, info, live, uid) == Ok(e)
    ensures e.target == info.target
    ensures info.kind.MutationKind? && !EverDeleted(log, info.target) ==>
      LatestValue(Append(log, e), info.target) == Ok(live)
    ensures info.kind.DeletionKind? ==> !Contains(Append(log, e), info.target)
    ensures e.Mutation? <==> info.kind.MutationKind? && Contains(log, info.target)
    ensures e.Creation? <==> info.kind.MutationKind? && !Contains(log, info.target)
    ensures e.Deletion? <==> info.kind.DeletionKind?
  {
    var t := info.target;
    var es := Events(log, t);
    if info.kind.DeletionKind? {
      ContainsAfterDeletion(log, t, uid);
    } else if Contains(log, t) {
      if !EverDeleted(log, t) {
        RebuildAppendMutation(es, e);
      }
    } else {
      assert e == Creation(t, live, info.sources, uid);
    }
  }

  /** Recording the classified event keeps a timeline tidy. */
  lemma ClassifyKeepsTidy(log: Log, info: EventInfo, live: Value, uid: string, e: Event)
    requires TidyLog(log)
    requires info.kind.MutationKind? ==> !EverDeleted(log, info.target)
    requires Classify(log, info, live, uid) == Ok(e)
    ensures TidyLog(Append(log, e))
  {
    TidyAppend(Events(log, info.target), e);
  }

  /**
   * The corner case the frame leaves open (delete, then create again): once
   * a name's last event is a Deletion, an assignment classifies as a Creation,
   * and after it the name is known again but its latest value cannot be rebuilt.
   * When the Deletion was the name's first event, the first-event check fails;
   * otherwise, after a full first value, a later event is not a Mutation.
   */
  lemma RecreationUnrebuildable(log: Log, info: EventInfo, live: Value, uid: string, e: Event)
    requires info.kind.MutationKind?
    requires Events(log, info.target) != [] && !Contains(log, info.target)
    requires Classify(log, info, live, uid) == Ok(e)
    ensures e == Creation(info.target, live, info.sources, uid)
    ensures Contains(Append(log, e), info.target)
    ensures LatestValue(Append(log, e), info.target).Err?
    ensures var first := Events(log, info.target)[0];
      !first.InitialValue? && !first.Creation? ==>
        LatestValue(Append(log, e), info.target) == Err(BadFirstEvent(first))
    ensures var first := Events(log, info.target)[0];
      first.InitialValue? || first.Creation? ==>
        LatestValue(Append(log, e), info.target).error.NotAMutation?
  {
    var es := Events(log, info.target);
    var es' := es + [e];
    assert es'[..|es|] == es;
    assert es'[0] == es[0];
    if !es[0].InitialValue? && !es[0].Creation? {
      assert es'[..1] == [es[0]];
      RebuildPrefixErr(es', 1);
    }
  }

  // ----- the accumulated view (`accumulated_events`) -----

  /** An entry of the accumulated view: an event kept as it is, or a Mutation with its value. */
  datatype Accumulated = Kept(event: Event) | Valued(event: Event, value: Value)

  /** The `.value` attribute of an entry; a Deletion has none. */
  function ValueAttr(a: Accumulated): Option<Value> {
    match a
    case Valued(_, v) => Some(v)
    case Kept(e) => if e.InitialValue? || e.Creation? then Some(e.value) else None
  }

  /**
   * The accumulated timeline: non-Mutation events kept, each Mutation paired
   * with the previous entry's value plus its delta.
   */
  function Accumulate(es: seq<Event>): (r: Result<seq<Accumulated>, Fault>)
    ensures r.Ok? ==> |r.value| == |es|
    ensures r.Err? ==>
      && (r.error.NoPreviousEntry? || r.error.NoPreviousValue?)
      && r.error.event in es && r.error.event.Mutation?
    decreases |es|
  {
    if es == [] then Ok([])
    else
      var prior := Accumulate(es[..|es| - 1]);
      var e := es[|es| - 1];
      if prior.Err? then prior
      else if !e.Mutation? then Ok(prior.value + [Kept(e)])
      else if prior.value == [] then Err(NoPreviousEntry(e))
      else match ValueAttr(prior.value[|prior.value| - 1])
        case None => Err(NoPreviousValue(e))
        case Some(v) => Ok(prior.value + [Valued(e, Apply(v, e.delta))])
  }

  /** The accumulated view of the whole log; None when some timeline raises. */
  function AccumulateAll(log: Log): (r: Option<map<string, seq<Accumulated>>>)
    ensures r.Some? ==> r.value.Keys == log.Keys && forall n :: n in log ==> |r.value[n]| == |log[n]|
    ensures r.None? ==> exists n, k :: n in log && 0 <= k < |log[n]| && log[n][k].Mutation?
  {
    if forall n :: n in log ==> Accumulate(log[n]).Ok? then
      Some(map n | n in log :: Accumulate(log[n]).value)
    else
      None
  }

  /**
   * The AttributeError case of `accumulated_events`: a Mutation whose previous
   * entry has no value comes right after a Deletion.
   */
  lemma {:induction false} AccumulateNoValue(es: seq<Event>)
    requires Accumulate(es).Err? && Accumulate(es).error.NoPreviousValue?
    ensures exists k :: 0 < k < |es| && es[k] == Accumulate(es).error.event && es[k - 1].Deletion?
    decreases |es|
  {
    var n := |es|;
    var p := es[..n - 1];
    if Accumulate(p).Err? {
      AccumulateNoValue(p);
      var k :| 0 < k < |p| && p[k] == Accumulate(p).error.event && p[k - 1].Deletion?;
      assert es[k] == p[k] && es[k - 1] == p[k - 1];
    } else {
      AccumulateShape(p);
      assert es[n - 2] == p[n - 2];
      assert es[n - 1] == Accumulate(es).error.event;
    }
  }

  lemma {:induction false} AccumulatePrefixErr(es: seq<Event>, j: nat)
    requires j <= |es|
    requires Accumulate(es[..j]).Err?
    ensures Accumulate(es) == Accumulate(es[..j])
    decreases |es|
  {
    if j == |es| {
      assert es[..j] == es;
    } else {
      var p := es[..|es| - 1];
      assert p[..j] == es[..j];
      AccumulatePrefixErr(p, j);
    }
  }

  /**
   * A successful accumulated timeline has one entry per event, for the same
   * event; exactly the Mutations get a value and every other event is kept.
   */
  lemma {:induction false} AccumulateShape(es: seq<Event>)
    requires Accumulate(es).Ok?
    ensures |Accumulate(es).value| == |es|
    ensures forall k :: 0 <= k < |es| ==> Accumulate(es).value[k].event == es[k]
    ensures forall k :: 0 <= k < |es| ==> (es[k].Mutation? <==> Accumulate(es).value[k].Valued?)
    ensures forall k :: 0 <= k < |es| && !es[k].Mutation? ==> Accumulate(es).value[k] == Kept(es[k])
    decreases |es|
  {
    if es != [] {
      var p := es[..|es| - 1];
      AccumulateShape(p);
      assert forall k :: 0 <= k < |p| ==> p[k] == es[k];
    }
  }

  /**
   * On a tidy timeline the accumulated view succeeds, keeps Deletions, and
   * gives every other entry the value rebuilt from the events up to it.
   */
  lemma {:induction false} AccumulateTidy(es: seq<Event>)
    requires Tidy(es)
    ensures Accumulate(es).Ok? && |Accumulate(es).value| == |es|
    ensures forall k :: 0 <= k < |es| && es[k].Deletion? ==> Accumulate(es).value[k] == Kept(es[k])
    ensures forall k :: 0 <= k < |es| && !es[k].Deletion? ==>
      Rebuild(es[..k + 1]).Ok? && ValueAttr(Accumulate(es).value[k]) == Some(Rebuild(es[..k + 1]).value)
    decreases |es|
  {
    if es != [] {
      var n := |es|;
      var p := es[..n - 1];
      TidyPrefix(es, n - 1);
      AccumulateTidy(p);
      assert n > 1 ==> p[..n - 1] == p;
      AccumulateTidyLast(es);
      var r := Accumulate(es).value;
      var rp := Accumulate(p).value;
      forall k | 0 <= k < n && es[k].Deletion?
        ensures r[k] == Kept(es[k])
      {
        if k < n - 1 {
          assert r[k] == r[..n - 1][k] == rp[k];
          assert p[k] == es[k];
        }
      }
      forall k | 0 <= k < n && !es[k].Deletion?
        ensures Rebuild(es[..k + 1]).Ok? && ValueAttr(r[k]) == Some(Rebuild(es[..k + 1]).value)
      {
        if k < n - 1 {
          assert r[k] == r[..n - 1][k] == rp[k];
          assert es[..k + 1] == p[..k + 1];
          assert p[k] == es[k];
        } else {
          assert es[..k + 1] == es;
        }
      }
    }
  }

  /**
   * One step of `AccumulateTidy`: given the accumulated view of all but the
   * last event of a tidy timeline, the last entry is computed as claimed.
   */
  lemma AccumulateTidyLast(es: seq<Event>)
    requires Tidy(es) && |es| > 0
    requires Accumulate(es[..|es| - 1]).Ok? && |Accumulate(es[..|es| - 1]).value| == |es| - 1
    requires |es| > 1 && !es[|es| - 2].Deletion? ==>
      Rebuild(es[..|es| - 1]).Ok? &&
      ValueAttr(Accumulate(es[..|es| - 1]).value[|es| - 2]) == Some(Rebuild(es[..|es| - 1]).value)
    ensures Accumulate(es).Ok? && |Accumulate(es).value| == |es|
    ensures Accumulate(es).value[..|es| - 1] == Accumulate(es[..|es| - 1]).value
    ensures es[|es| - 1].Deletion? ==> Accumulate(es).value[|es| - 1] == Kept(es[|es| - 1])
    ensures !es[|es| - 1].Deletion? ==>
      Rebuild(es).Ok? && ValueAttr(Accumulate(es).value[|es| - 1]) == Some(Rebuild(es).value)
  {
    var n := |es|;
    var p := es[..n - 1];
    var e := es[n - 1];
    if e.Mutation? {
      TidyPrefix(es, n - 1);
      TidyLive(p);
      RebuildOkIff(p);
      assert es[..n] == es;
    } else if !e.Deletion? {
      assert es[..1] == [e];
    }
  }

  /** On a tidy log the accumulated view succeeds and agrees with value reconstruction. */
  lemma AccumulateAllTidy(log: Log)
    requires TidyLog(log)
    ensures AccumulateAll(log).Some? && AccumulateAll(log).value.Keys == log.Keys
    ensures forall n, k :: n in log && 0 <= k < |log[n]| && !log[n][k].Deletion? ==>
      Rebuild(log[n][..k + 1]).Ok? && |AccumulateAll(log).value[n]| == |log[n]| &&
      ValueAttr(AccumulateAll(log).value[n][k]) == Some(Rebuild(log[n][..k + 1]).value)
  {
    forall n | n in log ensures Accumulate(log[n]).Ok? {
      AccumulateTidy(log[n]);
    }
    forall n, k | n in log && 0 <= k < |log[n]| && !log[n][k].Deletion?
      ensures Rebuild(log[n][..k + 1]).Ok? && |AccumulateAll(log).value[n]| == |log[n]|
      ensures ValueAttr(AccumulateAll(log).value[n][k]) == Some(Rebuild(log[n][..k + 1]).value)
    {
      AccumulateTidy(log[n]);
    }
  }

  // ----- counting events -----

  /** The number of events in the log, over all names. */
  ghost function TotalEvents(log: Log): nat
    decreases log.Keys
  {
    if log == map[] then 0
    else
      var n :| n in log;
      |log[n]| + TotalEvents(log - {n})
  }

  lemma {:induction false} TotalRemove(log: Log, n: string)
    requires n in log
    ensures TotalEvents(log) == |log[n]| + TotalEvents(log - {n})
    decreases log.Keys
  {
    var m :| m in log && TotalEvents(log) == |log[m]| + TotalEvents(log - {m});
    if m != n {
      TotalRemove(log - {m}, n);
      TotalRemove(log - {n}, m);
      assert log - {m} - {n} == log - {n} - {m};
    }
  }

  /** Each append adds exactly one event to the total. */
  lemma TotalAfterAppend(log: Log, e: Event)
    ensures TotalEvents(Append(log, e)) == TotalEvents(log) + 1
  {
    var r := Append(log, e);
    TotalRemove(r, e.target);
    assert r - {e.target} == log - {e.target};
    if e.target in log {
      TotalRemove(log, e.target);
    } else {
      assert log - {e.target} == log;
    }
  }
}
