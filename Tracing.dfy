/**
 * Causal tracing with index-bound sources: every source names the exact
 * event of its identifier that was read, so tracing never re-derives the
 * "current latest" event of a source.
 */
module Tracing {
  import opened Wrappers
  import opened Basis
  import opened EventLog
  import opened Snapshots

  /** Every source of `e` indexes an event that exists in the log. */
  predicate Resolvable(log: Log, e: Event) {
    forall s :: s in SourcesOf(e) ==> s.index < |Events(log, s.name)|
  }

  /** The uids of the events `e` depends on: each source resolved to `events[name][index]`. */
  function TraceBack(log: Log, e: Event): (r: Result<set<string>, Fault>)
    ensures r.Ok? <==> Resolvable(log, e)
    ensures r.Err? ==> r.error == UnresolvedSource(e.uid)
    ensures r.Ok? ==> forall s :: s in SourcesOf(e) ==> Events(log, s.name)[s.index].uid in r.value
    ensures r.Ok? ==> forall u :: u in r.value ==>
      exists s :: s in SourcesOf(e) && s.index < |Events(log, s.name)| && Events(log, s.name)[s.index].uid == u
  {
    if Resolvable(log, e) then
      Ok(set s | s in SourcesOf(e) :: Events(log, s.name)[s.index].uid)
    else
      Err(UnresolvedSource(e.uid))
  }

  /** `later` is `log` with more events appended: every timeline of `log` is a prefix of the one in `later`. */
  ghost predicate Extends(later: Log, log: Log) {
    forall n :: Events(log, n) <= Events(later, n)
  }

  lemma AppendExtends(log: Log, e: Event)
    ensures Extends(Append(log, e), log)
  {
  }

  /** A trace, once resolvable, never changes as the frame records more events. */
  lemma TraceBackStable(log: Log, later: Log, e: Event)
    requires Extends(later, log)
    requires TraceBack(log, e).Ok?
    ensures TraceBack(later, e) == TraceBack(log, e)
  {
    forall s | s in SourcesOf(e)
      ensures s.index < |Events(later, s.name)| && Events(later, s.name)[s.index] == Events(log, s.name)[s.index]
    {
      SamePrefixEvent(log, later, s);
    }
    SameEventsSameTrace(log, later, e);
  }

  lemma SameEventsSameTrace(log: Log, later: Log, e: Event)
    requires Resolvable(log, e)
    requires forall s :: s in SourcesOf(e) ==>
      s.index < |Events(later, s.name)| && Events(later, s.name)[s.index] == Events(log, s.name)[s.index]
    ensures TraceBack(later, e) == TraceBack(log, e)
  {
    var a := set s | s in SourcesOf(e) :: Events(log, s.name)[s.index].uid;
    var b := set s | s in SourcesOf(e) :: Events(later, s.name)[s.index].uid;
    assert a == b;
  }

  lemma SamePrefixEvent(log: Log, later: Log, s: Source)
    requires Extends(later, log)
    requires s.index < |Events(log, s.name)|
    ensures s.index < |Events(later, s.name)| && Events(later, s.name)[s.index] == Events(log, s.name)[s.index]
  {
    assert Events(log, s.name) <= Events(later, s.name);
  }

  /**
   * The source the value stack records when it reads `name`: bound to the
   * pointer of `name` in the snapshot at the time of the read.
   */
  function Bind(snap: Snapshot, name: string): (s: Source)
    requires Pointer(snap, name) >= 0
    ensures s.name == name
  {
    Source(name, Pointer(snap, name))
  }

  /** A source bound against the latest snapshot resolves to the name's latest event at that moment. */
  lemma BindResolvesLatest(history: seq<Event>, log: Log, snaps: seq<Snapshot>, name: string)
    requires Consistent(history, log, snaps)
    requires Events(log, name) != []
    ensures Pointer(snaps[|snaps| - 1], name) >= 0
    ensures Bind(snaps[|snaps| - 1], name).index == |Events(log, name)| - 1
  {
    LatestPointer(history, log, snaps);
  }

  /**
   * The naive tracer of the docstring: each source name resolved to that
   * name's latest event in the snapshot taken just before `e`, ignoring the
   * index the source was bound to.
   */
  function NaiveTraceBack(before: Snapshot, log: Log, e: Event): (r: Result<set<string>, Fault>)
    ensures r.Ok? ==> forall s :: s in SourcesOf(e) ==>
      0 <= Pointer(before, s.name) < |Events(log, s.name)| &&
      Events(log, s.name)[Pointer(before, s.name)].uid in r.value
  {
    if forall s :: s in SourcesOf(e) ==> 0 <= Pointer(before, s.name) < |Events(log, s.name)| then
      Ok(set s | s in SourcesOf(e) :: Events(log, s.name)[Pointer(before, s.name)].uid)
    else
      Err(UnresolvedSource(e.uid))
  }
}
