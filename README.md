# Cyberbrain frame state, in Dafny

Cyberbrain traces a Python frame. Every change to a named variable is recorded
as an event:

- an `InitialValue` for a value that existed before tracing started;
- a `Creation` for the first assignment;
- a `Mutation`, which stores only the delta from the previous value;
- a `Deletion`, which is a tombstone.

Each event is appended to its name's list in `raw_events`. After every append
the frame adds a `Snapshot`: a map from each name to the index of that name's
latest event, where -1 means the name has not been seen yet. A name's current
value is rebuilt from its first event's full value by applying each later
delta in turn.

The project has one module per concern:

- `Codec`: the value/delta codec. Values are integers and a delta is an amount
  to add, so `Apply(v, Diff(v, w)) == w`.
- `Basis`: events, sources, the change notifications the instrumentation
  emits, and the errors the frame raises.
- `EventLog`: the per-name log as a value, and the pure queries over it:
  - membership with tombstones (`__contains__`);
  - value reconstruction (`_latest_value_of`) as a recursive fold;
  - the classification `log_events` performs;
  - the accumulated view (`accumulated_events`);
  - the timeline shape the logging entry points keep (`Tidy`).
- `Snapshots`: the snapshot map, and the invariant `Consistent`. It ties the
  snapshots and the log to the chronological sequence of appends.
- `Tracing`: index-bound sources, as sketched in the design notes of
  `get_tracing_result`. `TraceBack` resolves every source `(name, index)` to
  `events[name][index]`. `NaiveTraceBack` is the naive resolver the notes warn
  about.
- `Frames`: `class Frame`, which holds the mutable state:
  - `rawEvents`, `snapshots` and `latestSnapshot`;
  - a ghost `history` of every event in the order it was appended.

  Its methods are `_add_new_event`, `_latest_value_of`,
  `log_initial_value_events`, `log_events` and `accumulated_events`, each proved
  against the `EventLog` functions. The swap example of the tracing notes is
  driven through a `Frame` by `SwapScenario`.

Python's `assert` failures and raised exceptions become `Fail`/`Err` results
that carry a `Fault`. When a method fails, the frame's state is unchanged.

The `Frame` class docstring leaves one corner case open: a name deleted and then
assigned again. `log_events` then appends a `Creation` after the `Deletion`.
That makes the name known again, but `_latest_value_of` can no longer rebuild
it, because one of its assertions fails. When the Deletion was the name's first
event (a `del` of a name never recorded), the first-event assertion fails (line
160). Otherwise the later-events assertion fails (line 164).
`EventLog.RecreationUnrebuildable` proves this for every such log. `LogEvents` makes no assumption here. It only
limits its value-reconstruction and tidiness promises to names that were never
deleted.

## Model

| member | source | states |
|---|---|---|
| Codec.Diff | cyberbrain/frame.py:106-110 | Applying the diff of two values to the first yields the second. This is the one law of `Delta(diff=DeepDiff(a, b))` the frame relies on. |
| EventLog.Append | cyberbrain/frame.py:139 | Appending puts `e` at the end of its target's list. Every other name's list is unchanged. The key set gains only the target. |
| EventLog.AppendCheck | cyberbrain/frame.py:134-138 | `_add_new_event` accepts an event iff its target is non-empty and, for an InitialValue, the target has no events yet. The failure cases are EmptyTarget and InitialValueTwice, in that order. |
| EventLog.Contains | cyberbrain/frame.py:16-25 | A contained name has a non-empty event list in the log. The body returns false for an empty list or a trailing Deletion. |
| EventLog.ContainsAfterDeletion | cyberbrain/frame.py:16-25 | After appending a Deletion of `x`, `x` is not contained. Membership of every other name is unchanged. |
| EventLog.ContainsAfterValue | cyberbrain/frame.py:16-25 | After appending any non-Deletion event, its target is contained. Membership of every other name is unchanged. |
| EventLog.Rebuild | cyberbrain/frame.py:159-167 | A failed fold reports one of two errors. BadFirstEvent names the first event when it is neither InitialValue nor Creation. NotAMutation names a later event that is not a Mutation. |
| EventLog.RebuildOkIff | cyberbrain/frame.py:160-165 | The fold succeeds iff the first event is InitialValue or Creation and every later event is a Mutation. |
| EventLog.RebuildPrefixErr | cyberbrain/frame.py:160-165 | Once a prefix of the timeline fails, the whole fold fails with the same error. This is the early exit of the assertions. |
| EventLog.RebuildAppendMutation | cyberbrain/frame.py:162-165 | Appending a Mutation to a rebuildable timeline gives the previous value plus its delta. |
| EventLog.LatestValue | cyberbrain/frame.py:151-167 | `_latest_value_of` succeeds iff the name is contained and its timeline has the Live shape: a full value first, only Mutations after it. It fails with NotFound ("does not exist") exactly when the name is not contained. |
| EventLog.TidyLive | cyberbrain/frame.py:160-165 | A tidy timeline that does not end in a Deletion has the Live shape. |
| EventLog.TidyLatestValue | cyberbrain/frame.py:98-110 | In a tidy log, `_latest_value_of` succeeds for every known name. So the Mutation branch of `log_events` cannot fail. |
| EventLog.TidyAppend | cyberbrain/frame.py:65-130 | Appending a Mutation after a non-Deletion, or a full value to an empty timeline, keeps the timeline tidy. |
| EventLog.Classify | cyberbrain/frame.py:97-127 | The classified event has the reported target, the given uid and the reported sources, and is never an InitialValue. A Creation carries the live value. A Mutation's delta, applied to the latest value, gives the live value. Classification fails iff it is an assignment to a known name whose latest value cannot be rebuilt, and then with that reconstruction error. |
| EventLog.LoggedValueIsLive | cyberbrain/frame.py:97-127 | Classification has four outcomes. A deletion-type change gives a Deletion, after which the name is unknown. A mutation-type change to a known name gives a Mutation. One to an unknown name gives a Creation. Both directions are stated. After a mutation-type change to a never-deleted name, the rebuilt latest value is the live value. |
| EventLog.ClassifyKeepsTidy | cyberbrain/frame.py:97-130 | Recording a classified change keeps a tidy log tidy, unless it is an assignment to a deleted name. |
| EventLog.RecreationUnrebuildable | cyberbrain/frame.py:35-36 | An assignment to a deleted name is classified as a Creation. Afterwards the name is contained, but `_latest_value_of` fails on it. It fails with BadFirstEvent when the timeline did not start with a full value, e.g. a first-event Deletion. Otherwise it fails with NotAMutation. |
| EventLog.Accumulate | cyberbrain/frame.py:186-193 | A successful accumulated timeline has one entry per raw event. A failure is blamed on a Mutation of the timeline. Either it has no previous entry (NoPreviousEntry, the IndexError of `result[name][-1]`), or the previous entry has no value (NoPreviousValue). |
| EventLog.AccumulateNoValue | cyberbrain/frame.py:192 | A NoPreviousValue failure (the AttributeError of `.value`) is a Mutation that comes right after a Deletion. |
| EventLog.AccumulateAll | cyberbrain/frame.py:185-195 | The view has exactly the names of the log, each with one entry per raw event. The view is missing only when some name has a Mutation; a log without Mutations always accumulates. |
| EventLog.AccumulatePrefixErr | cyberbrain/frame.py:186-193 | Once a prefix of the timeline fails to accumulate, the whole timeline fails with the same error. |
| EventLog.AccumulateShape | cyberbrain/frame.py:186-193 | A successful accumulated timeline has one entry per raw event, for the same event. Exactly the Mutations get a value. Every other event is kept unchanged. |
| EventLog.AccumulateTidy | cyberbrain/frame.py:170-195 | On a tidy timeline, accumulation succeeds and keeps Deletions. Every other entry carries the value rebuilt from the raw events up to and including it, i.e. previous value plus delta. |
| EventLog.AccumulateAllTidy | cyberbrain/frame.py:170-195 | On a tidy log, the accumulated view exists, has the same names, and agrees entry by entry with value reconstruction. |
| EventLog.TotalAfterAppend | cyberbrain/frame.py:139 | Every append adds exactly one event to the total over all names. |
| Snapshots.Pointer | cyberbrain/frame.py:48-50 | The seed snapshot points every name at -1 (`_INITIAL_STATE`), the default of its pointer dictionary. |
| Snapshots.Advance | cyberbrain/frame.py:142-144 | The new pointer map is a copy: the target's pointer goes up by 1, and every other pointer is unchanged. |
| Snapshots.ConsistentSeed | cyberbrain/frame.py:47-51 | The empty log with the all -1 seed snapshot satisfies the frame invariant. |
| Snapshots.ConsistentAppend | cyberbrain/frame.py:134-146 | An append that passes both checks keeps the frame invariant. The invariant has six parts: one snapshot per event after the seed; no event has an empty target; each name's list is the history restricted to it; no name is empty or has a second InitialValue; the total count matches; snapshot i's pointers count the first i events. |
| Snapshots.LatestPointer | cyberbrain/frame.py:142-146 | In the last snapshot, every name points at its last event: `pointer[t] == len(raw_events[t]) - 1`, and -1 for an unseen name. |
| Snapshots.SnapshotStep | cyberbrain/frame.py:142-146 | Consecutive snapshots differ in exactly one pointer, that of the event appended between them, and only by +1. |
| Snapshots.ProjectPrefix | cyberbrain/frame.py:139 | The events of a name recorded by some moment are a prefix of that name's final list. Lists only grow. |
| Snapshots.SnapshotIndexesPast | cyberbrain/frame.py:261-276 | Any snapshot is a point-in-time view. Its pointer for a name indexes an event that still exists. The name's list up to that index is exactly what had been recorded at that moment. |
| Tracing.TraceBack | cyberbrain/frame.py:236-246 | Tracing succeeds iff every source index exists, else it gives UnresolvedSource. On success the result is exactly the uids of the indexed events, in both directions. |
| Tracing.AppendExtends | cyberbrain/frame.py:139 | An append only extends every name's list. |
| Tracing.TraceBackStable | cyberbrain/frame.py:236-246 | A resolvable trace never changes while the frame records more events. |
| Tracing.BindResolvesLatest | cyberbrain/frame.py:240-244 | A source bound against the latest snapshot indexes the name's latest event at the moment of the read. |
| Tracing.NaiveTraceBack | cyberbrain/frame.py:225-231 | The naive resolver maps every source to the event its name's pointer designated just before the change. |
| Frames.Frame.constructor | cyberbrain/frame.py:39-52 | A new frame has no events, one seed snapshot, which is also the latest, and satisfies the invariant. |
| Frames.Frame.LatestSnapshot | cyberbrain/frame.py:61-63 | `latest_snapshot` is the last element of `snapshots`. It points every name at its last event. |
| Frames.Frame.Knows | cyberbrain/frame.py:148-149 | `_knows(name)` holds iff `_latest_value_of(name)` does not fail with "does not exist". |
| Frames.Frame.AddNewEvent | cyberbrain/frame.py:134-146 | The result is the outcome of the two checks. On failure, nothing changes. On success, the event is appended to its target only. Exactly one snapshot is added, the advanced copy of the previous one, and it becomes the latest. Earlier snapshots stay as they were. The invariant and `len(snapshots) == 1 + total events` hold. |
| Frames.Frame.LatestValueOf | cyberbrain/frame.py:151-167 | The accumulator loop returns exactly the fold `LatestValue`, including each of its three errors. |
| Frames.Frame.LogInitialValue | cyberbrain/frame.py:65-84 | Excluded names, names absent from the live frame, and known names are ignored. Otherwise an InitialValue with the live value goes through `_add_new_event`. On success, it is the name's latest value. Tidiness is kept. |
| Frames.Frame.LogEvents | cyberbrain/frame.py:86-132 | No notification means nothing changes. Otherwise the classified event goes through `_add_new_event`, or a reconstruction error is returned with nothing changed. After a mutation-type change to a never-deleted name, the latest value is the live value. After a deletion, the name is unknown. On a tidy log, the call fails exactly when the target is empty. |
| Frames.Frame.AccumulatedEvents | cyberbrain/frame.py:169-195 | The nested loops compute exactly `AccumulateAll` of the current log. The method modifies nothing, so two calls give equal results. |
| Frames.SwapSteps | cyberbrain/frame.py:200-216 | The four events of `x = "foo"; y = "bar"; x, y = y, x` are classified as two Creations, then two Mutations. Each is accepted; the logs after each step are stated. |
| Frames.SwapTraces | cyberbrain/frame.py:218-223 | On the final swap log, index-bound tracing gives `'2' -> {'3'}` and `'4' -> {'1'}`. |
| Frames.SwapNaiveTraces | cyberbrain/frame.py:225-231 | Given the snapshots taken just before each store, the naive resolver gives `'2' -> {'3'}` and `'4' -> {'2'}`. |
| Frames.SwapScenario | cyberbrain/frame.py:200-246 | The swap example driven through a `Frame`. Sources are bound to the latest snapshot before either store. The traces are `{'2': {'3'}, '4': {'1'}}`, and the naive results are `{'2': {'3'}, '4': {'2'}}`. |

## Left out

- DeepDiff and Delta: a foreign library over arbitrary Python objects. They are replaced by the additive integer codec in `Codec`. The strings "foo" and "bar" of the swap example are stood for by 1 and 2.
- Live-frame inspection in `log_initial_value_events` (`Tracer` objects, `f_builtins`, `f_locals`, `name_exist_in_frame`, the deep copy): these become inputs. One is the set `excluded` of ignored names. The other is `live`, the copied value, or `None` when the name does not exist in the frame.
- `value_stack.emit_event_and_update_stack`, the bytecode instrumentation: its `event_info` (target, type, sources) is an input of `LogEvents`. Its live value `get_value_from_frame` is an input too. `value_stack.py` is not part of this model. The value stack is taken to report only the Mutation and Deletion types (`EventKind`). Any other type falls through the `if`/`elif` at lines 97-127 of `cyberbrain/frame.py` with `event` unbound, and line 130 raises UnboundLocalError. That path is not modelled.
- Event uids: `basis.py` generates them, and it is not part of this model. Callers pass the uid in.
- `filename`, `offset_to_lineno`, line numbers, `Snapshot.location` and `del frame`: display and memory details, with no effect on the state.
- `parent` and `children`: declared in `__init__` and never used in this file.
- The `defaultdict` side effect of `self[name]` in `__contains__` (an empty list inserted on lookup): a missing name is treated as one whose list is empty.
- `get_tracing_result` itself: it has only a docstring. The index-bound `TraceBack` and the naive resolver model the design the docstring describes.
- `accumulated_events` errors: an IndexError (a Mutation first) or an AttributeError (a Mutation right after a Deletion), under which the source raises. The model returns `None` for the whole view. Which exception Python would raise first depends on dictionary order and is not modelled.
- Frames.Frame.LogEvents: the reconstruction and tidiness promises are stated only for names that were never deleted. Re-creation after a deletion is the open corner case of the `Frame` class docstring. `EventLog.RecreationUnrebuildable` states what the code does there instead.
- Python value aliasing: values are immutable integers here. Sharing between the live frame and recorded events is not modelled.
