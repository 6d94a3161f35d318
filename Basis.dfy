/** The events a traced frame records, and the change notifications it consumes. */
module Basis {
  import opened Codec

  /**
   * A reference to the version of `name` that a change read: the index of the
   * event of `name` that was the latest one when the value was read.
   */
  datatype Source = Source(name: string, index: nat)

  /**
   * InitialValue and Creation carry a full value, Mutation only a delta from
   * the previous value, Deletion nothing (a tombstone).
   */
  datatype Event =
    | InitialValue(target: string, value: Value, uid: string)
    | Creation(target: string, value: Value, sources: set<Source>, uid: string)
    | Mutation(target: string, delta: Delta, sources: set<Source>, uid: string)
    | Deletion(target: string, uid: string)

  /** The type of change the instrumentation reports. */
  datatype EventKind = MutationKind | DeletionKind

  /** What the value stack emits for one instruction: target, type and sources. */
  datatype EventInfo = EventInfo(target: string, kind: EventKind, sources: set<Source>)

  /** The errors the frame raises. */
  datatype Fault =
    | EmptyTarget                      // `assert event.target`
    | InitialValueTwice(name: string)  // "InitialValue shouldn't be added twice"
    | NotFound(name: string)           // AttributeError: name does not exist in frame
    | BadFirstEvent(event: Event)      // first event is neither InitialValue nor Creation
    | NotAMutation(event: Event)       // a later event that is not a Mutation
    | NoPreviousEntry(event: Event)    // IndexError: a Mutation with nothing before it
    | NoPreviousValue(event: Event)    // AttributeError: a Mutation right after a Deletion
    | UnresolvedSource(uid: string)    // a source index past the end of its timeline

  /** The sources an event records; InitialValue and Deletion record none. */
  function SourcesOf(e: Event): set<Source> {
    if e.Creation? || e.Mutation? then e.sources else {}
  }
}
