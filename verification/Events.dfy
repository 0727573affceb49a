/** What the hashes of the assertion log are taken over (src/assertions.rs:28-75). */
module Events {
  import opened Prelude

  /** The SHA-256 of a byte string, as an injective constructor. */
  datatype Sha = Sha(of: string)

  datatype Scope = Scope(namespace: string, project: string, subject: string, predicate_: string)

  /** The identity of an event is the SHA-256 of its serialised form. */
  datatype EventId = EventId(event: Event)

  datatype Event = Event(
    scope: Scope,
    version: int,
    memoryId: int,
    evidence: Sha,
    value: Option<string>,
    validFrom: int,
    validUntil: Option<int>,
    supersedes: Option<EventId>,
    recordedAt: int,
    actor: string,
    previous: Option<EventId>)
}
