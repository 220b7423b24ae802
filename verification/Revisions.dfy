/** Revisions: what they record, and the content hash that names them. */
module Revisions {
  import opened ArchiveTables
  import opened Bytes
  import opened RevisionGraph
  import opened TextOrder

  /** What a revision records: the whole message, or only that a parent's deletion reached it. */
  datatype Payload =
    | Observed(content: Content, tomb: Tombstone)
    | Propagated(message: Id, at: Time, source: Text, reason: Text)

  /** messageRevisionPayload. */
  function PayloadOf(m: Message): Payload {
    Observed(m.content, m.tomb)
  }

  datatype Revision = Revision(id: Id, message: Id, eventType: EventType, eventAt: Time, observedAt: Time, payload: Payload,
                               predecessor: Id)

  /** stableRevisionEventID: a hash of everything that identifies a revision, its predecessor included. */
  type Hash = (Id, EventType, Time, Payload, Id) -> Id

  ghost predicate Injective(hash: Hash) {
    && (forall m, t, a, p, e :: hash(m, t, a, p, e) != NONE)
    && (forall m, t, a, p, e, m', t', a', p', e' ::
          hash(m, t, a, p, e) == hash(m', t', a', p', e') ==> m == m' && t == t' && a == a' && p == p' && e == e')
  }

  function HashWith(hash: Hash, r: Revision, message: Id, predecessor: Id): Id {
    hash(message, r.eventType, r.eventAt, r.payload, predecessor)
  }

  /** A revision's id is the hash of its content. */
  predicate Hashed(hash: Hash, r: Revision) {
    r.id == HashWith(hash, r, r.message, r.predecessor)
  }

  function OrderOf(r: Revision): RevisionOrder {
    RevisionOrder(r.eventAt, r.observedAt, r.id, r.eventType, r.predecessor)
  }
}
