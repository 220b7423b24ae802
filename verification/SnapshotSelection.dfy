/** Selecting the snapshot rows that a merge writes, as the merge does it. */
module SnapshotSelection {
  import opened ArchiveTables
  import opened Bytes
  import opened ImportBatch
  import opened MessageJournal
  import opened RevisionGraph
  import opened Revisions
  import opened SnapshotMerge
  import opened TextOrder
  import opened Wrappers

  datatype RevisionKey = RevisionKey(message: Id, payload: Payload)

  function Lookup<K, V>(m: map<K, V>, k: K): Option<V> {
    if k in m then Some(m[k]) else None
  }

  /** The preferred revision of each message, and of each of its payloads. */
  ghost predicate Folded(rows: seq<Revision>, links: Links, byPayload: map<RevisionKey, RevisionOrder>, tips: map<Id, RevisionOrder>) {
    && (forall k :: Lookup(byPayload, k) == Preferred(rows, k.message, Some(k.payload), links))
    && (forall m :: Lookup(tips, m) == Preferred(rows, m, None, links))
  }

  lemma PreferredStep(rows: seq<Revision>, r: Revision, m: Id, payload: Option<Payload>, links: Links)
    ensures var was, now := Preferred(rows, m, payload, links), Preferred(rows + [r], m, payload, links);
      if r.message == m && (payload.Some? ==> r.payload == payload.value) then
        now == Some(if was.Some? && !Prefer(OrderOf(r), was.value, links) then was.value else OrderOf(r))
      else now == was
  {
    hide Prefer;
    var all := rows + [r];
    assert all[..|all| - 1] == rows;
    var orders := OrdersOf(rows, m, payload);
    var more := orders + [OrderOf(r)];
    assert more[..|more| - 1] == orders;
  }

  /** Keeps the preferred of the revisions under one key. */
  method Keep<K(==)>(m: map<K, RevisionOrder>, k: K, order: RevisionOrder, links: Links) returns (n: map<K, RevisionOrder>)
    ensures n == m[k := if k in m && !Prefer(order, m[k], links) then m[k] else order]
  {
    hide Prefer;
    if k in m {
      var better := PreferRevisionOrder(order, m[k], links);
      if !better {
        assert m == m[k := m[k]];
        return m;
      }
    }
    return m[k := order];
  }

  method FoldRevisions(rows: seq<Revision>, links: Links)
    returns (byPayload: map<RevisionKey, RevisionOrder>, tips: map<Id, RevisionOrder>)
    ensures Folded(rows, links, byPayload, tips)
  {
    hide Prefer, Preferred;
    byPayload, tips := map[], map[];
    NothingFolded(links);
    for i := 0 to |rows|
      invariant Folded(rows[..i], links, byPayload, tips)
    {
      var r := rows[i];
      assert rows[..i + 1] == rows[..i] + [r];
      forall m, payload: Option<Payload> {
        PreferredStep(rows[..i], r, m, payload, links);
      }
      byPayload := Keep(byPayload, RevisionKey(r.message, r.payload), OrderOf(r), links);
      tips := Keep(tips, r.message, OrderOf(r), links);
    }
    assert rows[..|rows|] == rows;
  }

  lemma NothingFolded(links: Links)
    ensures Folded([], links, map[], map[])
  {
  }

  method CollectLinks(rows: seq<Revision>) returns (links: Links)
    ensures links == LinksOf(rows)
  {
    links := map[];
    for i := 0 to |rows|
      invariant links == LinksOf(rows[..i])
    {
      assert rows[..i + 1][..i] == rows[..i];
      links := links[rows[i].id := rows[i].predecessor];
    }
    assert rows[..|rows|] == rows;
  }

  /** Whether one snapshot row is written over the stored one. */
  method Replaces(ghost stored: seq<Revision>, ghost snapshot: seq<Revision>, id: Id, current: Message, given: Message, links: Links,
                  existingOrders: map<RevisionKey, RevisionOrder>, existingTips: map<Id, RevisionOrder>,
                  incomingOrders: map<RevisionKey, RevisionOrder>, incomingTips: map<Id, RevisionOrder>)
    returns (wins: bool)
    requires links == LinksOf(stored + snapshot)
    requires Folded(stored, links, existingOrders, existingTips) && Folded(snapshot, links, incomingOrders, incomingTips)
    ensures wins <==> Selected(stored, snapshot, id, current, given)
  {
    hide Prefer, Preferred, Descends, LinksOf, CanonicalOrder;
    var incoming := PreserveDestinationMedia(current, given);
    if PayloadOf(current) == PayloadOf(incoming) {
      return true;
    }
    var currentOrder := Lookup(existingOrders, RevisionKey(id, PayloadOf(current)));
    if currentOrder.None? {
      currentOrder := Lookup(existingTips, id);
    }
    var incomingOrder := Lookup(incomingOrders, RevisionKey(id, PayloadOf(incoming)));
    if incomingOrder.None? && incoming.tomb.Deleted? {
      incomingOrder := Lookup(incomingTips, id);
    }
    if current.tomb.Deleted? && incoming.tomb.Live? {
      if currentOrder.None? || incomingOrder.None? {
        return false;
      }
      wins := RevisionDescendsFrom(incomingOrder.value.id, currentOrder.value.id, links);
      return;
    }
    if currentOrder.Some? && incomingOrder.Some? {
      wins := PreferRevisionOrder(CanonicalOrder(incomingOrder.value, incoming), CanonicalOrder(currentOrder.value, current), links);
      return;
    }
    if incomingOrder.Some? {
      return CanonicalOrder(incomingOrder.value, incoming).eventAt > RowTime(current);
    }
    return RowTime(incoming) > RowTime(current);
  }

  /** The rows to write: new ones, and those that replace a stored row. */
  ghost function Mergeable(existing: map<Id, Message>, stored: seq<Revision>, snapshot: seq<Revision>, incoming: seq<MessageRow>):
    (merged: seq<MessageRow>)
  {
    if incoming == [] then []
    else
      var rest, last := Mergeable(existing, stored, snapshot, incoming[..|incoming| - 1]), incoming[|incoming| - 1];
      if last.id !in existing then rest + [last]
      else if Selected(stored, snapshot, last.id, existing[last.id], last.message) then
        rest + [MessageRow(last.id, PreserveDestinationMedia(existing[last.id], last.message))]
      else rest
  }

  /** mergeableSnapshotMessages; `stored` lists the revisions stored under the ids that the snapshot names. */
  method MergeableSnapshotMessages(existing: map<Id, Message>, stored: seq<Revision>, snapshot: seq<Revision>, incoming: seq<MessageRow>)
    returns (merged: seq<MessageRow>)
    ensures merged == Mergeable(existing, stored, snapshot, incoming)
  {
    hide Selected, Folded, LinksOf;
    var links := CollectLinks(stored + snapshot);
    var existingOrders, existingTips := FoldRevisions(stored, links);
    var incomingOrders, incomingTips := FoldRevisions(snapshot, links);
    merged := [];
    for i := 0 to |incoming|
      invariant merged == Mergeable(existing, stored, snapshot, incoming[..i])
    {
      assert incoming[..i + 1][..i] == incoming[..i];
      var row := incoming[i];
      if row.id !in existing {
        merged := merged + [row];
        continue;
      }
      var current := existing[row.id];
      var wins := Replaces(stored, snapshot, row.id, current, row.message, links,
                               existingOrders, existingTips, incomingOrders, incomingTips);
      if wins {
        merged := merged + [MessageRow(row.id, PreserveDestinationMedia(current, row.message))];
      }
    }
    assert incoming[..|incoming|] == incoming;
  }
}
