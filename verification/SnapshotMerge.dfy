/** Which rows of a snapshot replace stored ones: the revision graph decides, not the clock. */
module SnapshotMerge {
  import opened ArchiveTables
  import opened Bytes
  import opened MessageJournal
  import opened Ranking
  import opened RevisionChain
  import opened RevisionGraph
  import opened Revisions
  import opened RowChanges
  import opened TextOrder
  import opened Wrappers

  /** preserveDestinationMedia. */
  function PreserveDestinationMedia(current: Message, incoming: Message): Message {
    if current.mediaPath == [] then incoming
    else incoming.(mediaPath := current.mediaPath, mediaSize := current.mediaSize)
  }

  /** canonicalRevisionOrder: an edit time, or for an edit without one the observation, may move the event later. */
  function CanonicalOrder(order: RevisionOrder, m: Message): RevisionOrder {
    if m.content.editTs > order.eventAt then order.(eventAt := m.content.editTs)
    else if m.content.editTs == 0 && order.eventType == Edited && order.observedAt > order.eventAt then
      order.(eventAt := order.observedAt)
    else order
  }

  /** Revisions of one message, with one payload if given, in row order. */
  function OrdersOf(rows: seq<Revision>, m: Id, payload: Option<Payload>): (orders: seq<RevisionOrder>) {
    if rows == [] then []
    else
      var rest, last := OrdersOf(rows[..|rows| - 1], m, payload), rows[|rows| - 1];
      if last.message == m && (payload.Some? ==> last.payload == payload.value) then rest + [OrderOf(last)] else rest
  }

  /** The preferred of some revisions. */
  ghost function Preferred(rows: seq<Revision>, m: Id, payload: Option<Payload>, links: Links): Option<RevisionOrder> {
    var orders := OrdersOf(rows, m, payload);
    if orders == [] then None else Some(Pick(orders, links))
  }

  /** Predecessors of stored revisions, then of the snapshot's. */
  function LinksOf(rows: seq<Revision>): Links {
    if rows == [] then map[] else LinksOf(rows[..|rows| - 1])[rows[|rows| - 1].id := rows[|rows| - 1].predecessor]
  }

  /** The time a row claims when no revision speaks for it. */
  function RowTime(m: Message): Time {
    if m.content.editTs == 0 then m.content.ts else m.content.editTs
  }

  /** Whether a snapshot row is written over the stored row of its message. */
  ghost predicate Selected(stored: seq<Revision>, snapshot: seq<Revision>, id: Id, current: Message, given: Message) {
    var links := LinksOf(stored + snapshot);
    var incoming := PreserveDestinationMedia(current, given);
    if PayloadOf(current) == PayloadOf(incoming) then true
    else
      var exact := Preferred(stored, id, Some(PayloadOf(current)), links);
      var currentOrder := if exact.Some? then exact else Preferred(stored, id, None, links);
      var same := Preferred(snapshot, id, Some(PayloadOf(incoming)), links);
      var incomingOrder := if same.None? && incoming.tomb.Deleted? then Preferred(snapshot, id, None, links) else same;
      if current.tomb.Deleted? && incoming.tomb.Live? then
        currentOrder.Some? && incomingOrder.Some? && Descends(links, incomingOrder.value.id, currentOrder.value.id)
      else if currentOrder.Some? && incomingOrder.Some? then
        Prefer(CanonicalOrder(incomingOrder.value, incoming), CanonicalOrder(currentOrder.value, current), links)
      else if incomingOrder.Some? then CanonicalOrder(incomingOrder.value, incoming).eventAt > RowTime(current)
      else RowTime(incoming) > RowTime(current)
  }

  /** The stored row after the merge wrote what it selected. */
  ghost function AfterMerge(stored: seq<Revision>, snapshot: seq<Revision>, id: Id, current: Message, given: Message): Message {
    if Selected(stored, snapshot, id, current, given) then RowFor(Some(current), PreserveDestinationMedia(current, given)) else current
  }

  // Histories that share a prefix.

  /** `rows` lists the revisions of message `m` of a table, whose chain is `c`. */
  ghost predicate Lists(rows: seq<Revision>, revs: Revs, m: Id, c: seq<Id>) {
    && Chain(revs, m, c) && c != []
    && (forall r :: r in rows && r.message == m ==> r.id in revs && revs[r.id] == r)
    && (forall e :: e in revs && revs[e].message == m ==> revs[e] in rows)
  }

  /** Following `links` from any revision of `l` walks down `l`. */
  ghost predicate Line(links: Links, l: seq<Id>) {
    forall i :: 0 <= i < |l| ==> LineAt(links, l, i)
  }

  ghost predicate LineAt(links: Links, l: seq<Id>, i: nat)
    requires i < |l|
  {
    l[i] != NONE && Parent(links, l[i]) == if i == 0 then NONE else l[i - 1]
  }

  lemma {:induction false} LineBack(links: Links, l: seq<Id>, i: nat, n: nat)
    requires Line(links, l) && i < |l|
    ensures Back(links, l[i], n) == if n <= i then l[i - n] else NONE
  {
    if n > 0 {
      LineBack(links, l, i, n - 1);
      if n - 1 <= i {
        assert LineAt(links, l, i - (n - 1));
      }
    }
  }

  /** On a line descent is position. */
  lemma LineDescends(links: Links, l: seq<Id>, i: nat, j: nat)
    requires Line(links, l) && i < |l| && j < |l| && (forall a, b :: 0 <= a < b < |l| ==> l[a] != l[b])
    ensures Descends(links, l[j], l[i]) <==> i < j
  {
    hide Back;
    assert LineAt(links, l, i) && LineAt(links, l, j);
    if i < j {
      LineBack(links, l, j, j - i);
    }
    forall n: nat | n > 0 && i >= j ensures Back(links, l[j], n) != l[i] {
      LineBack(links, l, j, n);
    }
  }

  lemma {:induction false} OrdersMember(rows: seq<Revision>, m: Id, payload: Option<Payload>, o: RevisionOrder)
    ensures o in OrdersOf(rows, m, payload) <==>
      exists r :: r in rows && r.message == m && (payload.Some? ==> r.payload == payload.value) && OrderOf(r) == o
  {
    if rows != [] {
      var init, last := rows[..|rows| - 1], rows[|rows| - 1];
      assert rows == init + [last];
      OrdersMember(init, m, payload, o);
    }
  }

  /** Among the listed revisions the last of the chain is preferred, and with a payload the last that has it. */
  lemma PreferredIsLast(rows: seq<Revision>, revs: Revs, m: Id, c: seq<Id>, links: Links, payload: Option<Payload>, k: nat)
    requires Lists(rows, revs, m, c) && Line(links, c) && k < |c|
    requires HasPayload(revs, c[k], payload) && forall i :: k < i < |c| ==> !HasPayload(revs, c[i], payload)
    ensures Preferred(rows, m, payload, links).Some? && Preferred(rows, m, payload, links).value.id == c[k]
  {
    hide Pick, Descends, Line;
    var orders, t := OrdersOf(rows, m, payload), OrderOf(revs[c[k]]);
    assert Linked(revs, m, c, k);
    OrdersMember(rows, m, payload, t);
    forall o | o in orders && o != t ensures Descends(links, t.id, o.id) && !Descends(links, o.id, t.id) {
      OrdersMember(rows, m, payload, o);
      var r :| r in rows && r.message == m && (payload.Some? ==> r.payload == payload.value) && OrderOf(r) == o;
      var i :| 0 <= i < |c| && c[i] == r.id;
      assert Linked(revs, m, c, i);
      LineDescends(links, c, i, k);
      LineDescends(links, c, k, i);
    }
    PickFindsDescendant(orders, links, t);
  }

  lemma {:induction false} NoOrders(rows: seq<Revision>, m: Id, payload: Option<Payload>)
    requires forall r :: r in rows && r.message == m ==> !(payload.Some? ==> r.payload == payload.value)
    ensures OrdersOf(rows, m, payload) == []
  {
    if rows != [] {
      NoOrders(rows[..|rows| - 1], m, payload);
    }
  }

  lemma NonePreferred(rows: seq<Revision>, revs: Revs, m: Id, c: seq<Id>, links: Links, payload: Option<Payload>)
    requires Lists(rows, revs, m, c) && forall i :: 0 <= i < |c| ==> !HasPayload(revs, c[i], payload)
    ensures Preferred(rows, m, payload, links).None?
  {
    hide Pick;
    forall r | r in rows && r.message == m ensures !(payload.Some? ==> r.payload == payload.value) {
      var i :| 0 <= i < |c| && c[i] == r.id;
      assert !HasPayload(revs, c[i], payload);
    }
    NoOrders(rows, m, payload);
  }

  /** When the last revision speaks for a row, it is what the merge takes for the row's revision. */
  lemma TipSpeaks(rows: seq<Revision>, revs: Revs, m: Id, c: seq<Id>, links: Links, row: Message)
    requires Lists(rows, revs, m, c) && Line(links, c) && Answers(revs, c, row)
    ensures var exact := Preferred(rows, m, Some(PayloadOf(row)), links);
      var any := Preferred(rows, m, None, links);
      && (exact.Some? ==> exact.value.id == c[|c| - 1])
      && (exact.Some? <==> HasPayload(revs, c[|c| - 1], Some(PayloadOf(row))))
      && any.Some? && any.value.id == c[|c| - 1]
  {
    hide Preferred, Line;
    var tip := c[|c| - 1];
    assert Linked(revs, m, c, |c| - 1);
    assert HasPayload(revs, tip, None);
    PreferredIsLast(rows, revs, m, c, links, None, |c| - 1);
    if HasPayload(revs, tip, Some(PayloadOf(row))) {
      PreferredIsLast(rows, revs, m, c, links, Some(PayloadOf(row)), |c| - 1);
    } else {
      NonePreferred(rows, revs, m, c, links, Some(PayloadOf(row)));
    }
  }

  // Fast-forward and no regression.

  /** A stored message and a snapshot of it: their revisions, their chains and their rows. */
  datatype Side = Side(rows: seq<Revision>, revs: Revs, chain: seq<Id>, row: Message)

  /** The rows list a chain whose last revision speaks for the row: it has the row's payload, or none has. */
  ghost predicate Told(s: Side, m: Id) {
    Lists(s.rows, s.revs, m, s.chain) && Answers(s.revs, s.chain, s.row)
  }

  /** What a snapshot's side has besides: a live row is what the last revision observed. */
  ghost predicate Offered(s: Side, m: Id) {
    Told(s, m) && (s.row.tomb.Live? ==> HasPayload(s.revs, s.chain[|s.chain| - 1], Some(PayloadOf(s.row))))
  }

  lemma {:induction false} LinksLookup(rows: seq<Revision>, e: Id)
    ensures e in LinksOf(rows) <==> exists r :: r in rows && r.id == e
    ensures e in LinksOf(rows) ==> exists r :: r in rows && r.id == e && LinksOf(rows)[e] == r.predecessor
  {
    if rows != [] {
      var init, last := rows[..|rows| - 1], rows[|rows| - 1];
      assert rows == init + [last];
      LinksLookup(init, e);
    }
  }

  /** Revisions with one id are one revision, as far as ids are content hashes. */
  lemma SameIdSameLink(hash: Hash, r: Revision, s: Revision)
    requires Injective(hash) && Hashed(hash, r) && Hashed(hash, s) && r.id == s.id
    ensures r.message == s.message && r.predecessor == s.predecessor && r.payload == s.payload
    ensures r.eventType == s.eventType && r.eventAt == s.eventAt
  {
  }

  /** Every revision named on either side is a content hash. */
  ghost predicate RowsHashed(rows: seq<Revision>, hash: Hash) {
    forall r :: r in rows ==> Hashed(hash, r)
  }

  /** The links of both sides together run along the chain of each. */
  lemma ChainIsLine(stored: seq<Revision>, snapshot: seq<Revision>, hash: Hash, side: Side, m: Id)
    requires Injective(hash) && RowsHashed(stored, hash) && RowsHashed(snapshot, hash)
    requires Lists(side.rows, side.revs, m, side.chain) && (side.rows == stored || side.rows == snapshot)
    ensures Line(LinksOf(stored + snapshot), side.chain)
  {
    hide Injective, Hashed, LinksOf;
    var both, c := stored + snapshot, side.chain;
    var links := LinksOf(both);
    forall i | 0 <= i < |c| ensures LineAt(links, c, i) {
      assert Linked(side.revs, m, c, i);
      var r := side.revs[c[i]];
      assert r in both;
      LinksLookup(both, c[i]);
      var s :| s in both && s.id == c[i] && links[c[i]] == s.predecessor;
      SameIdSameLink(hash, r, s);
    }
  }

  /** Both sides' tips, as the merge sees them. */
  ghost predicate TipsSpeak(a: Side, b: Side, m: Id, links: Links, given: Message) {
    var current, incoming := a.row, PreserveDestinationMedia(a.row, given);
    var exact := Preferred(a.rows, m, Some(PayloadOf(current)), links);
    var currentOrder := if exact.Some? then exact else Preferred(a.rows, m, None, links);
    var same := Preferred(b.rows, m, Some(PayloadOf(incoming)), links);
    var incomingOrder := if same.None? && incoming.tomb.Deleted? then Preferred(b.rows, m, None, links) else same;
    && a.chain != [] && b.chain != [] && currentOrder.Some? && incomingOrder.Some?
    && currentOrder.value.id == a.chain[|a.chain| - 1] && incomingOrder.value.id == b.chain[|b.chain| - 1]
  }

  lemma BothTips(a: Side, b: Side, hash: Hash, m: Id)
    requires Injective(hash) && Told(a, m) && Offered(b, m) && RowsHashed(a.rows, hash) && RowsHashed(b.rows, hash)
    ensures TipsSpeak(a, b, m, LinksOf(a.rows + b.rows), b.row)
    ensures Line(LinksOf(a.rows + b.rows), a.chain) && Line(LinksOf(a.rows + b.rows), b.chain)
    ensures Distinct(a.chain) && Distinct(b.chain)
  {
    hide Preferred, Line, Injective, RowsHashed, LinksOf, HasPayload;
    ChainIsLine(a.rows, b.rows, hash, a, m);
    ChainIsLine(a.rows, b.rows, hash, b, m);
    var links := LinksOf(a.rows + b.rows);
    TipSpeaks(a.rows, a.revs, m, a.chain, links, a.row);
    TipSpeaks(b.rows, b.revs, m, b.chain, links, b.row);
    MediaKeepsPayload(a.row, b.row);
  }

  lemma MediaKeepsPayload(current: Message, given: Message)
    ensures PayloadOf(PreserveDestinationMedia(current, given)) == PayloadOf(given)
    ensures PreserveDestinationMedia(current, given).tomb == given.tomb
  {
  }

  /** A snapshot's row written over a stored one, whose media file, if there is one, stays. */
  predicate Installed(before: Message, given: Message, after: Message) {
    WrittenOver(
      before,
      if |before.mediaPath| > 0 then given.(mediaPath := before.mediaPath, mediaSize := before.mediaSize) else given,
      after)
  }

  lemma SelectedInstalls(current: Message, given: Message)
    ensures Installed(current, given, RowFor(Some(current), PreserveDestinationMedia(current, given)))
  {
    hide WrittenOver, RowFor;
    RowIsWrittenOver(current, PreserveDestinationMedia(current, given));
  }

  /**
   When the stored history is a proper prefix of the snapshot's, the snapshot's row is written whatever the event times:
   for a deletion only its tombstone, otherwise the row with empty media fields filled from the stored one.
   */
  lemma FastForward(a: Side, b: Side, hash: Hash, m: Id)
    requires Injective(hash) && Told(a, m) && Offered(b, m) && RowsHashed(a.rows, hash) && RowsHashed(b.rows, hash)
    requires a.chain <= b.chain && a.chain != b.chain
    ensures Selected(a.rows, b.rows, m, a.row, b.row)
    ensures Installed(a.row, b.row, AfterMerge(a.rows, b.rows, m, a.row, b.row))
  {
    hide Preferred, Line, Injective, RowsHashed, LinksOf, Descends, Later, Told, Offered, RowFor, Installed, PreserveDestinationMedia;
    MediaKeepsPayload(a.row, b.row);
    SelectedInstalls(a.row, b.row);
    var links := LinksOf(a.rows + b.rows);
    BothTips(a, b, hash, m);
    LineDescends(links, b.chain, |a.chain| - 1, |b.chain| - 1);
    assert a.chain[|a.chain| - 1] == b.chain[|a.chain| - 1];
  }

  /**
   When the snapshot's history is a proper prefix of the stored one, the stored row's payload is unchanged whatever
   the event times.
   */
  lemma NeverRegresses(a: Side, b: Side, hash: Hash, m: Id)
    requires Injective(hash) && Told(a, m) && Offered(b, m) && RowsHashed(a.rows, hash) && RowsHashed(b.rows, hash)
    requires b.chain <= a.chain && a.chain != b.chain
    ensures PayloadOf(AfterMerge(a.rows, b.rows, m, a.row, b.row)) == PayloadOf(a.row)
  {
    hide Preferred, Line, Injective, RowsHashed, LinksOf, Descends, Later, Told, Offered;
    var links := LinksOf(a.rows + b.rows);
    BothTips(a, b, hash, m);
    LineDescends(links, a.chain, |b.chain| - 1, |a.chain| - 1);
    LineDescends(links, a.chain, |a.chain| - 1, |b.chain| - 1);
    assert a.chain[|b.chain| - 1] == b.chain[|b.chain| - 1];
    if PayloadOf(a.row) == PayloadOf(b.row) {
      SamePayloadRow(a.row, b.row);
    }
  }

  lemma SamePayloadRow(current: Message, given: Message)
    requires PayloadOf(current) == PayloadOf(given)
    ensures PayloadOf(RowFor(Some(current), PreserveDestinationMedia(current, given))) == PayloadOf(current)
  {
  }

  // Equal histories.

  /** The last revision of a side, as the merge orders it beside a row. */
  ghost function TipOrder(s: Side, row: Message): RevisionOrder
    requires s.chain != [] && s.chain[|s.chain| - 1] in s.revs
  {
    CanonicalOrder(OrderOf(s.revs[s.chain[|s.chain| - 1]]), row)
  }

  /** The snapshot's row differs and its time is later, although both sides end at the same revision. */
  ghost predicate Overtakes(a: Side, b: Side)
    requires a.chain != [] && a.chain[|a.chain| - 1] in a.revs && b.chain != [] && b.chain[|b.chain| - 1] in b.revs
  {
    var incoming := PreserveDestinationMedia(a.row, b.row);
    && PayloadOf(RowFor(Some(a.row), incoming)) != PayloadOf(a.row)
    && (a.row.tomb.Live? || b.row.tomb.Deleted?)
    && TipOrder(b, incoming).eventAt > TipOrder(a, a.row).eventAt
  }

  lemma SideEnd(s: Side, m: Id)
    requires Told(s, m)
    ensures s.chain != [] && s.chain[|s.chain| - 1] in s.revs
    ensures var r := s.revs[s.chain[|s.chain| - 1]]; r in s.rows && r.message == m && r.id == s.chain[|s.chain| - 1]
  {
    hide HasPayload;
    assert Linked(s.revs, m, s.chain, |s.chain| - 1);
  }

  /** A preferred revision is one of the rows. */
  lemma PreferredIsRow(rows: seq<Revision>, m: Id, payload: Option<Payload>, links: Links) returns (r: Revision)
    requires Preferred(rows, m, payload, links).Some?
    ensures r in rows && r.message == m && OrderOf(r) == Preferred(rows, m, payload, links).value
  {
    hide Pick;
    var orders := OrdersOf(rows, m, payload);
    PickIsMember(orders, links);
    OrdersMember(rows, m, payload, Pick(orders, links));
    r :| r in rows && r.message == m && OrderOf(r) == Pick(orders, links);
  }

  /** A preferred revision with the id of the tip is the tip. */
  lemma PreferredIsTip(s: Side, m: Id, payload: Option<Payload>, links: Links)
    requires Told(s, m) && Preferred(s.rows, m, payload, links).Some?
    requires Preferred(s.rows, m, payload, links).value.id == s.chain[|s.chain| - 1]
    ensures s.chain[|s.chain| - 1] in s.revs
    ensures Preferred(s.rows, m, payload, links).value == OrderOf(s.revs[s.chain[|s.chain| - 1]])
  {
    hide Preferred, HasPayload, Chain;
    SideEnd(s, m);
    var r := PreferredIsRow(s.rows, m, payload, links);
  }

  /** Between two sights of one revision only time decides. */
  lemma SameIdPrefer(x: RevisionOrder, y: RevisionOrder, links: Links)
    requires x.id == y.id
    ensures Prefer(x, y, links) <==> x.eventAt > y.eventAt
  {
    hide Back;
    LexAsymmetric(x.id, x.id);
  }

  lemma SameTipSelected(a: Side, b: Side, hash: Hash, m: Id)
    requires Injective(hash) && Told(a, m) && Offered(b, m) && RowsHashed(a.rows, hash) && RowsHashed(b.rows, hash)
    requires a.chain == b.chain && PayloadOf(a.row) != PayloadOf(b.row)
    ensures a.chain != [] && a.chain[|a.chain| - 1] in a.revs && b.chain[|b.chain| - 1] in b.revs
    ensures Selected(a.rows, b.rows, m, a.row, b.row) <==>
      (a.row.tomb.Live? || b.row.tomb.Deleted?)
      && TipOrder(b, PreserveDestinationMedia(a.row, b.row)).eventAt > TipOrder(a, a.row).eventAt
  {
    hide Preferred, Line, Injective, RowsHashed, LinksOf, Prefer, Lists, Answers, HasPayload;
    var links := LinksOf(a.rows + b.rows);
    var current, incoming := a.row, PreserveDestinationMedia(a.row, b.row);
    BothTips(a, b, hash, m);
    SideEnd(a, m);
    SideEnd(b, m);
    MediaKeepsPayload(a.row, b.row);
    var exact := Preferred(a.rows, m, Some(PayloadOf(current)), links);
    var same := Preferred(b.rows, m, Some(PayloadOf(incoming)), links);
    PreferredIsTip(a, m, if exact.Some? then Some(PayloadOf(current)) else None, links);
    PreferredIsTip(b, m, if same.None? && incoming.tomb.Deleted? then None else Some(PayloadOf(incoming)), links);
    SameIdPrefer(TipOrder(b, incoming), TipOrder(a, current), links);
  }

  /** With equal histories the payload is unchanged unless the snapshot's row overtakes the stored one. */
  lemma SameHistoryExactly(a: Side, b: Side, hash: Hash, m: Id)
    requires Injective(hash) && Told(a, m) && Offered(b, m) && RowsHashed(a.rows, hash) && RowsHashed(b.rows, hash)
    requires a.chain == b.chain
    ensures a.chain != [] && a.chain[|a.chain| - 1] in a.revs && b.chain[|b.chain| - 1] in b.revs
    ensures PayloadOf(AfterMerge(a.rows, b.rows, m, a.row, b.row)) == PayloadOf(a.row) <==> !Overtakes(a, b)
  {
    hide Selected, Told, Offered, Injective, RowsHashed, PayloadOf, RowFor, PreserveDestinationMedia, TipOrder;
    OfferedEnds(a, b, m);
    if PayloadOf(a.row) == PayloadOf(b.row) {
      SamePayloadRow(a.row, b.row);
    } else {
      SameTipSelected(a, b, hash, m);
    }
  }

  lemma OfferedEnds(a: Side, b: Side, m: Id)
    requires Told(a, m) && Offered(b, m)
    ensures a.chain != [] && a.chain[|a.chain| - 1] in a.revs && b.chain != [] && b.chain[|b.chain| - 1] in b.revs
  {
    hide Lists, Answers, HasPayload;
    SideEnd(a, m);
    SideEnd(b, m);
  }

  // Sides of archives whose last revisions record their rows.

  /** The last revision records the row; if it is a parent's deletion, the one before it records the live row. */
  ghost predicate TipRecorded(s: Side) {
    && s.chain != [] && s.chain[|s.chain| - 1] in s.revs
    && var tip := s.revs[s.chain[|s.chain| - 1]];
      Records(tip, s.row) && (tip.payload.Propagated? ==> LiveBefore(s.revs, s.chain, s.row))
  }

  predicate SameRecord(r: Revision, s: Revision) {
    r.payload == s.payload && r.eventType == s.eventType && r.eventAt == s.eventAt
  }

  ghost predicate AlikeAt(a: Side, b: Side, i: nat)
    requires i < |a.chain| && i < |b.chain|
  {
    a.chain[i] in a.revs && b.chain[i] in b.revs && SameRecord(a.revs[a.chain[i]], b.revs[b.chain[i]])
  }

  /** Rows recorded by the same history say the same, but for how a missing deletion source is written. */
  lemma AlikeContent(a: Side, b: Side)
    requires TipRecorded(a) && TipRecorded(b) && |a.chain| == |b.chain| && forall i :: 0 <= i < |a.chain| ==> AlikeAt(a, b, i)
    ensures a.row.content == b.row.content && (a.row.tomb.Live? <==> b.row.tomb.Live?)
    ensures a.row.tomb.Live? ==> PayloadOf(a.row) == PayloadOf(b.row)
    ensures a.row.tomb.Deleted? ==> a.revs[a.chain[|a.chain| - 1]].eventType == Deletion
  {
    hide IsParentReason;
    var last := |a.chain| - 1;
    assert AlikeAt(a, b, last);
    if a.revs[a.chain[last]].payload.Propagated? {
      assert AlikeAt(a, b, last - 1);
    }
  }

  /** So the snapshot's row never overtakes the stored one. */
  lemma AlikeKept(a: Side, b: Side)
    requires TipRecorded(a) && TipRecorded(b) && |a.chain| == |b.chain| && forall i :: 0 <= i < |a.chain| ==> AlikeAt(a, b, i)
    ensures !Overtakes(a, b)
  {
    hide Records, LiveBefore;
    AlikeContent(a, b);
    assert AlikeAt(a, b, |a.chain| - 1);
    if a.row.tomb.Live? {
      SamePayloadRow(a.row, b.row);
    }
  }

  /** One chain in two tables of content hashes is the same history. */
  lemma EqualChainsAlike(a: Side, b: Side, hash: Hash, m: Id)
    requires Injective(hash) && Lists(a.rows, a.revs, m, a.chain) && Lists(b.rows, b.revs, m, b.chain)
    requires RowsHashed(a.rows, hash) && RowsHashed(b.rows, hash) && a.chain == b.chain
    ensures forall i :: 0 <= i < |a.chain| ==> AlikeAt(a, b, i)
  {
    hide Injective, Hashed;
    forall i | 0 <= i < |a.chain| ensures AlikeAt(a, b, i) {
      assert Linked(a.revs, m, a.chain, i) && Linked(b.revs, m, b.chain, i);
      SameIdSameLink(hash, a.revs[a.chain[i]], b.revs[b.chain[i]]);
    }
  }

  /** Equal recorded histories never change a payload. */
  lemma SameHistory(a: Side, b: Side, hash: Hash, m: Id)
    requires Injective(hash) && Told(a, m) && Offered(b, m) && RowsHashed(a.rows, hash) && RowsHashed(b.rows, hash)
    requires TipRecorded(a) && TipRecorded(b) && a.chain == b.chain
    ensures PayloadOf(AfterMerge(a.rows, b.rows, m, a.row, b.row)) == PayloadOf(a.row)
  {
    hide Lists, Injective, RowsHashed, AfterMerge, TipRecorded, Overtakes, AlikeAt, Answers, HasPayload;
    EqualChainsAlike(a, b, hash, m);
    AlikeKept(a, b);
    SameHistoryExactly(a, b, hash, m);
  }
}
