/** Writing messages: the row, its revision and its search index entry. */
module MessageJournal {
  import opened ArchiveTables
  import opened Bytes
  import opened Ranking
  import opened RevisionChain
  import opened RevisionGraph
  import opened Revisions
  import opened TextOrder
  import opened Wrappers

  /** What the search index holds for a message. */
  datatype Entry = Entry(text: Text, mediaTitle: Text, metadata: Text, chat: Text, sender: Text, media: Text)

  function EntryOf(m: Message): Entry {
    Entry(m.content.text, m.content.mediaTitle, m.content.metadata, m.content.chatName, m.content.sender, m.content.mediaType)
  }

  type Index = map<Id, Entry>

  /** The entry holds these fields of the message. */
  predicate Indexes(entry: Entry, c: Content) {
    && entry.text == c.text && entry.mediaTitle == c.mediaTitle && entry.metadata == c.metadata
    && entry.chat == c.chatName && entry.sender == c.sender && entry.media == c.mediaType
  }

  /** One entry per live message, from its current row, and none for deleted ones. */
  predicate IndexAgrees(messages: map<Id, Message>, index: Index) {
    && (forall e :: e in index ==> e in messages && messages[e].tomb.Live? && Indexes(index[e], messages[e].content))
    && (forall e :: e in messages && messages[e].tomb.Live? ==> e in index)
  }

  /** Message rows, revisions and, for each message, its revisions in order. */
  datatype Journal = Journal(messages: map<Id, Message>, revs: Revs, chains: map<Id, seq<Id>>)

  function Stored(messages: map<Id, Message>, id: Id): Option<Message> {
    if id in messages then Some(messages[id]) else None
  }

  /** mergeStoredMedia: empty media fields are filled from the stored row. */
  function MergeStoredMedia(current: Message, incoming: Message): Message {
    var c, d := current.content, incoming.content;
    var filled := d.(
      mediaType := if d.mediaType == [] then c.mediaType else d.mediaType,
      mediaTitle := if d.mediaTitle == [] then c.mediaTitle else d.mediaTitle,
      mediaUrl := if d.mediaUrl == [] then c.mediaUrl else d.mediaUrl);
    if incoming.mediaPath == [] then
      incoming.(content := filled, mediaPath := current.mediaPath, mediaSize := current.mediaSize)
    else incoming.(content := filled)
  }

  /** The row a message is written as: a deletion keeps the stored text and brings only its tombstone. */
  function RowFor(stored: Option<Message>, incoming: Message): Message {
    match stored
    case None => incoming
    case Some(current) =>
      if incoming.tomb.Deleted? then current.(tomb := incoming.tomb) else MergeStoredMedia(current, incoming)
  }

  /** The upsert of a row, which again keeps stored media where the new row has none. */
  function Upserted(stored: Option<Message>, row: Message): Message {
    match stored
    case None => row
    case Some(current) =>
      var c, d := current.content, row.content;
      row.(
        content := d.(
          mediaType := if d.mediaType == [] then c.mediaType else d.mediaType,
          mediaTitle := if d.mediaTitle == [] then c.mediaTitle else d.mediaTitle,
          mediaUrl := if d.mediaUrl == [] then c.mediaUrl else d.mediaUrl),
        mediaPath := if row.mediaPath == [] then current.mediaPath else row.mediaPath,
        mediaSize := if row.mediaPath == [] then current.mediaSize else row.mediaSize)
  }

  lemma UpsertWritesRow(stored: Option<Message>, incoming: Message)
    ensures Upserted(stored, RowFor(stored, incoming)) == RowFor(stored, incoming)
  {
  }

  /** What kind of event writing the row is, and when it happened. */
  function EventFor(row: Message, hasPrevious: bool): (EventType, Time) {
    if row.tomb.Deleted? then (Deletion, if row.tomb.at == 0 then row.content.ts else row.tomb.at)
    else if !hasPrevious then (Created, row.content.ts)
    else (Edited, if row.content.editTs == 0 then row.content.ts else row.content.editTs)
  }

  // What a deletion that came from a parent is recorded as.

  function OrElse(t: Text, default: Text): Text {
    if t == [] then default else t
  }

  const UNKNOWN := Ascii("unknown")
  const PARENT_ENTITY := Ascii("parent-entity-deleted")

  function DeletionPayload(id: Id, tomb: Tombstone): Payload
    requires tomb.Deleted?
  {
    Propagated(id, tomb.at, OrElse(tomb.source, UNKNOWN), OrElse(tomb.reason, PARENT_ENTITY))
  }

  // What every write keeps.

  /** Every message has a chain that holds all its revisions, and ids are content hashes. */
  ghost predicate Chained(j: Journal, hash: Hash) {
    && Injective(hash) && AllHashed(j.revs, hash)
    && j.chains.Keys == j.messages.Keys
    && (forall id :: id in j.chains ==> j.chains[id] != [] && Chain(j.revs, id, j.chains[id]))
    && (forall e :: e in j.revs ==> j.revs[e].message in j.messages)
  }

  ghost function ChainOf(j: Journal, id: Id): seq<Id> {
    if id in j.chains then j.chains[id] else []
  }

  /** The last revision of a message. */
  ghost function Tip(j: Journal, id: Id): Revision
    requires id in j.chains && j.chains[id] != [] && j.chains[id][|j.chains[id]| - 1] in j.revs
  {
    j.revs[j.chains[id][|j.chains[id]| - 1]]
  }

  /** A tip records its row, or the parent's deletion that reached it. */
  ghost predicate Records(tip: Revision, row: Message) {
    || (tip.payload == PayloadOf(row) && (tip.eventType == Deletion <==> row.tomb.Deleted?)
        && (row.tomb.Deleted? ==> tip.eventAt == row.tomb.at))
    || (tip.eventType == Deletion && row.tomb.Deleted? && IsParentReason(row.tomb.reason)
        && tip.eventAt == row.tomb.at && tip.payload.Propagated?
        && tip.payload == DeletionPayload(tip.payload.message, row.tomb))
  }

  /** The last revision but one records the row as it was when it was live. */
  ghost predicate LiveBefore(revs: Revs, c: seq<Id>, row: Message) {
    |c| >= 2 && c[|c| - 2] in revs && revs[c[|c| - 2]].payload == Observed(row.content, Live)
  }

  /** Not yet recorded: a parent's deletion reached a row whose tip is the live row. */
  ghost predicate Unrecorded(tip: Revision, row: Message) {
    && row.tomb.Deleted? && IsParentReason(row.tomb.reason)
    && tip.payload == Observed(row.content, Live) && tip.eventType != Deletion
  }

  ghost predicate TipIn(j: Journal, id: Id) {
    id in j.messages && id in j.chains && j.chains[id] != [] && j.chains[id][|j.chains[id]| - 1] in j.revs
  }

  ghost predicate TipRecords(j: Journal, id: Id) {
    && TipIn(j, id) && Records(Tip(j, id), j.messages[id])
    && (Tip(j, id).payload.Propagated? ==> LiveBefore(j.revs, j.chains[id], j.messages[id]))
  }

  ghost predicate Faithful(j: Journal) {
    forall id :: id in j.messages ==> TipRecords(j, id)
  }

  /** No message was observed with a deletion that came from a parent, nor with the zero time. */
  ghost predicate OwnReasons(revs: Revs) {
    forall e :: e in revs && revs[e].payload.Observed? && revs[e].payload.tomb.Deleted? ==>
      !IsParentReason(revs[e].payload.tomb.reason)
  }

  ghost predicate Sound(j: Journal, hash: Hash) {
    Chained(j, hash) && Faithful(j) && OwnReasons(j.revs)
  }

  /** Chains only grow at their tips. */
  ghost predicate Grown(j: Journal, k: Journal) {
    forall id :: id in j.chains ==> id in k.chains && j.chains[id] <= k.chains[id]
  }

  lemma GrownTransitive(a: Journal, b: Journal, c: Journal)
    requires Grown(a, b) && Grown(b, c)
    ensures Grown(a, c)
  {
    forall id | id in a.chains ensures id in c.chains && a.chains[id] <= c.chains[id] {
      var x, y, z := a.chains[id], b.chains[id], c.chains[id];
      assert y == z[..|y|] && x == y[..|x|];
      assert x == z[..|x|];
    }
  }

  // Appending one revision.

  ghost function Appended(j: Journal, r: Revision): Journal {
    j.(revs := InsertRevision(j.revs, r), chains := j.chains[r.message := ChainOf(j, r.message) + [r.id]])
  }

  ghost predicate Follows(j: Journal, hash: Hash, r: Revision) {
    var c := ChainOf(j, r.message);
    Hashed(hash, r) && r.predecessor == if c == [] then NONE else c[|c| - 1]
  }

  lemma NoRevisionsYet(j: Journal, hash: Hash, id: Id)
    requires Chained(j, hash)
    ensures Chain(j.revs, id, ChainOf(j, id))
  {
    hide Injective, AllHashed;
  }

  /** A revision that follows the tip of its message extends that chain only. */
  lemma AppendedChains(j: Journal, hash: Hash, r: Revision)
    requires Chained(j, hash) && Follows(j, hash, r)
    ensures r.id !in j.revs
    ensures var k := Appended(j, r);
      && AllHashed(k.revs, hash) && (forall e :: e in k.revs ==> e == r.id || e in j.revs)
      && (forall id :: id in k.chains ==> k.chains[id] != [] && Chain(k.revs, id, k.chains[id]))
  {
    hide Chain, Hashed, Injective, AllHashed, InsertRevision;
    var m, c := r.message, ChainOf(j, r.message);
    NoRevisionsYet(j, hash, m);
    AppendExtends(j.revs, hash, m, c, r);
    var k := Appended(j, r);
    forall id | id in k.chains ensures k.chains[id] != [] && Chain(k.revs, id, k.chains[id]) {
      if id != m {
        AppendKeepsOthers(j.revs, id, j.chains[id], r);
      }
    }
    Inserted(j.revs, r);
  }

  lemma Inserted(revs: Revs, r: Revision)
    requires r.id !in revs
    ensures forall e :: e in InsertRevision(revs, r) <==> e == r.id || e in revs
    ensures InsertRevision(revs, r)[r.id] == r
    ensures forall e :: e in revs ==> InsertRevision(revs, r)[e] == revs[e]
  {
  }

  /** The journal after a revision and the row it stands for. */
  ghost function Rewritten(j: Journal, r: Revision, row: Message): Journal {
    Appended(j, r).(messages := j.messages[r.message := row])
  }

  lemma RewrittenChained(j: Journal, hash: Hash, r: Revision, row: Message)
    requires Chained(j, hash) && Follows(j, hash, r)
    ensures Chained(Rewritten(j, r, row), hash) && Grown(j, Rewritten(j, r, row)) && r.id !in j.revs
  {
    hide Chain, Hashed, Injective, AllHashed, InsertRevision;
    AppendedChains(j, hash, r);
    Inserted(j.revs, r);
  }

  lemma RewrittenTip(j: Journal, r: Revision, row: Message, id: Id)
    requires r.id !in j.revs && (id != r.message ==> TipRecords(j, id)) && (id == r.message ==> Records(r, row))
    requires id == r.message && r.payload.Propagated? ==> TipIn(j, id) && Tip(j, id).payload == Observed(row.content, Live)
    ensures TipRecords(Rewritten(j, r, row), id)
  {
    hide Records, InsertRevision;
    Inserted(j.revs, r);
  }

  lemma RewrittenReasons(j: Journal, r: Revision)
    requires OwnReasons(j.revs) && r.id !in j.revs
    requires r.payload.Observed? && r.payload.tomb.Deleted? ==> !IsParentReason(r.payload.tomb.reason)
    ensures OwnReasons(InsertRevision(j.revs, r))
  {
    hide InsertRevision, IsParentReason;
    Inserted(j.revs, r);
  }

  /** Writing the row together with a revision that records it. */
  lemma WriteRecorded(j: Journal, hash: Hash, r: Revision, row: Message)
    requires Sound(j, hash) && Follows(j, hash, r) && Records(r, row) && r.payload.Observed?
    requires r.payload.tomb.Deleted? ==> !IsParentReason(r.payload.tomb.reason)
    ensures Sound(Rewritten(j, r, row), hash) && Grown(j, Rewritten(j, r, row))
  {
    hide Chained, TipRecords, Records, OwnReasons, Follows;
    RewrittenChained(j, hash, r, row);
    RewrittenReasons(j, r);
    forall id | id in j.messages || id == r.message ensures TipRecords(Rewritten(j, r, row), id) {
      RewrittenTip(j, r, row, id);
    }
  }

  // Writing one message.

  /** The revision that writing `row` calls for; none when the stored payload does not change. */
  ghost function PendingRevision(j: Journal, hash: Hash, id: Id, row: Message, observedAt: Time): Option<Revision> {
    var stored := Stored(j.messages, id);
    if stored.Some? && PayloadOf(stored.value) == PayloadOf(row) then None
    else
      var target := if stored.Some? then Some(PayloadOf(stored.value)) else None;
      var event := EventFor(row, stored.Some? || ChainOf(j, id) != []);
      Some(NewRevision(hash, id, event.0, event.1, observedAt, PayloadOf(row), PredecessorOn(j.revs, ChainOf(j, id), target)))
  }

  /** The tip is chosen when it has the payload, and when no revision has. */
  lemma TipChosen(revs: Revs, c: seq<Id>, target: Option<Payload>)
    requires c != []
    requires HasPayload(revs, c[|c| - 1], target) || forall i :: 0 <= i < |c| ==> !HasPayload(revs, c[i], target)
    ensures PredecessorOn(revs, c, target) == c[|c| - 1]
  {
    hide HasPayload;
  }

  /** A row that a parent's deletion reached was never observed as it is. */
  lemma NeverObserved(revs: Revs, row: Message, e: Id)
    requires OwnReasons(revs) && row.tomb.Deleted? && IsParentReason(row.tomb.reason)
    ensures !HasPayload(revs, e, Some(PayloadOf(row)))
  {
    hide IsParentReason;
  }

  /** Under the invariant the predecessor is the tip, whatever the stored row's history repeats. */
  lemma PredecessorIsTip(j: Journal, hash: Hash, id: Id)
    requires Sound(j, hash) && id in j.messages
    ensures id in j.chains && j.chains[id] != []
    ensures PredecessorOn(j.revs, j.chains[id], Some(PayloadOf(j.messages[id]))) == j.chains[id][|j.chains[id]| - 1]
  {
    hide Chained, PredecessorOn, IsParentReason, OwnReasons, HasPayload;
    assert TipRecords(j, id);
    var c, row := j.chains[id], j.messages[id];
    if Tip(j, id).payload == PayloadOf(row) {
      TipHasPayload(j.revs, c[|c| - 1], PayloadOf(row));
    } else {
      forall i | 0 <= i < |c| ensures !HasPayload(j.revs, c[i], Some(PayloadOf(row))) {
        NeverObserved(j.revs, row, c[i]);
      }
    }
    TipChosen(j.revs, c, Some(PayloadOf(row)));
  }

  /** A row's payload is that of the last revision, or of none: then the last revision speaks for the row. */
  ghost predicate Answers(revs: Revs, c: seq<Id>, row: Message) {
    && c != []
    && var payload := Some(PayloadOf(row));
      HasPayload(revs, c[|c| - 1], payload) || forall i :: 0 <= i < |c| ==> !HasPayload(revs, c[i], payload)
  }

  ghost predicate TipAnswers(j: Journal, id: Id)
    requires id in j.messages && id in j.chains
  {
    Answers(j.revs, j.chains[id], j.messages[id])
  }

  /** Whatever the tombstones imported so far, a write extends the chain exactly when the tip answers for the stored row. */
  lemma WriteExtendsExactly(j: Journal, hash: Hash, id: Id, row: Message, observedAt: Time)
    requires Chained(j, hash) && id in j.messages && id in j.chains && j.chains[id] != []
    requires PendingRevision(j, hash, id, row, observedAt).Some?
    ensures Follows(j, hash, PendingRevision(j, hash, id, row, observedAt).value) <==> TipAnswers(j, id)
  {
    hide PredecessorOn, HasPayload, Hashed, Injective, AllHashed;
    var c, target := j.chains[id], Some(PayloadOf(j.messages[id]));
    assert Chain(j.revs, id, c);
    if TipAnswers(j, id) {
      TipChosen(j.revs, c, target);
    } else {
      OlderChosen(j.revs, c, target);
    }
    PendingIs(j, hash, id, row, observedAt);
  }

  lemma PendingIs(j: Journal, hash: Hash, id: Id, row: Message, observedAt: Time)
    requires id in j.messages && PendingRevision(j, hash, id, row, observedAt).Some?
    ensures var r := PendingRevision(j, hash, id, row, observedAt).value;
      && Hashed(hash, r) && r.message == id
      && r.predecessor == PredecessorOn(j.revs, ChainOf(j, id), Some(PayloadOf(j.messages[id])))
  {
    hide PredecessorOn;
  }

  /** An older revision with the payload is chosen over a tip without it. */
  lemma OlderChosen(revs: Revs, c: seq<Id>, target: Option<Payload>)
    requires c != [] && Distinct(c) && !HasPayload(revs, c[|c| - 1], target)
    requires exists i :: 0 <= i < |c| && HasPayload(revs, c[i], target)
    ensures PredecessorOn(revs, c, target) != c[|c| - 1]
  {
    hide HasPayload;
  }

  lemma TipHasPayload(revs: Revs, e: Id, payload: Payload)
    requires e in revs && revs[e].payload == payload
    ensures HasPayload(revs, e, Some(payload))
  {
  }

  lemma PendingFollows(j: Journal, hash: Hash, id: Id, row: Message, observedAt: Time)
    requires Sound(j, hash) && PendingRevision(j, hash, id, row, observedAt).Some?
    requires row.tomb.Deleted? ==> row.tomb.at > 0
    ensures var r := PendingRevision(j, hash, id, row, observedAt).value;
      r.message == id && r.payload == PayloadOf(row) && Follows(j, hash, r) && Records(r, row)
  {
    hide Chained, Faithful, OwnReasons, PredecessorOn, Hashed, IsParentReason;
    if id in j.messages {
      PredecessorIsTip(j, hash, id);
      KeysAgree(j, hash);
    } else {
      KeysAgree(j, hash);
      EmptyPredecessor(j.revs);
    }
  }

  lemma KeysAgree(j: Journal, hash: Hash)
    requires Chained(j, hash)
    ensures j.chains.Keys == j.messages.Keys
    ensures forall id :: id in j.messages <==> id in j.chains
  {
  }

  lemma EmptyPredecessor(revs: Revs)
    ensures forall target :: PredecessorOn(revs, [], target) == NONE
  {
  }

  /** The journal after a message is written with its revision. */
  ghost function Written(j: Journal, hash: Hash, id: Id, incoming: Message, observedAt: Time): Journal {
    var row := RowFor(Stored(j.messages, id), incoming);
    match PendingRevision(j, hash, id, row, observedAt)
    case None => j.(messages := j.messages[id := row])
    case Some(r) => Rewritten(j, r, row)
  }

  // What a write records.

  ghost predicate HasHistory(revs: Revs, id: Id) {
    exists e :: e in revs && revs[e].message == id
  }

  /** A deletion is dated as it states; a message seen before was edited, at its edit time if it has one; any other is new. */
  predicate EventAs(row: Message, seen: bool, event: EventType, at: Time) {
    match row.tomb
    case Deleted(when, _, _) => event == Deletion && at == if when == 0 then row.content.ts else when
    case Live =>
      if seen then event == Edited && at == if row.content.editTs == 0 then row.content.ts else row.content.editTs
      else event == Created && at == row.content.ts
  }

  /** A revision of the row: after one of the message, if it has any, and of one that recorded the stored row, if any did. */
  ghost predicate RecordsRow(revs: Revs, hash: Hash, id: Id, before: Option<Message>, row: Message, observedAt: Time, r: Revision) {
    && r.message == id && r.payload == Observed(row.content, row.tomb) && r.observedAt == observedAt
    && EventAs(row, before.Some? || HasHistory(revs, id), r.eventType, r.eventAt)
    && r.id == hash(id, r.eventType, r.eventAt, r.payload, r.predecessor)
    && (if HasHistory(revs, id) then r.predecessor in revs && revs[r.predecessor].message == id else r.predecessor == NONE)
    && (before.Some? && HasRecord(revs, id, Observed(before.value.content, before.value.tomb)) ==>
          revs[r.predecessor].payload == Observed(before.value.content, before.value.tomb))
  }

  /** The revisions after a write: one more, unless the row says what it said or that very revision is there. */
  ghost predicate Journals(revs: Revs, hash: Hash, id: Id, before: Option<Message>, row: Message, observedAt: Time, revs': Revs) {
    if before.Some? && before.value.content == row.content && before.value.tomb == row.tomb then revs' == revs
    else exists r :: RecordsRow(revs, hash, id, before, row, observedAt, r) && revs' == if r.id in revs then revs else revs[r.id := r]
  }

  /** Any new revision of the row after such a predecessor. */
  lemma NewRecords(revs: Revs, hash: Hash, id: Id, before: Option<Message>, row: Message, observedAt: Time, predecessor: Id)
    requires if HasHistory(revs, id) then predecessor in revs && revs[predecessor].message == id else predecessor == NONE
    requires before.Some? && HasRecord(revs, id, PayloadOf(before.value)) ==> revs[predecessor].payload == PayloadOf(before.value)
    requires before.None? || PayloadOf(before.value) != PayloadOf(row)
    ensures var event := EventFor(row, before.Some? || HasHistory(revs, id));
      var r := NewRevision(hash, id, event.0, event.1, observedAt, PayloadOf(row), predecessor);
      Journals(revs, hash, id, before, row, observedAt, InsertRevision(revs, r))
  {
    hide HasHistory, HasRecord;
    var event := EventFor(row, before.Some? || HasHistory(revs, id));
    var r := NewRevision(hash, id, event.0, event.1, observedAt, PayloadOf(row), predecessor);
    assert RecordsRow(revs, hash, id, before, row, observedAt, r);
  }

  lemma SameRow(revs: Revs, hash: Hash, id: Id, before: Message, row: Message, observedAt: Time)
    requires PayloadOf(before) == PayloadOf(row)
    ensures Journals(revs, hash, id, Some(before), row, observedAt, revs)
  {
  }

  /** The predecessor on a chain is such a one. */
  lemma PredecessorRecords(revs: Revs, m: Id, c: seq<Id>, before: Option<Message>)
    requires Chain(revs, m, c)
    ensures HasHistory(revs, m) <==> c != []
    ensures var p := PredecessorOn(revs, c, if before.Some? then Some(PayloadOf(before.value)) else None);
      && (if c != [] then p in revs && revs[p].message == m else p == NONE)
      && (before.Some? && HasRecord(revs, m, PayloadOf(before.value)) ==> p in revs && revs[p].payload == PayloadOf(before.value))
  {
    forall i | 0 <= i < |c| ensures c[i] in revs && revs[c[i]].message == m {
      assert Linked(revs, m, c, i);
    }
    assert c != [] ==> c[0] in revs && revs[c[0]].message == m;
    if before.Some? && HasRecord(revs, m, PayloadOf(before.value)) {
      var e :| e in revs && revs[e].message == m && revs[e].payload == Observed(before.value.content, before.value.tomb);
      assert HasPayload(revs, e, Some(PayloadOf(before.value)));
      var i :| 0 <= i < |c| && c[i] == e;
    }
  }

  /** Writing a message records its row so. */
  lemma WrittenJournals(j: Journal, hash: Hash, id: Id, incoming: Message, observedAt: Time)
    requires Chained(j, hash)
    ensures var k, before := Written(j, hash, id, incoming, observedAt), Stored(j.messages, id);
      id in k.messages && Journals(j.revs, hash, id, before, k.messages[id], observedAt, k.revs)
  {
    hide Chain, Injective, AllHashed, PredecessorOn, Journals, RowFor, HasHistory, HasRecord, EventFor, Hashed, InsertRevision;
    var before := Stored(j.messages, id);
    var row := RowFor(before, incoming);
    var target := if before.Some? then Some(PayloadOf(before.value)) else None;
    NoRevisionsYet(j, hash, id);
    PredecessorRecords(j.revs, id, ChainOf(j, id), before);
    if before.Some? && PayloadOf(before.value) == PayloadOf(row) {
      SameRow(j.revs, hash, id, before.value, row, observedAt);
    } else {
      NewRecords(j.revs, hash, id, before, row, observedAt, PredecessorOn(j.revs, ChainOf(j, id), target));
    }
  }

  /** An incoming message with a tombstone of its own, if any. */
  predicate Own(m: Message) {
    m.tomb.Deleted? ==> m.tomb.at > 0 && !IsParentReason(m.tomb.reason)
  }

  /** Rewriting a row without changing its payload keeps its record. */
  lemma SamePayloadSound(j: Journal, hash: Hash, id: Id, row: Message)
    requires Sound(j, hash) && id in j.messages && PayloadOf(j.messages[id]) == PayloadOf(row)
    ensures Sound(j.(messages := j.messages[id := row]), hash)
  {
    hide Chained, TipRecords, OwnReasons;
    var k := j.(messages := j.messages[id := row]);
    forall e | e in k.messages ensures TipRecords(k, e) {
      assert TipRecords(j, e);
      SamePayloadTip(j, id, row, e);
    }
    SamePayloadChained(j, hash, id, row);
  }

  lemma SamePayloadTip(j: Journal, id: Id, row: Message, e: Id)
    requires id in j.messages && PayloadOf(j.messages[id]) == PayloadOf(row) && TipRecords(j, e)
    ensures TipRecords(j.(messages := j.messages[id := row]), e)
  {
    hide IsParentReason;
  }

  lemma SamePayloadChained(j: Journal, hash: Hash, id: Id, row: Message)
    requires Chained(j, hash) && id in j.messages
    ensures Chained(j.(messages := j.messages[id := row]), hash)
  {
    hide Injective, AllHashed, Chain;
    assert j.messages[id := row].Keys == j.messages.Keys;
  }

  /** Writing a message keeps one unforked chain per message that only grows at its tip, with the row at the tip. */
  lemma WrittenSound(j: Journal, hash: Hash, id: Id, incoming: Message, observedAt: Time)
    requires Sound(j, hash) && Own(incoming)
    ensures Sound(Written(j, hash, id, incoming, observedAt), hash)
    ensures Grown(j, Written(j, hash, id, incoming, observedAt))
  {
    hide Sound, Follows, Records, IsParentReason;
    var row := RowFor(Stored(j.messages, id), incoming);
    RowTombstone(Stored(j.messages, id), incoming);
    if PendingRevision(j, hash, id, row, observedAt).None? {
      SamePayloadSound(j, hash, id, row);
    } else {
      PendingFollows(j, hash, id, row, observedAt);
      WriteRecorded(j, hash, PendingRevision(j, hash, id, row, observedAt).value, row);
    }
  }

  lemma RowTombstone(stored: Option<Message>, incoming: Message)
    ensures RowFor(stored, incoming).tomb == incoming.tomb
  {
  }

  // The search index.

  /** Writing a row replaces its entry; a deleted row has none. */
  function Indexed(index: Index, id: Id, row: Message): Index {
    if row.tomb.Live? then index[id := EntryOf(row)] else index - {id}
  }

  lemma IndexedAgrees(messages: map<Id, Message>, index: Index, id: Id, row: Message)
    requires IndexAgrees(messages, index)
    ensures IndexAgrees(messages[id := row], Indexed(index, id, row))
  {
    hide Indexes;
    EntryIndexes(row);
  }

  lemma EntryIndexes(m: Message)
    ensures Indexes(EntryOf(m), m.content)
    ensures forall entry :: Indexes(entry, m.content) ==> entry == EntryOf(m)
  {
  }

  // Recording deletions that came from a parent.

  /** What holds between propagating deletions and recording them. */
  ghost predicate Partly(j: Journal, hash: Hash) {
    && Chained(j, hash) && OwnReasons(j.revs)
    && forall id :: id in j.messages ==> TipRecords(j, id) || (TipIn(j, id) && Unrecorded(Tip(j, id), j.messages[id]))
  }

  /** A deleted message whose last revision is not that deletion. */
  ghost predicate NeedsRecord(j: Journal, id: Id) {
    TipIn(j, id) && j.messages[id].tomb.Deleted?
    && !(Tip(j, id).eventType == Deletion && Tip(j, id).eventAt == j.messages[id].tomb.at)
  }

  function DeletionRevision(hash: Hash, id: Id, tomb: Tombstone, observedAt: Time, tip: Id): (r: Revision)
    requires tomb.Deleted?
    ensures Hashed(hash, r)
  {
    NewRevision(hash, id, Deletion, tomb.at, observedAt, DeletionPayload(id, tomb), tip)
  }

  ghost function RecordOf(j: Journal, hash: Hash, id: Id, observedAt: Time): Revision
    requires NeedsRecord(j, id)
  {
    DeletionRevision(hash, id, j.messages[id].tomb, observedAt, Tip(j, id).id)
  }

  /** `k` is `j` with the deletion of one message recorded under a new id, when it needs to be. */
  ghost predicate RecordedAt(j: Journal, k: Journal, hash: Hash, id: Id, observedAt: Time) {
    if NeedsRecord(j, id) then
      RecordOf(j, hash, id, observedAt).id !in j.revs && k == Appended(j, RecordOf(j, hash, id, observedAt))
    else k == j
  }

  /** `k` is `j` with the deletions of the messages in `S` recorded, each at the tip of its own chain. */
  ghost predicate RecordedFor(j: Journal, k: Journal, hash: Hash, S: set<Id>, observedAt: Time) {
    && k.messages == j.messages && k.chains.Keys == j.chains.Keys
    && (forall e :: e in j.revs ==> e in k.revs && k.revs[e] == j.revs[e])
    && (forall id :: id in j.messages && id in S && NeedsRecord(j, id) ==>
          var r := RecordOf(j, hash, id, observedAt);
          id in k.chains && k.chains[id] == j.chains[id] + [r.id] && r.id in k.revs && k.revs[r.id] == r)
    && (forall id :: id in j.chains && !(id in S && NeedsRecord(j, id)) ==> k.chains[id] == j.chains[id])
  }

  lemma RecordFollows(j: Journal, hash: Hash, id: Id, observedAt: Time)
    requires Chained(j, hash) && NeedsRecord(j, id)
    ensures Follows(j, hash, RecordOf(j, hash, id, observedAt)) && RecordOf(j, hash, id, observedAt).message == id
  {
    hide Injective, Hashed;
    var c := j.chains[id];
    assert Linked(j.revs, id, c, |c| - 1);
  }

  /** Recording one deletion brings its chain up to its row. */
  lemma RecordOne(j: Journal, hash: Hash, id: Id, observedAt: Time)
    requires Partly(j, hash) && NeedsRecord(j, id)
    ensures var k := Appended(j, RecordOf(j, hash, id, observedAt));
      && RecordOf(j, hash, id, observedAt).id !in j.revs
      && Partly(k, hash) && TipRecords(k, id) && Grown(j, k) && k.messages == j.messages
      && forall e :: TipRecords(j, e) ==> TipRecords(k, e)
  {
    hide Chained, TipRecords, Records, OwnReasons, Follows, Unrecorded;
    var r, row := RecordOf(j, hash, id, observedAt), j.messages[id];
    RecordFollows(j, hash, id, observedAt);
    RewrittenChained(j, hash, r, row);
    RewrittenReasons(j, r);
    var k := Appended(j, r);
    assert Rewritten(j, r, row) == k by {
      assert j.messages[id := row] == j.messages;
    }
    UnrecordedTip(j, hash, id, observedAt);
    forall e | e in k.messages ensures TipRecords(k, e) || (TipIn(k, e) && Unrecorded(Tip(k, e), k.messages[e])) {
      if e == id || TipRecords(j, e) {
        RewrittenTip(j, r, row, e);
      } else {
        UnrecordedKept(j, r, e);
      }
    }
    RewrittenTip(j, r, row, id);
    forall e | TipRecords(j, e) ensures TipRecords(k, e) {
      RewrittenTip(j, r, row, e);
    }
  }

  lemma UnrecordedTip(j: Journal, hash: Hash, id: Id, observedAt: Time)
    requires Partly(j, hash) && NeedsRecord(j, id)
    ensures Records(RecordOf(j, hash, id, observedAt), j.messages[id])
    ensures TipIn(j, id) && Tip(j, id).payload == Observed(j.messages[id].content, Live)
  {
    hide Chained, IsParentReason, OwnReasons;
  }

  lemma UnrecordedKept(j: Journal, r: Revision, e: Id)
    requires r.id !in j.revs && e != r.message && TipIn(j, e) && Unrecorded(Tip(j, e), j.messages[e])
    ensures TipIn(Appended(j, r), e) && Unrecorded(Tip(Appended(j, r), e), Appended(j, r).messages[e])
  {
    hide InsertRevision, IsParentReason;
    Inserted(j.revs, r);
  }

  /** A message whose deletion needs no record is recorded already. */
  lemma RecordedAlready(j: Journal, hash: Hash, id: Id)
    requires Partly(j, hash) && id in j.messages && !NeedsRecord(j, id)
    ensures TipRecords(j, id)
  {
    hide Chained, IsParentReason, OwnReasons;
  }

  /** Recording one more message. */
  lemma RecordedStep(j: Journal, k: Journal, l: Journal, hash: Hash, S: set<Id>, id: Id, observedAt: Time)
    requires RecordedFor(j, k, hash, S, observedAt) && id !in S && TipIn(j, id) && RecordedAt(k, l, hash, id, observedAt)
    ensures RecordedFor(j, l, hash, S + {id}, observedAt)
  {
    hide DeletionRevision, InsertRevision;
    assert id in k.chains && k.chains[id] == j.chains[id] && TipIn(k, id) && Tip(k, id) == Tip(j, id);
    assert NeedsRecord(k, id) <==> NeedsRecord(j, id);
    if NeedsRecord(k, id) {
      var r := RecordOf(k, hash, id, observedAt);
      assert r == RecordOf(j, hash, id, observedAt);
      NewDeletion(hash, id, j.messages[id].tomb, observedAt, Tip(j, id).id);
      Inserted(k.revs, r);
    }
  }

  lemma NewDeletion(hash: Hash, id: Id, tomb: Tombstone, observedAt: Time, tip: Id)
    requires tomb.Deleted?
    ensures var r := DeletionRevision(hash, id, tomb, observedAt, tip);
      && r.message == id && r.eventType == Deletion && r.eventAt == tomb.at && r.predecessor == tip && r.observedAt == observedAt
      && r.payload.Propagated? && r.payload.message == id && r.payload.at == tomb.at
      && r.payload.source == (if |tomb.source| == 0 then Ascii("unknown") else tomb.source)
      && r.payload.reason == if |tomb.reason| == 0 then Ascii("parent-entity-deleted") else tomb.reason
  {
  }
}
