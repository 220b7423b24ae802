/** What one import brings: its rows, their tombstones, what it writes to the parent tables, and its scope. */
module ImportBatch {
  import opened ArchiveTables
  import opened Bytes
  import opened MessageJournal
  import opened RevisionChain
  import opened RevisionGraph
  import opened Revisions
  import opened TextOrder
  import opened TombstonePropagation
  import opened Wrappers

  /** A tombstone as a source states it; the zero time means none. */
  datatype RawTombstone = RawTombstone(at: Time, source: Text, reason: Text)

  datatype Raw<+K, +T> = Raw(key: K, value: T, tomb: RawTombstone)

  datatype RawMessage = RawMessage(eventId: Id, content: Content, tomb: RawTombstone, sourcePk: int, mediaPath: Text, mediaSize: int)

  datatype Batch = Batch(
    source: Text, chats: seq<Raw<Text, Chat>>, folders: seq<Raw<Text, Folder>>, memberships: seq<Raw<MembershipKey, Membership>>,
    topics: seq<Raw<TopicKey, Topic>>, messages: seq<RawMessage>)

  datatype ImportError = TombstoneWithoutTime | MissingIdentity

  /** The first of two texts that is not blank. */
  function FirstNonBlank(a: Text, b: Text): Text {
    if IsBlank(a) then b else a
  }

  const EXPLICIT_SOURCE := Ascii("explicit-source-delete")

  /** A tombstone that names a source or a reason but no time. */
  predicate Timeless(raw: RawTombstone) {
    raw.at == 0 && !(IsBlank(raw.source) && IsBlank(raw.reason))
  }

  /**
   normalizeTombstone: a deletion keeps its time and the source and reason it states; a missing source is the import's,
   trimmed, and in the end every deletion has both. A source or reason without a time is refused.
   */
  function NormalizeTombstone(raw: RawTombstone, source: Text, reason: Text): (t: Result<Tombstone, ImportError>)
    ensures t.Err? <==> Timeless(raw)
    ensures t.Ok? ==> (t.value.Live? <==> raw.at == 0)
    ensures t.Ok? && t.value.Deleted? ==>
      && t.value.at == raw.at && !IsBlank(t.value.source) && !IsBlank(t.value.reason)
      && (!IsBlank(raw.source) ==> t.value.source == raw.source)
      && (!IsBlank(raw.reason) ==> t.value.reason == raw.reason)
      && (IsBlank(raw.source) ==> t.value.source == if IsBlank(source) then UNKNOWN else Trim(source))
      && (IsBlank(raw.reason) ==> t.value.reason == if IsBlank(reason) then EXPLICIT_SOURCE else reason)
  {
    TrimBare(source);
    Spoken();
    if raw.at == 0 then
      if IsBlank(raw.source) && IsBlank(raw.reason) then Ok(Live) else Err(TombstoneWithoutTime)
    else
      Ok(Deleted(raw.at, FirstNonBlank(FirstNonBlank(raw.source, Trim(source)), UNKNOWN),
                 FirstNonBlank(FirstNonBlank(raw.reason, reason), EXPLICIT_SOURCE)))
  }

  /** The defaults are not blank, nor is a trimmed text that is not empty. */
  lemma Spoken()
    ensures !IsBlank(UNKNOWN) && !IsBlank(EXPLICIT_SOURCE)
    ensures forall t :: IsBlank(Trim(t)) <==> IsBlank(t)
  {
    BeginsBare(UNKNOWN);
    BeginsBare(EXPLICIT_SOURCE);
    forall t ensures IsBlank(Trim(t)) <==> IsBlank(t) {
      TrimBare(t);
    }
  }

  /** A row ready to be written. */
  datatype Write<+K, +T> = Write(key: K, row: Row<T>)

  function NormalizeRows<K, T>(rows: seq<Raw<K, T>>, source: Text, reason: Text): (r: Result<seq<Write<K, T>>, ImportError>)
    ensures r.Ok? ==> |r.value| == |rows|
    ensures r.Ok? ==> forall i :: 0 <= i < |rows| ==> r.value[i].key == rows[i].key
  {
    if rows == [] then Ok([])
    else
      var n := |rows| - 1;
      var init :- NormalizeRows(rows[..n], source, reason);
      var tomb :- NormalizeTombstone(rows[n].tomb, source, reason);
      Ok(init + [Write(rows[n].key, Row(rows[n].value, tomb))])
  }

  function NormalizeMessage(m: RawMessage, source: Text): (r: Result<Message, ImportError>)
    ensures r.Err? <==> IsBlank(m.content.chat) || IsBlank(m.content.messageId) || Timeless(m.tomb)
    ensures r.Ok? ==> r.value.content == m.content && (r.value.tomb.Deleted? <==> m.tomb.at > 0)
    ensures r.Ok? && r.value.tomb.Deleted? ==> r.value.tomb.at == m.tomb.at
  {
    if IsBlank(m.content.chat) || IsBlank(m.content.messageId) then Err(MissingIdentity)
    else
      var tomb :- NormalizeTombstone(m.tomb, source, Ascii("explicit-message-delete"));
      Ok(Message(m.content, tomb, m.sourcePk, m.mediaPath, m.mediaSize))
  }

  function NormalizeMessages(ms: seq<RawMessage>, source: Text): (r: Result<seq<Message>, ImportError>)
    ensures r.Ok? ==> |r.value| == |ms| && forall i :: 0 <= i < |ms| ==> NormalizeMessage(ms[i], source) == Ok(r.value[i])
  {
    if ms == [] then Ok([])
    else
      var init :- NormalizeMessages(ms[..|ms| - 1], source);
      var last :- NormalizeMessage(ms[|ms| - 1], source);
      Ok(init + [last])
  }

  // Upserts.

  /**
   One row written over a table. A deletion of a known row brings only its tombstone; with `preserve`, a known row
   is never deleted and a deleted row is never changed.
   */
  function Upsert<K, T>(table: map<K, Row<T>>, e: Write<K, T>, preserve: bool): map<K, Row<T>> {
    if e.key !in table then table[e.key := e.row]
    else if e.row.tomb.Deleted? then
      if preserve then table else table[e.key := table[e.key].(tomb := e.row.tomb)]
    else if preserve && table[e.key].tomb.Deleted? then table
    else table[e.key := e.row]
  }

  function UpsertAll<K, T>(table: map<K, Row<T>>, rows: seq<Write<K, T>>, preserve: bool): map<K, Row<T>> {
    if rows == [] then table else Upsert(UpsertAll(table, rows[..|rows| - 1], preserve), rows[|rows| - 1], preserve)
  }

  /** Only rows that a batch names change. */
  lemma {:induction false} UpsertAllElsewhere<K, T>(table: map<K, Row<T>>, rows: seq<Write<K, T>>, preserve: bool, k: K)
    requires forall i :: 0 <= i < |rows| ==> rows[i].key != k
    ensures k in UpsertAll(table, rows, preserve) <==> k in table
    ensures k in table ==> UpsertAll(table, rows, preserve)[k] == table[k]
  {
    if rows != [] {
      UpsertAllElsewhere(table, rows[..|rows| - 1], preserve, k);
    }
  }

  /** Chat rows are keyed by the number their JID spells. */
  function ChatWrites(j: Jids, rows: seq<Write<Text, Chat>>): (out: seq<Write<int, Chat>>)
    ensures |out| == |rows|
    ensures forall i :: 0 <= i < |rows| ==> out[i].key == j.parse(rows[i].key) && out[i].row == rows[i].row
  {
    seq(|rows|, i requires 0 <= i < |rows| => Write(j.parse(rows[i].key), rows[i].row))
  }

  // Scope.

  function Keys<K, T(==)>(rows: seq<Raw<K, T>>): (ks: set<K>) {
    set r | r in rows :: r.key
  }

  /** newTombstoneScope. */
  function ScopeOf(b: Batch): Scope {
    Scope(
      Keys(b.chats) + (set m | m in b.memberships :: m.key.chat) + (set t | t in b.topics :: t.key.chat)
      + (set m | m in b.messages :: m.content.chat),
      Keys(b.folders) + (set m | m in b.memberships :: m.key.folder),
      Keys(b.topics) + (set m | m in b.messages && m.content.topic != [] :: TopicKey(m.content.chat, m.content.topic)),
      {})
  }

  /** affectedChatJIDs: the chats whose aggregates are counted again. */
  function AffectedChats(b: Batch): (jids: set<Text>) {
    set jid | jid in Keys(b.chats) + (set t | t in b.topics :: t.key.chat) + (set m | m in b.messages :: m.content.chat)
      && !IsBlank(jid)
  }

  /** Every chat is spelled as its number is written. */
  ghost predicate CanonicalChats(b: Batch, j: Jids) {
    && (forall r :: r in b.chats ==> Canonical(j, r.key))
    && (forall r :: r in b.topics ==> Canonical(j, r.key.chat))
    && (forall m :: m in b.messages ==> Canonical(j, m.content.chat))
  }

  // Messages of a batch, written one after another.

  /** The journal after identified messages are written in order. */
  ghost function WriteAll(j: Journal, hash: Hash, ids: seq<Id>, ms: seq<Message>, observedAt: Time): Journal
    requires |ids| == |ms|
  {
    if ms == [] then j
    else
      var n := |ms| - 1;
      Written(WriteAll(j, hash, ids[..n], ms[..n], observedAt), hash, ids[n], ms[n], observedAt)
  }

  ghost predicate AllOwn(ms: seq<Message>) {
    forall i :: 0 <= i < |ms| ==> Own(ms[i])
  }

  lemma {:induction false} WriteAllSound(j: Journal, hash: Hash, ids: seq<Id>, ms: seq<Message>, observedAt: Time)
    requires Sound(j, hash) && |ids| == |ms| && AllOwn(ms)
    ensures Sound(WriteAll(j, hash, ids, ms, observedAt), hash) && Grown(j, WriteAll(j, hash, ids, ms, observedAt))
    decreases |ms|
  {
    hide Sound, Written, Grown, Own;
    if ms == [] {
      GrownSelf(j);
    } else {
      var n := |ms| - 1;
      WriteAllSound(j, hash, ids[..n], ms[..n], observedAt);
      var k := WriteAll(j, hash, ids[..n], ms[..n], observedAt);
      WrittenSound(k, hash, ids[n], ms[n], observedAt);
      GrownTransitive(j, k, Written(k, hash, ids[n], ms[n], observedAt));
    }
  }

  lemma GrownSelf(j: Journal)
    ensures Grown(j, j)
  {
  }

  /** A row takes its tombstone from the message written, and when live its chat and topic. */
  predicate MadeBy(row: Message, m: Message) {
    row.tomb == m.tomb && (m.tomb.Live? ==> TopicOf(row) == TopicOf(m))
  }

  /** A message to write, under its id. */
  datatype MessageRow = MessageRow(id: Id, message: Message)

  function RowsOf(ids: seq<Id>, ms: seq<Message>): (rows: seq<MessageRow>)
    requires |ids| == |ms|
    ensures |rows| == |ms|
  {
    seq(|ms|, i requires 0 <= i < |ms| => MessageRow(ids[i], ms[i]))
  }

  /** Message rows after some are written, whatever revisions say. */
  function RowsWritten(messages: map<Id, Message>, rows: seq<MessageRow>): (out: map<Id, Message>) {
    if rows == [] then messages
    else
      var before, last := RowsWritten(messages, rows[..|rows| - 1]), rows[|rows| - 1];
      before[last.id := RowFor(Stored(before, last.id), last.message)]
  }

  /** A row is as before, or the last message written under its id made it what it is. */
  lemma {:induction false} RowWritten(messages: map<Id, Message>, rows: seq<MessageRow>, e: Id)
    ensures var after := RowsWritten(messages, rows);
      if forall i :: 0 <= i < |rows| ==> rows[i].id != e then Stored(after, e) == Stored(messages, e)
      else e in after && exists i :: 0 <= i < |rows| && rows[i].id == e && MadeBy(after[e], rows[i].message)
  {
    if rows != [] {
      var init, last := rows[..|rows| - 1], rows[|rows| - 1];
      RowWritten(messages, init, e);
      if last.id == e {
        assert rows[|rows| - 1].id == e;
      } else if i :| 0 <= i < |init| && init[i].id == e {
        assert rows[i].id == e;
      }
    }
  }

  /** What a journal's rows become does not depend on its revisions. */
  lemma {:induction false} WriteAllRows(j: Journal, hash: Hash, ids: seq<Id>, ms: seq<Message>, observedAt: Time)
    requires |ids| == |ms|
    ensures WriteAll(j, hash, ids, ms, observedAt).messages == RowsWritten(j.messages, RowsOf(ids, ms))
    decreases |ms|
  {
    hide Written, RowFor;
    if ms != [] {
      var n, rows := |ms| - 1, RowsOf(ids, ms);
      WritesRow(WriteAll(j, hash, ids[..n], ms[..n], observedAt), hash, ids[n], ms[n], observedAt);
      WriteAllRows(j, hash, ids[..n], ms[..n], observedAt);
      assert rows[..n] == RowsOf(ids[..n], ms[..n]);
    }
  }

  lemma WritesRow(j: Journal, hash: Hash, id: Id, incoming: Message, observedAt: Time)
    ensures Written(j, hash, id, incoming, observedAt).messages == j.messages[id := RowFor(Stored(j.messages, id), incoming)]
  {
    hide PredecessorOn, EventFor, InsertRevision;
  }

  predicate Carried(c: Content, ms: seq<Message>) {
    exists k :: 0 <= k < |ms| && ms[k].content == c
  }

  /** Every row to write carries the content of some message of the batch. */
  predicate FromBatch(rows: seq<MessageRow>, ms: seq<Message>) {
    forall i :: 0 <= i < |rows| ==> Carried(rows[i].message.content, ms)
  }

  lemma RowsFrom(ids: seq<Id>, ms: seq<Message>)
    requires |ids| == |ms|
    ensures FromBatch(RowsOf(ids, ms), ms)
  {
    forall i | 0 <= i < |ms| ensures Carried(RowsOf(ids, ms)[i].message.content, ms) {
      assert RowsOf(ids, ms)[i].message.content == ms[i].content;
    }
  }
}
