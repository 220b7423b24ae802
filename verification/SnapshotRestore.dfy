/** Exporting the whole archive, and restoring what was exported. */
module SnapshotRestore {
  import opened ArchiveStore
  import opened ArchiveTables
  import opened Bytes
  import opened HistoryRecords
  import opened ImportBatch
  import opened MergeFacts
  import opened MessageJournal
  import opened RevisionChain
  import opened RevisionGraph
  import opened Revisions
  import opened SnapshotMerge
  import opened SnapshotHistory
  import opened SnapshotImport
  import opened TextOrder
  import opened TidyRows
  import opened TombstonePropagation
  import opened Wrappers
  import E = EventIds

  // What an export lists.

  /** A tombstone as an export states it. */
  function Stated(t: Tombstone): RawTombstone {
    if t.Live? then RawTombstone(0, [], []) else RawTombstone(t.at, t.source, t.reason)
  }

  predicate DistinctKeys<K(==), T>(rows: seq<Raw<K, T>>) {
    forall i, k :: 0 <= i < k < |rows| ==> rows[i].key != rows[k].key
  }

  /** Every row of a table once, in any order. */
  predicate ListsTable<K(==), T(==)>(rows: seq<Raw<K, T>>, table: map<K, Row<T>>) {
    && DistinctKeys(rows)
    && (forall i :: 0 <= i < |rows| ==>
          rows[i].key in table && rows[i].value == table[rows[i].key].value && rows[i].tomb == Stated(table[rows[i].key].tomb))
    && (forall k :: k in table ==> exists i :: 0 <= i < |rows| && rows[i].key == k)
  }

  /** Chats are exported under the text of their number. */
  function ByJid(chats: map<int, Row<Chat>>, j: Jids): (rows: map<Text, Row<Chat>>)
    requires SoundJids(j)
    ensures forall k :: k in rows ==> j.parse(k) in chats && j.decimal(j.parse(k)) == k && rows[k] == chats[j.parse(k)]
    ensures forall n :: n in chats ==> j.decimal(n) in rows
  {
    map n | n in chats :: j.decimal(n) := chats[n]
  }

  predicate ListsMessages(rows: seq<RawMessage>, messages: map<Id, Message>) {
    && (forall i, k :: 0 <= i < k < |rows| ==> rows[i].eventId != rows[k].eventId)
    && (forall i :: 0 <= i < |rows| ==> rows[i].eventId in messages && RawOf(rows[i].eventId, messages[rows[i].eventId]) == rows[i])
    && (forall e :: e in messages ==> exists i :: 0 <= i < |rows| && rows[i].eventId == e)
  }

  function RawOf(e: Id, m: Message): RawMessage {
    RawMessage(e, m.content, Stated(m.tomb), m.sourcePk, m.mediaPath, m.mediaSize)
  }

  ghost predicate ListsRevisions(rows: seq<Revision>, revs: Revs) {
    && (forall i, k :: 0 <= i < k < |rows| ==> rows[i].id != rows[k].id)
    && AllRevisions(rows, revs)
  }

  /** A snapshot that is an export of these tables and revisions. */
  ghost predicate IsExport(d: Snapshot, t: Tables, revs: Revs, j: Jids)
    requires SoundJids(j)
  {
    && ListsTable(d.batch.chats, ByJid(t.chats, j)) && ListsTable(d.batch.folders, t.folders)
    && ListsTable(d.batch.memberships, t.memberships) && ListsTable(d.batch.topics, t.topics)
    && ListsTable(d.groups, t.groups) && ListsTable(d.participants, t.participants)
    && ListsMessages(d.batch.messages, t.messages) && ListsRevisions(d.revisions, revs)
  }

  method ListTable<K(==), T(==)>(table: map<K, Row<T>>) returns (rows: seq<Raw<K, T>>)
    ensures ListsTable(rows, table)
  {
    rows := [];
    var todo := table.Keys;
    while todo != {}
      invariant todo <= table.Keys && DistinctKeys(rows)
      invariant forall i :: 0 <= i < |rows| ==>
        && rows[i].key in table && rows[i].key !in todo
        && rows[i].value == table[rows[i].key].value && rows[i].tomb == Stated(table[rows[i].key].tomb)
      invariant forall k :: k in table && k !in todo ==> exists i :: 0 <= i < |rows| && rows[i].key == k
      decreases |todo|
    {
      var k :| k in todo;
      todo := todo - {k};
      ghost var before := rows;
      rows := rows + [Raw(k, table[k].value, Stated(table[k].tomb))];
      assert rows[|before|].key == k;
      forall x | x in table && x !in todo ensures exists i :: 0 <= i < |rows| && rows[i].key == x {
        if x != k {
          var i :| 0 <= i < |before| && before[i].key == x;
          assert rows[i].key == x;
        }
      }
    }
  }

  method ListMessages(messages: map<Id, Message>) returns (rows: seq<RawMessage>)
    ensures ListsMessages(rows, messages)
  {
    rows := [];
    var todo := messages.Keys;
    while todo != {}
      invariant todo <= messages.Keys
      invariant forall i, k :: 0 <= i < k < |rows| ==> rows[i].eventId != rows[k].eventId
      invariant forall i :: 0 <= i < |rows| ==>
        rows[i].eventId in messages && rows[i].eventId !in todo && RawOf(rows[i].eventId, messages[rows[i].eventId]) == rows[i]
      invariant forall e :: e in messages && e !in todo ==> exists i :: 0 <= i < |rows| && rows[i].eventId == e
      decreases |todo|
    {
      var e :| e in todo;
      todo := todo - {e};
      ghost var before := rows;
      rows := rows + [RawOf(e, messages[e])];
      assert rows[|before|].eventId == e;
      forall x | x in messages && x !in todo ensures exists i :: 0 <= i < |rows| && rows[i].eventId == x {
        if x != e {
          var i :| 0 <= i < |before| && before[i].eventId == x;
          assert rows[i].eventId == x;
        }
      }
    }
  }

  method ListRevisions(revs: Revs) returns (rows: seq<Revision>)
    requires IdsMatch(revs)
    ensures ListsRevisions(rows, revs)
  {
    rows := [];
    var todo := revs.Keys;
    while todo != {}
      invariant todo <= revs.Keys
      invariant forall i, k :: 0 <= i < k < |rows| ==> rows[i].id != rows[k].id
      invariant forall r :: r in rows ==> r.id in revs && r.id !in todo && revs[r.id] == r
      invariant forall e :: e in revs && e !in todo ==> revs[e] in rows
      decreases |todo|
    {
      var e :| e in todo;
      todo := todo - {e};
      rows := rows + [revs[e]];
    }
  }

  /** ExportAll: every row and every revision, in any order; `textOf` holds what the revisions' names and JSON say. */
  method ExportAll(a: Archive, source: Text, textOf: Id -> RevisionText) returns (d: Snapshot)
    requires SoundJids(a.jids) && a.Usable()
    ensures IsExport(d, a.Db(), a.revisions, a.jids)
    ensures forall i :: 0 <= i < |d.revisions| ==> d.texts(i) == textOf(d.revisions[i].id)
  {
    hide ListsTable, ListsMessages, ListsRevisions, ByJid, IndexAgrees;
    var chats := ListTable(ByJid(a.chats, a.jids));
    var folders := ListTable(a.folders);
    var memberships := ListTable(a.memberships);
    var topics := ListTable(a.topics);
    var messages := ListMessages(a.messages);
    var groups := ListTable(a.groups);
    var participants := ListTable(a.participants);
    var revisions := ListRevisions(a.revisions);
    d := Snapshot(Batch(source, chats, folders, memberships, topics, messages), groups, participants, revisions,
                  (i: nat) => if i < |revisions| then textOf(revisions[i].id) else RevisionText([], [], false));
  }

  // What preparing an export gives.

  /** A whole tombstone is normalized to itself. */
  lemma StatedReads(t: Tombstone, source: Text, reason: Text)
    requires Whole(t)
    ensures NormalizeTombstone(Stated(t), source, reason) == Ok(t)
  {
    assert IsBlank([]);
  }

  lemma {:induction false} ListedRows<K, T>(rows: seq<Raw<K, T>>, table: map<K, Row<T>>, source: Text, reason: Text)
    requires AllWhole(table)
    requires forall i :: 0 <= i < |rows| ==>
      rows[i].key in table && rows[i].value == table[rows[i].key].value && rows[i].tomb == Stated(table[rows[i].key].tomb)
    ensures NormalizeRows(rows, source, reason).Ok?
    ensures forall i :: 0 <= i < |rows| ==>
      NormalizeRows(rows, source, reason).value[i] == Write(rows[i].key, table[rows[i].key])
  {
    hide Whole, NormalizeTombstone, Stated;
    if rows != [] {
      var n := |rows| - 1;
      ListedRows(rows[..n], table, source, reason);
      StatedReads(table[rows[n].key].tomb, source, reason);
    }
  }

  lemma {:induction false} ListedMessages(rows: seq<RawMessage>, messages: map<Id, Message>, source: Text)
    requires AllNamed(messages)
    requires forall i :: 0 <= i < |rows| ==> rows[i].eventId in messages && RawOf(rows[i].eventId, messages[rows[i].eventId]) == rows[i]
    ensures NormalizeMessages(rows, source).Ok?
    ensures forall i :: 0 <= i < |rows| ==> NormalizeMessages(rows, source).value[i] == messages[rows[i].eventId]
  {
    hide IsBlank, NormalizeTombstone, Stated;
    if rows != [] {
      var n := |rows| - 1;
      ListedMessages(rows[..n], messages, source);
      StatedReads(messages[rows[n].eventId].tomb, source, Ascii("explicit-message-delete"));
    }
  }

  /** Writing rows of a table to an empty one makes a part of that table. */
  lemma {:induction false} EachWritten<K, T>(rows: seq<Write<K, T>>, table: map<K, Row<T>>)
    requires forall i :: 0 <= i < |rows| ==> rows[i].key in table && rows[i].row == table[rows[i].key]
    ensures var out := UpsertAll(map[], rows, false);
      (forall i :: 0 <= i < |rows| ==> rows[i].key in out) && (forall k :: k in out ==> k in table && out[k] == table[k])
  {
    if rows != [] {
      EachWritten(rows[..|rows| - 1], table);
    }
  }

  lemma TableBack<K, T>(raw: seq<Raw<K, T>>, table: map<K, Row<T>>, source: Text, reason: Text)
    requires AllWhole(table) && ListsTable(raw, table)
    ensures var r := NormalizeRows(raw, source, reason); r.Ok? && UpsertAll(map[], r.value, false) == table
  {
    hide AllWhole, UpsertAll, NormalizeRows, Stated;
    ListedRows(raw, table, source, reason);
    var rows := NormalizeRows(raw, source, reason).value;
    EachWritten(rows, table);
    forall k | k in table ensures k in UpsertAll(map[], rows, false) {
      var i :| 0 <= i < |raw| && raw[i].key == k;
      assert rows[i].key == k;
    }
    SameMap(UpsertAll(map[], rows, false), table);
  }

  lemma SameMap<K, T>(a: map<K, T>, b: map<K, T>)
    requires (forall k :: k in a ==> k in b && a[k] == b[k]) && (forall k :: k in b ==> k in a)
    ensures a == b
  {
    assert a.Keys == b.Keys;
  }

  lemma {:induction false} EachMessageWritten(rows: seq<MessageRow>, messages: map<Id, Message>)
    requires forall i :: 0 <= i < |rows| ==> rows[i].id in messages && rows[i].message == messages[rows[i].id]
    ensures var out := RowsWritten(map[], rows);
      (forall i :: 0 <= i < |rows| ==> rows[i].id in out) && (forall e :: e in out ==> e in messages && out[e] == messages[e])
  {
    if rows != [] {
      EachMessageWritten(rows[..|rows| - 1], messages);
    }
  }

  /** A snapshot keeps the ids it has. */
  lemma IdsStay(h: E.Hashes, ms: seq<RawMessage>)
    requires E.CollisionFree(h) && forall i :: 0 <= i < |ms| ==> !IsBlank(ms[i].eventId)
    ensures forall i :: 0 <= i < |ms| ==> SnapshotIds(h, ms)[i] == ms[i].eventId
  {
    hide IsBlank, E.Normalized;
    assert IsBlank([]) by {
      TrimBare([]);
    }
    forall i | 0 <= i < |ms| ensures SnapshotIds(h, ms)[i] == ms[i].eventId {
      E.GivenIdStays(h, IdentitiesOf(ms), i);
    }
  }

  lemma MessagesBack(h: E.Hashes, raw: seq<RawMessage>, messages: map<Id, Message>, source: Text)
    requires E.CollisionFree(h) && AllNamed(messages) && (forall e :: e in messages ==> !IsBlank(e)) && ListsMessages(raw, messages)
    ensures var r := NormalizeMessages(raw, source);
      r.Ok? && RowsWritten(map[], RowsOf(SnapshotIds(h, raw), r.value)) == messages
  {
    hide IsBlank, AllNamed, NormalizeMessages, RowsWritten, Stated, SnapshotIds;
    ListedMessages(raw, messages, source);
    IdsStay(h, raw);
    var rows := RowsOf(SnapshotIds(h, raw), NormalizeMessages(raw, source).value);
    EachMessageWritten(rows, messages);
    forall e | e in messages ensures e in RowsWritten(map[], rows) {
      var i :| 0 <= i < |raw| && raw[i].eventId == e;
      assert rows[i].id == e;
    }
    SameMap(RowsWritten(map[], rows), messages);
  }

  lemma ChatsBack(raw: seq<Raw<Text, Chat>>, chats: map<int, Row<Chat>>, j: Jids, source: Text, reason: Text)
    requires SoundJids(j) && AllWhole(chats) && ListsTable(raw, ByJid(chats, j))
    ensures var r := NormalizeRows(raw, source, reason); r.Ok? && UpsertAll(map[], ChatWrites(j, r.value), false) == chats
  {
    hide UpsertAll, NormalizeRows, Stated, Whole, IsBlank;
    ListedRows(raw, ByJid(chats, j), source, reason);
    var rows := ChatWrites(j, NormalizeRows(raw, source, reason).value);
    EachWritten(rows, chats);
    forall n | n in chats ensures n in UpsertAll(map[], rows, false) {
      assert j.decimal(n) in ByJid(chats, j) && j.parse(j.decimal(n)) == n;
      var i :| 0 <= i < |raw| && raw[i].key == j.decimal(n);
      assert rows[i].key == n;
    }
    SameMap(UpsertAll(map[], rows, false), chats);
  }

  // Tables.

  /** A pass over a settled archive changes nothing. */
  lemma SettledStays(t: Tables, j: Jids)
    requires Settled(t, j)
    ensures Propagate(t, j, None) == t
  {
    hide Propagate;
    PropagateParts(t, j, None);
    assert FolderStep(t, None) == t.memberships;
    assert MembershipStep(t, j, None) == t.memberships;
    assert TopicStep(t, j, None) == t.topics && MessageStep(t, j, None) == t.messages;
    assert TopicMessageStep(t, None) == t.messages && ParticipantStep(t, None) == t.participants;
  }

  /** The tables that restoring an export makes are the exported ones. */
  lemma TablesBack(h: E.Hashes, d: Snapshot, t: Tables, revs: Revs, j: Jids)
    requires E.CollisionFree(h) && SoundJids(j) && IsExport(d, t, revs, j)
    requires Tidy(t) && Settled(t, j) && forall e :: e in t.messages ==> !IsBlank(e)
    ensures PrepareSnapshot(d).Ok?
    ensures var r := PrepareSnapshot(d).value;
      var rows := RowsOf(SnapshotIds(h, d.batch.messages), r.ready.messages);
      Propagate(StagedSnapshot(NO_ROWS, j, r, false, RowsWritten(map[], rows)), j, None) == t
  {
    hide AllWhole, AllNamed, ListsTable, ListsMessages, ListsRevisions, NormalizeRows, NormalizeMessages, UpsertAll, Propagate,
      IsBlank, Settled, SnapshotIds, RowsWritten, ByJid;
    var b := d.batch;
    ChatsBack(b.chats, t.chats, j, b.source, Ascii("explicit-chat-delete"));
    TableBack(b.folders, t.folders, b.source, Ascii("explicit-folder-delete"));
    TableBack(b.memberships, t.memberships, b.source, Ascii("explicit-folder-membership-delete"));
    TableBack(b.topics, t.topics, b.source, Ascii("explicit-topic-delete"));
    TableBack(d.groups, t.groups, b.source, Ascii("explicit-group-delete"));
    TableBack(d.participants, t.participants, b.source, Ascii("explicit-group-participant-delete"));
    MessagesBack(h, b.messages, t.messages, b.source);
    SettledStays(t, j);
  }

  /** What was asked of a revision when it was stored. */
  predicate Admitted(r: Revision, text: RevisionText) {
    && !IsBlank(r.id) && !IsBlank(r.message) && !IsBlank(text.eventType) && !IsBlank(text.reason) && text.json
  }

  lemma ExportInsertable(d: Snapshot, t: Tables, revs: Revs, j: Jids, textOf: Id -> RevisionText)
    requires SoundJids(j) && IsExport(d, t, revs, j)
    requires forall i :: 0 <= i < |d.revisions| ==> d.texts(i) == textOf(d.revisions[i].id)
    requires forall e :: e in revs ==> Admitted(revs[e], textOf(e))
    ensures Insertable(d.revisions, d.texts) && ListsRevisions(d.revisions, revs)
  {
    hide IsBlank, ListsTable, ListsMessages, SoundJids, ByJid;
    forall i | 0 <= i < |d.revisions| ensures Admitted(d.revisions[i], d.texts(i)) {
      assert d.revisions[i].id in revs;
    }
  }

  /** What an export's messages are once identified. */
  lemma MessagesIdentified(h: E.Hashes, d: Snapshot, t: Tables, r: ReadySnapshot)
    requires E.CollisionFree(h) && AllNamed(t.messages) && (forall e :: e in t.messages ==> !IsBlank(e))
    requires ListsMessages(d.batch.messages, t.messages) && PrepareSnapshot(d) == Ok(r)
    ensures |r.ready.messages| == |d.batch.messages|
    ensures forall i :: 0 <= i < |d.batch.messages| ==>
      var e := d.batch.messages[i].eventId; SnapshotIds(h, d.batch.messages)[i] == e && r.ready.messages[i] == t.messages[e]
  {
    hide AllNamed, NormalizeRows, NormalizeMessages, IsBlank, SnapshotIds, Stated;
    ListedMessages(d.batch.messages, t.messages, d.batch.source);
    IdsStay(h, d.batch.messages);
  }

  /** An export whose revisions can be inserted is accepted exactly when every message has a source id. */
  lemma AcceptedExport(h: E.Hashes, d: Snapshot, t: Tables, revs: Revs, j: Jids)
    requires E.CollisionFree(h) && SoundJids(j) && IsExport(d, t, revs, j)
    requires Tidy(t) && Settled(t, j) && (forall e :: e in t.messages ==> !IsBlank(e)) && Insertable(d.revisions, d.texts)
    ensures Importable(h, d) <==> AllSourced(t.messages)
  {
    hide AllWhole, AllNamed, ListsTable, PrepareSnapshot, Propagate, IsBlank, Settled, SnapshotIds, Insertable, RowsWritten, ByJid,
      StagedSnapshot, E.CollisionFree, SoundJids, RawOf;
    TablesBack(h, d, t, revs, j);
    var r := PrepareSnapshot(d).value;
    MessagesIdentified(h, d, t, r);
    NotBlankNotEmpty(d.revisions, d.texts);
    var ms := d.batch.messages;
    if AllSourced(t.messages) {
      assert Acceptable(SnapshotIds(h, ms), r.ready.messages, d.revisions);
    } else {
      var e :| e in t.messages && t.messages[e].sourcePk == 0;
      var i :| 0 <= i < |ms| && ms[i].eventId == e;
      assert r.ready.messages[i].sourcePk == 0;
    }
  }

  predicate AllSourced(messages: map<Id, Message>) {
    forall e :: e in messages ==> messages[e].sourcePk != 0
  }

  lemma NotBlankNotEmpty(revisions: seq<Revision>, texts: nat -> RevisionText)
    requires Insertable(revisions, texts)
    ensures forall i :: 0 <= i < |revisions| ==> revisions[i].id != [] && revisions[i].message != []
  {
    hide IsBlank;
    assert IsBlank([]) by {
      TrimBare([]);
    }
  }

  // Revisions.

  lemma {:induction false} EachRevisionInserted(rows: seq<Revision>, revs: Revs)
    requires forall i :: 0 <= i < |rows| ==> rows[i].id in revs && revs[rows[i].id] == rows[i]
    ensures var out := AllInserted(map[], rows);
      (forall i :: 0 <= i < |rows| ==> rows[i].id in out) && (forall e :: e in out ==> e in revs && out[e] == revs[e])
  {
    if rows != [] {
      EachRevisionInserted(rows[..|rows| - 1], revs);
    }
  }

  lemma RevisionsBack(rows: seq<Revision>, revs: Revs)
    requires ListsRevisions(rows, revs) && IdsMatch(revs)
    ensures AllInserted(map[], rows) == revs
  {
    hide AllInserted;
    EachRevisionInserted(rows, revs);
    forall e | e in revs ensures e in AllInserted(map[], rows) {
      var i :| 0 <= i < |rows| && rows[i] == revs[e];
    }
    SameMap(AllInserted(map[], rows), revs);
  }

  /** Every deletion is at the tip of its chain. */
  ghost predicate Recorded(j: Journal) {
    forall id :: id in j.messages ==> !NeedsRecord(j, id)
  }

  lemma SoundRecorded(j: Journal, hash: Hash)
    requires Sound(j, hash)
    ensures Recorded(j)
  {
    hide Chained, OwnReasons, LiveBefore;
    forall id | id in j.messages ensures !NeedsRecord(j, id) {
      assert TipRecords(j, id);
    }
  }

  /** A restore adds no revision exactly when every deletion is at the tip of its chain. */
  lemma RestoredHistory(j: Journal, hash: Hash, rows: seq<Revision>, after: Revs, observedAt: Time)
    requires Chained(j, hash) && ListsRevisions(rows, j.revs)
    requires HistoryComplete(j.messages, hash, map[], after, rows, None, observedAt)
    ensures after == j.revs <==> Recorded(j)
  {
    hide Chain, Injective, Hashed, AllInserted, ChainsRecorded, Historic, DeletionsKnown, DeletedIn, NeedsRecord;
    RevisionsBack(rows, j.revs);
    assert RowsHashed(rows, hash) && AllHashed(map[], hash);
    if Recorded(j) {
      forall e | e in after ensures e in j.revs {
        if e !in j.revs {
          var m := after[e].message;
          ChainAfter(j, hash, after, observedAt, m);
          OnChain(after, j.revs, m, j.chains[m], e);
        }
      }
      SameMap(after, j.revs);
    } else {
      var m :| m in j.messages && NeedsRecord(j, m);
      ChainAfter(j, hash, after, observedAt, m);
    }
  }

  /** An unrecorded deletion is recorded at the end of its chain; other chains stay. */
  lemma ChainAfter(j: Journal, hash: Hash, after: Revs, observedAt: Time, m: Id)
    requires Chained(j, hash) && m in j.messages
    requires ChainsRecorded(j.revs, after, hash, j.messages, DeletedIn(j.messages, None), observedAt)
    ensures if NeedsRecord(j, m) then after != j.revs else Chain(after, m, j.chains[m])
  {
    hide Chain, Injective, Hashed, AllHashed, DeletionRevision;
    var c := j.chains[m];
    ChainEnd(j.revs, m, c);
    assert RecordedTo(j.revs, after, hash, j.messages, DeletedIn(j.messages, None), observedAt, m, c);
    if NeedsRecord(j, m) {
      var d := RecordedChain(j.revs, hash, m, j.messages[m].tomb, observedAt, c);
      assert Chain(after, m, d) && |d| == |c| + 1 && d[..|c|] == c;
      NoLongerChain(j.revs, m, c, d);
    }
  }

  lemma OnChain(after: Revs, revs: Revs, m: Id, c: seq<Id>, e: Id)
    requires Chain(after, m, c) && Chain(revs, m, c) && e in after && after[e].message == m
    ensures e in revs
  {
    var i :| 0 <= i < |c| && c[i] == e;
    assert Linked(revs, m, c, i);
  }

  lemma NoLongerChain(revs: Revs, m: Id, c: seq<Id>, d: seq<Id>)
    requires Chain(revs, m, c) && |d| == |c| + 1 && d[..|c|] == c
    ensures !Chain(revs, m, d)
  {
    if Linked(revs, m, d, |c|) {
      MemberOf(revs, m, c, d[|c|]);
      var i :| 0 <= i < |c| && c[i] == d[|c|];
      assert d[i] == d[|c|];
    }
  }

  // Restoring.

  lemma SameIndex(messages: map<Id, Message>, a: Index, b: Index)
    requires IndexAgrees(messages, a) && IndexAgrees(messages, b)
    ensures a == b
  {
    SameMap(a, b);
  }

  /**
   Restoring the export of a settled archive with unforked histories, over itself or another. It is accepted exactly when
   every message has a source id and every revision can be inserted, gives back every table and the index, and gives back
   the revisions exactly when every deletion is at the tip of its chain.
   */
  method RestoreExport(from: Archive, to: Archive, source: Text, textOf: Id -> RevisionText, observedAt: Time)
    returns (r: Result<(), SnapshotError>)
    requires SoundJids(from.jids) && to.jids == from.jids && to.hash == from.hash && E.CollisionFree(to.hashes)
    requires from.Usable() && Tidy(from.Db()) && Settled(from.Db(), from.jids) && Chained(from.Log(), from.hash)
    requires forall e :: e in from.revisions ==> Admitted(from.revisions[e], textOf(e))
    modifies to
    ensures r.Ok? <==> old(AllSourced(from.messages))
    ensures r.Ok? ==> to.Usable() && to.Db() == old(from.Db()) && to.index == old(from.index)
    ensures r.Ok? ==> (to.revisions == old(from.revisions) <==> old(Recorded(from.Log())))
    ensures r.Ok? && old(from.Valid()) ==> to.revisions == old(from.revisions)
  {
    hide Tidy, Settled, Chained, IndexAgrees, E.CollisionFree, SoundJids, IsExport, Propagate, StagedSnapshot, RowsWritten,
      HistoryComplete, Recorded, PrepareSnapshot, SnapshotIds, Insertable, Importable, IsBlank, IdsMatch, AllSourced, Sound,
      ListsRevisions, Admitted;
    ghost var t, j, index := from.Db(), from.Log(), from.index;
    var d := ExportAll(from, source, textOf);
    ExportInsertable(d, t, j.revs, from.jids, textOf);
    TablesBack(to.hashes, d, t, j.revs, from.jids);
    AcceptedExport(to.hashes, d, t, j.revs, from.jids);
    r := RestoreSnapshot(to, d, observedAt);
    if r.Ok? {
      SameIndex(to.messages, to.index, index);
      RestoredHistory(j, to.hash, d.revisions, to.revisions, observedAt);
      if Sound(j, to.hash) {
        SoundRecorded(j, to.hash);
      }
    }
  }
}
