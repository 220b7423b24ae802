/** What an import makes of every table, from the raw rows it brings, field by field. */
module ImportMeaning {
  import opened ArchiveTables
  import opened Bytes
  import opened ChatAggregates
  import opened ImportBatch
  import opened MergeFacts
  import opened MessageJournal
  import opened RevisionGraph
  import opened RowChanges
  import opened TextOrder
  import opened TombstonePropagation
  import opened Wrappers

  /** A stated deletion: without a time it is none; a source or reason that is blank is filled in. */
  predicate TombAs(raw: RawTombstone, source: Text, reason: string, t: Tombstone) {
    if raw.at == 0 then t == Live
    else
      && t.Deleted? && t.at == raw.at
      && t.source == (if !IsBlank(raw.source) then raw.source else if !IsBlank(source) then Trim(source) else Ascii("unknown"))
      && t.reason == if IsBlank(raw.reason) then Ascii(reason) else raw.reason
  }

  /** A deletion that names a source or a reason must have a time. */
  predicate TombRefused(raw: RawTombstone) {
    raw.at == 0 && !(IsBlank(raw.source) && IsBlank(raw.reason))
  }

  predicate RowsAs<K(==), T(==)>(raws: seq<Raw<K, T>>, source: Text, reason: string, rows: seq<Write<K, T>>) {
    && |rows| == |raws|
    && forall i :: 0 <= i < |rows| ==>
         rows[i].key == raws[i].key && rows[i].row.value == raws[i].value && TombAs(raws[i].tomb, source, reason, rows[i].row.tomb)
  }

  predicate RowsRefused<K, T>(raws: seq<Raw<K, T>>) {
    exists i :: 0 <= i < |raws| && TombRefused(raws[i].tomb)
  }

  predicate MessageAs(raw: RawMessage, source: Text, m: Message) {
    && m.content == raw.content && m.sourcePk == raw.sourcePk && m.mediaPath == raw.mediaPath && m.mediaSize == raw.mediaSize
    && TombAs(raw.tomb, source, "explicit-message-delete", m.tomb)
  }

  predicate MessageRefused(raw: RawMessage) {
    IsBlank(raw.content.chat) || IsBlank(raw.content.messageId) || TombRefused(raw.tomb)
  }

  predicate MessagesRefused(raws: seq<RawMessage>) {
    exists i :: 0 <= i < |raws| && MessageRefused(raws[i])
  }

  predicate ReadyAs(b: Batch, r: Ready) {
    && RowsAs(b.chats, b.source, "explicit-chat-delete", r.chats)
    && RowsAs(b.folders, b.source, "explicit-folder-delete", r.folders)
    && RowsAs(b.memberships, b.source, "explicit-folder-membership-delete", r.memberships)
    && RowsAs(b.topics, b.source, "explicit-topic-delete", r.topics)
    && |r.messages| == |b.messages| && forall i :: 0 <= i < |b.messages| ==> MessageAs(b.messages[i], b.source, r.messages[i])
  }

  predicate Refused(b: Batch) {
    || RowsRefused(b.chats) || RowsRefused(b.folders) || RowsRefused(b.memberships) || RowsRefused(b.topics)
    || MessagesRefused(b.messages)
  }

  /** A table once some rows are written. */
  ghost predicate Wrote<K(!new), T(!new)>(before: map<K, Row<T>>, rows: seq<Write<K, T>>, preserve: bool, after: map<K, Row<T>>) {
    forall k :: RowBecomes(before, rows, preserve, k, |rows|, At(after, k))
  }

  /** The tables once a batch is written; chats are kept by number. */
  ghost predicate WroteAll(t: Tables, j: Jids, r: Ready, preserve: bool, s: Tables) {
    && Wrote(t.chats, ChatWrites(j, r.chats), preserve, s.chats) && Wrote(t.folders, r.folders, preserve, s.folders)
    && Wrote(t.memberships, r.memberships, preserve, s.memberships) && Wrote(t.topics, r.topics, preserve, s.topics)
  }

  /** An import writes its rows, passes deletions on within the scope, and counts the chats of `done` again. */
  ghost predicate Imports(t: Tables, b: Batch, ids: seq<Id>, j: Jids, scope: Option<Scope>, done: set<Text>, u: Tables) {
    exists r, s :: ImportsBy(t, b, ids, j, scope, done, u, r, s)
  }

  ghost predicate ImportsBy(t: Tables, b: Batch, ids: seq<Id>, j: Jids, scope: Option<Scope>, done: set<Text>, u: Tables,
                            r: Ready, s: Tables) {
    && ReadyAs(b, r) && WroteAll(t, j, r, false, s) && s.groups == t.groups && s.participants == t.participants
    && |ids| == |r.messages| && TableBecomes(t.messages, RowsOf(ids, r.messages), s.messages)
    && PassedOn(s, j, scope, u.(chats := s.chats)) && AllCounted(s.chats, u.chats, u.messages, j, done)
  }

  // The import does that.

  lemma TombIs(raw: RawTombstone, source: Text, reason: string)
    requires reason != "" && reason[0] == 'e'
    ensures NormalizeTombstone(raw, source, Ascii(reason)).Err? <==> TombRefused(raw)
    ensures NormalizeTombstone(raw, source, Ascii(reason)).Ok? ==>
      TombAs(raw, source, reason, NormalizeTombstone(raw, source, Ascii(reason)).value)
  {
    hide IsBlank, Trim;
    assert Ascii(reason)[0] == 'e' as int % 256;
    BeginsBare(Ascii(reason));
  }

  lemma {:induction false} RowsAre<K, T>(raws: seq<Raw<K, T>>, source: Text, reason: string)
    requires reason != "" && reason[0] == 'e'
    ensures var r := NormalizeRows(raws, source, Ascii(reason));
      && (r.Err? <==> RowsRefused(raws))
      && (r.Ok? ==> RowsAs(raws, source, reason, r.value))
  {
    hide NormalizeTombstone, TombAs, TombRefused, RowsRefused;
    if raws != [] {
      var n := |raws| - 1;
      RowsAre(raws[..n], source, reason);
      TombIs(raws[n].tomb, source, reason);
      RefusedSplit(raws);
    } else {
      NoneRefused(raws);
    }
  }

  lemma NoneRefused<K, T>(raws: seq<Raw<K, T>>)
    ensures raws == [] ==> !RowsRefused(raws)
    ensures !MessagesRefused([])
  {
  }

  lemma RefusedSplit<K, T>(raws: seq<Raw<K, T>>)
    requires raws != []
    ensures RowsRefused(raws) <==> RowsRefused(raws[..|raws| - 1]) || TombRefused(raws[|raws| - 1].tomb)
  {
    hide TombRefused;
    var n := |raws| - 1;
    if i :| 0 <= i < n && TombRefused(raws[..n][i].tomb) {
      assert TombRefused(raws[i].tomb);
    }
    if i :| 0 <= i < |raws| && TombRefused(raws[i].tomb) && i < n {
      assert TombRefused(raws[..n][i].tomb);
    }
  }

  lemma MessageIs(raw: RawMessage, source: Text)
    ensures NormalizeMessage(raw, source).Err? <==> MessageRefused(raw)
    ensures NormalizeMessage(raw, source).Ok? ==> MessageAs(raw, source, NormalizeMessage(raw, source).value)
  {
    hide NormalizeTombstone, TombAs, TombRefused, Ascii;
    TombIs(raw.tomb, source, "explicit-message-delete");
  }

  lemma {:induction false} MessagesAre(raws: seq<RawMessage>, source: Text)
    ensures var r := NormalizeMessages(raws, source);
      && (r.Err? <==> MessagesRefused(raws))
      && (r.Ok? ==> forall i :: 0 <= i < |raws| ==> MessageAs(raws[i], source, r.value[i]))
  {
    hide NormalizeMessage, MessageAs, MessageRefused, MessagesRefused;
    if raws != [] {
      var n := |raws| - 1;
      MessagesAre(raws[..n], source);
      MessageIs(raws[n], source);
      MessagesSplit(raws);
    } else {
      NoneRefused<Text, Chat>([]);
    }
  }

  lemma MessagesSplit(raws: seq<RawMessage>)
    requires raws != []
    ensures MessagesRefused(raws) <==> MessagesRefused(raws[..|raws| - 1]) || MessageRefused(raws[|raws| - 1])
  {
    hide MessageRefused;
    var n := |raws| - 1;
    if i :| 0 <= i < n && MessageRefused(raws[..n][i]) {
      assert MessageRefused(raws[i]);
    }
    if i :| 0 <= i < |raws| && MessageRefused(raws[i]) && i < n {
      assert MessageRefused(raws[..n][i]);
    }
  }

  /** A batch is refused exactly for such a row, and otherwise made ready like this. */
  lemma PreparedAs(b: Batch)
    ensures Prepare(b).Err? <==> Refused(b)
    ensures Prepare(b).Ok? ==> ReadyAs(b, Prepare(b).value)
  {
    hide NormalizeRows, NormalizeMessages, RowsAs, RowsRefused, MessageAs, MessagesRefused, Ascii;
    RowsAre(b.chats, b.source, "explicit-chat-delete");
    RowsAre(b.folders, b.source, "explicit-folder-delete");
    RowsAre(b.memberships, b.source, "explicit-folder-membership-delete");
    RowsAre(b.topics, b.source, "explicit-topic-delete");
    MessagesAre(b.messages, b.source);
  }

  lemma UpsertedWrites<K(!new), T(!new)>(before: map<K, Row<T>>, rows: seq<Write<K, T>>, preserve: bool)
    ensures Wrote(before, rows, preserve, UpsertAll(before, rows, preserve))
  {
    hide RowBecomes, UpsertAll;
    assert rows[..|rows|] == rows;
    forall k ensures RowBecomes(before, rows, preserve, k, |rows|, At(UpsertAll(before, rows, preserve), k)) {
      UpsertedBecomes(before, rows, preserve, k, |rows|);
    }
  }

  lemma StagedWrites(t: Tables, j: Jids, r: Ready, preserve: bool, messages: map<Id, Message>)
    ensures var s := Staged(t, j, r, preserve, messages);
      WroteAll(t, j, r, preserve, s) && s.groups == t.groups && s.participants == t.participants && s.messages == messages
  {
    hide Wrote, UpsertAll;
    UpsertedWrites(t.chats, ChatWrites(j, r.chats), preserve);
    UpsertedWrites(t.folders, r.folders, preserve);
    UpsertedWrites(t.memberships, r.memberships, preserve);
    UpsertedWrites(t.topics, r.topics, preserve);
  }

  /** The tables after a pass, whatever chats were counted since. */
  lemma StagedImports(t: Tables, j: Jids, b: Batch, ids: seq<Id>, scope: Option<Scope>, done: set<Text>, u: Tables)
    requires Prepare(b).Ok? && |ids| == |Prepare(b).value.messages|
    requires var rows := RowsOf(ids, Prepare(b).value.messages);
      var s := Staged(t, j, Prepare(b).value, false, RowsWritten(t.messages, rows));
      u.(chats := s.chats) == Propagate(s, j, scope) && AllCounted(s.chats, u.chats, u.messages, j, done)
    ensures Imports(t, b, ids, j, scope, done, u)
  {
    hide Prepare, ReadyAs, WroteAll, TableBecomes, PassedOn, AllCounted, Staged, RowsWritten, Propagate;
    PreparedAs(b);
    var r := Prepare(b).value;
    var rows := RowsOf(ids, r.messages);
    var s := Staged(t, j, r, false, RowsWritten(t.messages, rows));
    StagedWrites(t, j, r, false, RowsWritten(t.messages, rows));
    WrittenBecomes(t.messages, rows);
    PassExactly(s, j, scope);
    assert ImportsBy(t, b, ids, j, scope, done, u, r, s);
  }
}
