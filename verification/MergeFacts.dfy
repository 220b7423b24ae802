/** What a merge batch does to the tables, and why its scope is enough. */
module MergeFacts {
  import opened ArchiveTables
  import opened Bytes
  import opened ChatAggregates
  import opened ImportBatch
  import opened MessageJournal
  import opened RevisionChain
  import opened RevisionGraph
  import opened Revisions
  import opened TextOrder
  import opened TombstonePropagation
  import opened Wrappers

  /** A batch whose tombstones are normalized. */
  datatype Ready = Ready(chats: seq<Write<Text, Chat>>, folders: seq<Write<Text, Folder>>,
                         memberships: seq<Write<MembershipKey, Membership>>, topics: seq<Write<TopicKey, Topic>>,
                         messages: seq<Message>)

  /** The first malformed row refuses the batch. */
  function Prepare(b: Batch): (r: Result<Ready, ImportError>)
    ensures r.Ok? ==> Prepared(b, r.value)
  {
    var chats :- NormalizeRows(b.chats, b.source, Ascii("explicit-chat-delete"));
    var folders :- NormalizeRows(b.folders, b.source, Ascii("explicit-folder-delete"));
    var memberships :- NormalizeRows(b.memberships, b.source, Ascii("explicit-folder-membership-delete"));
    var topics :- NormalizeRows(b.topics, b.source, Ascii("explicit-topic-delete"));
    var messages :- NormalizeMessages(b.messages, b.source);
    Ok(Ready(chats, folders, memberships, topics, messages))
  }

  predicate SameKeys<K(==), T>(raw: seq<Raw<K, T>>, rows: seq<Write<K, T>>) {
    |raw| == |rows| && forall i :: 0 <= i < |rows| ==> rows[i].key == raw[i].key
  }

  predicate Prepared(b: Batch, r: Ready) {
    && SameKeys(b.chats, r.chats) && SameKeys(b.folders, r.folders) && SameKeys(b.memberships, r.memberships)
    && SameKeys(b.topics, r.topics) && |b.messages| == |r.messages|
    && forall i :: 0 <= i < |r.messages| ==> r.messages[i].content == b.messages[i].content
  }

  /** The tables after the batch's rows are written, before deletions propagate. */
  ghost function Staged(t: Tables, j: Jids, r: Ready, preserve: bool, messages: map<Id, Message>): Tables {
    t.(
      chats := UpsertAll(t.chats, ChatWrites(j, r.chats), preserve),
      folders := UpsertAll(t.folders, r.folders, preserve),
      memberships := UpsertAll(t.memberships, r.memberships, preserve),
      topics := UpsertAll(t.topics, r.topics, preserve),
      messages := messages)
  }

  lemma KeyNamed<K, T>(raw: seq<Raw<K, T>>, rows: seq<Write<K, T>>, i: nat)
    requires SameKeys(raw, rows) && i < |rows|
    ensures raw[i] in raw && rows[i].key in Keys(raw)
  {
  }

  lemma ChangedKeyNamed<K, T>(table: map<K, Row<T>>, raw: seq<Raw<K, T>>, rows: seq<Write<K, T>>, preserve: bool, k: K)
    requires SameKeys(raw, rows)
    ensures k in Keys(raw) || ((k in UpsertAll(table, rows, preserve) <==> k in table)
      && (k in table ==> UpsertAll(table, rows, preserve)[k] == table[k]))
  {
    hide UpsertAll, Keys;
    if i :| 0 <= i < |rows| && rows[i].key == k {
      KeyNamed(raw, rows, i);
    } else {
      UpsertAllElsewhere(table, rows, preserve, k);
    }
  }

  /** A chat row that changes is named by the JID its children use, when the batch spells JIDs canonically. */
  lemma ChangedChatNamed(chats: map<int, Row<Chat>>, j: Jids, raw: seq<Raw<Text, Chat>>, rows: seq<Write<Text, Chat>>, preserve: bool,
                         n: int)
    requires SameKeys(raw, rows) && forall r :: r in raw ==> Canonical(j, r.key)
    ensures j.decimal(n) in Keys(raw) || ((n in UpsertAll(chats, ChatWrites(j, rows), preserve) <==> n in chats)
      && (n in chats ==> UpsertAll(chats, ChatWrites(j, rows), preserve)[n] == chats[n]))
  {
    hide UpsertAll, Keys;
    var writes := ChatWrites(j, rows);
    if i :| 0 <= i < |writes| && writes[i].key == n {
      KeyNamed(raw, rows, i);
    } else {
      UpsertAllElsewhere(chats, writes, preserve, n);
    }
  }

  lemma ScopeNames(b: Batch)
    ensures Keys(b.chats) <= ScopeOf(b).chats && Keys(b.folders) <= ScopeOf(b).folders && Keys(b.topics) <= ScopeOf(b).topics
    ensures forall k :: k in Keys(b.memberships) ==> k.folder in ScopeOf(b).folders && k.chat in ScopeOf(b).chats
    ensures forall k :: k in Keys(b.topics) ==> k.chat in ScopeOf(b).chats
    ensures forall m :: m in b.messages ==> m.content.chat in ScopeOf(b).chats
    ensures forall m :: m in b.messages && m.content.topic != [] ==>
      TopicKey(m.content.chat, m.content.topic) in ScopeOf(b).topics
  {
  }

  /** Live messages after `u` is reached from `t` stand where they stood or where the scope names. */
  ghost predicate MessagesNamed(t: Tables, u: Tables, scope: Scope) {
    forall e :: e in u.messages && u.messages[e].tomb.Live? && !Stayed(t, u, e) ==>
      && u.messages[e].content.chat in scope.chats
      && (u.messages[e].content.topic != [] ==> TopicOf(u.messages[e]) in scope.topics)
  }

  lemma RowsNamed(t: Tables, b: Batch, r: Ready, rows: seq<MessageRow>)
    requires Prepared(b, r) && FromBatch(rows, r.messages)
    ensures MessagesNamed(t, t.(messages := RowsWritten(t.messages, rows)), ScopeOf(b))
  {
    hide RowsWritten, ScopeOf;
    var u := t.(messages := RowsWritten(t.messages, rows));
    ScopeNames(b);
    forall e | e in u.messages && u.messages[e].tomb.Live? && !Stayed(t, u, e)
      ensures u.messages[e].content.chat in ScopeOf(b).chats
      ensures u.messages[e].content.topic != [] ==> TopicOf(u.messages[e]) in ScopeOf(b).topics
    {
      RowWritten(t.messages, rows, e);
      if exists i :: 0 <= i < |rows| && rows[i].id == e {
        var i :| 0 <= i < |rows| && rows[i].id == e && MadeBy(u.messages[e], rows[i].message);
        assert Carried(rows[i].message.content, r.messages);
        var k :| 0 <= k < |r.messages| && r.messages[k].content == rows[i].message.content;
        assert b.messages[k] in b.messages;
      }
    }
  }

  /** Every row the batch deletes as a parent or brings to life as a child is in its scope. */
  lemma StagedTouches(t: Tables, jids: Jids, b: Batch, r: Ready, preserve: bool, messages: map<Id, Message>)
    requires Prepared(b, r) && (forall c :: c in b.chats ==> Canonical(jids, c.key))
    requires MessagesNamed(t, t.(messages := messages), ScopeOf(b))
    ensures Touched(t, Staged(t, jids, r, preserve, messages), jids, ScopeOf(b))
  {
    hide UpsertAll, ScopeOf, Keys, Prepared, SameKeys;
    var u, scope := Staged(t, jids, r, preserve, messages), ScopeOf(b);
    ScopeNames(b);
    Unfold(b, r);
    forall jid | ChatDeleted(u.chats, jids, jid) && !ChatDeleted(t.chats, jids, jid) ensures jid in scope.chats {
      ChangedChatNamed(t.chats, jids, b.chats, r.chats, preserve, jids.parse(jid));
    }
    forall f | FolderDeleted(u.folders, f) && !FolderDeleted(t.folders, f) ensures f in scope.folders {
      ChangedKeyNamed(t.folders, b.folders, r.folders, preserve, f);
    }
    forall k | TopicDeleted(u.topics, k) && !TopicDeleted(t.topics, k) ensures k in scope.topics {
      ChangedKeyNamed(t.topics, b.topics, r.topics, preserve, k);
    }
    forall k | LiveMembership(u, k) && !LiveMembership(t, k) ensures k.folder in scope.folders && k.chat in scope.chats {
      ChangedKeyNamed(t.memberships, b.memberships, r.memberships, preserve, k);
    }
    forall k | LiveTopic(u, k) && !LiveTopic(t, k) ensures k.chat in scope.chats {
      ChangedKeyNamed(t.topics, b.topics, r.topics, preserve, k);
    }
    forall e | e in u.messages && u.messages[e].tomb.Live? && !Stayed(t, u, e)
      ensures u.messages[e].content.chat in scope.chats
      ensures u.messages[e].content.topic != [] ==> TopicOf(u.messages[e]) in scope.topics
    {
      assert Stayed(t, u, e) == Stayed(t, t.(messages := messages), e);
    }
  }

  lemma BatchTouches(t: Tables, jids: Jids, b: Batch, r: Ready, preserve: bool, rows: seq<MessageRow>)
    requires Prepared(b, r) && FromBatch(rows, r.messages) && forall c :: c in b.chats ==> Canonical(jids, c.key)
    ensures Touched(t, Staged(t, jids, r, preserve, RowsWritten(t.messages, rows)), jids, ScopeOf(b))
  {
    hide RowsWritten, ScopeOf, Prepared, Touched, Staged, FromBatch;
    RowsNamed(t, b, r, rows);
    StagedTouches(t, jids, b, r, preserve, RowsWritten(t.messages, rows));
  }

  lemma Unfold(b: Batch, r: Ready)
    requires Prepared(b, r)
    ensures SameKeys(b.chats, r.chats) && SameKeys(b.folders, r.folders) && SameKeys(b.memberships, r.memberships)
    ensures SameKeys(b.topics, r.topics)
  {
  }

  // What propagation does to messages.

  predicate InScope(scope: Option<Scope>, m: Message) {
    scope.Some? ==> m.content.chat in scope.value.chats || TopicOf(m) in scope.value.topics
  }

  /** A message is as before, or a parent's deletion reached it inside the scope. */
  predicate Reached(before: Message, after: Message, scope: Option<Scope>) {
    || after == before
    || (before.tomb.Live? && after.tomb.Deleted? && IsParentReason(after.tomb.reason) && after == before.(tomb := after.tomb)
        && InScope(scope, after))
  }

  lemma PropagateReaches(t: Tables, j: Jids, scope: Option<Scope>, e: Id)
    requires e in t.messages
    ensures e in Propagate(t, j, scope).messages && Reached(t.messages[e], Propagate(t, j, scope).messages[e], scope)
  {
    hide FolderStep, MembershipStep, ParticipantStep, TopicStep, Propagate;
    PropagateParts(t, j, scope);
  }

  lemma PropagateKeys(t: Tables, j: Jids, scope: Option<Scope>)
    ensures Propagate(t, j, scope).messages.Keys == t.messages.Keys
    ensures Propagate(t, j, scope).chats == t.chats && Propagate(t, j, scope).folders == t.folders
  {
    hide FolderStep, MembershipStep, ParticipantStep, TopicStep, Propagate;
    PropagateParts(t, j, scope);
  }

  /** After propagation every tip records its row, or the row awaits its record. */
  lemma PropagatePartly(j: Journal, hash: Hash, t: Tables, jids: Jids, scope: Option<Scope>)
    requires Sound(j, hash) && t.messages == j.messages
    ensures Partly(j.(messages := Propagate(t, jids, scope).messages), hash)
    ensures forall e :: e in j.messages && !TipRecords(j.(messages := Propagate(t, jids, scope).messages), e) ==>
      var m := Propagate(t, jids, scope).messages[e]; m.tomb.Deleted? && InScope(scope, m)
  {
    hide Propagate, OwnReasons, Chained, TipRecords;
    var k := j.(messages := Propagate(t, jids, scope).messages);
    PropagateKeys(t, jids, scope);
    forall e | e in k.messages
      ensures TipRecords(k, e) || (TipIn(k, e) && Unrecorded(Tip(k, e), k.messages[e])
        && k.messages[e].tomb.Deleted? && InScope(scope, k.messages[e]))
    {
      PropagateReaches(t, jids, scope, e);
      assert TipRecords(j, e);
      ReachedTip(j, k, e, scope);
    }
    PropagateChained(j, k, hash);
  }

  lemma PropagateChained(j: Journal, k: Journal, hash: Hash)
    requires Chained(j, hash) && k == j.(messages := k.messages) && k.messages.Keys == j.messages.Keys
    ensures Chained(k, hash)
  {
    hide Injective, AllHashed, Chain;
  }

  lemma ReachedTip(j: Journal, k: Journal, e: Id, scope: Option<Scope>)
    requires TipRecords(j, e) && k == j.(messages := k.messages) && e in k.messages
    requires Reached(j.messages[e], k.messages[e], scope)
    ensures TipRecords(k, e) || (TipIn(k, e) && Unrecorded(Tip(k, e), k.messages[e])
      && k.messages[e].tomb.Deleted? && InScope(scope, k.messages[e]))
  {
    hide IsParentReason;
  }

  /** Pruning the scope's deleted messages brings the index up to date after propagation. */
  lemma PruneAgrees(before: map<Id, Message>, after: map<Id, Message>, index: Index, pruned: Index, scope: Option<Scope>)
    requires IndexAgrees(before, index) && after.Keys == before.Keys
    requires forall e :: e in before ==> Reached(before[e], after[e], scope)
    requires forall e :: e in pruned <==> e in index && !(e in after && after[e].tomb.Deleted? && InScope(scope, after[e]))
    requires forall e :: e in pruned ==> pruned[e] == index[e]
    ensures IndexAgrees(after, pruned)
  {
    hide EntryOf, IsParentReason;
  }

  /**
   A chat deleted under "007" is chat 7, but its live message is under "7": the scope names the wrong text, and the scoped
   pass leaves a message that the unscoped pass deletes.
   */
  lemma NonCanonicalChatMissed(j: Jids)
    requires j.parse(Ascii("007")) == 7 && j.parse(Ascii("7")) == 7 && j.decimal(7) == Ascii("7")
    ensures var content := Content(Ascii("7"), [], [1], [], 1, 0, [], [], [], [], [], []);
      var t := Tables(map[7 := Row(Chat([], 1, 1), Live)], map[], map[], map[], map[], map[], map[[9] := Message(content, Live, 1, [], 0)]);
      var b := Batch([1], [Raw(Ascii("007"), Chat([], 0, 0), RawTombstone(5, [], []))], [], [], [], []);
      && Settled(t, j) && Prepare(b).Ok?
      && var u := Staged(t, j, Prepare(b).value, false, t.messages);
        Propagate(u, j, Some(ScopeOf(b))) != Propagate(u, j, None)
  {
    hide Propagate, Prepare, NormalizeRows, UpsertAll;
    var content := Content(Ascii("7"), [], [1], [], 1, 0, [], [], [], [], [], []);
    var t := Tables(map[7 := Row(Chat([], 1, 1), Live)], map[], map[], map[], map[], map[], map[[9] := Message(content, Live, 1, [], 0)]);
    var raw := Raw(Ascii("007"), Chat([], 0, 0), RawTombstone(5, [], []));
    var b := Batch([1], [raw], [], [], [], []);
    OneRowReady(raw, b.source, Ascii("explicit-chat-delete"));
    OneChatPrepared(b);
    var r := Prepare(b).value;
    var u := Staged(t, j, r, false, t.messages);
    assert |Ascii("007")| == 3 && |Ascii("7")| == 1;
    OneChatDeleted(t.chats, j, r.chats);
    assert ChatDeleted(u.chats, j, Ascii("7"));
    assert MessageMissed(u, j, ScopeOf(b), [9]);
    MissedMessage(u, j, ScopeOf(b), [9]);
  }

  lemma OneChatPrepared(b: Batch)
    requires b.folders == [] && b.memberships == [] && b.topics == [] && b.messages == []
    requires NormalizeRows(b.chats, b.source, Ascii("explicit-chat-delete")).Ok?
    ensures Prepare(b).Ok? && Prepare(b).value.chats == NormalizeRows(b.chats, b.source, Ascii("explicit-chat-delete")).value
  {
    hide NormalizeTombstone;
  }

  lemma OneRowReady(raw: Raw<Text, Chat>, source: Text, reason: Text)
    requires raw.tomb.at > 0
    ensures NormalizeRows([raw], source, reason).Ok?
    ensures var rows := NormalizeRows([raw], source, reason).value;
      |rows| == 1 && rows[0].key == raw.key && rows[0].row.tomb.Deleted?
  {
    hide NormalizeTombstone;
    assert [raw][..0] == [];
  }

  lemma OneChatDeleted(chats: map<int, Row<Chat>>, j: Jids, rows: seq<Write<Text, Chat>>)
    requires |rows| == 1 && rows[0].row.tomb.Deleted?
    ensures var n := j.parse(rows[0].key);
      n in UpsertAll(chats, ChatWrites(j, rows), false) && UpsertAll(chats, ChatWrites(j, rows), false)[n].tomb.Deleted?
  {
    var writes := ChatWrites(j, rows);
    assert UpsertAll(chats, writes[..0], false) == chats;
  }
}
