/** What writing rows and passing on deletions do to each row, field by field. */
module RowChanges {
  import opened ArchiveTables
  import opened Bytes
  import opened ImportBatch
  import opened MergeFacts
  import opened MessageJournal
  import opened RevisionGraph
  import opened TextOrder
  import opened TombstonePropagation
  import opened Wrappers

  // Messages.

  /** The new text, or the old one where the new is empty. */
  function Filled(new_: Text, old_: Text): Text {
    if |new_| == 0 then old_ else new_
  }

  /**
   A message written over a stored one. A deletion leaves all that is stored and brings its tombstone. Any other brings
   everything, but for media: a type, title and address that are empty, and a path and size without a path, stay.
   */
  predicate WrittenOver(before: Message, incoming: Message, after: Message) {
    var c, d, x := before.content, incoming.content, after.content;
    && after.tomb == incoming.tomb
    && if incoming.tomb.Deleted? then
        x == c && after.sourcePk == before.sourcePk && after.mediaPath == before.mediaPath && after.mediaSize == before.mediaSize
      else
        && x.chat == d.chat && x.chatName == d.chatName && x.messageId == d.messageId && x.sender == d.sender && x.ts == d.ts
        && x.editTs == d.editTs && x.text == d.text && x.topic == d.topic && x.metadata == d.metadata
        && x.mediaType == Filled(d.mediaType, c.mediaType) && x.mediaTitle == Filled(d.mediaTitle, c.mediaTitle)
        && x.mediaUrl == Filled(d.mediaUrl, c.mediaUrl) && after.sourcePk == incoming.sourcePk
        && after.mediaPath == Filled(incoming.mediaPath, before.mediaPath)
        && after.mediaSize == if |incoming.mediaPath| == 0 then before.mediaSize else incoming.mediaSize
  }

  lemma RowIsWrittenOver(before: Message, incoming: Message)
    ensures WrittenOver(before, incoming, RowFor(Some(before), incoming))
    ensures RowFor(None, incoming) == incoming
  {
  }

  /** Nothing is stored under `e`, nor written by the first `n` rows. */
  predicate Absent(messages: map<Id, Message>, rows: seq<MessageRow>, e: Id, n: nat)
    requires n <= |rows|
  {
    e !in messages && forall i :: 0 <= i < n ==> rows[i].id != e
  }

  /** What is under `e` once the first `n` rows are written: as stored, as it came first, or written over. */
  ghost predicate Becomes(messages: map<Id, Message>, rows: seq<MessageRow>, e: Id, n: nat, after: Message)
    requires n <= |rows|
    decreases n, 1
  {
    if n == 0 then e in messages && after == messages[e]
    else if rows[n - 1].id != e then Becomes(messages, rows, e, n - 1, after)
    else if Absent(messages, rows, e, n - 1) then after == rows[n - 1].message
    else exists before :: OneMore(messages, rows, e, n, before, after)
  }

  /** The row before the last write, and what that write makes of it. */
  ghost predicate OneMore(messages: map<Id, Message>, rows: seq<MessageRow>, e: Id, n: nat, before: Message, after: Message)
    requires 0 < n <= |rows|
    decreases n, 0
  {
    Becomes(messages, rows, e, n - 1, before) && WrittenOver(before, rows[n - 1].message, after)
  }

  lemma {:induction false} RowsBecome(messages: map<Id, Message>, rows: seq<MessageRow>, e: Id, n: nat)
    requires n <= |rows|
    ensures e in RowsWritten(messages, rows[..n]) <==> !Absent(messages, rows, e, n)
    ensures e in RowsWritten(messages, rows[..n]) ==> Becomes(messages, rows, e, n, RowsWritten(messages, rows[..n])[e])
  {
    hide RowFor, WrittenOver;
    if n > 0 {
      var last := rows[n - 1];
      assert rows[..n][..n - 1] == rows[..n - 1] && rows[..n][n - 1] == last;
      RowsBecome(messages, rows, e, n - 1);
      var before := RowsWritten(messages, rows[..n - 1]);
      if last.id == e && e !in before {
        RowIsWrittenOver(last.message, last.message);
      } else if last.id == e {
        RowIsWrittenOver(before[e], last.message);
        assert OneMore(messages, rows, e, n, before[e], RowsWritten(messages, rows[..n])[e]);
      }
    }
  }

  /** The whole table, once rows are written. */
  ghost predicate TableBecomes(messages: map<Id, Message>, rows: seq<MessageRow>, after: map<Id, Message>) {
    && (forall e :: e in after <==> !Absent(messages, rows, e, |rows|))
    && (forall e :: e in after ==> Becomes(messages, rows, e, |rows|, after[e]))
  }

  lemma WrittenBecomes(messages: map<Id, Message>, rows: seq<MessageRow>)
    ensures TableBecomes(messages, rows, RowsWritten(messages, rows))
  {
    hide RowsWritten, Becomes, Absent;
    assert rows[..|rows|] == rows;
    forall e ensures e in RowsWritten(messages, rows) <==> !Absent(messages, rows, e, |rows|)
      ensures e in RowsWritten(messages, rows) ==> Becomes(messages, rows, e, |rows|, RowsWritten(messages, rows)[e])
    {
      RowsBecome(messages, rows, e, |rows|);
    }
  }

  // Parents.

  /** One row written over a known one, or a new one. */
  ghost predicate RowOver<T(!new)>(before: Option<Row<T>>, incoming: Row<T>, preserve: bool, after: Row<T>) {
    match before
    case None => after == incoming
    case Some(b) =>
      if preserve && (incoming.tomb.Deleted? || b.tomb.Deleted?) then after == b
      else after.tomb == incoming.tomb && after.value == if incoming.tomb.Deleted? then b.value else incoming.value
  }

  /** What is under `k` once the first `n` rows are written. */
  ghost predicate RowBecomes<K(!new), T(!new)>(table: map<K, Row<T>>, rows: seq<Write<K, T>>, preserve: bool, k: K, n: nat,
                                               after: Option<Row<T>>)
    requires n <= |rows|
    decreases n, 1
  {
    if n == 0 then after == if k in table then Some(table[k]) else None
    else if rows[n - 1].key != k then RowBecomes(table, rows, preserve, k, n - 1, after)
    else after.Some? && exists before :: OneMoreRow(table, rows, preserve, k, n, before, after.value)
  }

  ghost predicate OneMoreRow<K(!new), T(!new)>(table: map<K, Row<T>>, rows: seq<Write<K, T>>, preserve: bool, k: K, n: nat,
                                               before: Option<Row<T>>, after: Row<T>)
    requires 0 < n <= |rows|
    decreases n, 0
  {
    RowBecomes(table, rows, preserve, k, n - 1, before) && RowOver(before, rows[n - 1].row, preserve, after)
  }

  function At<K, T>(table: map<K, T>, k: K): Option<T> {
    if k in table then Some(table[k]) else None
  }

  /** Every row of a table that a batch writes becomes what its own writes make it. */
  lemma {:induction false} UpsertedBecomes<K(!new), T(!new)>(table: map<K, Row<T>>, rows: seq<Write<K, T>>, preserve: bool, k: K, n: nat)
    requires n <= |rows|
    ensures RowBecomes(table, rows, preserve, k, n, At(UpsertAll(table, rows[..n], preserve), k))
  {
    if n > 0 {
      assert rows[..n][..n - 1] == rows[..n - 1];
      UpsertedBecomes(table, rows, preserve, k, n - 1);
      var before, after := UpsertAll(table, rows[..n - 1], preserve), UpsertAll(table, rows[..n], preserve);
      assert after == Upsert(before, rows[n - 1], preserve);
      assert rows[n - 1].key == k ==> k in after && OneMoreRow(table, rows, preserve, k, n, At(before, k), after[k]);
    }
  }

  // Deletions passed on.

  /** The deletion of the chat that `jid` names, if its number is spelled so and its row is deleted. */
  function ChatGone(chats: map<int, Row<Chat>>, j: Jids, jid: Text): Option<Tombstone> {
    var n := j.parse(jid);
    if j.decimal(n) == jid && n in chats && chats[n].tomb.Deleted? then Some(chats[n].tomb) else None
  }

  function Gone<K, T>(table: map<K, Row<T>>, k: K): Option<Tombstone> {
    if k in table && table[k].tomb.Deleted? then Some(table[k].tomb) else None
  }

  /** A live tombstone under a deleted parent takes its time and source, and the reason given. */
  predicate Takes(before: Tombstone, parent: Option<Tombstone>, reason: string, after: Tombstone)
    requires parent.Some? ==> parent.value.Deleted?
  {
    if before.Live? && parent.Some? then after == Deleted(parent.value.at, parent.value.source, Ascii(reason)) else after == before
  }

  /** A parent counts only when the scope, if there is one, names it. */
  function Within(parent: Option<Tombstone>, inScope: bool): Option<Tombstone> {
    if inScope then parent else None
  }

  /** A message passes away with its chat, else with its topic. */
  predicate MessagePasses(chats: map<int, Row<Chat>>, topics: map<TopicKey, Row<Topic>>, j: Jids, scope: Option<Scope>,
                          before: Message, after: Message)
  {
    var chat, key := before.content.chat, TopicKey(before.content.chat, before.content.topic);
    var c := Within(ChatGone(chats, j, chat), scope.Some? ==> chat in scope.value.chats);
    var p := Within(if key.topic == [] then None else Gone(topics, key), scope.Some? ==> key in scope.value.topics);
    && after == before.(tomb := after.tomb)
    && if c.Some? then Takes(before.tomb, c, "parent_chat_deleted", after.tomb)
       else Takes(before.tomb, p, "parent_topic_deleted", after.tomb)
  }

  predicate TopicPasses(t: Tables, j: Jids, scope: Option<Scope>, k: TopicKey, before: Row<Topic>, after: Row<Topic>) {
    var c := Within(ChatGone(t.chats, j, k.chat), scope.Some? ==> k.chat in scope.value.chats);
    after.value == before.value && Takes(before.tomb, c, "parent_chat_deleted", after.tomb)
  }

  /** A membership passes away with its folder, else with its chat. */
  predicate MembershipPasses(t: Tables, j: Jids, scope: Option<Scope>, k: MembershipKey, before: Row<Membership>,
                             after: Row<Membership>)
  {
    var f := Within(Gone(t.folders, k.folder), scope.Some? ==> k.folder in scope.value.folders);
    var c := Within(ChatGone(t.chats, j, k.chat), scope.Some? ==> k.chat in scope.value.chats);
    && after.value == before.value
    && if f.Some? then Takes(before.tomb, f, "parent_folder_deleted", after.tomb)
       else Takes(before.tomb, c, "parent_chat_deleted", after.tomb)
  }

  predicate ParticipantPasses(t: Tables, scope: Option<Scope>, k: ParticipantKey, before: Row<Participant>, after: Row<Participant>) {
    var g := Within(Gone(t.groups, k.group), scope.Some? ==> k.group in scope.value.groups);
    after.value == before.value && Takes(before.tomb, g, "parent_group_deleted", after.tomb)
  }

  /** `u` is `t` once deletions are passed on. */
  ghost predicate PassedOn(t: Tables, j: Jids, scope: Option<Scope>, u: Tables) {
    && u.chats == t.chats && u.folders == t.folders && u.groups == t.groups
    && u.messages.Keys == t.messages.Keys && u.topics.Keys == t.topics.Keys && u.memberships.Keys == t.memberships.Keys
    && u.participants.Keys == t.participants.Keys
    && (forall e :: e in t.messages ==> MessagePasses(u.chats, u.topics, j, scope, t.messages[e], u.messages[e]))
    && (forall k :: k in t.topics ==> TopicPasses(t, j, scope, k, t.topics[k], u.topics[k]))
    && (forall k :: k in t.memberships ==> MembershipPasses(t, j, scope, k, t.memberships[k], u.memberships[k]))
    && (forall k :: k in t.participants ==> ParticipantPasses(t, scope, k, t.participants[k], u.participants[k]))
  }

  lemma TopicsPass(t: Tables, j: Jids, scope: Option<Scope>)
    ensures var out := TopicStep(t, j, scope);
      out.Keys == t.topics.Keys && forall k :: k in t.topics ==> TopicPasses(t, j, scope, k, t.topics[k], out[k])
  {
    hide Ascii;
  }

  lemma ParticipantsPass(t: Tables, scope: Option<Scope>)
    ensures var out := ParticipantStep(t, scope);
      out.Keys == t.participants.Keys && forall k :: k in t.participants ==> ParticipantPasses(t, scope, k, t.participants[k], out[k])
  {
    hide Ascii;
  }

  lemma MembershipsPass(t: Tables, j: Jids, scope: Option<Scope>)
    ensures var out := MembershipStep(t.(memberships := FolderStep(t, scope)), j, scope);
      out.Keys == t.memberships.Keys && forall k :: k in t.memberships ==> MembershipPasses(t, j, scope, k, t.memberships[k], out[k])
  {
    hide Ascii;
  }

  lemma MessagesPass(t: Tables, j: Jids, scope: Option<Scope>)
    ensures var c := t.(topics := TopicStep(t, j, scope), messages := MessageStep(t, j, scope));
      var out := TopicMessageStep(c, scope);
      out.Keys == t.messages.Keys && forall e :: e in t.messages ==> MessagePasses(c.chats, c.topics, j, scope, t.messages[e], out[e])
  {
    hide Ascii;
  }

  /** A pass is exactly that, within any scope. */
  lemma PassExactly(t: Tables, j: Jids, scope: Option<Scope>)
    ensures PassedOn(t, j, scope, Propagate(t, j, scope))
  {
    hide FolderStep, MembershipStep, TopicStep, MessageStep, TopicMessageStep, ParticipantStep, Propagate, MessagePasses, TopicPasses,
      MembershipPasses, ParticipantPasses;
    PropagateParts(t, j, scope);
    TopicsPass(t, j, scope);
    ParticipantsPass(t, scope);
    MembershipsPass(t, j, scope);
    MessagesPass(t, j, scope);
  }
}
