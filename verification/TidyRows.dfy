/** What every stored row has: whole tombstones, and a chat and an id for each message. */
module TidyRows {
  import opened ArchiveTables
  import opened Bytes
  import opened ChatAggregates
  import opened ImportBatch
  import opened MergeFacts
  import opened MessageJournal
  import opened RevisionGraph
  import opened TextOrder
  import opened TombstonePropagation
  import opened Wrappers

  /** A deletion has a time, a source and a reason. */
  predicate Whole(t: Tombstone) {
    t.Deleted? ==> t.at > 0 && !IsBlank(t.source) && !IsBlank(t.reason)
  }

  predicate Named(m: Message) {
    !IsBlank(m.content.chat) && !IsBlank(m.content.messageId) && Whole(m.tomb)
  }

  predicate AllWhole<K, T>(table: map<K, Row<T>>) {
    forall k :: k in table ==> Whole(table[k].tomb)
  }

  predicate AllNamed(messages: map<Id, Message>) {
    forall e :: e in messages ==> Named(messages[e])
  }

  predicate Tidy(t: Tables) {
    && AllWhole(t.chats) && AllWhole(t.folders) && AllWhole(t.memberships) && AllWhole(t.topics) && AllWhole(t.groups)
    && AllWhole(t.participants) && AllNamed(t.messages)
  }

  // What is written is tidy.

  predicate WholeWrites<K, T>(rows: seq<Write<K, T>>) {
    forall i :: 0 <= i < |rows| ==> Whole(rows[i].row.tomb)
  }

  predicate NamedRows(rows: seq<MessageRow>) {
    forall i :: 0 <= i < |rows| ==> Named(rows[i].message)
  }

  predicate TidyReady(r: Ready) {
    WholeWrites(r.chats) && WholeWrites(r.folders) && WholeWrites(r.memberships) && WholeWrites(r.topics)
  }

  lemma {:induction false} NormalizedWhole<K, T>(rows: seq<Raw<K, T>>, source: Text, reason: Text)
    ensures var r := NormalizeRows(rows, source, reason); r.Ok? ==> WholeWrites(r.value)
  {
    hide IsBlank;
    if rows != [] && NormalizeRows(rows, source, reason).Ok? {
      NormalizedWhole(rows[..|rows| - 1], source, reason);
    }
  }

  /** A batch that is accepted writes tidy rows only. */
  lemma PreparedTidy(b: Batch, r: Ready, ids: seq<Id>)
    requires Prepare(b) == Ok(r) && |ids| == |r.messages|
    ensures TidyReady(r) && NamedRows(RowsOf(ids, r.messages))
  {
    hide IsBlank, NormalizeRows;
    NormalizedWhole(b.chats, b.source, Ascii("explicit-chat-delete"));
    NormalizedWhole(b.folders, b.source, Ascii("explicit-folder-delete"));
    NormalizedWhole(b.memberships, b.source, Ascii("explicit-folder-membership-delete"));
    NormalizedWhole(b.topics, b.source, Ascii("explicit-topic-delete"));
    forall i | 0 <= i < |r.messages| ensures Named(r.messages[i]) {
      NormalizedNamed(b.messages[i], b.source);
    }
  }

  lemma NormalizedNamed(m: RawMessage, source: Text)
    ensures NormalizeMessage(m, source).Ok? ==> Named(NormalizeMessage(m, source).value)
  {
    hide IsBlank;
  }

  lemma {:induction false} UpsertedWhole<K, T>(table: map<K, Row<T>>, rows: seq<Write<K, T>>, preserve: bool)
    requires AllWhole(table) && WholeWrites(rows)
    ensures AllWhole(UpsertAll(table, rows, preserve))
  {
    hide Whole;
    if rows != [] {
      UpsertedWhole(table, rows[..|rows| - 1], preserve);
    }
  }

  lemma {:induction false} WrittenNamed(messages: map<Id, Message>, rows: seq<MessageRow>)
    requires AllNamed(messages) && NamedRows(rows)
    ensures AllNamed(RowsWritten(messages, rows))
  {
    hide IsBlank;
    if rows != [] {
      WrittenNamed(messages, rows[..|rows| - 1]);
    }
  }

  lemma ParentReasonsSpoken()
    ensures !IsBlank(PARENT_FOLDER) && !IsBlank(PARENT_CHAT) && !IsBlank(PARENT_TOPIC) && !IsBlank(PARENT_GROUP)
  {
    BeginsBare(PARENT_FOLDER);
    BeginsBare(PARENT_CHAT);
    BeginsBare(PARENT_TOPIC);
    BeginsBare(PARENT_GROUP);
  }

  lemma InheritedWhole(parent: Tombstone, reason: Text)
    requires Whole(parent) && parent.Deleted? && !IsBlank(reason)
    ensures Whole(Inherited(parent, reason))
  {
    hide IsBlank;
  }

  lemma MembershipsWhole(t: Tables, j: Jids, scope: Option<Scope>)
    requires Tidy(t)
    ensures AllWhole(MembershipStep(t.(memberships := FolderStep(t, scope)), j, scope))
  {
    hide IsBlank, Whole, Inherited, AllNamed;
    ParentReasonsSpoken();
    forall k | k in t.memberships ensures Whole(FolderStep(t, scope)[k].tomb) {
      if FolderDeleted(t.folders, k.folder) {
        InheritedWhole(t.folders[k.folder].tomb, PARENT_FOLDER);
      }
    }
    var a := t.(memberships := FolderStep(t, scope));
    forall k | k in a.memberships ensures Whole(MembershipStep(a, j, scope)[k].tomb) {
      if ChatDeleted(t.chats, j, k.chat) {
        InheritedWhole(t.chats[j.parse(k.chat)].tomb, PARENT_CHAT);
      }
    }
  }

  lemma TopicsWhole(t: Tables, j: Jids, scope: Option<Scope>)
    requires Tidy(t)
    ensures AllWhole(TopicStep(t, j, scope)) && AllWhole(ParticipantStep(t, scope))
  {
    hide IsBlank, Whole, Inherited, AllNamed;
    ParentReasonsSpoken();
    forall k | k in t.topics ensures Whole(TopicStep(t, j, scope)[k].tomb) {
      if ChatDeleted(t.chats, j, k.chat) {
        InheritedWhole(t.chats[j.parse(k.chat)].tomb, PARENT_CHAT);
      }
    }
    forall k | k in t.participants ensures Whole(ParticipantStep(t, scope)[k].tomb) {
      if GroupDeleted(t.groups, k.group) {
        InheritedWhole(t.groups[k.group].tomb, PARENT_GROUP);
      }
    }
  }

  lemma StepNamed(t: Tables, j: Jids, scope: Option<Scope>)
    requires Tidy(t)
    ensures AllNamed(MessageStep(t, j, scope))
  {
    hide IsBlank, Whole, Inherited;
    ParentReasonsSpoken();
    forall e | e in t.messages ensures Named(MessageStep(t, j, scope)[e]) {
      if ChatDeleted(t.chats, j, t.messages[e].content.chat) {
        InheritedWhole(t.chats[j.parse(t.messages[e].content.chat)].tomb, PARENT_CHAT);
      }
    }
  }

  lemma TopicStepNamed(t: Tables, scope: Option<Scope>)
    requires AllWhole(t.topics) && AllNamed(t.messages)
    ensures AllNamed(TopicMessageStep(t, scope))
  {
    hide IsBlank, Whole, Inherited;
    ParentReasonsSpoken();
    forall e | e in t.messages ensures Named(TopicMessageStep(t, scope)[e]) {
      if TopicDeleted(t.topics, TopicOf(t.messages[e])) {
        InheritedWhole(t.topics[TopicOf(t.messages[e])].tomb, PARENT_TOPIC);
      }
    }
  }

  /** A pass hands on what parents have. */
  lemma PropagatedTidy(t: Tables, j: Jids, scope: Option<Scope>)
    requires Tidy(t)
    ensures Tidy(Propagate(t, j, scope))
  {
    hide FolderStep, MembershipStep, TopicStep, MessageStep, TopicMessageStep, ParticipantStep, AllWhole, AllNamed, Propagate;
    PropagateParts(t, j, scope);
    MembershipsWhole(t, j, scope);
    TopicsWhole(t, j, scope);
    StepNamed(t, j, scope);
    TopicStepNamed(t.(topics := TopicStep(t, j, scope), messages := MessageStep(t, j, scope)), scope);
  }

  lemma CountedWhole(was: map<int, Row<Chat>>, now: map<int, Row<Chat>>, messages: map<Id, Message>, j: Jids, done: set<Text>)
    requires AllWhole(was) && AllCounted(was, now, messages, j, done)
    ensures AllWhole(now)
  {
    hide Whole;
    forall n | n in now ensures Whole(now[n].tomb) {
      assert RowCounted(was[n], now[n], messages, j, done, n);
    }
  }

  /** Written rows, and the pass after them. */
  lemma StagedTidy(t: Tables, j: Jids, r: Ready, preserve: bool, rows: seq<MessageRow>, scope: Option<Scope>)
    requires Tidy(t) && TidyReady(r) && NamedRows(rows)
    ensures var s := Staged(t, j, r, preserve, RowsWritten(t.messages, rows)); Tidy(s) && Tidy(Propagate(s, j, scope))
  {
    hide AllWhole, AllNamed, UpsertAll, RowsWritten, Propagate, Whole;
    UpsertedWhole(t.chats, ChatWrites(j, r.chats), preserve);
    UpsertedWhole(t.folders, r.folders, preserve);
    UpsertedWhole(t.memberships, r.memberships, preserve);
    UpsertedWhole(t.topics, r.topics, preserve);
    WrittenNamed(t.messages, rows);
    PropagatedTidy(Staged(t, j, r, preserve, RowsWritten(t.messages, rows)), j, scope);
  }
}
