/** Why chat counts stay right over merges. */
module MergeCounts {
  import opened ArchiveTables
  import opened Bytes
  import opened ChatAggregates
  import opened ImportBatch
  import opened MergeFacts
  import opened MessageJournal
  import opened RevisionChain
  import opened RevisionGraph
  import opened Revisions
  import opened TextOrder
  import opened TombstonePropagation
  import opened Wrappers

  /** Ids never move a stored message to another chat. */
  ghost predicate KeepsChats(messages: map<Id, Message>, rows: seq<MessageRow>) {
    && (forall i :: 0 <= i < |rows| && rows[i].id in messages ==>
          messages[rows[i].id].content.chat == rows[i].message.content.chat)
    && (forall i, k :: 0 <= i < |rows| && 0 <= k < |rows| && rows[i].id == rows[k].id ==>
          rows[i].message.content.chat == rows[k].message.content.chat)
  }

  /** A message under `jid` is under it before and after, unchanged. */
  ghost predicate SameUnder(before: map<Id, Message>, after: map<Id, Message>, jid: Text) {
    forall e ::
      && (e in LiveIn(before, jid) ==> e in after && after[e] == before[e])
      && (e in LiveIn(after, jid) ==> e in before && after[e] == before[e])
  }

  lemma SameUnderRecount(chat: Chat, before: map<Id, Message>, after: map<Id, Message>, jid: Text)
    requires Recounted(chat, before, jid) && SameUnder(before, after, jid)
    ensures Recounted(chat, after, jid)
  {
    assert LiveIn(before, jid) == LiveIn(after, jid);
    SameRecount(chat, before, after, jid);
  }

  /** Writing messages of other chats leaves the live messages under `jid` alone. */
  lemma WritesElsewhere(messages: map<Id, Message>, rows: seq<MessageRow>, jid: Text)
    requires KeepsChats(messages, rows) && forall i :: 0 <= i < |rows| ==> rows[i].message.content.chat != jid
    ensures SameUnder(messages, RowsWritten(messages, rows), jid)
  {
    hide RowsWritten;
    var after := RowsWritten(messages, rows);
    forall e
      ensures e in LiveIn(messages, jid) ==> e in after && after[e] == messages[e]
      ensures e in LiveIn(after, jid) ==> e in messages && after[e] == messages[e]
    {
      RowWritten(messages, rows, e);
    }
  }

  /** Propagation reaches a message only through its chat or a topic the scope names. */
  lemma PropagateSpares(t: Tables, j: Jids, scope: Scope, e: Id)
    requires e in t.messages && !ChatDeleted(t.chats, j, t.messages[e].content.chat) && TopicOf(t.messages[e]) !in scope.topics
    ensures e in Propagate(t, j, Some(scope)).messages && Propagate(t, j, Some(scope)).messages[e] == t.messages[e]
  {
    hide FolderStep, MembershipStep, ParticipantStep, TopicStep, Propagate, ChatDeleted;
    PropagateParts(t, j, Some(scope));
  }

  lemma PropagateElsewhere(t: Tables, j: Jids, b: Batch, jid: Text)
    requires !ChatDeleted(t.chats, j, jid) && jid !in AffectedChats(b) && !IsBlank(jid)
    ensures SameUnder(t.messages, Propagate(t, j, Some(ScopeOf(b))).messages, jid)
  {
    hide Propagate, ChatDeleted, IsBlank;
    var after := Propagate(t, j, Some(ScopeOf(b))).messages;
    PropagateKeys(t, j, Some(ScopeOf(b)));
    forall e | e in t.messages
      ensures t.messages[e].content.chat == jid ==> after[e] == t.messages[e]
      ensures after[e].content.chat == t.messages[e].content.chat
    {
      PropagateReaches(t, j, Some(ScopeOf(b)), e);
      if t.messages[e].content.chat == jid {
        PropagateSpares(t, j, ScopeOf(b), e);
      }
    }
  }

  lemma SameUnderTransitive(a: map<Id, Message>, b: map<Id, Message>, c: map<Id, Message>, jid: Text)
    requires SameUnder(a, b, jid) && SameUnder(b, c, jid)
    ensures SameUnder(a, c, jid)
  {
    forall e
      ensures e in LiveIn(a, jid) ==> e in c && c[e] == a[e]
      ensures e in LiveIn(c, jid) ==> e in a && c[e] == a[e]
    {
      assert e in LiveIn(a, jid) ==> e in LiveIn(b, jid);
      assert e in LiveIn(c, jid) ==> e in LiveIn(b, jid);
    }
  }

  /** A merge that counts its affected chats again leaves every live chat counted right. */
  lemma MergeCounted(t: Tables, jids: Jids, b: Batch, r: Ready, rows: seq<MessageRow>, out: map<int, Row<Chat>>)
    requires SoundJids(jids) && Prepared(b, r) && CanonicalChats(b, jids) && FromBatch(rows, r.messages)
    requires Counted(t.chats, t.messages, jids) && KeepsChats(t.messages, rows)
    requires var s := Staged(t, jids, r, false, RowsWritten(t.messages, rows));
      AllCounted(s.chats, out, Propagate(s, jids, Some(ScopeOf(b))).messages, jids, AffectedChats(b))
    ensures var s := Staged(t, jids, r, false, RowsWritten(t.messages, rows));
      Counted(out, Propagate(s, jids, Some(ScopeOf(b))).messages, jids)
  {
    hide RowsWritten, Propagate, Recounted, Prepared, AffectedChats, ScopeOf, KeepsChats;
    var s := Staged(t, jids, r, false, RowsWritten(t.messages, rows));
    var after := Propagate(s, jids, Some(ScopeOf(b))).messages;
    forall n | n in out && out[n].tomb.Live? ensures Recounted(out[n].value, after, jids.decimal(n)) {
      assert RowCounted(s.chats[n], out[n], after, jids, AffectedChats(b), n);
      if jid :| jid in AffectedChats(b) && jids.parse(jid) == n && Recounted(out[n].value, after, jid) {
        AffectedCanonical(b, jids, jid);
      } else {
        UncountedChat(t, jids, b, r, rows, n);
      }
    }
  }

  lemma AffectedCanonical(b: Batch, jids: Jids, jid: Text)
    requires CanonicalChats(b, jids) && jid in AffectedChats(b)
    ensures jids.decimal(jids.parse(jid)) == jid
  {
    hide IsBlank;
  }

  /** A live chat the batch does not affect is counted right already. */
  lemma UncountedChat(t: Tables, jids: Jids, b: Batch, r: Ready, rows: seq<MessageRow>, n: int)
    requires SoundJids(jids) && Prepared(b, r) && CanonicalChats(b, jids) && FromBatch(rows, r.messages)
    requires Counted(t.chats, t.messages, jids) && KeepsChats(t.messages, rows)
    requires var s := Staged(t, jids, r, false, RowsWritten(t.messages, rows));
      n in s.chats && s.chats[n].tomb.Live?
    requires forall jid :: jid in AffectedChats(b) ==> jids.parse(jid) != n
    ensures var s := Staged(t, jids, r, false, RowsWritten(t.messages, rows));
      Recounted(s.chats[n].value, Propagate(s, jids, Some(ScopeOf(b))).messages, jids.decimal(n))
  {
    hide RowsWritten, Propagate, Recounted, UpsertAll, KeepsChats, Prepared;
    var s := Staged(t, jids, r, false, RowsWritten(t.messages, rows));
    var jid := jids.decimal(n);
    var after := Propagate(s, jids, Some(ScopeOf(b))).messages;
    Unfold(b, r);
    ChangedChatNamed(t.chats, jids, b.chats, r.chats, false, n);
    assert jid !in AffectedChats(b) && n in t.chats && s.chats[n] == t.chats[n];
    ChatsNamed(b, r, jid);
    RowsElsewhere(rows, r.messages, jid);
    WritesElsewhere(t.messages, rows, jid);
    PropagateElsewhere(s, jids, b, jid);
    SameUnderTransitive(t.messages, s.messages, after, jid);
    SameUnderRecount(t.chats[n].value, t.messages, after, jid);
  }

  lemma RowsElsewhere(rows: seq<MessageRow>, ms: seq<Message>, jid: Text)
    requires FromBatch(rows, ms) && forall i :: 0 <= i < |ms| ==> ms[i].content.chat != jid
    ensures forall i :: 0 <= i < |rows| ==> rows[i].message.content.chat != jid
  {
    forall i | 0 <= i < |rows| ensures rows[i].message.content.chat != jid {
      assert Carried(rows[i].message.content, ms);
    }
  }

  lemma ChatsNamed(b: Batch, r: Ready, jid: Text)
    requires Prepared(b, r) && jid !in AffectedChats(b) && !IsBlank(jid)
    ensures forall i :: 0 <= i < |r.messages| ==> r.messages[i].content.chat != jid
    ensures jid !in Keys(b.chats)
  {
    hide IsBlank;
    forall i | 0 <= i < |r.messages| ensures r.messages[i].content.chat != jid {
      assert b.messages[i] in b.messages;
    }
  }
}
