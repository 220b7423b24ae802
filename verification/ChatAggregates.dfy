/** Message counts and last times of chats, counted again after a merge. */
module ChatAggregates {
  import opened ArchiveTables
  import opened Bytes
  import opened RevisionGraph
  import opened TextOrder

  function LiveIn(messages: map<Id, Message>, jid: Text): (ids: set<Id>) {
    set e | e in messages && messages[e].tomb.Live? && messages[e].content.chat == jid
  }

  /** The newest time among some messages; 0 when there is none. */
  ghost predicate IsLast(messages: map<Id, Message>, ids: set<Id>, last: Time)
    requires ids <= messages.Keys
  {
    && (forall e :: e in ids ==> messages[e].content.ts <= last)
    && (last == 0 || exists e :: e in ids && messages[e].content.ts == last)
  }

  /** A chat row that agrees with a recount of the live messages under `jid`. */
  ghost predicate Recounted(chat: Chat, messages: map<Id, Message>, jid: Text) {
    chat.messageCount == |LiveIn(messages, jid)| && IsLast(messages, LiveIn(messages, jid), chat.lastMessageAt)
  }

  /** Every live chat agrees with a recount. */
  ghost predicate Counted(chats: map<int, Row<Chat>>, messages: map<Id, Message>, j: Jids) {
    forall n :: n in chats && chats[n].tomb.Live? ==> Recounted(chats[n].value, messages, j.decimal(n))
  }

  method LastTime(messages: map<Id, Message>, ids: set<Id>) returns (last: Time)
    requires ids <= messages.Keys
    ensures IsLast(messages, ids, last)
  {
    last := 0;
    var todo := ids;
    while todo != {}
      invariant todo <= ids
      invariant forall e :: e in ids && e !in todo ==> messages[e].content.ts <= last
      invariant last == 0 || exists e :: e in ids && messages[e].content.ts == last
      decreases |todo|
    {
      var e :| e in todo;
      todo := todo - {e};
      if messages[e].content.ts > last {
        last := messages[e].content.ts;
      }
    }
  }

  /** The recount depends only on the live messages under the chat and their times. */
  lemma SameRecount(chat: Chat, before: map<Id, Message>, after: map<Id, Message>, jid: Text)
    requires Recounted(chat, before, jid)
    requires LiveIn(before, jid) == LiveIn(after, jid)
    requires forall e :: e in LiveIn(before, jid) ==> before[e].content.ts == after[e].content.ts
    ensures Recounted(chat, after, jid)
  {
  }

  /** A live chat named by `done` agrees with a recount under one of its names, all else kept; others are as they were. */
  ghost predicate RowCounted(was: Row<Chat>, now: Row<Chat>, messages: map<Id, Message>, j: Jids, done: set<Text>, n: int) {
    if was.tomb.Live? && exists jid :: jid in done && j.parse(jid) == n
    then
      && now.tomb == was.tomb && now.value.name == was.value.name
      && exists jid :: jid in done && j.parse(jid) == n && Recounted(now.value, messages, jid)
    else now == was
  }

  ghost predicate AllCounted(was: map<int, Row<Chat>>, now: map<int, Row<Chat>>, messages: map<Id, Message>, j: Jids,
                             done: set<Text>) {
    now.Keys == was.Keys && forall n :: n in was ==> RowCounted(was[n], now[n], messages, j, done, n)
  }

  /** recomputeChatAggregates. */
  method RecomputeChatAggregates(chats: map<int, Row<Chat>>, messages: map<Id, Message>, j: Jids, affected: set<Text>)
    returns (out: map<int, Row<Chat>>)
    ensures AllCounted(chats, out, messages, j, affected)
  {
    hide Recounted, AllCounted, IsLast;
    out := chats;
    var todo := affected;
    ghost var done: set<Text> := {};
    NothingCounted(chats, messages, j);
    while todo != {}
      invariant done == affected - todo && todo <= affected
      invariant AllCounted(chats, out, messages, j, done)
      decreases |todo|
    {
      var jid :| jid in todo;
      todo := todo - {jid};
      var n := j.parse(jid);
      ghost var before := out;
      if n in out && out[n].tomb.Live? {
        var live := LiveIn(messages, jid);
        var last := LastTime(messages, live);
        var counted := out[n].value.(messageCount := |live|, lastMessageAt := last);
        FreshCount(counted, messages, jid);
        out := out[n := Row(counted, Live)];
      }
      CountStep(chats, before, out, messages, j, done, jid);
      done := done + {jid};
    }
    assert done == affected;
  }

  lemma NothingCounted(chats: map<int, Row<Chat>>, messages: map<Id, Message>, j: Jids)
    ensures AllCounted(chats, chats, messages, j, {})
  {
  }

  lemma CountStep(was: map<int, Row<Chat>>, before: map<int, Row<Chat>>, after: map<int, Row<Chat>>, messages: map<Id, Message>,
                  j: Jids, done: set<Text>, jid: Text)
    requires AllCounted(was, before, messages, j, done)
    requires var n := j.parse(jid);
      if n in before && before[n].tomb.Live?
      then
        && n in after && after[n].tomb.Live? && after[n].value.name == before[n].value.name
        && Recounted(after[n].value, messages, jid) && after == before[n := after[n]]
      else after == before
    ensures AllCounted(was, after, messages, j, done + {jid})
  {
    hide Recounted;
    forall n | n in was ensures n in after && RowCounted(was[n], after[n], messages, j, done + {jid}, n) {
      assert RowCounted(was[n], before[n], messages, j, done, n);
      if n == j.parse(jid) {
        assert jid in done + {jid};
      } else {
        OtherRow(was[n], before[n], messages, j, done, jid, n);
      }
    }
  }

  lemma OtherRow(was: Row<Chat>, now: Row<Chat>, messages: map<Id, Message>, j: Jids, done: set<Text>, jid: Text, n: int)
    requires RowCounted(was, now, messages, j, done, n) && j.parse(jid) != n
    ensures RowCounted(was, now, messages, j, done + {jid}, n)
  {
    hide Recounted;
    if x :| x in done && j.parse(x) == n && was.tomb.Live? {
      assert x in done + {jid};
    }
  }

  lemma FreshCount(chat: Chat, messages: map<Id, Message>, jid: Text)
    requires chat.messageCount == |LiveIn(messages, jid)| && IsLast(messages, LiveIn(messages, jid), chat.lastMessageAt)
    ensures Recounted(chat, messages, jid)
  {
  }
}
