/** What imports leave of a history, whatever it was: revisions are only added, and deletions become known. */
module HistoryRecords {
  import opened ArchiveTables
  import opened Bytes
  import opened ImportBatch
  import opened MergeFacts
  import opened MessageJournal
  import opened RevisionChain
  import opened RevisionGraph
  import opened Revisions
  import opened TextOrder
  import opened TombstonePropagation
  import opened Wrappers

  predicate HasRevision(revs: Revs, m: Id) {
    exists e :: e in revs && revs[e].message == m
  }

  /** Ids are content hashes, and every message has a revision. */
  ghost predicate Historic(messages: map<Id, Message>, revs: Revs, hash: Hash) {
    AllHashed(revs, hash) && forall id :: id in messages ==> HasRevision(revs, id)
  }

  lemma HashedMatch(revs: Revs, hash: Hash)
    requires AllHashed(revs, hash)
    ensures IdsMatch(revs)
  {
  }

  lemma KeptRevision(before: Revs, after: Revs, m: Id)
    requires Kept(before, after) && HasRevision(before, m)
    ensures HasRevision(after, m)
  {
    var e :| e in before && before[e].message == m;
    assert after[e] == before[e];
  }

  /** Inserting a hashed revision leaves one with its content under its id. */
  lemma InsertedSame(revs: Revs, hash: Hash, r: Revision)
    requires Injective(hash) && AllHashed(revs, hash) && Hashed(hash, r)
    ensures AllHashed(InsertRevision(revs, r), hash) && r.id in InsertRevision(revs, r)
    ensures var s := InsertRevision(revs, r)[r.id];
      s.message == r.message && s.eventType == r.eventType && s.eventAt == r.eventAt
    ensures HasRevision(InsertRevision(revs, r), r.message)
  {
    var after := InsertRevision(revs, r);
    if r.id in revs {
      assert HashWith(hash, revs[r.id], revs[r.id].message, revs[r.id].predecessor) == HashWith(hash, r, r.message, r.predecessor);
    }
    assert after[r.id].message == r.message;
  }

  /** Writing a row with a revision of its message, or without one when it had some. */
  lemma HistoricWrite(messages: map<Id, Message>, revs: Revs, hash: Hash, id: Id, row: Message, after: Revs)
    requires Historic(messages, revs, hash) && AllHashed(after, hash) && Kept(revs, after) && HasRevision(after, id)
    ensures Historic(messages[id := row], after, hash)
  {
    forall e | e in messages ensures HasRevision(after, e) {
      KeptRevision(revs, after, e);
    }
  }

  // Deletions.

  /** A revision for the deletion of a message at that time. */
  ghost predicate DeletionKnown(revs: Revs, m: Id, at: Time) {
    exists e :: e in revs && revs[e].message == m && revs[e].eventType == Deletion && revs[e].eventAt == at
  }

  lemma KnownStays(before: Revs, after: Revs, m: Id, at: Time)
    requires Kept(before, after) && DeletionKnown(before, m, at)
    ensures DeletionKnown(after, m, at)
  {
    var e :| e in before && before[e].message == m && before[e].eventType == Deletion && before[e].eventAt == at;
    assert after[e] == before[e];
  }

  /** The deleted messages a scope names. */
  function DeletedIn(messages: map<Id, Message>, scope: Option<Scope>): (ids: set<Id>) {
    set id | id in messages && messages[id].tomb.Deleted? && InScope(scope, messages[id])
  }

  /** Every deleted message in scope has a revision for its deletion. */
  ghost predicate DeletionsKnown(messages: map<Id, Message>, revs: Revs, scope: Option<Scope>) {
    forall id :: id in DeletedIn(messages, scope) ==> DeletionKnown(revs, id, messages[id].tomb.at)
  }

  /** What a query for the preferred revision of a message returns; on a chain it is the last one. */
  ghost predicate TipOf(revs: Revs, m: Id, tip: Option<RevisionOrder>) {
    && (tip.Some? ==> RevisionOf(revs, m, tip.value))
    && forall c :: Chain(revs, m, c) ==> (tip.Some? <==> c != []) && (c != [] ==> tip.value.id == c[|c| - 1])
  }

  lemma QueriedTip(revs: Revs, m: Id, tip: Option<RevisionOrder>)
    requires tip.Some? ==> RevisionOf(revs, m, tip.value)
    requires forall c :: Chain(revs, m, c) ==> (tip.Some? <==> c != []) && (c != [] ==> tip.value.id == PredecessorOn(revs, c, None))
    ensures TipOf(revs, m, tip)
  {
    hide PredecessorOn;
    forall c | Chain(revs, m, c) && c != [] ensures PredecessorOn(revs, c, None) == c[|c| - 1] {
      assert Linked(revs, m, c, |c| - 1);
      assert HasPayload(revs, c[|c| - 1], None);
      TipChosen(revs, c, None);
    }
  }

  predicate KnownBy(tip: Option<RevisionOrder>, at: Time) {
    tip.Some? && tip.value.eventType == Deletion && tip.value.eventAt == at
  }

  /** The revisions once a deletion is recorded, unless the preferred one is that deletion already. */
  function Recording(revs: Revs, hash: Hash, id: Id, tomb: Tombstone, observedAt: Time, tip: Option<RevisionOrder>): Revs
    requires tomb.Deleted?
  {
    if KnownBy(tip, tomb.at) then revs
    else InsertRevision(revs, DeletionRevision(hash, id, tomb, observedAt, if tip.Some? then tip.value.id else NONE))
  }

  /** A chain once its message's deletion is recorded. */
  ghost function RecordedChain(revs: Revs, hash: Hash, id: Id, tomb: Tombstone, observedAt: Time, c: seq<Id>): seq<Id>
    requires tomb.Deleted? && c != [] && c[|c| - 1] in revs
  {
    var tip := c[|c| - 1];
    if revs[tip].eventType == Deletion && revs[tip].eventAt == tomb.at then c
    else c + [DeletionRevision(hash, id, tomb, observedAt, tip).id]
  }

  /** The chain of message `m` once the deletions of the messages in `S` are recorded. */
  ghost predicate RecordedTo(before: Revs, after: Revs, hash: Hash, messages: map<Id, Message>, S: set<Id>, observedAt: Time,
                             m: Id, c: seq<Id>)
  {
    && c != [] && c[|c| - 1] in before
    && Chain(after, m, if m in S && m in messages && messages[m].tomb.Deleted?
                       then RecordedChain(before, hash, m, messages[m].tomb, observedAt, c) else c)
  }

  /** Every chain is as it was, or has the deletion of its message at the end. */
  ghost predicate ChainsRecorded(before: Revs, after: Revs, hash: Hash, messages: map<Id, Message>, S: set<Id>, observedAt: Time) {
    forall m, c :: Chain(before, m, c) && c != [] ==> RecordedTo(before, after, hash, messages, S, observedAt, m, c)
  }

  /** Only messages of `ids` get new revisions. */
  ghost predicate AddsOnly(before: Revs, after: Revs, ids: set<Id>) {
    forall e :: e in after && e !in before ==> after[e].message in ids
  }

  lemma NothingAdded(revs: Revs, ids: set<Id>)
    ensures AddsOnly(revs, revs, ids)
  {
  }

  lemma AddsOnlyBoth(a: Revs, b: Revs, c: Revs, some: set<Id>, more: set<Id>, ids: set<Id>)
    requires AddsOnly(a, b, some) && AddsOnly(b, c, more) && Kept(b, c) && some <= ids && more <= ids
    ensures AddsOnly(a, c, ids)
  {
    forall e | e in c && e !in a ensures c[e].message in ids {
      if e in b {
        assert c[e] == b[e];
      }
    }
  }

  lemma ChainEnd(revs: Revs, m: Id, c: seq<Id>)
    requires Chain(revs, m, c) && c != []
    ensures c[|c| - 1] in revs && revs[c[|c| - 1]].id == c[|c| - 1] && revs[c[|c| - 1]].message == m
  {
    assert Linked(revs, m, c, |c| - 1);
  }

  lemma NothingRecorded(revs: Revs, hash: Hash, messages: map<Id, Message>, observedAt: Time)
    ensures ChainsRecorded(revs, revs, hash, messages, {}, observedAt)
  {
    hide Chain;
    forall m, c | Chain(revs, m, c) && c != [] ensures RecordedTo(revs, revs, hash, messages, {}, observedAt, m, c) {
      ChainEnd(revs, m, c);
    }
  }

  /** Recording one deletion, over any history. */
  lemma RecordingKeeps(revs: Revs, hash: Hash, messages: map<Id, Message>, id: Id, observedAt: Time, tip: Option<RevisionOrder>)
    requires IdsMatch(revs) && TipOf(revs, id, tip) && id in messages && messages[id].tomb.Deleted?
    ensures var after := Recording(revs, hash, id, messages[id].tomb, observedAt, tip);
      && Kept(revs, after) && IdsMatch(after) && AddsOnly(revs, after, {id})
      && (Injective(hash) && AllHashed(revs, hash) ==>
            AllHashed(after, hash) && DeletionKnown(after, id, messages[id].tomb.at)
            && ChainsRecorded(revs, after, hash, messages, {id}, observedAt))
  {
    hide Injective, Hashed, AllHashed, InsertRevision, ChainsRecorded, DeletionRevision, TipOf;
    var tomb := messages[id].tomb;
    var after := Recording(revs, hash, id, tomb, observedAt, tip);
    var r := DeletionRevision(hash, id, tomb, observedAt, if tip.Some? then tip.value.id else NONE);
    InsertKeeps(revs, r);
    InsertAdds(revs, r);
    NewDeletion(hash, id, tomb, observedAt, if tip.Some? then tip.value.id else NONE);
    if Injective(hash) && AllHashed(revs, hash) {
      RecordingChains(revs, hash, messages, id, observedAt, tip);
      if KnownBy(tip, tomb.at) {
        TipKnown(revs, id, tip);
      } else {
        InsertedSame(revs, hash, r);
        assert after[r.id].eventType == Deletion;
      }
    }
  }

  lemma InsertAdds(revs: Revs, r: Revision)
    ensures AddsOnly(revs, InsertRevision(revs, r), {r.message})
  {
  }

  lemma TipKnown(revs: Revs, id: Id, tip: Option<RevisionOrder>)
    requires TipOf(revs, id, tip) && tip.Some? && tip.value.eventType == Deletion
    ensures DeletionKnown(revs, id, tip.value.eventAt)
  {
    hide Chain;
    assert revs[tip.value.id].eventType == Deletion;
  }

  lemma RecordingChains(revs: Revs, hash: Hash, messages: map<Id, Message>, id: Id, observedAt: Time, tip: Option<RevisionOrder>)
    requires Injective(hash) && AllHashed(revs, hash) && TipOf(revs, id, tip) && id in messages && messages[id].tomb.Deleted?
    ensures ChainsRecorded(revs, Recording(revs, hash, id, messages[id].tomb, observedAt, tip), hash, messages, {id}, observedAt)
  {
    hide Injective, Hashed, AllHashed, InsertRevision, Chain, DeletionRevision;
    var tomb := messages[id].tomb;
    var after := Recording(revs, hash, id, tomb, observedAt, tip);
    forall m, c | Chain(revs, m, c) && c != [] ensures RecordedTo(revs, after, hash, messages, {id}, observedAt, m, c) {
      ChainEnd(revs, m, c);
      if !KnownBy(tip, tomb.at) {
        var r := DeletionRevision(hash, id, tomb, observedAt, if tip.Some? then tip.value.id else NONE);
        NewDeletion(hash, id, tomb, observedAt, if tip.Some? then tip.value.id else NONE);
        if m == id {
          AppendExtends(revs, hash, m, c, r);
        } else {
          OtherChain(revs, hash, m, c, r);
        }
      }
    }
  }

  /** A hashed revision of another message changes no chain. */
  lemma OtherChain(revs: Revs, hash: Hash, m: Id, c: seq<Id>, r: Revision)
    requires Injective(hash) && AllHashed(revs, hash) && Hashed(hash, r) && r.message != m && Chain(revs, m, c)
    ensures Chain(InsertRevision(revs, r), m, c)
  {
    hide HashWith, Injective;
    if r.id !in revs {
      AppendKeepsOthers(revs, m, c, r);
    }
  }

  /** Recording one more deletion. */
  lemma ChainsRecordedStep(before: Revs, mid: Revs, after: Revs, hash: Hash, messages: map<Id, Message>, S: set<Id>, id: Id,
                           observedAt: Time)
    requires ChainsRecorded(before, mid, hash, messages, S, observedAt) && id !in S && Kept(before, mid)
    requires ChainsRecorded(mid, after, hash, messages, {id}, observedAt)
    ensures ChainsRecorded(before, after, hash, messages, S + {id}, observedAt)
  {
    hide Chain, DeletionRevision;
    forall m, c | Chain(before, m, c) && c != []
      ensures RecordedTo(before, after, hash, messages, S + {id}, observedAt, m, c)
    {
      assert RecordedTo(before, mid, hash, messages, S, observedAt, m, c);
      var d := if m in S && m in messages && messages[m].tomb.Deleted?
               then RecordedChain(before, hash, m, messages[m].tomb, observedAt, c) else c;
      assert Chain(mid, m, d) && d != [];
      assert RecordedTo(mid, after, hash, messages, {id}, observedAt, m, d);
    }
  }

  // Why imported tombstones must not borrow a parent's reason.

  const EMPTY_JOURNAL: Journal := Journal(map[], map[], map[])

  /** A first write. */
  lemma FirstWrite(hash: Hash, m: Id, row: Message, observedAt: Time) returns (r: Revision)
    requires Injective(hash)
    ensures var j := Written(EMPTY_JOURNAL, hash, m, row, observedAt);
      && Chained(j, hash) && j.messages == map[m := row] && j.chains == map[m := [r.id]]
      && r.id in j.revs && j.revs[r.id] == r && r.payload == PayloadOf(row)
  {
    hide Hashed, Injective, InsertRevision;
    EmptyPredecessor(map[]);
    r := PendingRevision(EMPTY_JOURNAL, hash, m, row, observedAt).value;
    assert Chained(EMPTY_JOURNAL, hash);
    RewrittenChained(EMPTY_JOURNAL, hash, r, row);
    Inserted(map[], r);
    assert EMPTY_JOURNAL.messages[m := row] == map[m := row];
    assert ChainOf(EMPTY_JOURNAL, m) + [r.id] == [r.id];
    assert EMPTY_JOURNAL.chains[m := [r.id]] == map[m := [r.id]];
  }

  /** A write after a revision that has the stored payload. */
  lemma NextWrite(j: Journal, hash: Hash, m: Id, incoming: Message, observedAt: Time) returns (r: Revision)
    requires Chained(j, hash) && m in j.messages && m in j.chains && j.chains[m] != [] && TipAnswers(j, m)
    requires PayloadOf(j.messages[m]) != PayloadOf(RowFor(Some(j.messages[m]), incoming))
    ensures var k := Written(j, hash, m, incoming, observedAt);
      && Chained(k, hash) && Kept(j.revs, k.revs) && k.messages == j.messages[m := RowFor(Some(j.messages[m]), incoming)]
      && k.chains == j.chains[m := j.chains[m] + [r.id]] && r.id in k.revs && k.revs[r.id] == r
      && r.payload == PayloadOf(RowFor(Some(j.messages[m]), incoming))
      && (RowFor(Some(j.messages[m]), incoming).tomb.Live? ==> r.eventType != Deletion)
  {
    hide Chained, TipAnswers, Follows, RowFor, PredecessorOn, Hashed, InsertRevision;
    var row := RowFor(Some(j.messages[m]), incoming);
    r := PendingRevision(j, hash, m, row, observedAt).value;
    WriteExtendsExactly(j, hash, m, row, observedAt);
    RewrittenChained(j, hash, r, row);
    Inserted(j.revs, r);
  }

  /** The deletion of a live row by its chat, recorded at the end of its chain. */
  lemma RecordedAfter(j: Journal, hash: Hash, m: Id, tomb: Tombstone, observedAt: Time) returns (r: Revision)
    requires Chained(j, hash) && j.messages.Keys == {m} && m in j.chains && j.chains[m] != [] && tomb.Deleted?
    requires TipIn(j, m) && Tip(j, m).eventType != Deletion
    ensures var k := j.(messages := j.messages[m := j.messages[m].(tomb := tomb)]);
      && NeedsRecord(k, m) && r == RecordOf(k, hash, m, observedAt) && r.payload.Propagated?
      && var l := Appended(k, r);
        && Chained(l, hash) && Kept(j.revs, l.revs) && l.messages == k.messages
        && l.chains == j.chains[m := j.chains[m] + [r.id]] && r.id in l.revs && l.revs[r.id] == r
  {
    hide Chained, Hashed, InsertRevision, Follows;
    var row := j.messages[m].(tomb := tomb);
    var k := j.(messages := j.messages[m := row]);
    SamePayloadChained(j, hash, m, row);
    r := RecordOf(k, hash, m, observedAt);
    RecordFollows(k, hash, m, observedAt);
    RewrittenChained(k, hash, r, row);
    Inserted(k.revs, r);
    assert k.messages[m := row] == k.messages;
    assert Rewritten(k, r, row) == Appended(k, r);
  }

  /** What a chat's deletion makes of its one message. */
  lemma ChatReaches(jids: Jids, n: int, chat: Chat, parent: Tombstone, m: Id, row: Message)
    requires parent.Deleted? && row.tomb.Live? && Canonical(jids, row.content.chat) && jids.parse(row.content.chat) == n
    ensures var t := Tables(map[n := Row(chat, parent)], map[], map[], map[], map[], map[], map[m := row]);
      Propagate(t, jids, None).messages == map[m := row.(tomb := Inherited(parent, PARENT_CHAT))]
  {
    hide FolderStep, MembershipStep, ParticipantStep, TopicStep, Propagate;
    var t := Tables(map[n := Row(chat, parent)], map[], map[], map[], map[], map[], map[m := row]);
    PropagateParts(t, jids, None);
  }

  /**
   From an empty archive: a message imported as deleted under the reason a deleted chat gives, imported again as live, and
   then reached by the deletion of its chat at that very time. Its first revision has the stored row's payload and its last
   one does not, so whatever is written next follows the first revision and forks the chain.
   */
  lemma BorrowedReasonForks(hash: Hash, jids: Jids, m: Id, content: Content, at: Time, source: Text, chat: Chat, n: int, incoming: Message,
                            observedAt: Time)
    requires Injective(hash) && Canonical(jids, content.chat) && jids.parse(content.chat) == n
    ensures var tomb := Deleted(at, source, PARENT_CHAT);
      var imported := [Message(content, tomb, 1, [], 0), Message(content, Live, 1, [], 0)];
      var j := WriteAll(EMPTY_JOURNAL, hash, [m, m], imported, observedAt);
      var t := Tables(map[n := Row(chat, Deleted(at, source, []))], map[], map[], map[], map[], map[], j.messages);
      var k := j.(messages := Propagate(t, jids, None).messages);
      && Chained(j, hash) && NeedsRecord(k, m)
      && var l := Appended(k, RecordOf(k, hash, m, observedAt));
        && Chained(l, hash) && m in l.messages
        && (PendingRevision(l, hash, m, incoming, observedAt).Some? ==>
              !Follows(l, hash, PendingRevision(l, hash, m, incoming, observedAt).value))
  {
    hide Chained, Follows, Propagate, PendingRevision, NeedsRecord, RecordOf, Appended;
    var tomb := Deleted(at, source, PARENT_CHAT);
    var gone, live := Message(content, tomb, 1, [], 0), Message(content, Live, 1, [], 0);
    TwoWrites(hash, m, gone, live, observedAt);
    var first := Written(EMPTY_JOURNAL, hash, m, gone, observedAt);
    var r1 := FirstWrite(hash, m, gone, observedAt);
    TipHasPayload(first.revs, r1.id, PayloadOf(gone));
    var r2 := NextWrite(first, hash, m, live, observedAt);
    var j := Written(first, hash, m, live, observedAt);
    assert RowFor(Some(gone), live) == live;
    assert j.messages == map[m := live];
    ChatReaches(jids, n, chat, Deleted(at, source, []), m, live);
    assert j.messages[m := live.(tomb := tomb)] == map[m := live.(tomb := tomb)];
    var r3 := RecordedAfter(j, hash, m, tomb, observedAt);
    var k := j.(messages := map[m := live.(tomb := tomb)]);
    var l := Appended(k, r3);
    assert l.chains[m] == [r1.id, r2.id, r3.id];
    FirstAnswers(l, m, r1, r3);
    if PendingRevision(l, hash, m, incoming, observedAt).Some? {
      WriteExtendsExactly(l, hash, m, incoming, observedAt);
    }
  }

  lemma TwoWrites(hash: Hash, m: Id, a: Message, b: Message, observedAt: Time)
    ensures WriteAll(EMPTY_JOURNAL, hash, [m, m], [a, b], observedAt) ==
      Written(Written(EMPTY_JOURNAL, hash, m, a, observedAt), hash, m, b, observedAt)
  {
    hide Written;
    var ids, ms := [m, m], [a, b];
    assert ids[..1] == [m] && ms[..1] == [a];
    assert WriteAll(EMPTY_JOURNAL, hash, ids[..1], ms[..1], observedAt) == Written(EMPTY_JOURNAL, hash, m, a, observedAt);
  }

  lemma FirstAnswers(j: Journal, m: Id, first: Revision, last: Revision)
    requires m in j.messages && m in j.chains && |j.chains[m]| == 3 && j.chains[m][0] == first.id && j.chains[m][2] == last.id
    requires first.id in j.revs && j.revs[first.id] == first && last.id in j.revs && j.revs[last.id] == last
    requires first.payload == PayloadOf(j.messages[m]) && last.payload.Propagated?
    ensures !TipAnswers(j, m)
  {
    assert HasPayload(j.revs, j.chains[m][0], Some(PayloadOf(j.messages[m])));
  }
}
