/** The archive: its tables, and the two ways to import into them. */
module ArchiveStore {
  import opened ArchiveTables
  import opened Bytes
  import opened ChatAggregates
  import opened HistoryRecords
  import opened ImportBatch
  import opened ImportMeaning
  import opened MergeCounts
  import opened MergeFacts
  import opened MessageJournal
  import opened RevisionChain
  import opened RevisionGraph
  import opened Revisions
  import opened TextOrder
  import opened TidyRows
  import opened TombstonePropagation
  import opened Wrappers
  import E = EventIds
  import N = EventIdNormalizers
  import U = EventIdRules

  /** No imported tombstone borrows the reason of a parent's deletion. */
  predicate OwnTombstones(b: Batch) {
    forall i :: 0 <= i < |b.messages| ==> !IsParentReason(b.messages[i].tomb.reason)
  }

  lemma OwnMessage(m: RawMessage, source: Text)
    requires !IsParentReason(m.tomb.reason) && NormalizeMessage(m, source).Ok?
    ensures Own(NormalizeMessage(m, source).value)
  {
    assert |Ascii("explicit-message-delete")| == 23;
  }

  lemma OwnMessages(b: Batch, r: Ready)
    requires OwnTombstones(b) && Prepare(b) == Ok(r)
    ensures AllOwn(r.messages)
  {
    hide NormalizeRows, NormalizeMessage, IsParentReason, Own;
    forall i | 0 <= i < |r.messages| ensures Own(r.messages[i]) {
      OwnMessage(b.messages[i], b.source);
    }
  }

  /** How the id normalizer sees a batch and the stored rows. */
  function IdentitiesOf(ms: seq<RawMessage>): (out: seq<E.Message>)
    ensures |out| == |ms|
  {
    seq(|ms|, i requires 0 <= i < |ms| =>
      E.Message(ms[i].eventId, E.Key(ms[i].content.chat, ms[i].content.messageId), ms[i].sourcePk))
  }

  function TableOf(messages: map<Id, Message>): (table: E.Table) {
    map e | e in messages :: E.Stored(E.Key(messages[e].content.chat, messages[e].content.messageId), messages[e].sourcePk)
  }

  /** An id of blanks only is replaced when its message is normalized. */
  function FinalId(h: E.Hashes, m: E.Message): Id {
    if IsBlank(m.eventId) then h.legacy(m.key, m.sourcePk, 0) else m.eventId
  }

  /** The event ids under which a batch is written. */
  ghost function EventIdsOf(h: E.Hashes, ms: seq<RawMessage>, messages: map<Id, Message>): (ids: seq<Id>)
    requires E.CollisionFree(h)
    ensures |ids| == |ms|
  {
    var out := E.Normalized(h, E.Imported(IdentitiesOf(ms), TableOf(messages)));
    seq(|ms|, i requires 0 <= i < |ms| => FinalId(h, out[i]))
  }

  /** Ids of written messages are never blank. */
  lemma IdsNotBlank(h: E.Hashes, ms: seq<RawMessage>, messages: map<Id, Message>)
    requires E.CollisionFree(h)
    ensures forall i :: 0 <= i < |ms| ==> !IsBlank(EventIdsOf(h, ms, messages)[i])
  {
    hide IsBlank, E.Normalized;
  }

  /** A message keeps the id it brings; blanks are replaced by a hash; and without one it gets the id the import rule names. */
  lemma BatchIds(h: E.Hashes, ms: seq<RawMessage>, messages: map<Id, Message>, i: nat)
    requires E.CollisionFree(h) && i < |ms| && forall e :: e in messages ==> !IsBlank(e)
    ensures var identities, table, id := IdentitiesOf(ms), TableOf(messages), EventIdsOf(h, ms, messages)[i];
      var out, key := E.Normalized(h, E.Imported(identities, table)), E.Key(ms[i].content.chat, ms[i].content.messageId);
      && identities[i] == E.Message(ms[i].eventId, key, ms[i].sourcePk)
      && if |ms[i].eventId| == 0 then id == out[i].eventId && U.ImportRule(h, identities, table, out, i)
         else id == if IsBlank(ms[i].eventId) then h.legacy(key, ms[i].sourcePk, 0) else ms[i].eventId
  {
    hide E.Normalized, E.CollisionFree, IsBlank, U.ImportRule;
    U.ImportedIdsAre(h, IdentitiesOf(ms), TableOf(messages), i);
    if ms[i].eventId == E.NO_ID {
      NotBlank(h, IdentitiesOf(ms), TableOf(messages), i);
    }
  }

  /** No message of the batch brings an event id. */
  predicate DerivedIds(ms: seq<RawMessage>) {
    forall i :: 0 <= i < |ms| ==> ms[i].eventId == []
  }

  class Archive {
    const jids: Jids
    const hash: Hash
    const hashes: E.Hashes

    var chats: map<int, Row<Chat>>
    var folders: map<Text, Row<Folder>>
    var memberships: map<MembershipKey, Row<Membership>>
    var topics: map<TopicKey, Row<Topic>>
    var groups: map<Text, Row<Group>>
    var participants: map<ParticipantKey, Row<Participant>>
    var messages: map<Id, Message>
    var revisions: Revs
    var index: Index

    /** The revisions of each message, in order. */
    ghost var chains: map<Id, seq<Id>>

    function Db(): Tables
      reads this
    {
      Tables(chats, folders, memberships, topics, groups, participants, messages)
    }

    ghost function Log(): Journal
      reads this
    {
      Journal(messages, revisions, chains)
    }

    /**
     What every import keeps, whatever came before: revisions are under their ids, the search index agrees with the rows,
     and event ids are not blank.
     */
    ghost predicate Usable()
      reads this
    {
      IdsMatch(revisions) && IndexAgrees(messages, index) && forall e :: e in messages ==> !IsBlank(e)
    }

    /**
     What imports of batches keep besides, and snapshot merges may end: every message has one unforked chain of revisions,
     with its row at the tip unless a parent's deletion is there.
     */
    ghost predicate Valid()
      reads this
    {
      Usable() && Sound(Log(), hash)
    }

    constructor (jids: Jids, hash: Hash, hashes: E.Hashes)
      requires Injective(hash)
      ensures this.jids == jids && this.hash == hash && this.hashes == hashes
      ensures Valid() && Settled(Db(), jids) && Counted(chats, messages, jids) && Historic(messages, revisions, hash)
      ensures messages == map[] && Tidy(Db())
    {
      this.jids, this.hash, this.hashes := jids, hash, hashes;
      chats, folders, memberships, topics, groups, participants := map[], map[], map[], map[], map[], map[];
      messages, revisions, index, chains := map[], map[], map[], map[];
    }

    // Writing messages.

    /** One message of insertMessages: its revision, its row and its index entry. */
    method WriteMessage(id: Id, m: Message, observedAt: Time)
      requires Usable() && !IsBlank(id)
      modifies this`messages, this`revisions, this`index, this`chains
      ensures Usable() && messages == old(messages)[id := RowFor(Stored(old(messages), id), m)] && Kept(old(revisions), revisions)
      ensures Journals(old(revisions), hash, id, Stored(old(messages), id), messages[id], observedAt, revisions)
      ensures Injective(hash) && old(Historic(messages, revisions, hash)) ==> Historic(messages, revisions, hash)
      ensures old(Valid()) && Own(m) ==>
        Valid() && Log() == Written(old(Log()), hash, id, m, observedAt) && Grown(old(Log()), Log())
    {
      hide Chain, AllHashed, Injective, PredecessorOn, OwnReasons, Faithful, IndexAgrees, Indexed, IsBlank, Historic, Hashed, Own,
        IdsMatch, InsertRevision, HasRevision, Kept, AddsOnly, Journals, HasRecord, EventFor, RowFor, Upserted;
      ghost var j, before, rows := Log(), revisions, messages;
      var stored := Stored(messages, id);
      var row := RowFor(stored, m);
      KeptSelf(revisions);
      if stored.None? || PayloadOf(stored.value) != PayloadOf(row) {
        var target := if stored.Some? then Some(PayloadOf(stored.value)) else None;
        var tip, any := MessageRevisionPredecessor(revisions, id, target);
        var event := EventFor(row, stored.Some? || any);
        var predecessor := if tip.Some? then tip.value.id else NONE;
        var r := NewRevision(hash, id, event.0, event.1, observedAt, PayloadOf(row), predecessor);
        revisions := InsertRevision(revisions, r);
        chains := chains[id := ChainOf(j, id) + [r.id]];
        NewRecords(before, hash, id, stored, row, observedAt, predecessor);
        InsertKeeps(before, r);
        if Sound(j, hash) {
          NoRevisionsYet(j, hash, id);
          NoPredecessor(before, target);
        }
      } else {
        SameRow(before, hash, id, stored.value, row, observedAt);
      }
      if Injective(hash) && Historic(rows, before, hash) {
        RevisionStored(rows, before, revisions, hash, id, row, stored);
      }
      IndexedAgrees(messages, index, id, row);
      UpsertWritesRow(stored, m);
      messages := messages[id := Upserted(stored, row)];
      index := Indexed(index, id, row);
      if Sound(j, hash) && Own(m) {
        WrittenSound(j, hash, id, m, observedAt);
      }
    }

    method WriteMessages(ids: seq<Id>, ms: seq<Message>, observedAt: Time)
      requires Usable() && |ids| == |ms| && forall i :: 0 <= i < |ids| ==> !IsBlank(ids[i])
      modifies this`messages, this`revisions, this`index, this`chains
      ensures Usable() && messages == RowsWritten(old(messages), RowsOf(ids, ms)) && Kept(old(revisions), revisions)
      ensures Injective(hash) && old(Historic(messages, revisions, hash)) ==> Historic(messages, revisions, hash)
      ensures old(Valid()) && AllOwn(ms) ==>
        Valid() && Log() == WriteAll(old(Log()), hash, ids, ms, observedAt) && Grown(old(Log()), Log())
    {
      hide Written, Sound, IndexAgrees, Own, Grown, IsBlank, Historic, Injective, RowFor, IdsMatch, Kept, AddsOnly;
      ghost var j, valid, rows := Log(), Valid(), RowsOf(ids, ms);
      GrownSelf(j);
      KeptSelf(revisions);
      for i := 0 to |ms|
        invariant Usable() && messages == RowsWritten(j.messages, rows[..i]) && Kept(j.revs, revisions)
        invariant Injective(hash) && Historic(j.messages, j.revs, hash) ==> Historic(messages, revisions, hash)
        invariant valid && AllOwn(ms) ==>
          Valid() && Log() == WriteAll(j, hash, ids[..i], ms[..i], observedAt) && Grown(j, Log())
      {
        assert ids[..i + 1][..i] == ids[..i] && ms[..i + 1][..i] == ms[..i] && rows[..i + 1][..i] == rows[..i];
        ghost var k := Log();
        WriteMessage(ids[i], ms[i], observedAt);
        KeptTransitive(j.revs, k.revs, revisions);
        if valid && AllOwn(ms) {
          GrownTransitive(j, k, Log());
        }
      }
      assert ids[..|ms|] == ids && ms[..|ms|] == ms && rows[..|ms|] == rows;
    }

    // After the rows are written.

    /** The six propagation statements, in order. */
    method PropagateTombstones(scope: Option<Scope>)
      modifies this`memberships, this`topics, this`messages, this`participants
      ensures Db() == Propagate(old(Db()), jids, scope)
    {
      hide FolderStep, MembershipStep, TopicStep, MessageStep, TopicMessageStep, ParticipantStep;
      memberships := FolderStep(Db(), scope);
      memberships := MembershipStep(Db(), jids, scope);
      topics := TopicStep(Db(), jids, scope);
      messages := MessageStep(Db(), jids, scope);
      messages := TopicMessageStep(Db(), scope);
      participants := ParticipantStep(Db(), scope);
    }

    /** One row of recordPropagatedMessageDeletions. */
    method RecordDeletion(id: Id, observedAt: Time)
      requires IdsMatch(revisions) && id in messages && messages[id].tomb.Deleted?
      modifies this`revisions, this`chains
      ensures Kept(old(revisions), revisions) && IdsMatch(revisions)
      ensures Injective(hash) && old(AllHashed(revisions, hash)) ==>
        AllHashed(revisions, hash) && DeletionKnown(revisions, id, messages[id].tomb.at)
        && ChainsRecorded(old(revisions), revisions, hash, messages, {id}, observedAt)
      ensures old(Partly(Log(), hash)) ==>
        && Partly(Log(), hash) && TipRecords(Log(), id) && Grown(old(Log()), Log())
        && (forall e :: old(TipRecords(Log(), e)) ==> TipRecords(Log(), e))
        && RecordedAt(old(Log()), Log(), hash, id, observedAt)
      ensures AddsOnly(old(revisions), revisions, {id})
    {
      hide Chain, AllHashed, Injective, PredecessorOn, OwnReasons, TipRecords, Unrecorded, Grown, IdsMatch, Kept, DeletionKnown,
        ChainsRecorded, TipOf, InsertRevision, AddsOnly;
      ghost var j := Log();
      var tip, any := MessageRevisionPredecessor(revisions, id, None);
      QueriedTip(revisions, id, tip);
      RecordingKeeps(revisions, hash, messages, id, observedAt, tip);
      GrownSelf(j);
      if Partly(j, hash) {
        TipOfPartly(j, hash, id);
        TipIsLast(j, hash, id);
        ChainTip(revisions, id, tip, chains[id]);
      }
      if tip.Some? && tip.value.eventType == Deletion && tip.value.eventAt == messages[id].tomb.at {
        if Partly(j, hash) {
          RecordedAlready(j, hash, id);
        }
        return;
      }
      if Partly(j, hash) {
        RecordOne(j, hash, id, observedAt);
      }
      var r := DeletionRevision(hash, id, messages[id].tomb, observedAt, if tip.Some? then tip.value.id else NONE);
      revisions := InsertRevision(revisions, r);
      chains := chains[id := ChainOf(j, id) + [r.id]];
    }

    /** Each deleted message in scope gets a revision for its deletion, unless its last one is that already. */
    method RecordPropagatedMessageDeletions(scope: Option<Scope>, observedAt: Time)
      requires IdsMatch(revisions)
      modifies this`revisions, this`chains
      ensures Kept(old(revisions), revisions) && IdsMatch(revisions) && AddsOnly(old(revisions), revisions, messages.Keys)
      ensures Injective(hash) && old(AllHashed(revisions, hash)) ==>
        AllHashed(revisions, hash) && DeletionsKnown(messages, revisions, scope)
        && ChainsRecorded(old(revisions), revisions, hash, messages, DeletedIn(messages, scope), observedAt)
      ensures old(Unsettled(scope)) ==>
        && Sound(Log(), hash) && Grown(old(Log()), Log())
        && RecordedFor(old(Log()), Log(), hash, DeletedIn(messages, scope), observedAt)
    {
      hide Chained, OwnReasons, TipRecords, Unrecorded, Grown, RecordedFor, NeedsRecord, Tip, RecordOf, IdsMatch, Kept, AllHashed,
        Injective, DeletionKnown, ChainsRecorded, Partly, AddsOnly;
      ghost var j, unsettled := Log(), Unsettled(scope);
      var todo := DeletedIn(messages, scope);
      ghost var all, done: set<Id> := todo, {};
      GrownSelf(j);
      KeptSelf(revisions);
      RecordedNone(j, hash, observedAt);
      NothingRecorded(revisions, hash, messages, observedAt);
      NothingAdded(revisions, messages.Keys);
      while todo != {}
        invariant todo <= all && messages == j.messages && done == all - todo && IdsMatch(revisions) && Kept(j.revs, revisions)
        invariant AddsOnly(j.revs, revisions, messages.Keys)
        invariant Injective(hash) && AllHashed(j.revs, hash) ==>
          AllHashed(revisions, hash) && ChainsRecorded(j.revs, revisions, hash, messages, done, observedAt)
          && forall id :: id in done ==> DeletionKnown(revisions, id, messages[id].tomb.at)
        invariant unsettled ==>
          && Partly(Log(), hash) && Grown(j, Log()) && RecordedFor(j, Log(), hash, done, observedAt)
          && forall id :: id in messages && id !in todo ==> TipRecords(Log(), id)
        decreases |todo|
      {
        var id :| id in todo;
        todo := todo - {id};
        ghost var k := Log();
        RecordDeletion(id, observedAt);
        KeptTransitive(j.revs, k.revs, revisions);
        AddsOnlyBoth(j.revs, k.revs, revisions, messages.Keys, {id}, messages.Keys);
        if Injective(hash) && AllHashed(j.revs, hash) {
          ChainsRecordedStep(j.revs, k.revs, revisions, hash, messages, done, id, observedAt);
          StillKnown(k.revs, revisions, messages, done);
        }
        if unsettled {
          GrownTransitive(j, k, Log());
          TipOfPartly(j, hash, id);
          RecordedStep(j, k, Log(), hash, done, id, observedAt);
        }
        done := done + {id};
      }
      assert done == all;
      if unsettled {
        PartlySound(Log(), hash);
      }
    }

    /** Parents' deletions have reached messages in scope and wait for their records. */
    ghost predicate Unsettled(scope: Option<Scope>)
      reads this
    {
      && Partly(Log(), hash)
      && forall id :: id in messages && !TipRecords(Log(), id) ==> messages[id].tomb.Deleted? && InScope(scope, messages[id])
    }

    // The search index.

    method PruneDeletedMessageFTS(scope: Option<Scope>)
      modifies this`index
      ensures forall e :: e in index <==>
        e in old(index) && !(e in messages && messages[e].tomb.Deleted? && InScope(scope, messages[e]))
      ensures forall e :: e in index ==> index[e] == old(index)[e]
    {
      index := map e | e in index && !(e in messages && messages[e].tomb.Deleted? && InScope(scope, messages[e])) :: index[e];
    }

    method RebuildMessageFTS()
      modifies this`index
      ensures IndexAgrees(messages, index)
    {
      index := map e | e in messages && messages[e].tomb.Live? :: EntryOf(messages[e]);
    }

    // Imports.

    /** normalizeImportedMessageEventIDs over the batch, beside the stored rows. */
    method AssignEventIds(ms: seq<RawMessage>) returns (ids: seq<Id>)
      requires E.CollisionFree(hashes)
      ensures ids == EventIdsOf(hashes, ms, messages)
    {
      hide E.Normalized, E.CollisionFree, IsBlank;
      var identities, table := IdentitiesOf(ms), TableOf(messages);
      var slots := new E.Message[|ms|](i requires 0 <= i < |ms| => identities[i]);
      assert slots[..] == identities;
      N.NormalizeImported(hashes, slots, table);
      ids := seq(|ms|, i requires 0 <= i < |ms| reads slots => FinalId(hashes, slots[i]));
    }

    /** The row-by-row upserts of one table. */
    static method WriteRows<K(==), T>(table: map<K, Row<T>>, rows: seq<Write<K, T>>, preserve: bool) returns (out: map<K, Row<T>>)
      ensures out == UpsertAll(table, rows, preserve)
    {
      hide Upsert;
      out := table;
      for i := 0 to |rows|
        invariant out == UpsertAll(table, rows[..i], preserve)
      {
        assert rows[..i + 1][..i] == rows[..i];
        out := Upsert(out, rows[i], preserve);
      }
      assert rows[..|rows|] == rows;
    }

    /** writeImport: parents first, then messages. */
    method WriteImport(b: Batch, r: Ready, observedAt: Time)
      requires Usable() && E.CollisionFree(hashes) && Prepare(b) == Ok(r)
      modifies this`chats, this`folders, this`memberships, this`topics
      modifies this`messages, this`revisions, this`index, this`chains
      ensures Usable() && Kept(old(revisions), revisions)
      ensures Injective(hash) && old(Historic(messages, revisions, hash)) ==> Historic(messages, revisions, hash)
      ensures var ids := EventIdsOf(hashes, b.messages, old(messages));
        && |ids| == |r.messages|
        && Db() == Staged(old(Db()), jids, r, false, RowsWritten(old(messages), RowsOf(ids, r.messages)))
        && (old(Valid()) && OwnTombstones(b) ==>
              Valid() && Grown(old(Log()), Log()) && Log() == WriteAll(old(Log()), hash, ids, r.messages, observedAt))
    {
      hide Sound, IndexAgrees, AllOwn, Grown, WriteAll, UpsertAll, EventIdsOf, Prepare, E.CollisionFree, IsBlank, RowsWritten,
        Historic, Injective, IdsMatch, OwnTombstones, Kept, AddsOnly;
      var ids := AssignEventIds(b.messages);
      IdsNotBlank(hashes, b.messages, messages);
      PreparedSize(b, r);
      chats := WriteRows(chats, ChatWrites(jids, r.chats), false);
      folders := WriteRows(folders, r.folders, false);
      memberships := WriteRows(memberships, r.memberships, false);
      topics := WriteRows(topics, r.topics, false);
      if OwnTombstones(b) {
        OwnMessages(b, r);
      }
      WriteMessages(ids, r.messages, observedAt);
    }

    /** The passes after the rows are written; the index is left to the caller. */
    method SettleDeletions(scope: Option<Scope>, observedAt: Time)
      requires Usable()
      modifies this`memberships, this`topics, this`messages, this`participants, this`revisions, this`chains
      ensures IdsMatch(revisions) && Kept(old(revisions), revisions) && AddsOnly(old(revisions), revisions, messages.Keys)
      ensures Db() == Propagate(old(Db()), jids, scope)
      ensures messages.Keys == old(messages).Keys && forall e :: e in messages ==> Reached(old(messages)[e], messages[e], scope)
      ensures Injective(hash) && old(AllHashed(revisions, hash)) ==>
        AllHashed(revisions, hash) && DeletionsKnown(messages, revisions, scope)
        && ChainsRecorded(old(revisions), revisions, hash, messages, DeletedIn(messages, scope), observedAt)
      ensures old(Valid()) ==>
        && Sound(Log(), hash) && Grown(old(Log()), Log())
        && RecordedFor(old(Log()).(messages := messages), Log(), hash, DeletedIn(messages, scope), observedAt)
    {
      hide Sound, Grown, RecordedFor, Propagate, Reached, IdsMatch, Kept, AddsOnly, AllHashed, Injective, DeletionsKnown,
        ChainsRecorded, IsBlank, IndexAgrees, DeletedIn, Unsettled, Valid;
      ghost var j := Log();
      ReachChildren(scope);
      ghost var k := Log();
      RecordPropagatedMessageDeletions(scope, observedAt);
      GrownRows(j, k.messages, Log());
    }

    /** Parents' deletions reach messages, before any record of it. */
    method ReachChildren(scope: Option<Scope>)
      modifies this`memberships, this`topics, this`messages, this`participants
      ensures Db() == Propagate(old(Db()), jids, scope)
      ensures messages.Keys == old(messages).Keys && forall e :: e in messages ==> Reached(old(messages)[e], messages[e], scope)
      ensures old(Valid()) ==> Unsettled(scope)
    {
      hide Sound, Partly, TipRecords, Propagate, Reached, IdsMatch, IsBlank, IndexAgrees, InScope;
      ghost var j, t, valid := Log(), Db(), Valid();
      PropagateKeys(t, jids, scope);
      forall e | e in messages ensures Reached(t.messages[e], Propagate(t, jids, scope).messages[e], scope) {
        PropagateReaches(t, jids, scope, e);
      }
      if valid {
        PropagatePartly(j, hash, t, jids, scope);
      }
      PropagateTombstones(scope);
    }

    /**
     Merges a batch into any archive. A malformed row refuses it and changes nothing. Otherwise the index agrees with the
     rows and no revision is lost; from a settled archive and canonical chats the scoped pass did what an unscoped one does
     and left no live row under a deleted parent; counts stay right when ids are derived. Where every message had one
     chain, it still has, grown only at its tip, unless an imported tombstone borrows a parent's reason.
     */
    method MergeAll(b: Batch, observedAt: Time) returns (r: Result<(), ImportError>)
      requires Usable() && E.CollisionFree(hashes)
      modifies this
      ensures r.Err? <==> Refused(b)
      ensures r.Err? ==> Prepare(b) == Err(r.error) && Db() == old(Db()) && Log() == old(Log()) && index == old(index)
      ensures r.Ok? ==> Prepare(b).Ok? && Usable() && Kept(old(revisions), revisions) && (old(Tidy(Db())) ==> Tidy(Db()))
      ensures r.Ok? && Injective(hash) && old(Historic(messages, revisions, hash)) ==>
        Historic(messages, revisions, hash) && DeletionsKnown(messages, revisions, Some(ScopeOf(b)))
      ensures r.Ok? ==>
        Imports(old(Db()), b, EventIdsOf(hashes, b.messages, old(messages)), jids, Some(ScopeOf(b)), AffectedChats(b), Db())
      ensures r.Ok? ==>
        var ids, ready := EventIdsOf(hashes, b.messages, old(messages)), Prepare(b).value;
        var staged := Staged(old(Db()), jids, ready, false, RowsWritten(old(messages), RowsOf(ids, ready.messages)));
        && Db().(chats := staged.chats) == Propagate(staged, jids, Some(ScopeOf(b)))
        && AllCounted(staged.chats, chats, messages, jids, AffectedChats(b))
        && (old(Settled(Db(), jids)) && (forall c :: c in b.chats ==> Canonical(jids, c.key)) ==>
              Settled(Db(), jids) && Db().(chats := staged.chats) == Propagate(staged, jids, None))
        && (old(Counted(chats, messages, jids)) && Countable(jids, b) ==> Counted(chats, messages, jids))
      ensures r.Ok? && old(Valid()) && OwnTombstones(b) ==>
        var ids, ready := EventIdsOf(hashes, b.messages, old(messages)), Prepare(b).value;
        var written := WriteAll(old(Log()), hash, ids, ready.messages, observedAt);
        && Valid() && Grown(old(Log()), Log())
        && RecordedFor(written.(messages := messages), Log(), hash, DeletedIn(messages, Some(ScopeOf(b))), observedAt)
    {
      hide Sound, IndexAgrees, Grown, WriteAll, Propagate, RecordedFor, EventIdsOf, Prepare, E.CollisionFree, ScopeOf, Staged,
        Settled, Counted, AllCounted, AffectedChats, Countable, Reached, OwnTombstones, IdsMatch, Kept, AddsOnly, Historic,
        Injective, DeletionsKnown, ChainsRecorded, IsBlank, RowsWritten, Canonical, AllHashed, Tidy, Imports, Refused;
      var prepared := Prepare(b);
      PreparedAs(b);
      if prepared.Err? {
        return Err(prepared.error);
      }
      ghost var t, j, valid := Db(), Log(), Valid();
      WriteImport(b, prepared.value, observedAt);
      ghost var written, staged := Log(), Db();
      ghost var rows := RowsOf(EventIdsOf(hashes, b.messages, t.messages), prepared.value.messages);
      StagedMessages(t, jids, prepared.value, RowsWritten(t.messages, rows));
      var scope := ScopeOf(b);
      HistoricHashed(written.messages, written.revs, hash);
      SettleDeletions(Some(scope), observedAt);
      KeptTransitive(j.revs, written.revs, revisions);
      if Historic(written.messages, written.revs, hash) && AllHashed(revisions, hash) {
        HistoricStays(written.messages, messages, written.revs, revisions, hash);
      }
      if valid && OwnTombstones(b) {
        GrownTransitive(j, written, Log());
      }
      ghost var before := index;
      PruneDeletedMessageFTS(Some(scope));
      PruneAgrees(written.messages, messages, before, index, Some(scope));
      var affected := AffectedChats(b);
      chats := RecomputeChatAggregates(chats, messages, jids, affected);
      MergeSettles(t, jids, hashes, b, prepared.value, chats);
      StagedImports(t, jids, b, EventIdsOf(hashes, b.messages, t.messages), Some(scope), affected, Db());
      MergeTidies(t, jids, b, prepared.value, EventIdsOf(hashes, b.messages, t.messages), Some(scope), chats, messages);
      return Ok(());
    }

    method Clear()
      modifies this
      ensures Db() == NO_ROWS && Log() == NO_MESSAGES && index == map[]
    {
      chats, folders, memberships, topics, groups, participants := map[], map[], map[], map[], map[], map[];
      messages, revisions, index, chains := map[], map[], map[], map[];
    }

    /** Replaces everything by a batch; the counts it states for chats are kept as they are. */
    method ReplaceAll(b: Batch, observedAt: Time) returns (r: Result<(), ImportError>)
      requires E.CollisionFree(hashes)
      modifies this
      ensures r.Err? <==> Refused(b)
      ensures r.Err? ==> Prepare(b) == Err(r.error) && Db() == old(Db()) && Log() == old(Log()) && index == old(index)
      ensures r.Ok? ==> Prepare(b).Ok? && Usable() && Settled(Db(), jids) && Tidy(Db())
      ensures r.Ok? && Injective(hash) ==> Historic(messages, revisions, hash) && DeletionsKnown(messages, revisions, None)
      ensures r.Ok? ==>
        Imports(NO_ROWS, b, EventIdsOf(hashes, b.messages, map[]), jids, None, {}, Db())
      ensures r.Ok? ==>
        var ids, ready := EventIdsOf(hashes, b.messages, map[]), Prepare(b).value;
        Db() == Propagate(Staged(NO_ROWS, jids, ready, false, RowsWritten(map[], RowsOf(ids, ready.messages))), jids, None)
      ensures r.Ok? && Injective(hash) && OwnTombstones(b) ==>
        var ids, ready := EventIdsOf(hashes, b.messages, map[]), Prepare(b).value;
        var written := WriteAll(NO_MESSAGES, hash, ids, ready.messages, observedAt);
        Valid() && RecordedFor(written.(messages := messages), Log(), hash, DeletedIn(messages, None), observedAt)
    {
      hide Sound, IndexAgrees, Grown, WriteAll, Propagate, RecordedFor, EventIdsOf, Prepare, E.CollisionFree, Staged, Settled,
        Reached, OwnTombstones, Injective, DeletedIn, EntryOf, Kept, AddsOnly, Historic, DeletionsKnown, ChainsRecorded,
        IsBlank, RowsWritten, AllHashed, IdsMatch, Tidy, Imports, Refused;
      var prepared := Prepare(b);
      PreparedAs(b);
      if prepared.Err? {
        return Err(prepared.error);
      }
      Clear();
      EmptyUsable(hash);
      WriteImport(b, prepared.value, observedAt);
      ghost var written, staged := Log(), Db();
      HistoricHashed(written.messages, written.revs, hash);
      SettleDeletions(None, observedAt);
      if Historic(written.messages, written.revs, hash) && AllHashed(revisions, hash) {
        HistoricStays(written.messages, messages, written.revs, revisions, hash);
      }
      PropagateSettles(staged, jids);
      NothingTidy();
      ghost var rows := RowsOf(EventIdsOf(hashes, b.messages, map[]), prepared.value.messages);
      StagedMessages(NO_ROWS, jids, prepared.value, RowsWritten(map[], rows));
      NothingCounted(staged.chats, messages, jids);
      PropagateKeys(staged, jids, None);
      StagedImports(NO_ROWS, jids, b, EventIdsOf(hashes, b.messages, map[]), None, {}, Db());
      PreparedTidy(b, prepared.value, EventIdsOf(hashes, b.messages, map[]));
      StagedTidy(NO_ROWS, jids, prepared.value, false, rows, None);
      RebuildMessageFTS();
      return Ok(());
    }
  }

  const NO_MESSAGES: Journal := Journal(map[], map[], map[])
  const NO_ROWS: Tables := Tables(map[], map[], map[], map[], map[], map[], map[])

  lemma EmptyUsable(hash: Hash)
    ensures IndexAgrees(map[], map[]) && IdsMatch(map[]) && Historic(map[], map[], hash)
    ensures Injective(hash) ==> Sound(NO_MESSAGES, hash)
  {
  }

  lemma NothingTidy()
    ensures Tidy(NO_ROWS)
  {
  }

  lemma MergeTidies(t: Tables, jids: Jids, b: Batch, r: Ready, ids: seq<Id>, scope: Option<Scope>,
                    out: map<int, Row<Chat>>, messages: map<Id, Message>)
    requires Prepare(b) == Ok(r) && |ids| == |r.messages|
    requires var s := Staged(t, jids, r, false, RowsWritten(t.messages, RowsOf(ids, r.messages)));
      AllCounted(s.chats, out, messages, jids, AffectedChats(b))
    ensures var s := Staged(t, jids, r, false, RowsWritten(t.messages, RowsOf(ids, r.messages)));
      Tidy(t) ==> Tidy(Propagate(s, jids, scope).(chats := out))
  {
    hide RowsWritten, Propagate, AllCounted, AffectedChats, AllWhole, AllNamed, Prepare, Staged, NamedRows, TidyReady;
    if Tidy(t) {
      var s := Staged(t, jids, r, false, RowsWritten(t.messages, RowsOf(ids, r.messages)));
      PreparedTidy(b, r, ids);
      StagedTidy(t, jids, r, false, RowsOf(ids, r.messages), scope);
      CountedWhole(s.chats, out, messages, jids, AffectedChats(b));
    }
  }

  lemma HistoricHashed(messages: map<Id, Message>, revs: Revs, hash: Hash)
    ensures Historic(messages, revs, hash) ==> AllHashed(revs, hash)
  {
    hide AllHashed;
  }

  lemma HistoricStays(before: map<Id, Message>, after: map<Id, Message>, revs: Revs, later: Revs, hash: Hash)
    requires Historic(before, revs, hash) && Kept(revs, later) && AllHashed(later, hash) && after.Keys == before.Keys
    ensures Historic(after, later, hash)
  {
    hide AllHashed, Kept, AddsOnly, HasRevision;
    forall id | id in after ensures HasRevision(later, id) {
      assert id in before;
      KeptRevision(revs, later, id);
    }
  }

  /** The row just written has a revision. */
  lemma RevisionStored(messages: map<Id, Message>, before: Revs, after: Revs, hash: Hash, id: Id, row: Message,
                       stored: Option<Message>)
    requires Injective(hash) && Historic(messages, before, hash) && stored == Stored(messages, id)
    requires (after == before && id in messages)
      || exists r :: Hashed(hash, r) && r.message == id && after == InsertRevision(before, r)
    ensures Historic(messages[id := row], after, hash)
  {
    hide Injective, AllHashed, InsertRevision, Hashed;
    if r :| Hashed(hash, r) && r.message == id && after == InsertRevision(before, r) {
      InsertedSame(before, hash, r);
      HashedMatch(before, hash);
      InsertKeeps(before, r);
    } else {
      KeptSelf(before);
    }
    HistoricWrite(messages, before, hash, id, row, after);
  }

  lemma GrownRows(j: Journal, messages: map<Id, Message>, k: Journal)
    ensures Grown(j.(messages := messages), k) ==> Grown(j, k)
  {
  }

  lemma StagedMessages(t: Tables, jids: Jids, r: Ready, messages: map<Id, Message>)
    ensures Staged(t, jids, r, false, messages).messages == messages
  {
  }

  lemma ChainTip(revs: Revs, m: Id, tip: Option<RevisionOrder>, c: seq<Id>)
    requires TipOf(revs, m, tip) && Chain(revs, m, c) && c != []
    ensures tip.Some? && tip.value.id == c[|c| - 1] && tip.value == OrderOf(revs[c[|c| - 1]])
  {
    hide Chain;
  }

  lemma StillKnown(before: Revs, after: Revs, messages: map<Id, Message>, S: set<Id>)
    requires Kept(before, after) && forall id :: id in S ==> id in messages && messages[id].tomb.Deleted?
    requires forall id :: id in S ==> DeletionKnown(before, id, messages[id].tomb.at)
    ensures forall id :: id in S ==> DeletionKnown(after, id, messages[id].tomb.at)
  {
    hide Kept, AddsOnly, DeletionKnown;
    forall id | id in S ensures DeletionKnown(after, id, messages[id].tomb.at) {
      KnownStays(before, after, id, messages[id].tomb.at);
    }
  }

  lemma PartlySound(j: Journal, hash: Hash)
    requires Partly(j, hash) && forall id :: id in j.messages ==> TipRecords(j, id)
    ensures Sound(j, hash)
  {
    hide Chained, TipRecords, OwnReasons;
  }

  lemma PreparedSize(b: Batch, r: Ready)
    requires Prepare(b) == Ok(r)
    ensures |b.messages| == |r.messages|
  {
  }

  /** What a merge guarantees about parents and counts. */
  lemma MergeSettles(t: Tables, jids: Jids, hashes: E.Hashes, b: Batch, r: Ready, out: map<int, Row<Chat>>)
    requires E.CollisionFree(hashes) && Prepare(b) == Ok(r) && forall e :: e in t.messages ==> !IsBlank(e)
    requires var ids := EventIdsOf(hashes, b.messages, t.messages);
      && |ids| == |r.messages|
      && var s := Staged(t, jids, r, false, RowsWritten(t.messages, RowsOf(ids, r.messages)));
        AllCounted(s.chats, out, Propagate(s, jids, Some(ScopeOf(b))).messages, jids, AffectedChats(b))
    ensures var s := Staged(t, jids, r, false, RowsWritten(t.messages, RowsOf(EventIdsOf(hashes, b.messages, t.messages), r.messages)));
      var after := Propagate(s, jids, Some(ScopeOf(b)));
      && (Settled(t, jids) && (forall c :: c in b.chats ==> Canonical(jids, c.key)) ==>
            Settled(after.(chats := out), jids) && after == Propagate(s, jids, None))
      && (Counted(t.chats, t.messages, jids) && Countable(jids, b) ==> Counted(out, after.messages, jids))
  {
    hide RowsWritten, Propagate, EventIdsOf, E.CollisionFree, ScopeOf, Settled, Counted, AllCounted, AffectedChats, DerivedIds,
      CanonicalChats, Staged, Canonical, Prepared, FromBatch, KeepsChats, IsBlank, Prepare;
    var rows := RowsOf(EventIdsOf(hashes, b.messages, t.messages), r.messages);
    var s := Staged(t, jids, r, false, RowsWritten(t.messages, rows));
    var after := Propagate(s, jids, Some(ScopeOf(b)));
    RowsFrom(EventIdsOf(hashes, b.messages, t.messages), r.messages);
    if Settled(t, jids) && forall c :: c in b.chats ==> Canonical(jids, c.key) {
      BatchTouches(t, jids, b, r, false, rows);
      BatchScopeSuffices(t, s, jids, ScopeOf(b));
      PropagateKeys(s, jids, Some(ScopeOf(b)));
      RecountSettled(after, jids, out, after.messages, AffectedChats(b));
    }
    if Counted(t.chats, t.messages, jids) && Countable(jids, b) {
      DerivedIdsKeepChats(hashes, b, r, t.messages);
      MergeCounted(t, jids, b, r, rows, out);
    }
  }

  /** Counting again changes no tombstone. */
  lemma RecountSettled(t: Tables, jids: Jids, out: map<int, Row<Chat>>, messages: map<Id, Message>, done: set<Text>)
    requires Settled(t, jids) && AllCounted(t.chats, out, messages, jids, done)
    ensures Settled(t.(chats := out), jids)
  {
    forall n | n in t.chats ensures n in out && out[n].tomb == t.chats[n].tomb {
      assert RowCounted(t.chats[n], out[n], messages, jids, done, n);
    }
    forall jid ensures ChatDeleted(out, jids, jid) == ChatDeleted(t.chats, jids, jid) {
    }
  }

  /** A batch that names chats canonically and brings no event ids. */
  ghost predicate Countable(jids: Jids, b: Batch) {
    SoundJids(jids) && CanonicalChats(b, jids) && DerivedIds(b.messages)
  }

  /** Derived ids stay inside the family of their Telegram message, and so inside its chat. */
  lemma DerivedIdsKeepChats(h: E.Hashes, b: Batch, r: Ready, messages: map<Id, Message>)
    requires E.CollisionFree(h) && DerivedIds(b.messages) && Prepared(b, r) && forall e :: e in messages ==> !IsBlank(e)
    ensures KeepsChats(messages, RowsOf(EventIdsOf(h, b.messages, messages), r.messages))
  {
    hide E.Normalized, E.CollisionFree, IsBlank;
    var ms, table := IdentitiesOf(b.messages), TableOf(messages);
    var out := E.Normalized(h, E.Imported(ms, table));
    var ids := EventIdsOf(h, b.messages, messages);
    assert E.GivenIds(ms) == {};
    forall i, k | 0 <= i < |ids| && 0 <= k < |ids|
      ensures ids[i] in messages ==> messages[ids[i]].content.chat == r.messages[i].content.chat
      ensures ids[i] == ids[k] ==> r.messages[i].content.chat == r.messages[k].content.chat
    {
      E.ImportedIdsStayInFamily(h, ms, table, i, k);
      NotBlank(h, ms, table, i);
      NotBlank(h, ms, table, k);
    }
  }

  lemma NotBlank(h: E.Hashes, ms: seq<E.Message>, table: E.Table, i: nat)
    requires E.CollisionFree(h) && i < |ms| && ms[i].eventId == E.NO_ID
    requires (forall e :: e in table ==> !IsBlank(e))
    ensures !IsBlank(E.Normalized(h, E.Imported(ms, table))[i].eventId)
  {
    hide E.Normalized, IsBlank, E.MissingCount, E.FreeId;
    var used := E.TurnOf(h, E.Imported(ms, table), i);
    E.FreeIdIsHashed(h, ms[i], h.stable(ms[i].key), 1, used + table.Keys);
    E.FreeIdIsHashed(h, ms[i], h.legacy(ms[i].key, ms[i].sourcePk, 0), 1, used + table.Keys);
  }

  lemma NoPredecessor(revs: Revs, target: Option<Payload>)
    ensures PredecessorOn(revs, [], target) == NONE
  {
  }

  lemma TipOfPartly(j: Journal, hash: Hash, id: Id)
    requires Partly(j, hash) && id in j.messages
    ensures TipIn(j, id) && Chain(j.revs, id, j.chains[id])
  {
  }

  lemma TipIsLast(j: Journal, hash: Hash, id: Id)
    requires Partly(j, hash) && TipIn(j, id)
    ensures PredecessorOn(j.revs, j.chains[id], None) == j.chains[id][|j.chains[id]| - 1] == Tip(j, id).id
  {
    hide TipRecords, Unrecorded, OwnReasons, PredecessorOn, Injective, AllHashed;
    var c := j.chains[id];
    assert Linked(j.revs, id, c, |c| - 1);
    assert HasPayload(j.revs, c[|c| - 1], None);
    TipChosen(j.revs, c, None);
  }

  lemma RecordedNone(j: Journal, hash: Hash, observedAt: Time)
    ensures RecordedFor(j, j, hash, {}, observedAt)
  {
  }
}
