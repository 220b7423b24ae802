/** Merging a snapshot into the archive, and restoring one over it. */
module SnapshotImport {
  import opened ArchiveStore
  import opened ArchiveTables
  import opened Bytes
  import opened ChatAggregates
  import opened HistoryRecords
  import opened ImportBatch
  import opened ImportMeaning
  import opened MergeFacts
  import opened MessageJournal
  import opened RevisionChain
  import opened RevisionGraph
  import opened Revisions
  import opened RowChanges
  import opened SnapshotMerge
  import opened SnapshotSelection
  import opened TextOrder
  import opened TidyRows
  import opened TombstonePropagation
  import opened Wrappers
  import A = SnapshotAliases
  import E = EventIds
  import N = EventIdNormalizers
  import R = RevisionRemap

  /** What else a snapshot states of a revision: the name of its type, its reason, and whether its payload is valid JSON. */
  datatype RevisionText = RevisionText(eventType: Text, reason: Text, json: bool)

  /** `texts(i)` belongs to the revision at index `i`. */
  datatype Snapshot = Snapshot(batch: Batch, groups: seq<Raw<Text, Group>>, participants: seq<Raw<ParticipantKey, Participant>>,
                               revisions: seq<Revision>, texts: nat -> RevisionText)

  datatype SnapshotError = Malformed(error: ImportError) | Invalid | BadRevision

  datatype ReadySnapshot = ReadySnapshot(ready: Ready, groups: seq<Write<Text, Group>>,
                                         participants: seq<Write<ParticipantKey, Participant>>)

  function PrepareSnapshot(d: Snapshot): (r: Result<ReadySnapshot, ImportError>)
    ensures r.Ok? ==> Prepare(d.batch) == Ok(r.value.ready)
    ensures r.Ok? ==> SameKeys(d.groups, r.value.groups) && SameKeys(d.participants, r.value.participants)
  {
    var ready :- Prepare(d.batch);
    var groups :- NormalizeRows(d.groups, d.batch.source, Ascii("explicit-group-delete"));
    var participants :- NormalizeRows(d.participants, d.batch.source, Ascii("explicit-group-participant-delete"));
    Ok(ReadySnapshot(ready, groups, participants))
  }

  /** SnapshotData.Validate: source ids are set, and event and revision ids are present and distinct. */
  predicate Acceptable(ids: seq<Id>, ms: seq<Message>, revisions: seq<Revision>)
    requires |ids| == |ms|
  {
    && (forall i :: 0 <= i < |ms| ==> ms[i].sourcePk != 0)
    && (forall i, k :: 0 <= i < k < |ids| ==> ids[i] != ids[k])
    && (forall i :: 0 <= i < |revisions| ==> revisions[i].id != [] && revisions[i].message != [])
    && (forall i, k :: 0 <= i < k < |revisions| ==> revisions[i].id != revisions[k].id)
  }

  /** Well-formed rows whose messages, once identified, pass validation; anything else is refused before it is written. */
  ghost predicate Importable(h: E.Hashes, d: Snapshot)
    requires E.CollisionFree(h)
  {
    var r, ids := PrepareSnapshot(d), SnapshotIds(h, d.batch.messages);
    r.Ok? && |ids| == |r.value.ready.messages| && Acceptable(ids, r.value.ready.messages, d.revisions)
  }

  /** What insertMessageRevision asks of every revision: identities, a type, a reason and a JSON payload. */
  predicate Insertable(revisions: seq<Revision>, texts: nat -> RevisionText) {
    forall i :: 0 <= i < |revisions| ==>
      && !IsBlank(revisions[i].id) && !IsBlank(revisions[i].message)
      && !IsBlank(texts(i).eventType) && !IsBlank(texts(i).reason) && texts(i).json
  }

  /** newTombstoneScope with groups and participants. */
  function ScopeOfSnapshot(d: Snapshot): Scope {
    ScopeOf(d.batch).(groups := Keys(d.groups) + (set p | p in d.participants :: p.key.group))
  }

  // Rows.

  /** insertMessages without revisions. */
  method WriteRowsOnly(a: Archive, rows: seq<MessageRow>)
    requires a.Usable() && forall i :: 0 <= i < |rows| ==> !IsBlank(rows[i].id)
    modifies a`messages, a`index
    ensures a.Usable() && a.messages == RowsWritten(old(a.messages), rows)
  {
    hide RowFor, Indexed, IndexAgrees, IsBlank, IdsMatch;
    for i := 0 to |rows|
      invariant a.Usable() && a.messages == RowsWritten(old(a.messages), rows[..i])
    {
      assert rows[..i + 1][..i] == rows[..i];
      var stored := Stored(a.messages, rows[i].id);
      var row := RowFor(stored, rows[i].message);
      UpsertWritesRow(stored, rows[i].message);
      IndexedAgrees(a.messages, a.index, rows[i].id, row);
      a.messages := a.messages[rows[i].id := Upserted(stored, row)];
      a.index := Indexed(a.index, rows[i].id, row);
    }
    assert rows[..|rows|] == rows;
  }

  // Revisions.

  function AllInserted(revs: Revs, rows: seq<Revision>): (out: Revs) {
    if rows == [] then revs else InsertRevision(AllInserted(revs, rows[..|rows| - 1]), rows[|rows| - 1])
  }

  lemma {:induction false} InsertedKeeps(revs: Revs, rows: seq<Revision>)
    requires IdsMatch(revs)
    ensures Kept(revs, AllInserted(revs, rows)) && IdsMatch(AllInserted(revs, rows))
    ensures forall r :: r in rows ==> r.id in AllInserted(revs, rows)
  {
    if rows != [] {
      InsertedKeeps(revs, rows[..|rows| - 1]);
      assert rows == rows[..|rows| - 1] + [rows[|rows| - 1]];
    }
  }

  method InsertRevisions(a: Archive, rows: seq<Revision>)
    modifies a`revisions
    ensures a.revisions == AllInserted(old(a.revisions), rows)
  {
    for i := 0 to |rows|
      invariant a.revisions == AllInserted(old(a.revisions), rows[..i])
    {
      assert rows[..i + 1][..i] == rows[..i];
      a.revisions := InsertRevision(a.revisions, rows[i]);
    }
    assert rows[..|rows|] == rows;
  }

  /** The first revision of a message that came without any. */
  function Baseline(hash: Hash, id: Id, m: Message, observedAt: Time): Revision {
    if m.tomb.Deleted? then NewRevision(hash, id, Deletion, m.tomb.at, observedAt, PayloadOf(m), NONE)
    else NewRevision(hash, id, Observation, m.content.ts, observedAt, PayloadOf(m), NONE)
  }

  /** seedMissingMessageBaselines: afterwards every message has a revision, when ids are content hashes. */
  method SeedMissingMessageBaselines(a: Archive, observedAt: Time)
    requires IdsMatch(a.revisions)
    modifies a`revisions
    ensures Kept(old(a.revisions), a.revisions) && IdsMatch(a.revisions)
    ensures forall e :: e in a.revisions && e !in old(a.revisions) ==>
      a.revisions[e].message in a.messages && !HasRevision(old(a.revisions), a.revisions[e].message)
      && a.revisions[e] == Baseline(a.hash, a.revisions[e].message, a.messages[a.revisions[e].message], observedAt)
    ensures Injective(a.hash) && old(AllHashed(a.revisions, a.hash)) ==> Historic(a.messages, a.revisions, a.hash)
    ensures ChainsStay(old(a.revisions), a.revisions) && AddsOnly(old(a.revisions), a.revisions, a.messages.Keys)
  {
    hide Injective, Baseline, Hashed, HasRevision, InsertRevision, IdsMatch, AllHashed, Kept, AddsOnly;
    ghost var before := a.revisions;
    KeptSelf(before);
    var todo := set id | id in a.messages && !HasRevision(a.revisions, id);
    ghost var all := todo;
    while todo != {}
      invariant todo <= all && Kept(before, a.revisions) && IdsMatch(a.revisions)
      invariant forall e :: e in a.revisions && e !in before ==>
        a.revisions[e].message in all
        && a.revisions[e] == Baseline(a.hash, a.revisions[e].message, a.messages[a.revisions[e].message], observedAt)
      invariant Injective(a.hash) && AllHashed(before, a.hash) ==>
        AllHashed(a.revisions, a.hash) && forall id :: id in a.messages && id !in todo ==> HasRevision(a.revisions, id)
      decreases |todo|
    {
      var id :| id in todo;
      todo := todo - {id};
      var r := Baseline(a.hash, id, a.messages[id], observedAt);
      BaselineOf(a.hash, id, a.messages[id], observedAt);
      ghost var was := a.revisions;
      a.revisions := InsertRevision(a.revisions, r);
      InsertKeeps(was, r);
      InsertedOnly(was, r);
      KeptTransitive(before, was, a.revisions);
      if Injective(a.hash) && AllHashed(before, a.hash) {
        InsertedSame(was, a.hash, r);
        forall e | HasRevision(was, e) ensures HasRevision(a.revisions, e) {
          KeptRevision(was, a.revisions, e);
        }
      }
    }
    SeedsKeepChains(before, a.revisions);
    SeedsAdd(before, a.revisions, a.messages.Keys);
  }

  lemma SeedsAdd(before: Revs, after: Revs, ids: set<Id>)
    requires forall e :: e in after && e !in before ==> after[e].message in ids
    ensures AddsOnly(before, after, ids)
  {
  }

  lemma InsertedOnly(revs: Revs, r: Revision)
    ensures forall e :: e in InsertRevision(revs, r) && e !in revs ==> e == r.id && InsertRevision(revs, r)[e] == r
  {
  }

  lemma BaselineOf(hash: Hash, id: Id, m: Message, observedAt: Time)
    ensures var r := Baseline(hash, id, m, observedAt);
      && r.message == id && Hashed(hash, r) && r.observedAt == observedAt && r.payload == Observed(m.content, m.tomb)
      && r.predecessor == [] && match m.tomb
         case Deleted(when, _, _) => r.eventType == Deletion && r.eventAt == when
         case Live => r.eventType == Observation && r.eventAt == m.content.ts
  {
  }

  ghost predicate ChainsStay(before: Revs, after: Revs) {
    forall m, c :: Chain(before, m, c) && c != [] ==> Chain(after, m, c)
  }

  /** Baselines go to messages without a chain. */
  lemma SeedsKeepChains(before: Revs, after: Revs)
    requires Kept(before, after) && forall e :: e in after && e !in before ==> !HasRevision(before, after[e].message)
    ensures ChainsStay(before, after)
  {
    forall m, c | Chain(before, m, c) && c != [] ensures Chain(after, m, c) {
      ChainEnd(before, m, c);
      assert HasRevision(before, m);
      forall i | 0 <= i < |c| ensures Linked(after, m, c, i) {
        assert Linked(before, m, c, i);
      }
    }
  }

  // Choosing what to write.

  /** The ids a snapshot's messages have, or get because it is an old one. */
  ghost function SnapshotIds(h: E.Hashes, ms: seq<RawMessage>): (ids: seq<Id>)
    requires E.CollisionFree(h)
    ensures |ids| == |ms|
  {
    var out := E.Normalized(h, E.Legacy(IdentitiesOf(ms)));
    seq(|ms|, i requires 0 <= i < |ms| => FinalId(h, out[i]))
  }

  lemma SnapshotIdsNotBlank(h: E.Hashes, ms: seq<RawMessage>)
    requires E.CollisionFree(h)
    ensures forall i :: 0 <= i < |ms| ==> !IsBlank(SnapshotIds(h, ms)[i])
  {
    hide IsBlank, E.Normalized;
  }

  method NormalizeLegacyEventIDs(h: E.Hashes, ms: seq<RawMessage>) returns (ids: seq<Id>)
    requires E.CollisionFree(h)
    ensures ids == SnapshotIds(h, ms)
  {
    hide E.Normalized, E.CollisionFree, IsBlank;
    var identities := IdentitiesOf(ms);
    var slots := new E.Message[|ms|](i requires 0 <= i < |ms| => identities[i]);
    assert slots[..] == identities;
    N.NormalizeLegacy(h, slots);
    ids := seq(|ms|, i requires 0 <= i < |ms| reads slots => FinalId(h, slots[i]));
  }

  function NamedIds(rows: seq<MessageRow>): set<Id> {
    set r | r in rows :: r.id
  }

  function HistoryOf(rows: seq<Revision>): R.History {
    if rows == [] then map[] else HistoryOf(rows[..|rows| - 1])[rows[|rows| - 1].id := rows[|rows| - 1]]
  }

  /** The revisions stored under some message ids, in any order. */
  ghost predicate Covers(rows: seq<Revision>, revs: Revs, ids: set<Id>) {
    && (forall r :: r in rows ==> r.id in revs && revs[r.id] == r && r.message in ids)
    && (forall e :: e in revs && revs[e].message in ids ==> revs[e] in rows)
  }

  method QueryStored(revs: Revs, ids: set<Id>) returns (rows: seq<Revision>)
    requires IdsMatch(revs)
    ensures Covers(rows, revs, ids)
  {
    rows := [];
    var todo := revs.Keys;
    while todo != {}
      invariant todo <= revs.Keys
      invariant forall r :: r in rows ==> r.id in revs && revs[r.id] == r && r.message in ids
      invariant forall e :: e in revs && e !in todo && revs[e].message in ids ==> revs[e] in rows
      decreases |todo|
    {
      var e :| e in todo;
      todo := todo - {e};
      if revs[e].message in ids {
        rows := rows + [revs[e]];
      }
    }
  }

  /** The rows and revisions a merge writes. */
  ghost predicate Chosen(messages: map<Id, Message>, revs: Revs, hash: Hash, ids: seq<Id>, ms: seq<Message>, snapshot: seq<Revision>,
                         rows: seq<MessageRow>, revisions: seq<Revision>)
    requires |ids| == |ms|
  {
    var identities := Identities(ids, ms);
    var aliased := RowsOf(A.AliasedIds(TableOf(messages), identities, identities), ms);
    var aliases := A.AliasMap(TableOf(messages), identities, identities);
    var existing := map e | e in messages && e in NamedIds(aliased) :: messages[e];
    && |revisions| == |snapshot|
    && (Acyclic(R.LinksOf(HistoryOf(snapshot))) ==>
          forall i :: 0 <= i < |snapshot| ==> revisions[i] == R.Remapped(HistoryOf(snapshot), aliases, hash, snapshot[i]))
    && exists stored :: Covers(stored, revs, NamedIds(aliased)) && rows == Mergeable(existing, stored, revisions, aliased)
  }

  function Identities(ids: seq<Id>, ms: seq<Message>): (out: seq<E.Message>)
    requires |ids| == |ms|
    ensures |out| == |ms|
  {
    seq(|ms|, i requires 0 <= i < |ms| => E.Message(ids[i], E.Key(ms[i].content.chat, ms[i].content.messageId), ms[i].sourcePk))
  }

  /** reconcileSnapshotMessageEventIDs and mergeableSnapshotMessages. */
  method ChooseRows(a: Archive, ids: seq<Id>, ms: seq<Message>, snapshot: seq<Revision>)
    returns (rows: seq<MessageRow>, revisions: seq<Revision>)
    requires IdsMatch(a.revisions) && |ids| == |ms|
    ensures Chosen(a.messages, a.revisions, a.hash, ids, ms, snapshot, rows, revisions)
  {
    hide A.AliasedIds, A.AliasMap, Mergeable, R.Remapped, Covers, IdsMatch;
    var identities := Identities(ids, ms);
    var names, aliases := A.ResolveAliases(TableOf(a.messages), identities);
    var aliased := RowsOf(names, ms);
    var named := NamedIds(aliased);
    revisions := R.RemapRevisions(HistoryOf(snapshot), aliases, a.hash, snapshot);
    var existing := map e | e in a.messages && e in named :: a.messages[e];
    var stored := QueryStored(a.revisions, named);
    rows := MergeableSnapshotMessages(existing, stored, revisions, aliased);
  }

  lemma {:induction false} MergeableFrom(existing: map<Id, Message>, stored: seq<Revision>, snapshot: seq<Revision>,
                                         incoming: seq<MessageRow>, ms: seq<Message>)
    requires FromBatch(incoming, ms)
    ensures FromBatch(Mergeable(existing, stored, snapshot, incoming), ms)
  {
    hide Selected, Carried;
    if incoming != [] {
      var init, last := incoming[..|incoming| - 1], incoming[|incoming| - 1];
      forall i | 0 <= i < |init| ensures Carried(init[i].message.content, ms) {
        assert init[i] == incoming[i];
      }
      MergeableFrom(existing, stored, snapshot, init, ms);
    }
  }

  lemma ChosenFrom(messages: map<Id, Message>, revs: Revs, hash: Hash, ids: seq<Id>, ms: seq<Message>, snapshot: seq<Revision>,
                   rows: seq<MessageRow>, revisions: seq<Revision>)
    requires |ids| == |ms| && Chosen(messages, revs, hash, ids, ms, snapshot, rows, revisions)
    ensures FromBatch(rows, ms)
  {
    hide A.AliasedIds, A.AliasMap, Mergeable, R.Remapped, Covers;
    var identities := Identities(ids, ms);
    var aliased := RowsOf(A.AliasedIds(TableOf(messages), identities, identities), ms);
    var existing := map e | e in messages && e in NamedIds(aliased) :: messages[e];
    var stored :| Covers(stored, revs, NamedIds(aliased)) && rows == Mergeable(existing, stored, revisions, aliased);
    RowsFrom(A.AliasedIds(TableOf(messages), identities, identities), ms);
    MergeableFrom(existing, stored, revisions, aliased, ms);
  }

  lemma {:induction false} AliasedNotBlank(table: E.Table, all: seq<E.Message>, ms: seq<E.Message>)
    requires (forall e :: e in table ==> !IsBlank(e)) && forall i :: 0 <= i < |ms| ==> !IsBlank(ms[i].eventId)
    ensures forall i :: 0 <= i < |ms| ==> !IsBlank(A.AliasedIds(table, all, ms)[i])
  {
    hide IsBlank, A.KeyCount;
    if ms != [] {
      var last := ms[|ms| - 1];
      AliasedNotBlank(table, all, ms[..|ms| - 1]);
      A.FamilyNonEmpty(table, last.key, last.sourcePk);
    }
  }

  /** What a merge writes has ids that are not blank. */
  lemma ChosenNotBlank(messages: map<Id, Message>, revs: Revs, hash: Hash, ids: seq<Id>, ms: seq<Message>, snapshot: seq<Revision>,
                       rows: seq<MessageRow>, revisions: seq<Revision>)
    requires |ids| == |ms| && Chosen(messages, revs, hash, ids, ms, snapshot, rows, revisions)
    requires (forall e :: e in messages ==> !IsBlank(e)) && forall i :: 0 <= i < |ids| ==> !IsBlank(ids[i])
    ensures forall i :: 0 <= i < |rows| ==> !IsBlank(rows[i].id)
  {
    hide A.AliasedIds, A.AliasMap, Mergeable, R.Remapped, Covers, IsBlank;
    var identities := Identities(ids, ms);
    var aliased := RowsOf(A.AliasedIds(TableOf(messages), identities, identities), ms);
    var existing := map e | e in messages && e in NamedIds(aliased) :: messages[e];
    var stored :| Covers(stored, revs, NamedIds(aliased)) && rows == Mergeable(existing, stored, revisions, aliased);
    AliasedNotBlank(TableOf(messages), identities, identities);
    MergeableIds(existing, stored, revisions, aliased);
    forall i | 0 <= i < |rows| ensures !IsBlank(rows[i].id) {
      assert rows[i] in rows && rows[i].id in NamedIds(rows);
      assert rows[i].id in NamedIds(aliased);
    }
  }

  lemma NamedGrows(rows: seq<MessageRow>, r: MessageRow)
    ensures NamedIds(rows + [r]) == NamedIds(rows) + {r.id}
  {
    assert forall x :: x in rows + [r] <==> x in rows || x == r;
  }

  /** Rows to write have ids the snapshot names. */
  lemma {:induction false} MergeableIds(existing: map<Id, Message>, stored: seq<Revision>, snapshot: seq<Revision>,
                                        incoming: seq<MessageRow>)
    ensures NamedIds(Mergeable(existing, stored, snapshot, incoming)) <= NamedIds(incoming)
  {
    hide Selected, NamedIds, PreserveDestinationMedia;
    if incoming == [] {
      NothingNamed();
    } else {
      var init, last := incoming[..|incoming| - 1], incoming[|incoming| - 1];
      assert incoming == init + [last];
      MergeableIds(existing, stored, snapshot, init);
      var rest, rows := Mergeable(existing, stored, snapshot, init), Mergeable(existing, stored, snapshot, incoming);
      NamedGrows(init, last);
      if rows != rest {
        NamedGrows(rest, rows[|rest|]);
      }
    }
  }

  lemma NothingNamed()
    ensures NamedIds([]) == {}
  {
  }

  /** A row the snapshot does not name is left alone. */
  lemma UnnamedRow(messages: map<Id, Message>, rows: seq<MessageRow>, e: Id)
    requires e !in NamedIds(rows)
    ensures Stored(RowsWritten(messages, rows), e) == Stored(messages, e)
  {
    hide RowsWritten;
    forall i | 0 <= i < |rows| ensures rows[i].id != e {
      assert rows[i] in rows;
    }
    RowWritten(messages, rows, e);
  }

  /** A stored message that the snapshot names once becomes what the revision graph decides. */
  lemma {:induction false} MergedRow(messages: map<Id, Message>, existing: map<Id, Message>, stored: seq<Revision>,
                                     snapshot: seq<Revision>, before: seq<MessageRow>, row: MessageRow, after: seq<MessageRow>)
    requires row.id in existing && row.id in messages && existing[row.id] == messages[row.id]
    requires row.id !in NamedIds(before) && row.id !in NamedIds(after)
    ensures var u := RowsWritten(messages, Mergeable(existing, stored, snapshot, before + [row] + after));
      row.id in u && u[row.id] == AfterMerge(stored, snapshot, row.id, existing[row.id], row.message)
    decreases |after|
  {
    hide Selected, RowFor, PreserveDestinationMedia, NamedIds;
    var incoming := before + [row] + after;
    if after == [] {
      assert incoming == before + [row] && incoming[..|incoming| - 1] == before;
      MergeableIds(existing, stored, snapshot, before);
      UnnamedRow(messages, Mergeable(existing, stored, snapshot, before), row.id);
      LastRow(messages, existing, stored, snapshot, before, row);
    } else {
      var init, last := after[..|after| - 1], after[|after| - 1];
      assert after == init + [last];
      NamedGrows(init, last);
      assert incoming[..|incoming| - 1] == before + [row] + init;
      MergedRow(messages, existing, stored, snapshot, before, row, init);
      OtherLastRow(messages, existing, stored, snapshot, before + [row] + init, last, row.id);
      assert incoming == before + [row] + init + [last];
    }
  }

  lemma LastRow(messages: map<Id, Message>, existing: map<Id, Message>, stored: seq<Revision>, snapshot: seq<Revision>,
                before: seq<MessageRow>, row: MessageRow)
    requires row.id in existing
    requires Stored(RowsWritten(messages, Mergeable(existing, stored, snapshot, before)), row.id) == Some(existing[row.id])
    ensures var u := RowsWritten(messages, Mergeable(existing, stored, snapshot, before + [row]));
      row.id in u && u[row.id] == AfterMerge(stored, snapshot, row.id, existing[row.id], row.message)
  {
    hide Selected, RowFor, PreserveDestinationMedia;
    var all := before + [row];
    assert all[..|all| - 1] == before;
    var rest, rows := Mergeable(existing, stored, snapshot, before), Mergeable(existing, stored, snapshot, all);
    assert rows != rest ==> rows[..|rows| - 1] == rest;
  }

  lemma OtherLastRow(messages: map<Id, Message>, existing: map<Id, Message>, stored: seq<Revision>, snapshot: seq<Revision>,
                     before: seq<MessageRow>, last: MessageRow, e: Id)
    requires last.id != e
    ensures Stored(RowsWritten(messages, Mergeable(existing, stored, snapshot, before + [last])), e) ==
      Stored(RowsWritten(messages, Mergeable(existing, stored, snapshot, before)), e)
  {
    hide Selected, RowFor, PreserveDestinationMedia;
    var all := before + [last];
    assert all[..|all| - 1] == before;
    var rest, rows := Mergeable(existing, stored, snapshot, before), Mergeable(existing, stored, snapshot, all);
    assert rows != rest ==> rows[..|rows| - 1] == rest;
  }

  /** What a merge writes is tidy when the stored rows and the snapshot's are. */
  lemma {:induction false} MergeableNamed(existing: map<Id, Message>, stored: seq<Revision>, snapshot: seq<Revision>,
                                          incoming: seq<MessageRow>)
    requires NamedRows(incoming)
    ensures NamedRows(Mergeable(existing, stored, snapshot, incoming))
  {
    hide Selected, IsBlank, Whole;
    if incoming != [] {
      MergeableNamed(existing, stored, snapshot, incoming[..|incoming| - 1]);
    }
  }

  lemma ChosenNamed(messages: map<Id, Message>, revs: Revs, hash: Hash, ids: seq<Id>, ms: seq<Message>, snapshot: seq<Revision>,
                    rows: seq<MessageRow>, revisions: seq<Revision>)
    requires |ids| == |ms| && Chosen(messages, revs, hash, ids, ms, snapshot, rows, revisions) && NamedRows(RowsOf(ids, ms))
    ensures NamedRows(rows)
  {
    hide A.AliasedIds, A.AliasMap, Mergeable, R.Remapped, Covers, Named;
    var identities := Identities(ids, ms);
    var aliased := RowsOf(A.AliasedIds(TableOf(messages), identities, identities), ms);
    var existing := map e | e in messages && e in NamedIds(aliased) :: messages[e];
    var stored :| Covers(stored, revs, NamedIds(aliased)) && rows == Mergeable(existing, stored, revisions, aliased);
    forall i | 0 <= i < |aliased| ensures Named(aliased[i].message) {
      assert aliased[i].message == RowsOf(ids, ms)[i].message;
    }
    MergeableNamed(existing, stored, revisions, aliased);
  }

  // The rows after a merge, whatever it chose.

  /** The ids under which a snapshot's messages go. */
  ghost function Names(messages: map<Id, Message>, ids: seq<Id>, ms: seq<Message>): (names: seq<Id>)
    requires |ids| == |ms|
    ensures |names| == |ms|
  {
    A.AliasedIds(TableOf(messages), Identities(ids, ms), Identities(ids, ms))
  }

  predicate NamedOnlyBy(names: seq<Id>, i: nat)
    requires i < |names|
  {
    forall k :: 0 <= k < |names| && k != i ==> names[k] != names[i]
  }

  /**
   Every message of a snapshot has a row afterwards, and no other row is new. A row that no message goes under stays as it
   was; a new one is what the messages that go under it make of it in turn, and so that message when there is one.
   */
  ghost predicate SnapshotRows(before: map<Id, Message>, names: seq<Id>, ms: seq<Message>, after: map<Id, Message>)
    requires |names| == |ms|
  {
    && (forall e :: e in after <==> e in before || e in names)
    && (forall e :: e in before && e !in names ==> after[e] == before[e])
    && (forall e :: e in names && e !in before ==> Becomes(before, RowsOf(names, ms), e, |names|, after[e]))
    && (forall i :: 0 <= i < |names| && NamedOnlyBy(names, i) && names[i] !in before ==> after[names[i]] == ms[i])
  }

  /** Rows to write have their own ids, and all new ones are written. */
  lemma {:induction false} MergeableInserts(messages: map<Id, Message>, existing: map<Id, Message>, stored: seq<Revision>,
                                            snapshot: seq<Revision>, incoming: seq<MessageRow>, e: Id)
    requires forall x :: x in existing ==> x in messages
    ensures var u := RowsWritten(messages, Mergeable(existing, stored, snapshot, incoming));
      e in u <==> e in messages || e in NamedIds(incoming)
  {
    hide Selected, RowFor, PreserveDestinationMedia, NamedIds;
    if incoming == [] {
      NothingNamed();
    } else {
      var init, last := incoming[..|incoming| - 1], incoming[|incoming| - 1];
      MergeableInserts(messages, existing, stored, snapshot, init, e);
      var rest, rows := Mergeable(existing, stored, snapshot, init), Mergeable(existing, stored, snapshot, incoming);
      assert rows != rest ==> rows[..|rows| - 1] == rest;
      NamedGrows(init, last);
      assert incoming == init + [last];
    }
  }

  lemma LastWritten(messages: map<Id, Message>, rows: seq<MessageRow>, row: MessageRow, e: Id)
    ensures var before := Stored(RowsWritten(messages, rows), e);
      Stored(RowsWritten(messages, rows + [row]), e) == if row.id == e then Some(RowFor(before, row.message)) else before
  {
    hide RowFor;
    assert (rows + [row])[..|rows|] == rows;
  }

  lemma LastMergeable(existing: map<Id, Message>, stored: seq<Revision>, snapshot: seq<Revision>, init: seq<MessageRow>,
                      last: MessageRow)
    ensures var rest, rows := Mergeable(existing, stored, snapshot, init), Mergeable(existing, stored, snapshot, init + [last]);
      && (last.id !in existing ==> rows == rest + [last])
      && (rows == rest || (|rows| == |rest| + 1 && rows[..|rest|] == rest && rows[|rest|].id == last.id))
  {
    hide Selected, PreserveDestinationMedia;
    assert (init + [last])[..|init|] == init;
  }

  /** A new row is written as if all rows were. */
  lemma {:induction false} NewRows(messages: map<Id, Message>, existing: map<Id, Message>, stored: seq<Revision>,
                                   snapshot: seq<Revision>, incoming: seq<MessageRow>, e: Id)
    requires e !in existing
    ensures Stored(RowsWritten(messages, Mergeable(existing, stored, snapshot, incoming)), e) == Stored(RowsWritten(messages, incoming), e)
  {
    if incoming != [] {
      hide Mergeable, RowsWritten, RowFor;
      var init, last := incoming[..|incoming| - 1], incoming[|incoming| - 1];
      assert incoming == init + [last];
      NewRows(messages, existing, stored, snapshot, init, e);
      LastMergeable(existing, stored, snapshot, init, last);
      LastWritten(messages, init, last, e);
      var rest, rows := Mergeable(existing, stored, snapshot, init), Mergeable(existing, stored, snapshot, incoming);
      if last.id == e {
        LastWritten(messages, rest, last, e);
      } else if rows != rest {
        assert rows == rest + [rows[|rest|]];
        LastWritten(messages, rest, rows[|rest|], e);
      }
    }
  }

  /** A new message that the snapshot names once is written as it came. */
  lemma {:induction false} NewRow(messages: map<Id, Message>, existing: map<Id, Message>, stored: seq<Revision>,
                                  snapshot: seq<Revision>, before: seq<MessageRow>, row: MessageRow, after: seq<MessageRow>)
    requires row.id !in existing && row.id !in messages
    requires row.id !in NamedIds(before) && row.id !in NamedIds(after)
    ensures var u := RowsWritten(messages, Mergeable(existing, stored, snapshot, before + [row] + after));
      row.id in u && u[row.id] == row.message
    decreases |after|
  {
    hide Selected, RowFor, PreserveDestinationMedia, NamedIds;
    var incoming := before + [row] + after;
    if after == [] {
      assert incoming == before + [row] && incoming[..|incoming| - 1] == before;
      MergeableIds(existing, stored, snapshot, before);
      UnnamedRow(messages, Mergeable(existing, stored, snapshot, before), row.id);
      FirstWritten(messages, Mergeable(existing, stored, snapshot, before), row);
    } else {
      var init, last := after[..|after| - 1], after[|after| - 1];
      assert after == init + [last];
      NamedGrows(init, last);
      assert incoming[..|incoming| - 1] == before + [row] + init;
      NewRow(messages, existing, stored, snapshot, before, row, init);
      OtherLastRow(messages, existing, stored, snapshot, before + [row] + init, last, row.id);
      assert incoming == before + [row] + init + [last];
    }
  }

  lemma FirstWritten(messages: map<Id, Message>, rows: seq<MessageRow>, row: MessageRow)
    requires row.id !in RowsWritten(messages, rows)
    ensures var u := RowsWritten(messages, rows + [row]); row.id in u && u[row.id] == row.message
  {
    assert (rows + [row])[..|rows|] == rows;
  }

  lemma ChosenRows(messages: map<Id, Message>, revs: Revs, hash: Hash, ids: seq<Id>, ms: seq<Message>, snapshot: seq<Revision>,
                   rows: seq<MessageRow>, revisions: seq<Revision>)
    requires |ids| == |ms| && Chosen(messages, revs, hash, ids, ms, snapshot, rows, revisions)
    ensures SnapshotRows(messages, Names(messages, ids, ms), ms, RowsWritten(messages, rows))
  {
    hide A.AliasedIds, A.AliasMap, Mergeable, R.Remapped, Covers, RowsWritten, NamedIds, Becomes;
    var names := Names(messages, ids, ms);
    var aliased := RowsOf(names, ms);
    var existing := map e | e in messages && e in NamedIds(aliased) :: messages[e];
    var stored :| Covers(stored, revs, NamedIds(aliased)) && rows == Mergeable(existing, stored, revisions, aliased);
    var u := RowsWritten(messages, rows);
    forall e ensures e in u <==> e in messages || e in names {
      MergeableInserts(messages, existing, stored, revisions, aliased, e);
      NamesOf(names, ms, e);
    }
    forall e | e in messages && e !in names ensures u[e] == messages[e] {
      MergeableIds(existing, stored, revisions, aliased);
      NamesOf(names, ms, e);
      UnnamedRow(messages, rows, e);
    }
    forall e | e in names && e !in messages ensures Becomes(messages, aliased, e, |names|, u[e]) {
      NewRows(messages, existing, stored, revisions, aliased, e);
      assert aliased[..|names|] == aliased;
      RowsBecome(messages, aliased, e, |names|);
    }
    forall i | 0 <= i < |names| && NamedOnlyBy(names, i) && names[i] !in messages ensures u[names[i]] == ms[i] {
      var before, after := aliased[..i], aliased[i + 1..];
      assert aliased == before + [aliased[i]] + after;
      OthersNamed(names, ms, i);
      NewRow(messages, existing, stored, revisions, before, aliased[i], after);
    }
  }

  lemma NamesOf(names: seq<Id>, ms: seq<Message>, e: Id)
    requires |names| == |ms|
    ensures e in NamedIds(RowsOf(names, ms)) <==> e in names
  {
    if e in names {
      var i :| 0 <= i < |names| && names[i] == e;
      assert RowsOf(names, ms)[i] in RowsOf(names, ms);
    }
  }

  lemma OthersNamed(names: seq<Id>, ms: seq<Message>, i: nat)
    requires |names| == |ms| && i < |names| && NamedOnlyBy(names, i)
    ensures var aliased := RowsOf(names, ms);
      names[i] !in NamedIds(aliased[..i]) && names[i] !in NamedIds(aliased[i + 1..])
  {
    var aliased := RowsOf(names, ms);
    forall r | r in aliased[..i] ensures r.id != names[i] {
      var k :| 0 <= k < i && aliased[..i][k] == r;
      assert names[k] == r.id;
    }
    forall r | r in aliased[i + 1..] ensures r.id != names[i] {
      var k :| 0 <= k < |aliased[i + 1..]| && aliased[i + 1..][k] == r;
      assert names[i + 1 + k] == r.id;
    }
  }

  // The tables after a snapshot.

  /** What a snapshot's rows make of the parent tables. */
  ghost predicate SnapshotWrites(t: Tables, d: Snapshot, j: Jids, preserve: bool, r: ReadySnapshot, s: Tables) {
    && ReadyAs(d.batch, r.ready) && RowsAs(d.groups, d.batch.source, "explicit-group-delete", r.groups)
    && RowsAs(d.participants, d.batch.source, "explicit-group-participant-delete", r.participants)
    && WroteAll(t, j, r.ready, preserve, s)
    && Wrote(t.groups, r.groups, preserve, s.groups) && Wrote(t.participants, r.participants, preserve, s.participants)
  }

  /** A merge leaves deleted parents deleted and live ones live, writes messages, passes deletions on and counts again. */
  ghost predicate SnapshotMerges(t: Tables, d: Snapshot, ids: seq<Id>, j: Jids, scope: Option<Scope>, done: set<Text>, u: Tables) {
    exists r, s :: SnapshotMergesBy(t, d, ids, j, scope, done, u, r, s)
  }

  ghost predicate SnapshotMergesBy(t: Tables, d: Snapshot, ids: seq<Id>, j: Jids, scope: Option<Scope>, done: set<Text>, u: Tables,
                                   r: ReadySnapshot, s: Tables)
  {
    && SnapshotWrites(t, d, j, true, r, s) && |ids| == |r.ready.messages|
    && SnapshotRows(t.messages, Names(t.messages, ids, r.ready.messages), r.ready.messages, s.messages)
    && PassedOn(s, j, scope, u.(chats := s.chats)) && AllCounted(s.chats, u.chats, u.messages, j, done)
  }

  /** A restore writes every row of the snapshot into empty tables and passes all deletions on. */
  ghost predicate SnapshotRestores(d: Snapshot, ids: seq<Id>, j: Jids, u: Tables) {
    exists r, s :: SnapshotRestoresBy(d, ids, j, u, r, s)
  }

  ghost predicate SnapshotRestoresBy(d: Snapshot, ids: seq<Id>, j: Jids, u: Tables, r: ReadySnapshot, s: Tables) {
    && SnapshotWrites(NO_ROWS, d, j, false, r, s) && |ids| == |r.ready.messages|
    && TableBecomes(map[], RowsOf(ids, r.ready.messages), s.messages) && PassedOn(s, j, None, u)
  }

  // Applying it.

  ghost function StagedSnapshot(t: Tables, j: Jids, r: ReadySnapshot, preserve: bool, messages: map<Id, Message>): Tables {
    Staged(t, j, r.ready, preserve, messages).(
      groups := UpsertAll(t.groups, r.groups, preserve),
      participants := UpsertAll(t.participants, r.participants, preserve))
  }

  /** Every row the snapshot deletes as a parent or brings to life as a child is in its scope. */
  lemma SnapshotTouches(t: Tables, jids: Jids, d: Snapshot, r: ReadySnapshot, rows: seq<MessageRow>)
    requires PrepareSnapshot(d) == Ok(r) && FromBatch(rows, r.ready.messages)
    requires forall c :: c in d.batch.chats ==> Canonical(jids, c.key)
    ensures Touched(t, StagedSnapshot(t, jids, r, true, RowsWritten(t.messages, rows)), jids, ScopeOfSnapshot(d))
  {
    hide RowsWritten, ScopeOf, Staged, UpsertAll, Keys, Prepare, NormalizeRows, Canonical;
    var messages := RowsWritten(t.messages, rows);
    RowsNamed(t, d.batch, r.ready, rows);
    StagedTouches(t, jids, d.batch, r.ready, true, messages);
    var s, u, scope := Staged(t, jids, r.ready, true, messages), StagedSnapshot(t, jids, r, true, messages), ScopeOfSnapshot(d);
    StagedGroups(t, jids, r.ready, true, messages);
    GroupsNamed(d);
    forall g | GroupDeleted(u.groups, g) && !GroupDeleted(t.groups, g) ensures g in scope.groups {
      ChangedKeyNamed(t.groups, d.groups, r.groups, true, g);
    }
    forall k | LiveParticipant(u, k) && !LiveParticipant(t, k) ensures k.group in scope.groups {
      ChangedKeyNamed(t.participants, d.participants, r.participants, true, k);
    }
    forall e | e in u.messages && u.messages[e].tomb.Live? && !Stayed(t, u, e)
      ensures u.messages[e].content.chat in scope.chats
      ensures u.messages[e].content.topic != [] ==> TopicOf(u.messages[e]) in scope.topics
    {
      assert Stayed(t, u, e) == Stayed(t, s, e);
    }
    SameParents(t, s, u, jids, ScopeOf(d.batch), scope);
  }

  /** An accepted snapshot keeps the tables tidy. */
  lemma SnapshotTidies(t: Tables, jids: Jids, d: Snapshot, r: ReadySnapshot, preserve: bool, rows: seq<MessageRow>,
                       scope: Option<Scope>)
    requires Tidy(t) && PrepareSnapshot(d) == Ok(r) && NamedRows(rows)
    ensures Tidy(Propagate(StagedSnapshot(t, jids, r, preserve, RowsWritten(t.messages, rows)), jids, scope))
    ensures AllWhole(StagedSnapshot(t, jids, r, preserve, RowsWritten(t.messages, rows)).chats)
  {
    hide RowsWritten, Propagate, AllWhole, AllNamed, Prepare, Staged, NamedRows, TidyReady, UpsertAll, NormalizeRows, WholeWrites;
    PreparedTidy(d.batch, r.ready, seq(|r.ready.messages|, i => []));
    NormalizedWhole(d.groups, d.batch.source, Ascii("explicit-group-delete"));
    NormalizedWhole(d.participants, d.batch.source, Ascii("explicit-group-participant-delete"));
    StagedTidy(t, jids, r.ready, preserve, rows, scope);
    UpsertedWhole(t.groups, r.groups, preserve);
    UpsertedWhole(t.participants, r.participants, preserve);
    StagedGroups(t, jids, r.ready, preserve, RowsWritten(t.messages, rows));
    PropagatedTidy(StagedSnapshot(t, jids, r, preserve, RowsWritten(t.messages, rows)), jids, scope);
  }

  /** A snapshot is malformed exactly for such a row, and otherwise made ready like its batch. */
  lemma PreparedSnapshotAs(d: Snapshot)
    ensures PrepareSnapshot(d).Err? <==> Refused(d.batch) || RowsRefused(d.groups) || RowsRefused(d.participants)
    ensures PrepareSnapshot(d).Ok? ==>
      var r := PrepareSnapshot(d).value;
      && ReadyAs(d.batch, r.ready) && RowsAs(d.groups, d.batch.source, "explicit-group-delete", r.groups)
      && RowsAs(d.participants, d.batch.source, "explicit-group-participant-delete", r.participants)
  {
    hide Prepare, NormalizeRows, ReadyAs, RowsAs, Refused, RowsRefused, Ascii;
    PreparedAs(d.batch);
    RowsAre(d.groups, d.batch.source, "explicit-group-delete");
    RowsAre(d.participants, d.batch.source, "explicit-group-participant-delete");
  }

  lemma StagedWritesSnapshot(t: Tables, jids: Jids, d: Snapshot, r: ReadySnapshot, preserve: bool, messages: map<Id, Message>)
    requires PrepareSnapshot(d) == Ok(r)
    ensures SnapshotWrites(t, d, jids, preserve, r, StagedSnapshot(t, jids, r, preserve, messages))
  {
    hide PrepareSnapshot, ReadyAs, RowsAs, Wrote, UpsertAll;
    PreparedSnapshotAs(d);
    StagedWrites(t, jids, r.ready, preserve, messages);
    UpsertedWrites(t.groups, r.groups, preserve);
    UpsertedWrites(t.participants, r.participants, preserve);
  }

  lemma MergesBy(t: Tables, jids: Jids, d: Snapshot, r: ReadySnapshot, ids: seq<Id>, messages: map<Id, Message>,
                 scope: Option<Scope>, u: Tables, done: set<Text>)
    requires PrepareSnapshot(d) == Ok(r) && |ids| == |r.ready.messages|
    requires SnapshotRows(t.messages, Names(t.messages, ids, r.ready.messages), r.ready.messages, messages)
    requires var s := StagedSnapshot(t, jids, r, true, messages);
      u.(chats := s.chats) == Propagate(s, jids, scope) && AllCounted(s.chats, u.chats, u.messages, jids, done)
    ensures SnapshotMerges(t, d, ids, jids, scope, done, u)
  {
    hide PrepareSnapshot, Propagate, StagedSnapshot, AllCounted, SnapshotWrites, SnapshotRows, PassedOn, Names;
    var s := StagedSnapshot(t, jids, r, true, messages);
    StagedWritesSnapshot(t, jids, d, r, true, messages);
    StagedKeepsMessages(t, jids, r, true, messages);
    PassExactly(s, jids, scope);
    assert SnapshotMergesBy(t, d, ids, jids, scope, done, u, r, s);
  }

  lemma RestoresBy(jids: Jids, d: Snapshot, r: ReadySnapshot, ids: seq<Id>, u: Tables)
    requires PrepareSnapshot(d) == Ok(r) && |ids| == |r.ready.messages|
    requires u == Propagate(StagedSnapshot(NO_ROWS, jids, r, false, RowsWritten(map[], RowsOf(ids, r.ready.messages))), jids, None)
    ensures SnapshotRestores(d, ids, jids, u)
  {
    hide PrepareSnapshot, Propagate, StagedSnapshot, SnapshotWrites, RowsWritten, PassedOn, TableBecomes;
    var messages := RowsWritten(map[], RowsOf(ids, r.ready.messages));
    var s := StagedSnapshot(NO_ROWS, jids, r, false, messages);
    StagedWritesSnapshot(NO_ROWS, jids, d, r, false, messages);
    StagedKeepsMessages(NO_ROWS, jids, r, false, messages);
    WrittenBecomes(map[], RowsOf(ids, r.ready.messages));
    PassExactly(s, jids, None);
    assert SnapshotRestoresBy(d, ids, jids, u, r, s);
  }

  lemma StagedKeepsMessages(t: Tables, jids: Jids, r: ReadySnapshot, preserve: bool, messages: map<Id, Message>)
    ensures StagedSnapshot(t, jids, r, preserve, messages).messages == messages
  {
  }

  lemma StagedGroups(t: Tables, jids: Jids, r: Ready, preserve: bool, messages: map<Id, Message>)
    ensures var s := Staged(t, jids, r, preserve, messages);
      s.groups == t.groups && s.participants == t.participants && s.messages == messages
  {
  }

  lemma GroupsNamed(d: Snapshot)
    ensures Keys(d.groups) <= ScopeOfSnapshot(d).groups
    ensures forall k :: k in Keys(d.participants) ==> k.group in ScopeOfSnapshot(d).groups
  {
    hide ScopeOf;
  }

  /** Groups and participants are touched on their own. */
  lemma SameParents(t: Tables, s: Tables, u: Tables, jids: Jids, small: Scope, scope: Scope)
    requires Touched(t, s, jids, small) && u == s.(groups := u.groups, participants := u.participants)
    requires scope == small.(groups := scope.groups)
    requires forall g :: GroupDeleted(u.groups, g) && !GroupDeleted(t.groups, g) ==> g in scope.groups
    requires forall k :: LiveParticipant(u, k) && !LiveParticipant(t, k) ==> k.group in scope.groups
    ensures Touched(t, u, jids, scope)
  {
    hide ChatDeleted, FolderDeleted, TopicDeleted, GroupDeleted, LiveParticipant;
    forall k ensures LiveMembership(u, k) == LiveMembership(s, k) {
    }
    forall k ensures LiveTopic(u, k) == LiveTopic(s, k) {
    }
    forall e | e in u.messages ensures Stayed(t, u, e) == Stayed(t, s, e) {
    }
  }

  /** Writes the chosen rows, the parents and the revisions. */
  method WriteSnapshot(a: Archive, r: ReadySnapshot, preserve: bool, rows: seq<MessageRow>, revisions: seq<Revision>,
                       observedAt: Time)
    requires a.Usable() && forall i :: 0 <= i < |rows| ==> !IsBlank(rows[i].id)
    modifies a
    ensures a.Usable() && a.Db() == StagedSnapshot(old(a.Db()), a.jids, r, preserve, RowsWritten(old(a.messages), rows))
    ensures RevisionsWritten(a.messages, a.hash, old(a.revisions), a.revisions, revisions)
  {
    hide IndexAgrees, UpsertAll, RowsWritten, AllInserted, Injective, Hashed, HasRevision, Upsert, IsBlank, IdsMatch, Kept,
      AddsOnly, Historic, ChainsStay, RowsHashed, AllHashed, Baseline;
    ghost var before := a.revisions;
    a.chats := Archive.WriteRows(a.chats, ChatWrites(a.jids, r.ready.chats), preserve);
    a.folders := Archive.WriteRows(a.folders, r.ready.folders, preserve);
    a.memberships := Archive.WriteRows(a.memberships, r.ready.memberships, preserve);
    a.topics := Archive.WriteRows(a.topics, r.ready.topics, preserve);
    WriteRowsOnly(a, rows);
    a.groups := Archive.WriteRows(a.groups, r.groups, preserve);
    a.participants := Archive.WriteRows(a.participants, r.participants, preserve);
    InsertRevisions(a, revisions);
    ghost var inserted := a.revisions;
    InsertedKeeps(before, revisions);
    InsertedHashed(before, revisions, a.hash);
    SeedMissingMessageBaselines(a, observedAt);
    KeptTransitive(before, inserted, a.revisions);
    InsertedAll(inserted, a.revisions, revisions);
  }

  /** The revisions once a snapshot's are inserted and missing baselines seeded. */
  ghost predicate RevisionsWritten(messages: map<Id, Message>, hash: Hash, before: Revs, after: Revs, revisions: seq<Revision>) {
    && Kept(before, after) && Kept(AllInserted(before, revisions), after) && (forall s :: s in revisions ==> s.id in after)
    && ChainsStay(AllInserted(before, revisions), after) && AddsOnly(AllInserted(before, revisions), after, messages.Keys)
    && (Injective(hash) && AllHashed(before, hash) && RowsHashed(revisions, hash) ==> Historic(messages, after, hash))
  }

  lemma InsertedAll(inserted: Revs, after: Revs, revisions: seq<Revision>)
    requires Kept(inserted, after) && forall s :: s in revisions ==> s.id in inserted
    ensures forall s :: s in revisions ==> s.id in after
  {
  }

  lemma {:induction false} InsertedHashed(revs: Revs, rows: seq<Revision>, hash: Hash)
    requires AllHashed(revs, hash) ==> IdsMatch(revs)
    ensures AllHashed(revs, hash) && RowsHashed(rows, hash) ==> AllHashed(AllInserted(revs, rows), hash)
  {
    hide Hashed;
    if rows != [] && RowsHashed(rows, hash) {
      assert rows == rows[..|rows| - 1] + [rows[|rows| - 1]];
      InsertedHashed(revs, rows[..|rows| - 1], hash);
    }
  }

  /**
   The snapshot's revisions are stored, and any added besides are of messages in the table. When all are content hashes,
   every message has one, every deletion in scope is known, and each chain they make with the stored ones is there, with the
   deletion of its message at the end if need be.
   */
  ghost predicate HistoryComplete(messages: map<Id, Message>, hash: Hash, before: Revs, after: Revs, revisions: seq<Revision>,
                                  scope: Option<Scope>, observedAt: Time)
  {
    && Kept(before, after) && Kept(AllInserted(before, revisions), after) && IdsMatch(after)
    && AddsOnly(AllInserted(before, revisions), after, messages.Keys) && (forall s :: s in revisions ==> s.id in after)
    && (Injective(hash) && AllHashed(before, hash) && RowsHashed(revisions, hash) ==>
          && Historic(messages, after, hash) && DeletionsKnown(messages, after, scope)
          && ChainsRecorded(AllInserted(before, revisions), after, hash, messages, DeletedIn(messages, scope), observedAt))
  }

  lemma SeededRecorded(inserted: Revs, written: Revs, after: Revs, hash: Hash, messages: map<Id, Message>, S: set<Id>, observedAt: Time)
    requires Kept(inserted, written) && ChainsStay(inserted, written)
    requires ChainsRecorded(written, after, hash, messages, S, observedAt)
    ensures ChainsRecorded(inserted, after, hash, messages, S, observedAt)
  {
    hide Chain, DeletionRevision;
    forall m, c | Chain(inserted, m, c) && c != [] ensures RecordedTo(inserted, after, hash, messages, S, observedAt, m, c) {
      ChainEnd(inserted, m, c);
      assert RecordedTo(written, after, hash, messages, S, observedAt, m, c);
    }
  }

  lemma HistoryGrows(staged: map<Id, Message>, messages: map<Id, Message>, hash: Hash, before: Revs, written: Revs, after: Revs,
                     revisions: seq<Revision>, scope: Option<Scope>, observedAt: Time)
    requires messages.Keys == staged.Keys && Kept(written, after) && IdsMatch(after) && AddsOnly(written, after, messages.Keys)
    requires RevisionsWritten(staged, hash, before, written, revisions)
    requires Injective(hash) && AllHashed(written, hash) ==>
      AllHashed(after, hash) && DeletionsKnown(messages, after, scope)
      && ChainsRecorded(written, after, hash, messages, DeletedIn(messages, scope), observedAt)
    ensures HistoryComplete(messages, hash, before, after, revisions, scope, observedAt)
  {
    hide Injective, AllHashed, RowsHashed, DeletionsKnown, IdsMatch, Historic, ChainsRecorded, ChainsStay, Kept, AddsOnly,
      DeletedIn, AllInserted;
    KeptTransitive(before, written, after);
    KeptTransitive(AllInserted(before, revisions), written, after);
    AddsOnlyBoth(AllInserted(before, revisions), written, after, staged.Keys, messages.Keys, messages.Keys);
    InsertedAll(written, after, revisions);
    if Injective(hash) && AllHashed(before, hash) && RowsHashed(revisions, hash) {
      HistoricHashed(staged, written, hash);
      HistoricStays(staged, messages, written, after, hash);
      SeededRecorded(AllInserted(before, revisions), written, after, hash, messages, DeletedIn(messages, scope), observedAt);
    }
  }

  /** The passes after the rows: propagation, its records, and the index. */
  method SettleSnapshot(a: Archive, scope: Option<Scope>, observedAt: Time)
    requires a.Usable()
    modifies a`memberships, a`topics, a`messages, a`participants, a`revisions, a`chains, a`index
    ensures a.Usable() && Kept(old(a.revisions), a.revisions) && AddsOnly(old(a.revisions), a.revisions, a.messages.Keys)
    ensures a.Db() == Propagate(old(a.Db()), a.jids, scope)
    ensures Injective(a.hash) && old(AllHashed(a.revisions, a.hash)) ==>
      AllHashed(a.revisions, a.hash) && DeletionsKnown(a.messages, a.revisions, scope)
      && ChainsRecorded(old(a.revisions), a.revisions, a.hash, a.messages, DeletedIn(a.messages, scope), observedAt)
  {
    hide Propagate, Reached, Injective, AllHashed, DeletionsKnown, IndexAgrees, IdsMatch, ChainsRecorded, DeletedIn, Sound, Grown,
      RecordedFor, IsBlank, Kept, AddsOnly;
    ghost var before, index := a.messages, a.index;
    a.SettleDeletions(scope, observedAt);
    a.PruneDeletedMessageFTS(scope);
    PruneAgrees(before, a.messages, index, a.index, scope);
  }

  /**
   Merges a snapshot. Stored revisions are kept and the snapshot's are added; the index agrees with the rows; and from a
   settled archive and canonical chats the scoped pass did what an unscoped one does.
   */
  method MergeSnapshot(a: Archive, d: Snapshot, observedAt: Time)
    returns (r: Result<(), SnapshotError>, ghost rows: seq<MessageRow>, ghost revisions: seq<Revision>)
    requires a.Usable() && E.CollisionFree(a.hashes)
    modifies a
    ensures r.Ok? <==> Importable(a.hashes, d) && Insertable(revisions, d.texts)
    ensures r.Err? ==> a.Db() == old(a.Db()) && a.revisions == old(a.revisions) && a.index == old(a.index)
    ensures Importable(a.hashes, d) ==>
      Chosen(old(a.messages), old(a.revisions), a.hash, SnapshotIds(a.hashes, d.batch.messages),
             PrepareSnapshot(d).value.ready.messages, d.revisions, rows, revisions)
    ensures r.Ok? ==>
      && a.Usable() && (old(Tidy(a.Db())) ==> Tidy(a.Db()))
      && HistoryComplete(a.messages, a.hash, old(a.revisions), a.revisions, revisions, Some(ScopeOfSnapshot(d)), observedAt)
    ensures r.Ok? ==>
      SnapshotMerges(old(a.Db()), d, SnapshotIds(a.hashes, d.batch.messages), a.jids, Some(ScopeOfSnapshot(d)),
                     AffectedChats(d.batch), a.Db())
    ensures r.Ok? ==>
      var scope := ScopeOfSnapshot(d);
      var staged := StagedSnapshot(old(a.Db()), a.jids, PrepareSnapshot(d).value, true, RowsWritten(old(a.messages), rows));
      && a.Db().(chats := staged.chats) == Propagate(staged, a.jids, Some(scope))
      && AllCounted(staged.chats, a.chats, a.messages, a.jids, AffectedChats(d.batch))
      && (old(Settled(a.Db(), a.jids)) && (forall c :: c in d.batch.chats ==> Canonical(a.jids, c.key)) ==>
            Settled(a.Db(), a.jids) && a.Db().(chats := staged.chats) == Propagate(staged, a.jids, None))
  {
    hide Propagate, IndexAgrees, StagedSnapshot, RowsWritten, Chosen, PrepareSnapshot, SnapshotIds, ScopeOfSnapshot, Settled,
      AllCounted, AffectedChats, E.CollisionFree, Acceptable, Insertable, Canonical, Kept, AddsOnly, AllHashed, IdsMatch,
      RowsHashed, Injective, HasRevision, DeletionsKnown, HistoryComplete, AllWhole, AllNamed, NamedRows, TidyReady,
      Prepare, SnapshotRows, SnapshotMerges;
    rows, revisions := [], [];
    var prepared := PrepareSnapshot(d);
    if prepared.Err? {
      r := Err(Malformed(prepared.error));
      return;
    }
    var ready := prepared.value;
    var ids := NormalizeLegacyEventIDs(a.hashes, d.batch.messages);
    SnapshotIdsNotBlank(a.hashes, d.batch.messages);
    PreparedSize(d.batch, ready.ready);
    if !Acceptable(ids, ready.ready.messages, d.revisions) {
      r := Err(Invalid);
      return;
    }
    var chosen, named := ChooseRows(a, ids, ready.ready.messages, d.revisions);
    rows, revisions := chosen, named;
    if !Insertable(named, d.texts) {
      r := Err(BadRevision);
      return;
    }
    ApplySnapshot(a, d, ready, ids, chosen, named, observedAt);
    r := Ok(());
  }

  /** The merge once its rows are chosen. */
  method ApplySnapshot(a: Archive, d: Snapshot, ready: ReadySnapshot, ghost ids: seq<Id>, rows: seq<MessageRow>,
                       revisions: seq<Revision>, observedAt: Time)
    requires a.Usable() && (forall i :: 0 <= i < |ids| ==> !IsBlank(ids[i]))
    requires PrepareSnapshot(d) == Ok(ready) && |ids| == |ready.ready.messages|
    requires Chosen(a.messages, a.revisions, a.hash, ids, ready.ready.messages, d.revisions, rows, revisions)
    modifies a
    ensures a.Usable() && (old(Tidy(a.Db())) ==> Tidy(a.Db()))
    ensures HistoryComplete(a.messages, a.hash, old(a.revisions), a.revisions, revisions, Some(ScopeOfSnapshot(d)), observedAt)
    ensures SnapshotMerges(old(a.Db()), d, ids, a.jids, Some(ScopeOfSnapshot(d)), AffectedChats(d.batch), a.Db())
    ensures
      var scope := ScopeOfSnapshot(d);
      var staged := StagedSnapshot(old(a.Db()), a.jids, ready, true, RowsWritten(old(a.messages), rows));
      && a.Db().(chats := staged.chats) == Propagate(staged, a.jids, Some(scope))
      && AllCounted(staged.chats, a.chats, a.messages, a.jids, AffectedChats(d.batch))
      && (old(Settled(a.Db(), a.jids)) && (forall c :: c in d.batch.chats ==> Canonical(a.jids, c.key)) ==>
            Settled(a.Db(), a.jids) && a.Db().(chats := staged.chats) == Propagate(staged, a.jids, None))
  {
    hide Propagate, IndexAgrees, StagedSnapshot, RowsWritten, Chosen, PrepareSnapshot, ScopeOfSnapshot, Settled, AllCounted,
      AffectedChats, Canonical, Kept, AddsOnly, AllHashed, IdsMatch, RowsHashed, Injective, HasRevision, DeletionsKnown,
      HistoryComplete, AllWhole, AllNamed, NamedRows, TidyReady,
      Prepare, SnapshotRows, SnapshotMerges;
    ghost var t, before := a.Db(), a.revisions;
    ChosenFrom(t.messages, before, a.hash, ids, ready.ready.messages, d.revisions, rows, revisions);
    ChosenNotBlank(t.messages, before, a.hash, ids, ready.ready.messages, d.revisions, rows, revisions);
    WriteSnapshot(a, ready, true, rows, revisions, observedAt);
    ghost var staged, written := a.Db(), a.revisions;
    var scope := ScopeOfSnapshot(d);
    PropagateKeys(staged, a.jids, Some(scope));
    SettleSnapshot(a, Some(scope), observedAt);
    HistoryGrows(staged.messages, a.messages, a.hash, before, written, a.revisions, revisions, Some(scope), observedAt);
    a.chats := RecomputeChatAggregates(a.chats, a.messages, a.jids, AffectedChats(d.batch));
    SnapshotSettles(t, a.jids, d, ready, rows, a.chats, a.messages);
    ChosenRows(t.messages, before, a.hash, ids, ready.ready.messages, d.revisions, rows, revisions);
    MergesBy(t, a.jids, d, ready, ids, RowsWritten(t.messages, rows), Some(scope), a.Db(), AffectedChats(d.batch));
    StagedKeepsMessages(t, a.jids, ready, true, RowsWritten(t.messages, rows));
    if Tidy(t) {
      PreparedTidy(d.batch, ready.ready, ids);
      ChosenNamed(t.messages, before, a.hash, ids, ready.ready.messages, d.revisions, rows, revisions);
      SnapshotTidies(t, a.jids, d, ready, true, rows, Some(scope));
      CountedWhole(staged.chats, a.chats, a.messages, a.jids, AffectedChats(d.batch));
    }
  }

  lemma SnapshotSettles(t: Tables, jids: Jids, d: Snapshot, ready: ReadySnapshot, rows: seq<MessageRow>,
                        out: map<int, Row<Chat>>, messages: map<Id, Message>)
    requires PrepareSnapshot(d) == Ok(ready) && FromBatch(rows, ready.ready.messages)
    requires var staged := StagedSnapshot(t, jids, ready, true, RowsWritten(t.messages, rows));
      AllCounted(staged.chats, out, messages, jids, AffectedChats(d.batch))
    ensures var staged := StagedSnapshot(t, jids, ready, true, RowsWritten(t.messages, rows));
      var after := Propagate(staged, jids, Some(ScopeOfSnapshot(d)));
      Settled(t, jids) && (forall c :: c in d.batch.chats ==> Canonical(jids, c.key)) ==>
        Settled(after.(chats := out), jids) && after == Propagate(staged, jids, None)
  {
    hide Propagate, StagedSnapshot, RowsWritten, PrepareSnapshot, ScopeOfSnapshot, Settled, AllCounted, AffectedChats, Canonical;
    var staged := StagedSnapshot(t, jids, ready, true, RowsWritten(t.messages, rows));
    var scope := ScopeOfSnapshot(d);
    if Settled(t, jids) && forall c :: c in d.batch.chats ==> Canonical(jids, c.key) {
      SnapshotTouches(t, jids, d, ready, rows);
      BatchScopeSuffices(t, staged, jids, scope);
      PropagateKeys(staged, jids, Some(scope));
      RecountSettled(Propagate(staged, jids, Some(scope)), jids, out, messages, AffectedChats(d.batch));
    }
  }

  /** Restores a snapshot over an emptied archive; the index is built anew and nothing live is left under a deleted parent. */
  method RestoreSnapshot(a: Archive, d: Snapshot, observedAt: Time) returns (r: Result<(), SnapshotError>)
    requires E.CollisionFree(a.hashes)
    modifies a
    ensures r.Ok? <==> Importable(a.hashes, d) && Insertable(d.revisions, d.texts)
    ensures r.Err? ==> a.Db() == old(a.Db()) && a.revisions == old(a.revisions) && a.index == old(a.index)
    ensures r.Ok? ==> PrepareSnapshot(d).Ok? && Settled(a.Db(), a.jids) && a.Usable() && Tidy(a.Db())
    ensures r.Ok? ==> HistoryComplete(a.messages, a.hash, map[], a.revisions, d.revisions, None, observedAt)
    ensures r.Ok? ==> SnapshotRestores(d, SnapshotIds(a.hashes, d.batch.messages), a.jids, a.Db())
    ensures r.Ok? ==>
      var ready, ids := PrepareSnapshot(d).value, SnapshotIds(a.hashes, d.batch.messages);
      var rows := RowsOf(ids, ready.ready.messages);
      a.Db() == Propagate(StagedSnapshot(NO_ROWS, a.jids, ready, false, RowsWritten(map[], rows)), a.jids, None)
  {
    hide Propagate, IndexAgrees, StagedSnapshot, RowsWritten, PrepareSnapshot, SnapshotIds, Settled, E.CollisionFree,
      Acceptable, Insertable, Kept, AddsOnly, RowsHashed, Injective, HasRevision, DeletionsKnown, Hashed, HistoryComplete,
      AllWhole, AllNamed, NamedRows, TidyReady, Prepare, SnapshotRestores;
    var prepared := PrepareSnapshot(d);
    if prepared.Err? {
      return Err(Malformed(prepared.error));
    }
    var ready := prepared.value;
    var ids := NormalizeLegacyEventIDs(a.hashes, d.batch.messages);
    PreparedSize(d.batch, ready.ready);
    if !Acceptable(ids, ready.ready.messages, d.revisions) {
      return Err(Invalid);
    }
    if !Insertable(d.revisions, d.texts) {
      return Err(BadRevision);
    }
    a.Clear();
    EmptyUsable(a.hash);
    SnapshotIdsNotBlank(a.hashes, d.batch.messages);
    WriteSnapshot(a, ready, false, RowsOf(ids, ready.ready.messages), d.revisions, observedAt);
    ghost var staged, written := a.Db(), a.revisions;
    PropagateKeys(staged, a.jids, None);
    SettleSnapshot(a, None, observedAt);
    HistoryGrows(staged.messages, a.messages, a.hash, map[], written, a.revisions, d.revisions, None, observedAt);
    PropagateSettles(staged, a.jids);
    NothingTidy();
    PreparedTidy(d.batch, ready.ready, ids);
    SnapshotTidies(NO_ROWS, a.jids, d, ready, false, RowsOf(ids, ready.ready.messages), None);
    RestoresBy(a.jids, d, ready, ids, a.Db());
    a.RebuildMessageFTS();
    return Ok(());
  }
}
