/** What merging a snapshot makes of one stored message, by the histories of both sides. */
module SnapshotHistory {
  import opened ArchiveStore
  import opened ArchiveTables
  import opened Bytes
  import opened HistoryRecords
  import opened ImportBatch
  import opened MergeDecision
  import opened MergeFacts
  import opened MessageJournal
  import opened Ranking
  import opened RevisionChain
  import opened RevisionGraph
  import opened Revisions
  import opened RowChanges
  import opened SnapshotImport
  import opened SnapshotMerge
  import opened SnapshotSelection
  import opened TextOrder
  import opened TombstonePropagation
  import opened Wrappers
  import A = SnapshotAliases
  import E = EventIds
  import R = RevisionRemap

  /** Exactly one message of the snapshot is taken for row `e`: the one at `k`. */
  ghost predicate NamedOnce(messages: map<Id, Message>, ids: seq<Id>, ms: seq<Message>, e: Id, k: nat)
    requires |ids| == |ms|
  {
    var identities := Identities(ids, ms);
    var names := A.AliasedIds(TableOf(messages), identities, identities);
    k < |ms| && names[k] == e && forall i :: 0 <= i < |ms| && i != k ==> names[i] != e
  }

  /** The row a merge writes for it is what the revisions of both sides decide. */
  lemma ChosenRow(messages: map<Id, Message>, revs: Revs, hash: Hash, ids: seq<Id>, ms: seq<Message>, snapshot: seq<Revision>,
                  rows: seq<MessageRow>, revisions: seq<Revision>, e: Id, k: nat)
    returns (stored: seq<Revision>)
    requires |ids| == |ms| && Chosen(messages, revs, hash, ids, ms, snapshot, rows, revisions)
    requires e in messages && NamedOnce(messages, ids, ms, e, k)
    ensures forall r :: r in stored ==> r.id in revs && revs[r.id] == r
    ensures forall x :: x in revs && revs[x].message == e ==> revs[x] in stored
    ensures var u := RowsWritten(messages, rows);
      e in u && u[e] == AfterMerge(stored, revisions, e, messages[e], ms[k])
  {
    hide A.AliasedIds, A.AliasMap, Mergeable, R.Remapped, RowsWritten, Selected, RowFor, PreserveDestinationMedia;
    var identities := Identities(ids, ms);
    var aliased := RowsOf(A.AliasedIds(TableOf(messages), identities, identities), ms);
    var existing := map x | x in messages && x in NamedIds(aliased) :: messages[x];
    stored :| Covers(stored, revs, NamedIds(aliased)) && rows == Mergeable(existing, stored, revisions, aliased);
    var before, after := aliased[..k], aliased[k + 1..];
    assert aliased == before + [aliased[k]] + after;
    assert aliased[k] in aliased;
    MergedRow(messages, existing, stored, revisions, before, aliased[k], after);
  }

  ghost predicate ParentsLive(t: Tables, j: Jids, e: Id) {
    e in t.messages ==> !ChatDeleted(t.chats, j, t.messages[e].content.chat) && !TopicDeleted(t.topics, TopicOf(t.messages[e]))
  }

  /** A message whose chat and topic are live is spared by propagation. */
  lemma LiveParentsSpare(t: Tables, j: Jids, scope: Option<Scope>, e: Id)
    requires e in t.messages && ParentsLive(t, j, e)
    ensures e in Propagate(t, j, scope).messages && Propagate(t, j, scope).messages[e] == t.messages[e]
  {
    hide FolderStep, MembershipStep, ParticipantStep, Propagate;
    PropagateParts(t, j, scope);
  }

  /** A stored row with a chain whose last revision speaks for it, in a history of content hashes. */
  ghost predicate Held(messages: map<Id, Message>, revs: Revs, hash: Hash, e: Id, c: seq<Id>) {
    Injective(hash) && AllHashed(revs, hash) && e in messages && Chain(revs, e, c) && Answers(revs, c, messages[e])
  }

  lemma SoundParts(j: Journal, hash: Hash, e: Id)
    requires Sound(j, hash) && e in j.messages
    ensures Injective(hash) && AllHashed(j.revs, hash) && OwnReasons(j.revs) && e in j.chains && TipRecords(j, e)
    ensures Chain(j.revs, e, j.chains[e])
  {
    hide Chain, Hashed, Injective, TipRecords, OwnReasons, AllHashed;
  }

  lemma RecordsAnswers(revs: Revs, c: seq<Id>, row: Message)
    requires c != [] && c[|c| - 1] in revs && Records(revs[c[|c| - 1]], row) && OwnReasons(revs)
    ensures Answers(revs, c, row)
    ensures row.tomb.Live? ==> HasPayload(revs, c[|c| - 1], Some(PayloadOf(row)))
  {
    hide IsParentReason, OwnReasons;
    var payload := Some(PayloadOf(row));
    if !HasPayload(revs, c[|c| - 1], payload) {
      forall i | 0 <= i < |c| ensures !HasPayload(revs, c[i], payload) {
        NeverObserved(revs, row, c[i]);
      }
    }
  }

  /** So are all rows of a sound archive. */
  lemma SoundHolds(j: Journal, hash: Hash, e: Id)
    requires Sound(j, hash) && e in j.messages
    ensures e in j.chains && Held(j.messages, j.revs, hash, e, j.chains[e])
  {
    hide Chain, Injective, OwnReasons, AllHashed, Records, LiveBefore, Sound, Answers;
    SoundParts(j, hash, e);
    RecordsAnswers(j.revs, j.chains[e], j.messages[e]);
  }

  predicate ProperPrefix(a: seq<Id>, b: seq<Id>) {
    a <= b && a != b
  }

  /** What a merge makes of a stored row when the snapshot has it with the history `given`. */
  ghost predicate FollowsHistory(mine: Side, own: Side, given: seq<Id>, merged: Message) {
    && Ended(mine) && Ended(own) && given != []
    && (if Supersedes(mine, own, given) then Installed(mine.row, own.row, merged) else merged == mine.row)
    && (ProperPrefix(mine.chain, given) ==> Installed(mine.row, own.row, merged))
    && (ProperPrefix(given, mine.chain) ==> PayloadOf(merged) == PayloadOf(mine.row))
    && (given == mine.chain ==> (PayloadOf(merged) == PayloadOf(mine.row) <==> !Overtakes(mine, own)))
  }

  lemma MergedBySelection(mine: Side, given: Side, e: Id)
    ensures var merged := AfterMerge(mine.rows, given.rows, e, mine.row, given.row);
      if Selected(mine.rows, given.rows, e, mine.row, given.row) then Installed(mine.row, given.row, merged) else merged == mine.row
  {
    hide Selected, Installed, RowFor, PreserveDestinationMedia;
    SelectedInstalls(mine.row, given.row);
  }

  lemma AfterMergeFollows(mine: Side, given: Side, hash: Hash, e: Id)
    requires Injective(hash) && Told(mine, e) && Offered(given, e) && RowsHashed(mine.rows, hash) && RowsHashed(given.rows, hash)
    ensures FollowsHistory(mine, given, given.chain, AfterMerge(mine.rows, given.rows, e, mine.row, given.row))
  {
    hide Told, Offered, RowsHashed, AfterMerge, PayloadOf, Installed, Injective, Selected, Overtakes, Supersedes;
    OfferedEnds(mine, given, e);
    MergeDecides(mine, given, hash, e);
    MergedBySelection(mine, given, e);
    if ProperPrefix(mine.chain, given.chain) {
      FastForward(mine, given, hash, e);
    } else if ProperPrefix(given.chain, mine.chain) {
      NeverRegresses(mine, given, hash, e);
    } else if mine.chain == given.chain {
      SameHistoryExactly(mine, given, hash, e);
    }
  }

  // The snapshot's history under the ids the merge gives it.

  function NewChain(h: R.History, aliases: map<Id, Id>, hash: Hash, c: seq<Id>): (out: seq<Id>)
    ensures |out| == |c| && forall i :: 0 <= i < |c| ==> out[i] == R.NewId(h, aliases, hash, c[i])
  {
    seq(|c|, i requires 0 <= i < |c| => R.NewId(h, aliases, hash, c[i]))
  }

  /**
   A message of the snapshot, as the snapshot has it: content hashes without cycles, and a chain whose last revision speaks
   for its row.
   */
  ghost predicate Exported(own: Side, hash: Hash, m: Id) {
    Injective(hash) && RowsHashed(own.rows, hash) && Acyclic(R.LinksOf(HistoryOf(own.rows))) && Offered(own, m)
  }

  lemma {:induction false} HistoryLookup(rows: seq<Revision>, x: Id)
    ensures x in HistoryOf(rows) <==> exists r :: r in rows && r.id == x
    ensures x in HistoryOf(rows) ==> HistoryOf(rows)[x] in rows && HistoryOf(rows)[x].id == x
  {
    if rows != [] {
      var init, last := rows[..|rows| - 1], rows[|rows| - 1];
      assert rows == init + [last];
      HistoryLookup(init, x);
    }
  }

  /** A renamed revision: its id is its content hash again, and its link is the renamed link. */
  lemma RenamedRevision(rows: seq<Revision>, aliases: map<Id, Id>, hash: Hash, r: Revision)
    requires Injective(hash) && RowsHashed(rows, hash) && Acyclic(R.LinksOf(HistoryOf(rows))) && r in rows
    ensures var h := HistoryOf(rows);
      var s := R.Remapped(h, aliases, hash, r);
      && Hashed(hash, s) && s.id == R.NewId(h, aliases, hash, r.id) && s.message == R.Alias(aliases, r.message)
      && (r.message in aliases ==> s.predecessor == R.NewId(h, aliases, hash, r.predecessor))
      && (r.message !in aliases ==> s == r)
      && s.payload == r.payload && s.eventType == r.eventType && s.eventAt == r.eventAt && s.observedAt == r.observedAt
  {
    hide R.NewId, Acyclic, RowsHashed;
    var h := HistoryOf(rows);
    HistoryLookup(rows, r.id);
    assert Hashed(hash, r) && Hashed(hash, h[r.id]) by {
      HashedRows(rows, hash);
    }
    SameIdSameLink(hash, r, h[r.id]);
    if r.message in aliases {
      R.NewIdStep(h, aliases, hash, r.id);
    } else {
      R.NothingToRemap(h, aliases, hash, r.id);
    }
  }

  lemma HashedRows(rows: seq<Revision>, hash: Hash)
    requires RowsHashed(rows, hash)
    ensures forall r :: r in rows ==> Hashed(hash, r)
  {
  }

  /** What the chain of the renamed message is made of. */
  ghost predicate RenamedAt(own: Side, aliases: map<Id, Id>, hash: Hash, m: Id, i: nat)
    requires i < |own.chain|
  {
    var h := HistoryOf(own.rows);
    var c := NewChain(h, aliases, hash, own.chain);
    && own.chain[i] in own.revs
    && var r := own.revs[own.chain[i]];
      var s := R.Remapped(h, aliases, hash, r);
      && r in own.rows && r.message == m && r.id == own.chain[i] && s.id == c[i] && c[i] != NONE && Hashed(hash, s)
      && s.message == R.Alias(aliases, m) && s.predecessor == (if i == 0 then NONE else c[i - 1])
      && s.payload == r.payload && s.eventType == r.eventType && s.eventAt == r.eventAt && s.observedAt == r.observedAt
  }

  lemma RenamedChain(own: Side, aliases: map<Id, Id>, hash: Hash, m: Id, i: nat)
    requires Exported(own, hash, m) && i < |own.chain|
    ensures RenamedAt(own, aliases, hash, m, i)
  {
    hide R.NewId, R.Remapped, Acyclic, RowsHashed, Answers, HasPayload, HistoryOf;
    var h := HistoryOf(own.rows);
    assert Linked(own.revs, m, own.chain, i);
    var r := own.revs[own.chain[i]];
    RenamedRevision(own.rows, aliases, hash, r);
    R.NothingToRemap(h, aliases, hash, NONE);
    if i > 0 {
      assert Linked(own.revs, m, own.chain, i - 1);
      var p := own.revs[own.chain[i - 1]];
      RenamedRevision(own.rows, aliases, hash, p);
      if m !in aliases {
        assert R.Remapped(h, aliases, hash, p) == p;
      }
    }
  }

  /** Renamed revisions of a chain stay distinct: each hashes the one before it. */
  lemma {:induction false} RenamedDistinct(own: Side, aliases: map<Id, Id>, hash: Hash, m: Id, i: nat, k: nat)
    requires Exported(own, hash, m) && i < k < |own.chain|
    ensures NewChain(HistoryOf(own.rows), aliases, hash, own.chain)[i] != NewChain(HistoryOf(own.rows), aliases, hash, own.chain)[k]
  {
    hide R.NewId, R.Remapped, Exported, HistoryOf;
    var h := HistoryOf(own.rows);
    var c := NewChain(h, aliases, hash, own.chain);
    RenamedChain(own, aliases, hash, m, i);
    RenamedChain(own, aliases, hash, m, k);
    if c[i] == c[k] {
      ExportedInjective(own, hash, m);
      SameIdSameLink(hash, R.Remapped(h, aliases, hash, own.revs[own.chain[i]]), R.Remapped(h, aliases, hash, own.revs[own.chain[k]]));
      RenamedChain(own, aliases, hash, m, k - 1);
      if i > 0 {
        RenamedDistinct(own, aliases, hash, m, i - 1, k - 1);
      }
    }
  }

  lemma ExportedInjective(own: Side, hash: Hash, m: Id)
    requires Exported(own, hash, m)
    ensures Injective(hash)
  {
  }

  ghost function RenamedRevisions(own: Side, aliases: map<Id, Id>, hash: Hash): (rs: seq<Revision>)
    requires forall i :: 0 <= i < |own.chain| ==> own.chain[i] in own.revs
    ensures |rs| == |own.chain|
  {
    seq(|own.chain|, i requires 0 <= i < |own.chain| =>
      R.Remapped(HistoryOf(own.rows), aliases, hash, own.revs[own.chain[i]]))
  }

  /** The snapshot's message as the merge compares it. */
  ghost function Renamed(own: Side, aliases: map<Id, Id>, hash: Hash, revisions: seq<Revision>): Side
    requires forall i :: 0 <= i < |own.chain| ==> own.chain[i] in own.revs
  {
    Side(revisions, HistoryOf(RenamedRevisions(own, aliases, hash)), NewChain(HistoryOf(own.rows), aliases, hash, own.chain), own.row)
  }

  lemma ChainStored(own: Side, hash: Hash, m: Id)
    requires Exported(own, hash, m)
    ensures own.chain != [] && forall i :: 0 <= i < |own.chain| ==> own.chain[i] in own.revs
  {
    hide Acyclic, RowsHashed, Answers, HasPayload;
    forall i | 0 <= i < |own.chain| ensures own.chain[i] in own.revs {
      assert Linked(own.revs, m, own.chain, i);
    }
  }

  /** The renamed table holds exactly the renamed chain. */
  lemma RenamedTable(own: Side, aliases: map<Id, Id>, hash: Hash, m: Id)
    requires Exported(own, hash, m)
    ensures own.chain != [] && forall i :: 0 <= i < |own.chain| ==> own.chain[i] in own.revs
    ensures var rs, c := RenamedRevisions(own, aliases, hash), NewChain(HistoryOf(own.rows), aliases, hash, own.chain);
      && Distinct(c) && (forall i :: 0 <= i < |c| ==> c[i] in HistoryOf(rs) && HistoryOf(rs)[c[i]] == rs[i])
      && (forall x :: x in HistoryOf(rs) ==> x in c)
  {
    hide R.NewId, R.Remapped, Exported, HistoryOf;
    ChainStored(own, hash, m);
    var rs, c := RenamedRevisions(own, aliases, hash), NewChain(HistoryOf(own.rows), aliases, hash, own.chain);
    forall i, k | 0 <= i < k < |c| ensures c[i] != c[k] {
      RenamedDistinct(own, aliases, hash, m, i, k);
    }
    forall i | 0 <= i < |c| ensures rs[i].id == c[i] {
      RenamedChain(own, aliases, hash, m, i);
    }
    forall i | 0 <= i < |c| ensures c[i] in HistoryOf(rs) && HistoryOf(rs)[c[i]] == rs[i] {
      assert rs[i] in rs;
      HistoryLookup(rs, c[i]);
    }
    forall x | x in HistoryOf(rs) ensures x in c {
      HistoryLookup(rs, x);
    }
  }

  lemma RenamedIsChain(own: Side, aliases: map<Id, Id>, hash: Hash, m: Id, revisions: seq<Revision>)
    requires Exported(own, hash, m)
    ensures own.chain != [] && forall i :: 0 <= i < |own.chain| ==> own.chain[i] in own.revs
    ensures var given := Renamed(own, aliases, hash, revisions);
      && Chain(given.revs, R.Alias(aliases, m), given.chain) && |given.chain| == |own.chain|
      && forall i :: 0 <= i < |own.chain| ==>
        given.chain[i] in given.revs && SameEvent(given.revs[given.chain[i]], own.revs[own.chain[i]])
  {
    hide R.NewId, R.Remapped, R.Alias, Exported, HistoryOf, NewChain, HashWith;
    RenamedTable(own, aliases, hash, m);
    var given := Renamed(own, aliases, hash, revisions);
    forall i | 0 <= i < |own.chain|
      ensures Linked(given.revs, R.Alias(aliases, m), given.chain, i)
      ensures SameEvent(given.revs[given.chain[i]], own.revs[own.chain[i]])
    {
      RenamedChain(own, aliases, hash, m, i);
    }
  }

  /** Renaming changes ids and links, and nothing else. */
  predicate SameEvent(r: Revision, s: Revision) {
    r.payload == s.payload && r.eventType == s.eventType && r.eventAt == s.eventAt && r.observedAt == s.observedAt
  }

  /** The renamed rows list the renamed chain when no other message is renamed to the same one. */
  lemma RenamedLists(own: Side, aliases: map<Id, Id>, hash: Hash, m: Id, revisions: seq<Revision>)
    requires Exported(own, hash, m) && |revisions| == |own.rows|
    requires forall i :: 0 <= i < |revisions| ==> revisions[i] == R.Remapped(HistoryOf(own.rows), aliases, hash, own.rows[i])
    requires forall r :: r in own.rows && R.Alias(aliases, r.message) == R.Alias(aliases, m) ==> r.message == m
    ensures RowsHashed(revisions, hash)
    ensures own.chain != [] && forall i :: 0 <= i < |own.chain| ==> own.chain[i] in own.revs
    ensures var given := Renamed(own, aliases, hash, revisions);
      && (forall r :: r in revisions && r.message == R.Alias(aliases, m) ==> r.id in given.revs && given.revs[r.id] == r)
      && (forall x :: x in given.revs ==> given.revs[x] in revisions)
  {
    hide R.NewId, R.Remapped, R.Alias, HistoryOf, NewChain, Acyclic, Answers, HasPayload, Injective, Hashed;
    RenamedTable(own, aliases, hash, m);
    var given := Renamed(own, aliases, hash, revisions);
    forall i | 0 <= i < |revisions|
      ensures Hashed(hash, revisions[i])
      ensures revisions[i].message == R.Alias(aliases, m) ==>
        revisions[i].id in given.revs && given.revs[revisions[i].id] == revisions[i]
    {
      RenamedRevision(own.rows, aliases, hash, own.rows[i]);
      if revisions[i].message == R.Alias(aliases, m) {
        var n :| 0 <= n < |own.chain| && own.chain[n] == own.rows[i].id;
        RenamedChain(own, aliases, hash, m, n);
      }
    }
    forall x | x in given.revs ensures given.revs[x] in revisions {
      var n :| 0 <= n < |given.chain| && given.chain[n] == x;
      RenamedChain(own, aliases, hash, m, n);
      var i :| 0 <= i < |own.rows| && own.rows[i] == own.revs[own.chain[n]];
      assert revisions[i] == given.revs[x];
    }
  }

  lemma ExportedOffered(own: Side, hash: Hash, m: Id)
    requires Exported(own, hash, m)
    ensures Offered(own, m) && Answers(own.revs, own.chain, own.row) && Injective(hash) && RowsHashed(own.rows, hash)
  {
    hide Acyclic, RowsHashed, Lists, Answers, HasPayload, Injective;
  }

  /** Renaming keeps what each revision of the chain records. */
  lemma RenamedAnswers(own: Side, given: Side)
    requires Answers(own.revs, own.chain, own.row) && given.row == own.row && |given.chain| == |own.chain|
    requires forall i :: 0 <= i < |own.chain| ==> own.chain[i] in own.revs
    requires forall i :: 0 <= i < |own.chain| ==>
      given.chain[i] in given.revs && SameEvent(given.revs[given.chain[i]], own.revs[own.chain[i]])
    ensures Answers(given.revs, given.chain, given.row)
    ensures var payload := Some(PayloadOf(own.row));
      HasPayload(given.revs, given.chain[|given.chain| - 1], payload) <==> HasPayload(own.revs, own.chain[|own.chain| - 1], payload)
  {
    var payload := Some(PayloadOf(own.row));
    forall i | 0 <= i < |own.chain|
      ensures HasPayload(given.revs, given.chain[i], payload) <==> HasPayload(own.revs, own.chain[i], payload)
    {
    }
  }

  /** The snapshot's side of a merge, from the snapshot's own history. */
  lemma RenamedOffered(own: Side, aliases: map<Id, Id>, hash: Hash, m: Id, revisions: seq<Revision>)
    requires Exported(own, hash, m) && |revisions| == |own.rows|
    requires forall i :: 0 <= i < |revisions| ==> revisions[i] == R.Remapped(HistoryOf(own.rows), aliases, hash, own.rows[i])
    requires forall r :: r in own.rows && R.Alias(aliases, r.message) == R.Alias(aliases, m) ==> r.message == m
    ensures RowsHashed(revisions, hash)
    ensures own.chain != [] && forall i :: 0 <= i < |own.chain| ==> own.chain[i] in own.revs
    ensures var given := Renamed(own, aliases, hash, revisions);
      && Offered(given, R.Alias(aliases, m)) && |given.chain| == |own.chain|
      && forall i :: 0 <= i < |own.chain| ==>
        given.chain[i] in given.revs && SameEvent(given.revs[given.chain[i]], own.revs[own.chain[i]])
  {
    hide R.NewId, R.Remapped, R.Alias, HistoryOf, NewChain, Chain, RowsHashed, Exported, Answers, HasPayload, SameEvent;
    RenamedLists(own, aliases, hash, m, revisions);
    RenamedIsChain(own, aliases, hash, m, revisions);
    ExportedOffered(own, hash, m);
    RenamedAnswers(own, Renamed(own, aliases, hash, revisions));
  }

  /** A message that is stored under its own id keeps its history's ids. */
  lemma NewChainKept(own: Side, aliases: map<Id, Id>, hash: Hash, m: Id)
    requires Exported(own, hash, m) && m !in aliases
    ensures NewChain(HistoryOf(own.rows), aliases, hash, own.chain) == own.chain
  {
    hide R.NewId, R.Remapped, Exported, HistoryOf;
    forall i | 0 <= i < |own.chain|
      ensures NewChain(HistoryOf(own.rows), aliases, hash, own.chain)[i] == own.chain[i]
    {
      RenamedChain(own, aliases, hash, m, i);
      UnaliasedStays(HistoryOf(own.rows), aliases, hash, own.revs[own.chain[i]]);
    }
  }

  lemma UnaliasedStays(h: R.History, aliases: map<Id, Id>, hash: Hash, r: Revision)
    requires r.message !in aliases
    ensures R.Remapped(h, aliases, hash, r) == r
  {
  }

  // What an archive exports.

  /** The rows are the revisions of a table, in any order. */
  ghost predicate AllRevisions(rows: seq<Revision>, revs: Revs) {
    (forall r :: r in rows ==> r.id in revs && revs[r.id] == r) && (forall x :: x in revs ==> revs[x] in rows)
  }

  /** Every message with a revision has a chain. */
  ghost predicate AllChained(revs: Revs) {
    forall x :: x in revs ==> exists c :: Chain(revs, revs[x].message, c)
  }

  lemma ExportLinks(revs: Revs, rows: seq<Revision>, m: Id, c: seq<Id>)
    requires AllRevisions(rows, revs) && Chain(revs, m, c)
    ensures Line(R.LinksOf(HistoryOf(rows)), c)
  {
    hide HistoryOf;
    var h := HistoryOf(rows);
    forall i | 0 <= i < |c| ensures LineAt(R.LinksOf(h), c, i) {
      assert Linked(revs, m, c, i);
      assert revs[c[i]] in rows;
      HistoryLookup(rows, c[i]);
    }
  }

  lemma ExportStep(revs: Revs, rows: seq<Revision>, e: Id, n: nat)
    requires AllRevisions(rows, revs) && AllChained(revs) && e != NONE && n > 0
    ensures Back(R.LinksOf(HistoryOf(rows)), e, n) != e
  {
    hide HistoryOf, Back, Line;
    var links := R.LinksOf(HistoryOf(rows));
    HistoryLookup(rows, e);
    if e in revs {
      var m := revs[e].message;
      var c :| Chain(revs, m, c);
      ExportLinks(revs, rows, m, c);
      var i :| 0 <= i < |c| && c[i] == e;
      LineBack(links, c, i, n);
    } else {
      assert Parent(links, e) == NONE;
      assert Back(links, e, 1) == NONE by {
        FirstStep(links, e);
      }
      BackEnds(links, e, 1, n);
    }
  }

  lemma FirstStep(links: Links, e: Id)
    ensures Back(links, e, 1) == Parent(links, e)
  {
    assert Back(links, e, 0) == e;
  }

  /**
   What an archive exports of a message has what the merge theorem asks of a snapshot, if its history is made of chains and
   the last revision of the message speaks for its row: as in a sound archive, but also after merges of snapshots.
   */
  lemma ChainedArchiveExports(messages: map<Id, Message>, revs: Revs, hash: Hash, rows: seq<Revision>, m: Id, c: seq<Id>)
    requires AllRevisions(rows, revs) && AllChained(revs) && Held(messages, revs, hash, m, c)
    requires messages[m].tomb.Live? ==> HasPayload(revs, c[|c| - 1], Some(PayloadOf(messages[m])))
    ensures Exported(Side(rows, revs, c, messages[m]), hash, m)
  {
    hide Hashed, Injective, HasPayload, Back, HistoryOf, Chain, AllChained;
    forall e: Id, n: nat | e != NONE && n > 0 ensures Back(R.LinksOf(HistoryOf(rows)), e, n) != e {
      ExportStep(revs, rows, e, n);
    }
  }

  lemma SoundArchiveExports(s: Journal, hash: Hash, rows: seq<Revision>, m: Id)
    requires Sound(s, hash) && AllRevisions(rows, s.revs) && m in s.messages
    ensures m in s.chains && Exported(Side(rows, s.revs, s.chains[m], s.messages[m]), hash, m)
    ensures forall r :: r in rows ==> r.message in s.messages
  {
    hide Hashed, Injective, OwnReasons, Chain, AllHashed, IsParentReason, LiveBefore;
    SoundHolds(s, hash, m);
    assert TipRecords(s, m);
    forall x | x in s.revs ensures exists c :: Chain(s.revs, s.revs[x].message, c) {
      assert Chain(s.revs, s.revs[x].message, s.chains[s.revs[x].message]);
    }
    ChainedArchiveExports(s.messages, s.revs, hash, rows, m, s.chains[m]);
  }

  // The alias pass and the names it gives.

  lemma {:induction false} AliasNamed(table: E.Table, all: seq<E.Message>, ms: seq<E.Message>, x: Id)
    requires x in A.AliasMap(table, all, ms)
    ensures exists i :: 0 <= i < |ms| && ms[i].eventId == x
  {
    hide A.Resolved;
    if ms != [] && x != ms[|ms| - 1].eventId {
      AliasNamed(table, all, ms[..|ms| - 1], x);
      var i :| 0 <= i < |ms| - 1 && ms[..|ms| - 1][i].eventId == x;
      assert ms[i].eventId == x;
    }
  }

  lemma {:induction false} AliasIsName(table: E.Table, all: seq<E.Message>, ms: seq<E.Message>, i: nat)
    requires i < |ms| && forall a, b :: 0 <= a < b < |ms| ==> ms[a].eventId != ms[b].eventId
    ensures R.Alias(A.AliasMap(table, all, ms), ms[i].eventId) == A.AliasedIds(table, all, ms)[i]
  {
    hide A.Resolved;
    var init, last := ms[..|ms| - 1], ms[|ms| - 1];
    if i < |ms| - 1 {
      AliasIsName(table, all, init, i);
    } else if last.eventId in A.AliasMap(table, all, init) {
      AliasNamed(table, all, init, last.eventId);
    }
  }

  /** The aliases a merge resolves for a snapshot's messages. */
  ghost function AliasesOf(messages: map<Id, Message>, ids: seq<Id>, ms: seq<Message>): map<Id, Id>
    requires |ids| == |ms|
  {
    A.AliasMap(TableOf(messages), Identities(ids, ms), Identities(ids, ms))
  }

  lemma AliasOfId(messages: map<Id, Message>, ids: seq<Id>, ms: seq<Message>, i: nat)
    requires |ids| == |ms| && i < |ids| && Distinct(ids)
    ensures R.Alias(AliasesOf(messages, ids, ms), ids[i]) ==
      A.AliasedIds(TableOf(messages), Identities(ids, ms), Identities(ids, ms))[i]
  {
    hide A.AliasMap, A.AliasedIds;
    AliasIsName(TableOf(messages), Identities(ids, ms), Identities(ids, ms), i);
  }

  /** Among the messages of the snapshot only the one at `k` is renamed to `e`. */
  lemma OnlyOneNamed(messages: map<Id, Message>, ids: seq<Id>, ms: seq<Message>, e: Id, k: nat, other: Id)
    requires |ids| == |ms| && Distinct(ids) && NamedOnce(messages, ids, ms, e, k)
    ensures R.Alias(AliasesOf(messages, ids, ms), ids[k]) == e
    ensures other in ids && R.Alias(AliasesOf(messages, ids, ms), other) == e ==> other == ids[k]
  {
    hide A.AliasMap, A.AliasedIds, AliasesOf;
    AliasOfId(messages, ids, ms, k);
    if other in ids {
      var i :| 0 <= i < |ids| && ids[i] == other;
      AliasOfId(messages, ids, ms, i);
    }
  }

  lemma ChosenRevisions(messages: map<Id, Message>, revs: Revs, hash: Hash, ids: seq<Id>, ms: seq<Message>, snapshot: seq<Revision>,
                        rows: seq<MessageRow>, revisions: seq<Revision>)
    requires |ids| == |ms| && Chosen(messages, revs, hash, ids, ms, snapshot, rows, revisions)
    requires Acyclic(R.LinksOf(HistoryOf(snapshot)))
    ensures |revisions| == |snapshot|
    ensures forall i :: 0 <= i < |snapshot| ==>
      revisions[i] == R.Remapped(HistoryOf(snapshot), AliasesOf(messages, ids, ms), hash, snapshot[i])
  {
    hide A.AliasMap, A.AliasedIds, R.Remapped, Acyclic, Covers, Mergeable, HistoryOf;
  }

  lemma ExportedAcyclic(own: Side, hash: Hash, m: Id)
    requires Exported(own, hash, m)
    ensures Acyclic(R.LinksOf(HistoryOf(own.rows)))
  {
    hide Acyclic, Offered, RowsHashed, Injective;
  }

  /** Message `k` of a snapshot, whose own side of it is `own`, is the only one taken for the stored row `e`. */
  ghost predicate TakenFor(messages: map<Id, Message>, hash: Hash, ids: seq<Id>, ms: seq<Message>, own: Side, e: Id, k: nat) {
    && |ids| == |ms| && Distinct(ids) && e in messages && k < |ms| && NamedOnce(messages, ids, ms, e, k)
    && Exported(own, hash, ids[k]) && own.row == ms[k]
    && forall r :: r in own.rows ==> r.message in ids
  }

  /** The snapshot's history of a message under the ids the merge gives it. */
  ghost function GivenChain(messages: map<Id, Message>, hash: Hash, ids: seq<Id>, ms: seq<Message>, own: Side): seq<Id>
    requires |ids| == |ms|
  {
    NewChain(HistoryOf(own.rows), AliasesOf(messages, ids, ms), hash, own.chain)
  }

  lemma TakenSide(messages: map<Id, Message>, hash: Hash, ids: seq<Id>, ms: seq<Message>, own: Side, e: Id, k: nat,
                  revisions: seq<Revision>)
    requires TakenFor(messages, hash, ids, ms, own, e, k) && |revisions| == |own.rows|
    requires forall i :: 0 <= i < |revisions| ==>
      revisions[i] == R.Remapped(HistoryOf(own.rows), AliasesOf(messages, ids, ms), hash, own.rows[i])
    ensures own.chain != [] && forall i :: 0 <= i < |own.chain| ==> own.chain[i] in own.revs
    ensures RowsHashed(revisions, hash)
    ensures var given := Renamed(own, AliasesOf(messages, ids, ms), hash, revisions);
      && Offered(given, e) && |given.chain| == |own.chain|
      && forall i :: 0 <= i < |own.chain| ==>
        given.chain[i] in given.revs && SameEvent(given.revs[given.chain[i]], own.revs[own.chain[i]])
  {
    hide NamedOnce, Exported, AliasesOf, HistoryOf, R.Alias, R.Remapped, RenamedRevisions, Offered, RowsHashed, NewChain, SameEvent;
    var aliases := AliasesOf(messages, ids, ms);
    OnlyOneNamed(messages, ids, ms, e, k, e);
    forall r | r in own.rows && R.Alias(aliases, r.message) == e ensures r.message == ids[k] {
      OnlyOneNamed(messages, ids, ms, e, k, r.message);
    }
    RenamedOffered(own, aliases, hash, ids[k], revisions);
  }

  /** Following the renamed history is following the snapshot's own. */
  lemma FollowsOwn(mine: Side, own: Side, given: Side, merged: Message)
    requires FollowsHistory(mine, given, given.chain, merged) && given.row == own.row && Ended(own)
    requires SameEvent(given.revs[given.chain[|given.chain| - 1]], own.revs[own.chain[|own.chain| - 1]])
    ensures FollowsHistory(mine, own, given.chain, merged)
  {
    hide PayloadOf, Installed, Precedes;
  }

  /** The destination's side of a merge. */
  ghost function Stands(messages: map<Id, Message>, revs: Revs, rows: seq<Revision>, e: Id, c: seq<Id>): Side
    requires e in messages
  {
    Side(rows, revs, c, messages[e])
  }

  lemma StandsTold(messages: map<Id, Message>, revs: Revs, hash: Hash, rows: seq<Revision>, e: Id, c: seq<Id>)
    requires Held(messages, revs, hash, e, c)
    requires forall r :: r in rows ==> r.id in revs && revs[r.id] == r
    requires forall x :: x in revs && revs[x].message == e ==> revs[x] in rows
    ensures Told(Stands(messages, revs, rows, e, c), e) && RowsHashed(rows, hash) && Injective(hash)
  {
    hide Chain, Hashed, Injective, HasPayload;
  }

  /** The row the merge writes follows both histories. */
  lemma ChosenFollows(ms: seq<Message>, messages: map<Id, Message>, revs: Revs, hash: Hash, ids: seq<Id>, rows: seq<MessageRow>,
                      revisions: seq<Revision>, e: Id, c: seq<Id>, k: nat, own: Side)
    requires Held(messages, revs, hash, e, c) && TakenFor(messages, hash, ids, ms, own, e, k)
    requires Chosen(messages, revs, hash, ids, ms, own.rows, rows, revisions)
    ensures var u := RowsWritten(messages, rows);
      e in u && FollowsHistory(Stands(messages, revs, [], e, c), own, GivenChain(messages, hash, ids, ms, own), u[e])
  {
    hide Chosen, NamedOnce, RowsWritten, AfterMerge, Held, Told, Offered, RowsHashed, Exported, AliasesOf,
      HistoryOf, NewChain, R.Remapped, RenamedRevisions, Overtakes, PayloadOf, Installed, SameEvent, Supersedes;
    var stored := ChosenRow(messages, revs, hash, ids, ms, own.rows, rows, revisions, e, k);
    ExportedAcyclic(own, hash, ids[k]);
    ChosenRevisions(messages, revs, hash, ids, ms, own.rows, rows, revisions);
    TakenSide(messages, hash, ids, ms, own, e, k, revisions);
    StandsTold(messages, revs, hash, stored, e, c);
    var mine, given := Stands(messages, revs, stored, e, c), Renamed(own, AliasesOf(messages, ids, ms), hash, revisions);
    AfterMergeFollows(mine, given, hash, e);
    FollowsOwn(mine, own, given, AfterMerge(stored, revisions, e, messages[e], ms[k]));
    SameStand(mine, Stands(messages, revs, [], e, c), own, given.chain, AfterMerge(stored, revisions, e, messages[e], ms[k]));
  }

  /** Which rows list the destination's revisions does not matter. */
  lemma SameStand(mine: Side, other: Side, own: Side, given: seq<Id>, merged: Message)
    requires FollowsHistory(mine, own, given, merged) && other == mine.(rows := other.rows)
    ensures FollowsHistory(other, own, given, merged)
  {
    hide PayloadOf, Installed, Precedes;
  }

  lemma SoundTipRecorded(j: Journal, hash: Hash, rows: seq<Revision>, e: Id)
    requires Sound(j, hash) && e in j.messages
    ensures e in j.chains
    ensures var s := Stands(j.messages, j.revs, rows, e, j.chains[e]); TipRecorded(s) && Ended(s)
  {
    hide Chain, Hashed, Injective, OwnReasons, AllHashed, Records, LiveBefore;
    assert TipRecords(j, e);
  }

  ghost function RemappedRows(own: Side, aliases: map<Id, Id>, hash: Hash): (rs: seq<Revision>)
    ensures |rs| == |own.rows|
    ensures forall i :: 0 <= i < |rs| ==> rs[i] == R.Remapped(HistoryOf(own.rows), aliases, hash, own.rows[i])
  {
    seq(|own.rows|, i requires 0 <= i < |own.rows| => R.Remapped(HistoryOf(own.rows), aliases, hash, own.rows[i]))
  }

  lemma AllListed(revs: Revs) returns (rows: seq<Revision>)
    requires IdsMatch(revs)
    ensures forall r :: r in rows ==> r.id in revs && revs[r.id] == r
    ensures forall x :: x in revs ==> revs[x] in rows
    decreases |revs|
  {
    if revs == map[] {
      rows := [];
    } else {
      var x :| x in revs;
      var rest := revs - {x};
      assert |rest.Keys| < |revs.Keys| by {
        assert revs.Keys == rest.Keys + {x};
      }
      var init := AllListed(rest);
      rows := init + [revs[x]];
    }
  }

  ghost predicate NotOvertaken(mine: Side, own: Side) {
    Ended(mine) && Ended(own) && !Overtakes(mine, own)
  }

  /** Between sound archives equal histories always keep the payload: an unchanged snapshot imported again changes nothing. */
  lemma SoundNeverOvertaken(ms: seq<Message>, j: Journal, hash: Hash, ids: seq<Id>, e: Id, k: nat, own: Side)
    requires Sound(j, hash) && e in j.messages && TakenFor(j.messages, hash, ids, ms, own, e, k) && TipRecorded(own)
    requires e in j.chains && GivenChain(j.messages, hash, ids, ms, own) == j.chains[e]
    ensures NotOvertaken(Stands(j.messages, j.revs, [], e, j.chains[e]), own)
  {
    hide Sound, NamedOnce, Exported, AliasesOf, HistoryOf, R.Remapped, RenamedRevisions, NewChain, Overtakes, TipRecorded, Offered,
      RowsHashed, RemappedRows, AlikeAt, SameEvent, Held;
    var aliases := AliasesOf(j.messages, ids, ms);
    var revisions := RemappedRows(own, aliases, hash);
    TakenSide(j.messages, hash, ids, ms, own, e, k, revisions);
    var given := Renamed(own, aliases, hash, revisions);
    SoundHolds(j, hash, e);
    var mine := SoundStand(j, hash, e);
    OfferedLists(given, e);
    EqualChainsAlike(mine, given, hash, e);
    SoundTipRecorded(j, hash, mine.rows, e);
    AlikeOwn(mine, given, own);
    AlikeKept(mine, own);
    OvertakesAnyRows(mine, Stands(j.messages, j.revs, [], e, j.chains[e]), own);
  }

  lemma SoundStand(j: Journal, hash: Hash, e: Id) returns (mine: Side)
    requires Sound(j, hash) && e in j.messages
    ensures e in j.chains && mine == Stands(j.messages, j.revs, mine.rows, e, j.chains[e])
    ensures Injective(hash) && Lists(mine.rows, mine.revs, e, mine.chain) && RowsHashed(mine.rows, hash)
  {
    hide Chain, Hashed, Injective, HasPayload, OwnReasons, Records;
    SoundHolds(j, hash, e);
    HashedMatch(j.revs, hash);
    var rows := AllListed(j.revs);
    mine := Stands(j.messages, j.revs, rows, e, j.chains[e]);
  }

  lemma OfferedLists(s: Side, m: Id)
    requires Offered(s, m)
    ensures Lists(s.rows, s.revs, m, s.chain)
  {
    hide Lists, Answers, HasPayload;
  }

  lemma AlikeOwn(mine: Side, given: Side, own: Side)
    requires |mine.chain| == |given.chain| == |own.chain| && forall i :: 0 <= i < |mine.chain| ==> AlikeAt(mine, given, i)
    requires forall i :: 0 <= i < |own.chain| ==> own.chain[i] in own.revs
    requires forall i :: 0 <= i < |own.chain| ==>
      given.chain[i] in given.revs && SameEvent(given.revs[given.chain[i]], own.revs[own.chain[i]])
    ensures forall i :: 0 <= i < |mine.chain| ==> AlikeAt(mine, own, i)
  {
    forall i | 0 <= i < |mine.chain| ensures AlikeAt(mine, own, i) {
      assert AlikeAt(mine, given, i);
    }
  }

  lemma OvertakesAnyRows(mine: Side, other: Side, own: Side)
    requires Ended(mine) && Ended(own) && other == mine.(rows := other.rows) && !Overtakes(mine, own)
    ensures NotOvertaken(other, own)
  {
  }

  /** The tables once a merge has written what it chose. */
  ghost function Merging(t: Tables, jids: Jids, ready: ReadySnapshot, rows: seq<MessageRow>): Tables {
    StagedSnapshot(t, jids, ready, true, RowsWritten(t.messages, rows))
  }

  lemma MergingMessages(t: Tables, jids: Jids, ready: ReadySnapshot, rows: seq<MessageRow>)
    ensures Merging(t, jids, ready, rows).messages == RowsWritten(t.messages, rows)
  {
    hide RowsWritten, Staged, UpsertAll;
    StagedGroups(t, jids, ready.ready, true, RowsWritten(t.messages, rows));
  }

  /**
   Merging a snapshot fast-forwards and never regresses, message by message. It asks nothing of other messages: of this one
   only that the destination has its history as a chain whose last revision speaks for its row, and so has the snapshot,
   under whatever id. Under live parents, if the stored history is a proper prefix of the snapshot's, the snapshot's row is
   taken: for a deletion only its tombstone, otherwise with empty media fields filled from the stored row. If the
   snapshot's history is a proper prefix of the stored one, the payload is kept, whatever the event times. If both are the
   same, it is kept unless the snapshot's row overtakes the stored one.
   */
  lemma MergeFollowsHistory(t: Tables, revs: Revs, jids: Jids, ready: ReadySnapshot, scope: Scope, hash: Hash, ids: seq<Id>,
                            rows: seq<MessageRow>, revisions: seq<Revision>, e: Id, c: seq<Id>, k: nat, own: Side)
    requires Held(t.messages, revs, hash, e, c) && TakenFor(t.messages, hash, ids, ready.ready.messages, own, e, k)
    requires Chosen(t.messages, revs, hash, ids, ready.ready.messages, own.rows, rows, revisions)
    requires ParentsLive(Merging(t, jids, ready, rows), jids, e)
    ensures var merged := Propagate(Merging(t, jids, ready, rows), jids, Some(scope)).messages;
      && e in merged
      && FollowsHistory(Stands(t.messages, revs, [], e, c), own, GivenChain(t.messages, hash, ids, ready.ready.messages, own), merged[e])
  {
    hide Chosen, NamedOnce, Propagate, RowsWritten, FollowsHistory, ParentsLive, Held, Exported, GivenChain, Merging;
    ChosenFollows(ready.ready.messages, t.messages, revs, hash, ids, rows, revisions, e, c, k, own);
    MergingMessages(t, jids, ready, rows);
    LiveParentsSpare(Merging(t, jids, ready, rows), jids, Some(scope), e);
  }

  // The history a merge leaves, so that merges compose.

  function Longer(a: seq<Id>, b: seq<Id>): seq<Id> {
    if a <= b then b else a
  }

  lemma InsertedAt(revs: Revs, r: Revision, x: Id)
    requires x in InsertRevision(revs, r)
    ensures (x in revs && InsertRevision(revs, r)[x] == revs[x]) || (x !in revs && x == r.id && InsertRevision(revs, r)[x] == r)
  {
  }

  lemma {:induction false} InsertedFrom(revs: Revs, rows: seq<Revision>, x: Id)
    requires x in AllInserted(revs, rows)
    ensures (x in revs && AllInserted(revs, rows)[x] == revs[x])
      || (AllInserted(revs, rows)[x] in rows && AllInserted(revs, rows)[x].id == x)
  {
    hide InsertRevision;
    if rows != [] {
      var init, last := rows[..|rows| - 1], rows[|rows| - 1];
      assert rows == init + [last];
      InsertedAt(AllInserted(revs, init), last, x);
      if x in AllInserted(revs, init) {
        InsertedFrom(revs, init, x);
      }
    }
  }

  /** A revision of the longer chain, as one of the sides has it. */
  lemma LongerAt(revs: Revs, hash: Hash, e: Id, c: seq<Id>, given: Side, i: nat) returns (r: Revision)
    requires Injective(hash) && AllHashed(revs, hash) && Chain(revs, e, c) && Lists(given.rows, given.revs, e, given.chain)
    requires RowsHashed(given.rows, hash) && (c <= given.chain || given.chain <= c) && i < |Longer(c, given.chain)|
    ensures var l := Longer(c, given.chain);
      && r.id == l[i] && r.message == e && r.predecessor == (if i == 0 then NONE else l[i - 1]) && l[i] != NONE && Hashed(hash, r)
      && (r in given.rows || (r.id in revs && revs[r.id] == r))
  {
    hide Injective, Hashed;
    if c <= given.chain {
      assert Linked(given.revs, e, given.chain, i);
      r := given.revs[given.chain[i]];
    } else {
      assert Linked(revs, e, c, i);
      r := revs[c[i]];
    }
  }

  /** Inserting a snapshot's revisions makes the longer chain, when one is a prefix of the other. */
  lemma InsertedChain(revs: Revs, hash: Hash, e: Id, c: seq<Id>, given: Side)
    requires Injective(hash) && AllHashed(revs, hash) && Chain(revs, e, c) && Lists(given.rows, given.revs, e, given.chain)
    requires RowsHashed(given.rows, hash) && (c <= given.chain || given.chain <= c)
    ensures Chain(AllInserted(revs, given.rows), e, Longer(c, given.chain))
  {
    hide Injective, Hashed, AllInserted;
    var after, l := AllInserted(revs, given.rows), Longer(c, given.chain);
    HashedMatch(revs, hash);
    InsertedKeeps(revs, given.rows);
    InsertedHashed(revs, given.rows, hash);
    forall i | 0 <= i < |l| ensures Linked(after, e, l, i) {
      var r := LongerAt(revs, hash, e, c, given, i);
      assert r.id in after;
      SameIdSameLink(hash, after[r.id], r);
    }
    forall x | x in after && after[x].message == e ensures x in l {
      InsertedFrom(revs, given.rows, x);
    }
  }

  /** After a merge message `e` has exactly the longer of the two histories, before any deletion is recorded. */
  lemma MergedChain(ms: seq<Message>, messages: map<Id, Message>, revs: Revs, hash: Hash, ids: seq<Id>, rows: seq<MessageRow>,
                    revisions: seq<Revision>, e: Id, c: seq<Id>, k: nat, own: Side)
    requires Held(messages, revs, hash, e, c) && TakenFor(messages, hash, ids, ms, own, e, k)
    requires Chosen(messages, revs, hash, ids, ms, own.rows, rows, revisions)
    requires var given := GivenChain(messages, hash, ids, ms, own); c <= given || given <= c
    ensures Chain(AllInserted(revs, revisions), e, Longer(c, GivenChain(messages, hash, ids, ms, own))) && RowsHashed(revisions, hash)
  {
    hide Chosen, NamedOnce, Chain, Exported, AliasesOf, HistoryOf, NewChain, R.Remapped, RenamedRevisions, Offered, RowsHashed,
      Answers, AllInserted, SameEvent, Injective, AllHashed;
    ExportedAcyclic(own, hash, ids[k]);
    ChosenRevisions(messages, revs, hash, ids, ms, own.rows, rows, revisions);
    TakenSide(messages, hash, ids, ms, own, e, k, revisions);
    var given := Renamed(own, AliasesOf(messages, ids, ms), hash, revisions);
    OfferedLists(given, e);
    InsertedChain(revs, hash, e, c, given);
  }

  /** The last revision of a deleted row is that deletion, so that no record of it is added. */
  ghost predicate DeletionSpoken(s: Side) {
    Ended(s) && (s.row.tomb.Deleted? ==>
      s.revs[s.chain[|s.chain| - 1]].eventType == Deletion && s.revs[s.chain[|s.chain| - 1]].eventAt == s.row.tomb.at)
  }

  /** Revisions of the longer chain record, in the tables after the merge, what they recorded on its side. */
  lemma LongerAlike(revs: Revs, after: Revs, hash: Hash, e: Id, c: seq<Id>, given: Side, i: nat)
    requires Injective(hash) && AllHashed(revs, hash) && Chain(revs, e, c) && Lists(given.rows, given.revs, e, given.chain)
    requires RowsHashed(given.rows, hash) && (c <= given.chain || given.chain <= c) && i < |Longer(c, given.chain)|
    requires Kept(AllInserted(revs, given.rows), after)
    ensures var l := Longer(c, given.chain);
      && l[i] in after
      && (c <= given.chain ==> l[i] in given.revs && SameRecord(after[l[i]], given.revs[l[i]]))
      && (given.chain <= c ==> l[i] in revs && SameRecord(after[l[i]], revs[l[i]]))
  {
    hide Injective, Hashed, AllInserted;
    var mid, l := AllInserted(revs, given.rows), Longer(c, given.chain);
    HashedMatch(revs, hash);
    InsertedKeeps(revs, given.rows);
    InsertedHashed(revs, given.rows, hash);
    if c <= given.chain {
      assert Linked(given.revs, e, given.chain, i);
      assert given.revs[given.chain[i]] in given.rows;
      SameIdSameLink(hash, mid[l[i]], given.revs[given.chain[i]]);
    }
    if given.chain <= c {
      assert Linked(revs, e, c, i);
    }
  }

  /** A chain speaks for a row in the tables after the merge exactly when it does on its side. */
  lemma AnswersAlike(revs: Revs, c: seq<Id>, after: Revs, l: seq<Id>, merged: Message)
    requires |c| == |l| && forall i :: 0 <= i < |l| ==> l[i] in after && c[i] in revs && SameRecord(after[l[i]], revs[c[i]])
    ensures Answers(after, l, merged) <==> Answers(revs, c, merged)
  {
    var payload := Some(PayloadOf(merged));
    forall i | 0 <= i < |l| ensures HasPayload(after, l[i], payload) <==> HasPayload(revs, c[i], payload) {
    }
  }

  /** The side with the longer history; the destination's when both are the same. */
  function LongerSide(mine: Side, own: Side, given: seq<Id>): Side {
    if given <= mine.chain then mine else own
  }

  lemma LongerAnswers(revs: Revs, after: Revs, hash: Hash, e: Id, mine: Side, own: Side, given: Side, merged: Message)
    requires Injective(hash) && AllHashed(revs, hash) && mine.revs == revs && Chain(revs, e, mine.chain) && Ended(mine)
    requires Lists(given.rows, given.revs, e, given.chain) && RowsHashed(given.rows, hash) && |given.chain| == |own.chain|
    requires forall i :: 0 <= i < |own.chain| ==>
      own.chain[i] in own.revs && given.chain[i] in given.revs && SameEvent(given.revs[given.chain[i]], own.revs[own.chain[i]])
    requires (mine.chain <= given.chain || given.chain <= mine.chain) && DeletionSpoken(mine) && DeletionSpoken(own)
    requires var side := LongerSide(mine, own, given.chain); merged.tomb == side.row.tomb
    requires Kept(AllInserted(revs, given.rows), after)
    ensures var l, side := Longer(mine.chain, given.chain), LongerSide(mine, own, given.chain);
      && DeletionSpoken(Side([], after, l, merged))
      && (Answers(after, l, merged) <==> Answers(side.revs, side.chain, merged))
  {
    hide Injective, AllHashed, RowsHashed, AllInserted, Lists, Chain, Kept, Answers;
    var c, l, side := mine.chain, Longer(mine.chain, given.chain), LongerSide(mine, own, given.chain);
    assert given.chain <= c ==> l == c;
    forall i | 0 <= i < |l| ensures l[i] in after && side.chain[i] in side.revs && SameRecord(after[l[i]], side.revs[side.chain[i]]) {
      LongerAlike(revs, after, hash, e, c, given, i);
    }
    AnswersAlike(side.revs, side.chain, after, l, merged);
  }

  /** No record is added to a chain whose last revision is its row's deletion already. */
  lemma NothingToRecord(before: Revs, after: Revs, hash: Hash, messages: map<Id, Message>, S: set<Id>, observedAt: Time, e: Id,
                        l: seq<Id>)
    requires RecordedTo(before, after, hash, messages, S, observedAt, e, l) && e in messages
    requires DeletionSpoken(Side([], after, l, messages[e])) && l[|l| - 1] in before && before[l[|l| - 1]] == after[l[|l| - 1]]
    ensures Chain(after, e, l)
  {
    hide Chain, DeletionRevision;
  }

  /**
   Merges compose. If the last revisions of both sides are the deletions of their rows where those are deleted, then after
   the merge the message has exactly the longer history, and it meets the conditions of the next merge exactly when that
   history speaks for the merged row on the side it comes from.
   */
  lemma MergesCompose(ms: seq<Message>, messages: map<Id, Message>, revs: Revs, hash: Hash, ids: seq<Id>, rows: seq<MessageRow>,
                      revisions: seq<Revision>, e: Id, c: seq<Id>, k: nat, own: Side, merged: map<Id, Message>, after: Revs,
                      S: set<Id>, observedAt: Time)
    requires Held(messages, revs, hash, e, c) && TakenFor(messages, hash, ids, ms, own, e, k) && e in merged
    requires Chosen(messages, revs, hash, ids, ms, own.rows, rows, revisions)
    requires DeletionSpoken(Stands(messages, revs, [], e, c)) && DeletionSpoken(own)
    requires var given := GivenChain(messages, hash, ids, ms, own);
      (c <= given || given <= c) && merged[e].tomb == LongerSide(Stands(messages, revs, [], e, c), own, given).row.tomb
    requires Kept(AllInserted(revs, revisions), after) && AllHashed(after, hash)
    requires ChainsRecorded(AllInserted(revs, revisions), after, hash, merged, S, observedAt)
    ensures var given := GivenChain(messages, hash, ids, ms, own);
      var l, side := Longer(c, given), LongerSide(Stands(messages, revs, [], e, c), own, given);
      && Chain(after, e, l) && DeletionSpoken(Stands(merged, after, [], e, l))
      && (Held(merged, after, hash, e, l) <==> Answers(side.revs, side.chain, merged[e]))
  {
    hide Chosen, NamedOnce, Chain, Exported, AliasesOf, HistoryOf, NewChain, R.Remapped, RenamedRevisions, Offered, RowsHashed,
      Answers, AllInserted, Injective, AllHashed, PayloadOf, Kept, RecordedTo, DeletionRevision, RecordedChain, SameEvent;
    ExportedAcyclic(own, hash, ids[k]);
    ChosenRevisions(messages, revs, hash, ids, ms, own.rows, rows, revisions);
    TakenSide(messages, hash, ids, ms, own, e, k, revisions);
    var given, mine := Renamed(own, AliasesOf(messages, ids, ms), hash, revisions), Stands(messages, revs, [], e, c);
    var l := Longer(c, given.chain);
    HeldParts(messages, revs, hash, e, c);
    OfferedLists(given, e);
    LongerAnswers(revs, after, hash, e, mine, own, given, merged[e]);
    MergedChain(ms, messages, revs, hash, ids, rows, revisions, e, c, k, own);
    assert RecordedTo(AllInserted(revs, revisions), after, hash, merged, S, observedAt, e, l);
    RecordedEnd(AllInserted(revs, revisions), after, hash, merged, S, observedAt, e, l);
    NothingToRecord(AllInserted(revs, revisions), after, hash, merged, S, observedAt, e, l);
  }

  lemma HeldParts(messages: map<Id, Message>, revs: Revs, hash: Hash, e: Id, c: seq<Id>)
    requires Held(messages, revs, hash, e, c)
    ensures Injective(hash) && AllHashed(revs, hash) && Chain(revs, e, c) && Answers(revs, c, messages[e]) && c != []
  {
    hide Injective, AllHashed, Chain;
  }

  lemma RecordedEnd(before: Revs, after: Revs, hash: Hash, messages: map<Id, Message>, S: set<Id>, observedAt: Time, e: Id,
                    l: seq<Id>)
    requires RecordedTo(before, after, hash, messages, S, observedAt, e, l) && Kept(before, after)
    ensures l != [] && l[|l| - 1] in before && l[|l| - 1] in after && before[l[|l| - 1]] == after[l[|l| - 1]]
  {
    hide Chain, DeletionRevision, RecordedChain;
  }
}
