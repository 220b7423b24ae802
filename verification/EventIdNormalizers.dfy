/** The id normalizers as they run: in place over a batch, and in cursor batches over a table. */
module EventIdNormalizers {
  import opened Bytes
  import opened EventIds
  import opened Ranking
  import opened TextOrder

  /** The stored ids of one Telegram message, in id order. */
  method QueryFamily(table: Table, k: Key) returns (ids: seq<Id>)
    ensures Ascending(LexLess, ids) && Elements(ids) == Family(table, k)
  {
    hide LexLess, SortBy;
    var found: seq<Id> := [];
    var left := table.Keys;
    while left != {}
      invariant left <= table.Keys && Distinct(found)
      invariant forall x :: x in found <==> x in table && x !in left && table[x].key == k
      decreases |left|
    {
      var x :| x in left;
      left := left - {x};
      if table[x].key == k {
        found := found + [x];
      }
    }
    LexOrders(Elements(found));
    SortAscending(LexLess, found);
    ids := SortBy(LexLess, found);
    assert forall x :: x in ids <==> x in Elements(ids);
  }

  /** The id of one imported message, from its stored family or fresh. */
  method ChooseImportedId(h: Hashes, ghost ms: seq<Message>, table: Table, m: Message, groupSize: nat, used: set<Id>)
    returns (id: Id)
    requires CollisionFree(h) && groupSize == MissingCount(ms, m.key)
    ensures id == ImportedId(h, ms, table, m, used)
  {
    hide LexLess, CollisionFree, MissingCount;
    var existing := QueryFamily(table, m.key);
    FamilySizeIs(existing, table, m.key);
    if |existing| == 1 && groupSize == 1 {
      assert existing[0] in Elements(existing);
      OnlyMember(Family(table, m.key), existing[0]);
      return existing[0];
    }
    for i := 0 to |existing|
      invariant forall j :: 0 <= j < i ==> table[existing[j]].sourcePk != m.sourcePk
    {
      assert existing[i] in Elements(existing);
      if table[existing[i]].sourcePk == m.sourcePk {
        FirstMatching(existing, table, m.key, m.sourcePk, i);
        return existing[i];
      }
    }
    NoneMatching(existing, table, m.key, m.sourcePk);
    var first := if groupSize > 1 || |existing| > 1 then h.legacy(m.key, m.sourcePk, 0) else h.stable(m.key);
    id := FindFreeId(h, m, first, used + table.Keys);
  }

  lemma FamilySizeIs(existing: seq<Id>, table: Table, k: Key)
    requires Ascending(LexLess, existing) && Elements(existing) == Family(table, k)
    ensures |existing| == |Family(table, k)|
    ensures forall i :: 0 <= i < |existing| ==> existing[i] in table
  {
    hide LexLess;
    LexOrders(Elements(existing));
    AscendingSize(LexLess, existing);
    forall i | 0 <= i < |existing| ensures existing[i] in table {
      assert existing[i] in Elements(existing);
    }
  }

  lemma OnlyMember(ids: set<Id>, id: Id)
    requires id in ids && |ids| == 1
    ensures First(ids) == id
  {
    assert |ids - {id}| == 0;
  }

  lemma FirstMatching(existing: seq<Id>, table: Table, k: Key, pk: int, i: nat)
    requires Ascending(LexLess, existing) && Elements(existing) == Family(table, k) && i < |existing|
    requires forall j :: 0 <= j < |existing| ==> existing[j] in table
    requires table[existing[i]].sourcePk == pk && forall j :: 0 <= j < i ==> table[existing[j]].sourcePk != pk
    ensures Matches(table, k, pk) != {} && First(Matches(table, k, pk)) == existing[i]
  {
    hide LexLess;
    assert existing[i] in Elements(existing);
    forall x | x in Matches(table, k, pk) && x != existing[i] ensures LexLess(existing[i], x) {
      assert x in Elements(existing);
      var j :| 0 <= j < |existing| && existing[j] == x;
    }
    assert existing[i] in Matches(table, k, pk);
    FirstUnique(Matches(table, k, pk), existing[i]);
  }

  lemma NoneMatching(existing: seq<Id>, table: Table, k: Key, pk: int)
    requires Elements(existing) == Family(table, k) && forall j :: 0 <= j < |existing| ==> existing[j] in table
    requires forall j :: 0 <= j < |existing| ==> table[existing[j]].sourcePk != pk
    ensures Matches(table, k, pk) == {}
  {
    forall x ensures x !in Matches(table, k, pk) {
      if x in Elements(existing) {
        var j :| 0 <= j < |existing| && existing[j] == x;
      }
    }
  }

  /** The ids a batch brings, how many of its messages lack one under each key, and their indexes. */
  method Survey(messages: array<Message>) returns (used: set<Id>, counts: map<Key, nat>, missing: seq<nat>)
    ensures used == GivenIds(messages[..]) && missing == Missing(messages[..])
    ensures forall k :: (if k in counts then counts[k] else 0) == MissingCount(messages[..], k)
  {
    used, counts, missing := {}, map[], [];
    for i := 0 to messages.Length
      invariant used == GivenIds(messages[..i]) && missing == Missing(messages[..i])
      invariant forall k :: (if k in counts then counts[k] else 0) == MissingCount(messages[..i], k)
    {
      assert messages[..i + 1][..i] == messages[..i];
      GivenGrows(messages[..i], messages[i]);
      assert messages[..i + 1] == messages[..i] + [messages[i]];
      var m := messages[i];
      if m.eventId != NO_ID {
        used := used + {m.eventId};
      } else {
        counts := counts[m.key := (if m.key in counts then counts[m.key] else 0) + 1];
        missing := missing + [i];
      }
    }
    assert messages[..messages.Length] == messages[..];
  }

  lemma GivenGrows(ms: seq<Message>, m: Message)
    ensures GivenIds(ms + [m]) == GivenIds(ms) + if m.eventId != NO_ID then {m.eventId} else {}
  {
    var all := ms + [m];
    assert forall x :: x in all <==> x in ms || x == m;
  }

  /** The turn of one message: its slot takes the id, the others stay. */
  lemma Turn(h: Hashes, batch: Batch, order: seq<nat>, k: nat, id: Id)
    requires CollisionFree(h) && Indexes(order, |batch.messages|) && Distinct(order) && k < |order|
    requires id == NextId(h, batch, batch.messages[order[k]], AssignAll(h, batch, order[..k]).used)
    ensures var before, after := AssignAll(h, batch, order[..k]), AssignAll(h, batch, order[..k + 1]);
      && after.used == before.used + {id}
      && WithIds(batch.messages, before.ids)[order[k]] == batch.messages[order[k]]
      && WithIds(batch.messages, after.ids) ==
           WithIds(batch.messages, before.ids)[order[k] := batch.messages[order[k]].(eventId := id)]
  {
    hide NextId, CollisionFree;
    assert order[..k + 1][..k] == order[..k];
    AssignedIndexes(h, batch, order[..k]);
  }

  lemma NoTurns(h: Hashes, batch: Batch)
    requires CollisionFree(h)
    ensures AssignAll(h, batch, []).used == GivenIds(batch.messages)
    ensures WithIds(batch.messages, AssignAll(h, batch, []).ids) == batch.messages
  {
    hide CollisionFree;
  }

  /** normalizeImportedMessageEventIDs: every message without an id takes one, in its slot. */
  method NormalizeImported(h: Hashes, messages: array<Message>, table: Table)
    requires CollisionFree(h)
    modifies messages
    ensures messages[..] == Normalized(h, Imported(old(messages[..]), table))
  {
    hide AssignAll, CollisionFree, WithIds, MissingCount, SortBy, GivenIds, ImportedId, Missing, IndexOrder;
    var batch := Imported(messages[..], table);
    var used, counts, missing := Survey(messages);
    var order := SortBy(IndexOrder(batch), missing);
    assert order == OrderOf(batch);
    NoTurns(h, batch);
    for k := 0 to |order|
      invariant used == AssignAll(h, batch, order[..k]).used
      invariant messages[..] == WithIds(batch.messages, AssignAll(h, batch, order[..k]).ids)
    {
      var index := order[k];
      var m := batch.messages[index];
      var groupSize := if m.key in counts then counts[m.key] else 0;
      var id := ChooseImportedId(h, batch.messages, table, m, groupSize, used);
      Turn(h, batch, order, k, id);
      messages[index] := messages[index].(eventId := id);
      used := used + {id};
    }
    assert order[..|order|] == order;
  }

  /** normalizeLegacyMessageEventIDs. */
  method NormalizeLegacy(h: Hashes, messages: array<Message>)
    requires CollisionFree(h)
    modifies messages
    ensures messages[..] == Normalized(h, Legacy(old(messages[..])))
  {
    hide AssignAll, CollisionFree, WithIds, MissingCount, SortBy, GivenIds, FreeId, Missing, IndexOrder;
    var batch := Legacy(messages[..]);
    var used, counts, missing := Survey(messages);
    var order := SortBy(IndexOrder(batch), missing);
    assert order == OrderOf(batch);
    NoTurns(h, batch);
    for k := 0 to |order|
      invariant used == AssignAll(h, batch, order[..k]).used
      invariant messages[..] == WithIds(batch.messages, AssignAll(h, batch, order[..k]).ids)
    {
      var index := order[k];
      var m := batch.messages[index];
      var several := m.key in counts && counts[m.key] > 1;
      var first := if several then h.legacy(m.key, m.sourcePk, 0) else h.stable(m.key);
      var id := FindFreeId(h, m, first, used);
      Turn(h, batch, order, k, id);
      messages[index] := messages[index].(eventId := id);
      used := used + {id};
    }
    assert order[..|order|] == order;
  }

  // The migration backfill.

  datatype Row = Row(eventId: Id, key: Key, sourcePk: int)

  /** Message rows by rowid. */
  type Rows = map<nat, Row>

  const BATCH_SIZE: nat := 1000
  const MIN_SOURCE_PK: int := -0x8000_0000_0000_0000

  /** An absent id, or one of blanks only. */
  predicate Blank(id: Id) {
    forall i :: 0 <= i < |id| ==> id[i] == 32
  }

  function FamilyRows(rows: Rows, k: Key): (family: set<nat>) {
    set r | r in rows && rows[r].key == k
  }

  function BackfilledRow(h: Hashes, rows: Rows, row: Row): Row {
    if Blank(row.eventId) then
      row.(eventId := BackfilledId(h, row.key, row.sourcePk, |FamilyRows(rows, row.key)|))
    else row
  }

  /** Every row without an id gets one. */
  function Backfilled(h: Hashes, rows: Rows): Rows {
    map r | r in rows :: BackfilledRow(h, rows, rows[r])
  }

  /** A row whose id is blanks gets a hash, with its source id if another row has its key; every other row stays. */
  lemma BackfilledMeans(h: Hashes, rows: Rows, r: nat)
    requires r in rows
    ensures Backfilled(h, rows).Keys == rows.Keys
    ensures var row, row' := rows[r], Backfilled(h, rows)[r];
      && row'.key == row.key && row'.sourcePk == row.sourcePk
      && row'.eventId ==
           if exists i :: 0 <= i < |row.eventId| && row.eventId[i] != 32 then row.eventId
           else if exists s :: s in rows && s != r && rows[s].key == row.key then h.legacy(row.key, row.sourcePk, 0)
           else h.stable(row.key)
  {
    var family := FamilyRows(rows, rows[r].key);
    assert r in family;
    if s :| s in rows && s != r && rows[s].key == rows[r].key {
      SubsetSize({r, s}, family);
    } else {
      assert family == {r};
    }
  }

  datatype Cursor = Cursor(sourcePk: int, rowId: nat)

  predicate After(rows: Rows, c: Cursor, r: nat)
    requires r in rows
  {
    rows[r].sourcePk > c.sourcePk || (rows[r].sourcePk == c.sourcePk && r > c.rowId)
  }

  function Left(rows: Rows, c: Cursor): (left: set<nat>) {
    set r | r in rows && After(rows, c, r)
  }

  function RowOrder(rows: Rows): Order<nat> {
    (a: nat, b: nat) => a in rows && b in rows && (rows[a].sourcePk < rows[b].sourcePk || (rows[a].sourcePk == rows[b].sourcePk && a < b))
  }

  lemma RowOrders(rows: Rows, s: set<nat>)
    requires s <= rows.Keys
    ensures Orders(RowOrder(rows), s)
  {
  }

  /** The next rows after the cursor, in cursor order. */
  method NextBatch(rows: Rows, c: Cursor) returns (batch: seq<nat>)
    ensures Ascending(RowOrder(rows), batch)
    ensures forall r :: r in batch ==> r in Left(rows, c)
    ensures forall r, b :: r in Left(rows, c) && r !in batch && b in batch ==> RowOrder(rows)(b, r)
    ensures Left(rows, c) != {} ==> batch != []
  {
    hide SortBy, RowOrder;
    var found: seq<nat> := [];
    var todo := Left(rows, c);
    while todo != {}
      invariant todo <= Left(rows, c) && Distinct(found)
      invariant forall r :: r in found <==> r in Left(rows, c) && r !in todo
      decreases |todo|
    {
      var r :| r in todo;
      todo := todo - {r};
      found := found + [r];
    }
    RowOrders(rows, Elements(found));
    SortAscending(RowOrder(rows), found);
    batch := SortBy(RowOrder(rows), found);
    assert forall r: nat :: r in batch <==> r in Elements(batch);
    assert forall r: nat :: r in batch <==> r in found;
    if |batch| > BATCH_SIZE {
      ghost var all := batch;
      batch := batch[..BATCH_SIZE];
      assert forall i :: 0 <= i < BATCH_SIZE ==> all[i] in batch;
      forall r, b | r in Left(rows, c) && r !in batch && b in batch ensures RowOrder(rows)(b, r) {
        var i :| 0 <= i < |all| && all[i] == r;
        var j :| 0 <= j < |batch| && batch[j] == b;
      }
    }
  }

  /** Moving the cursor to the next row in order leaves the rows after it. */
  lemma CursorAdvances(rows: Rows, c: Cursor, r: nat)
    requires r in Left(rows, c)
    requires forall x :: x in Left(rows, c) && x != r ==> RowOrder(rows)(r, x)
    ensures Left(rows, Cursor(rows[r].sourcePk, r)) == Left(rows, c) - {r}
  {
  }

  class MessageTable {
    var rows: Rows

    constructor (rows: Rows)
      ensures this.rows == rows
    {
      this.rows := rows;
    }

    /** Only ids may have changed since `before`, and only of rows the cursor has passed. */
    ghost predicate Passed(h: Hashes, before: Rows, c: Cursor)
      reads this
    {
      && rows.Keys == before.Keys
      && forall r :: r in before ==> rows[r] == if r in Left(before, c) then before[r] else BackfilledRow(h, before, before[r])
    }

    lemma PassedKeepsKeys(h: Hashes, before: Rows, c: Cursor)
      requires Passed(h, before, c)
      ensures forall d: Cursor :: Left(rows, d) == Left(before, d)
      ensures forall k :: FamilyRows(rows, k) == FamilyRows(before, k)
      ensures forall a: nat, b: nat :: RowOrder(rows)(a, b) == RowOrder(before)(a, b)
    {
      hide Blank;
      forall r | r in before ensures rows[r].key == before[r].key && rows[r].sourcePk == before[r].sourcePk {
      }
    }

    /** backfillMessageEventIDsTx: batches of rows after a (source id, rowid) cursor, until none is left. */
    method BackfillMessageEventIDs(h: Hashes)
      requires forall r :: r in rows ==> r > 0 && rows[r].sourcePk >= MIN_SOURCE_PK
      modifies this
      ensures rows == Backfilled(h, old(rows))
    {
      hide Left, BackfilledRow, RowOrder;
      ghost var before := rows;
      var cursor := Cursor(MIN_SOURCE_PK, 0);
      AllLeft(before);
      while true
        invariant Passed(h, before, cursor)
        decreases |Left(before, cursor)|
      {
        PassedKeepsKeys(h, before, cursor);
        var batch := NextBatch(rows, cursor);
        if |batch| == 0 {
          break;
        }
        cursor := BackfillBatch(h, before, cursor, batch);
      }
      assert Left(before, cursor) == {};
    }

    method BackfillBatch(h: Hashes, ghost before: Rows, cursor: Cursor, batch: seq<nat>) returns (last: Cursor)
      requires Passed(h, before, cursor) && batch != []
      requires Ascending(RowOrder(before), batch)
      requires forall r :: r in batch ==> r in Left(before, cursor)
      requires forall r, b :: r in Left(before, cursor) && r !in batch && b in batch ==> RowOrder(before)(b, r)
      modifies this
      ensures Passed(h, before, last) && |Left(before, last)| < |Left(before, cursor)|
    {
      hide Left, RowOrder, Passed;
      last := cursor;
      for i := 0 to |batch|
        invariant Passed(h, before, last)
        invariant forall r :: r in Left(before, last) <==> r in Left(before, cursor) && r !in batch[..i]
      {
        NextInBatch(before, last, cursor, batch, i);
        last := BackfillRow(h, before, last, batch[i]);
        assert batch[..i + 1] == batch[..i] + [batch[i]];
      }
      assert batch[0] in batch && batch[..|batch|] == batch;
      assert Left(before, last) < Left(before, cursor);
      SubsetSize(Left(before, last), Left(before, cursor));
    }

    method BackfillRow(h: Hashes, ghost before: Rows, ghost cursor: Cursor, r: nat) returns (last: Cursor)
      requires Passed(h, before, cursor) && r in before && r in Left(before, cursor)
      requires Left(before, Cursor(before[r].sourcePk, r)) == Left(before, cursor) - {r}
      modifies this
      ensures Passed(h, before, last) && last == Cursor(before[r].sourcePk, r)
    {
      hide Left, Blank, FamilyRows, BackfilledId;
      PassedKeepsKeys(h, before, cursor);
      var row := rows[r];
      var familySize := |FamilyRows(rows, row.key)|;
      if Blank(row.eventId) {
        rows := rows[r := row.(eventId := BackfilledId(h, row.key, row.sourcePk, familySize))];
      }
      last := Cursor(row.sourcePk, r);
    }
  }

  lemma AllLeft(rows: Rows)
    requires forall r :: r in rows ==> r > 0 && rows[r].sourcePk >= MIN_SOURCE_PK
    ensures Left(rows, Cursor(MIN_SOURCE_PK, 0)) == rows.Keys
  {
  }

  lemma NextInBatch(rows: Rows, last: Cursor, cursor: Cursor, batch: seq<nat>, i: nat)
    requires i < |batch| && Ascending(RowOrder(rows), batch)
    requires forall r :: r in batch ==> r in Left(rows, cursor)
    requires forall r, b :: r in Left(rows, cursor) && r !in batch && b in batch ==> RowOrder(rows)(b, r)
    requires forall r :: r in Left(rows, last) <==> r in Left(rows, cursor) && r !in batch[..i]
    ensures batch[i] in rows && batch[i] in Left(rows, last)
    ensures Left(rows, Cursor(rows[batch[i]].sourcePk, batch[i])) == Left(rows, last) - {batch[i]}
  {
    hide After;
    assert batch[i] in batch;
    forall k | 0 <= k < i ensures batch[k] != batch[i] {
      assert RowOrder(rows)(batch[k], batch[i]);
    }
    assert forall j :: 0 <= j < i ==> batch[j] in batch[..i];
    forall x | x in Left(rows, last) && x != batch[i] ensures RowOrder(rows)(batch[i], x) {
      if x in batch {
        var j :| 0 <= j < |batch| && batch[j] == x;
      }
    }
    CursorAdvances(rows, last, batch[i]);
  }

  function FamilyIn(rows: Rows, order: seq<nat>, k: Key): (family: set<nat>) {
    set r | r in order && r in rows && rows[r].key == k
  }

  lemma FamilyGrows(rows: Rows, order: seq<nat>, r: nat, k: Key)
    requires r !in order && r in rows
    ensures |FamilyIn(rows, order + [r], k)| == |FamilyIn(rows, order, k)| + if rows[r].key == k then 1 else 0
  {
    var a, b := FamilyIn(rows, order, k), FamilyIn(rows, order + [r], k);
    assert forall x: nat :: x in order + [r] <==> x in order || x == r;
    if rows[r].key == k {
      assert b == a + {r};
    } else {
      assert b == a;
    }
  }

  lemma {:induction false} CountsAgree(rows: Rows, ms: seq<Message>, order: seq<nat>, k: Key)
    requires |ms| == |order| && Distinct(order) && forall j :: 0 <= j < |order| ==> order[j] in rows
    requires forall j :: 0 <= j < |ms| ==> ms[j].eventId == NO_ID && ms[j].key == rows[order[j]].key
    ensures MissingCount(ms, k) == |FamilyIn(rows, order, k)|
  {
    hide FamilyIn;
    if ms == [] {
      assert order == [];
      assert FamilyIn(rows, [], k) == {} by {
        NoFamily(rows, k);
      }
    } else {
      var init, last := order[..|order| - 1], order[|order| - 1];
      CountsAgree(rows, ms[..|ms| - 1], init, k);
      assert order == init + [last];
      FamilyGrows(rows, init, last, k);
    }
  }

  lemma NoFamily(rows: Rows, k: Key)
    ensures FamilyIn(rows, [], k) == {}
  {
  }

  /** A snapshot that lists the rows of a table, all without ids, gets the ids the backfill gives the rows. */
  lemma SnapshotAgreesWithBackfill(h: Hashes, rows: Rows, ms: seq<Message>, order: seq<nat>, i: nat)
    requires CollisionFree(h) && DistinctSources(ms) && i < |ms| == |order| && Distinct(order) && Elements(order) == rows.Keys
    requires forall n :: 0 <= n < |order| ==> order[n] in rows
    requires forall n :: 0 <= n < |ms| ==>
      ms[n] == Message(NO_ID, rows[order[n]].key, rows[order[n]].sourcePk) && rows[order[n]].eventId == NO_ID
    ensures Normalized(h, Legacy(ms))[i].eventId == Backfilled(h, rows)[order[i]].eventId
  {
    hide Normalized, CollisionFree, DistinctSources, MissingCount, Distinct;
    var k := ms[i].key;
    AllMissing(ms);
    LegacyAgreesWithBackfill(h, ms, i);
    CountsAgree(rows, ms, order, k);
    assert forall r: nat :: r in order <==> r in Elements(order);
    assert FamilyRows(rows, k) == FamilyIn(rows, order, k);
    assert Blank(rows[order[i]].eventId);
  }

  lemma AllMissing(ms: seq<Message>)
    requires forall n :: 0 <= n < |ms| ==> ms[n].eventId == NO_ID
    ensures GivenIds(ms) == {}
  {
  }
}
