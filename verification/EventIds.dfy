/** Giving messages their event ids: imported batches, legacy snapshots and the migration backfill. */
module EventIds {
  import opened Bytes
  import opened Ranking
  import opened TextOrder
  import opened Wrappers

  type Id = Text

  const NO_ID: Id := []

  /** What a message is known by. */
  datatype Key = Key(chat: Text, messageId: Text)

  datatype Message = Message(eventId: Id, key: Key, sourcePk: int)

  /** A stored row of the message table, without its id. */
  datatype Stored = Stored(key: Key, sourcePk: int)

  type Table = map<Id, Stored>

  /**
   The two content hashes. `legacy` adds the source id and, above 0, a suffix to the message id before hashing.
   */
  datatype Hashes = Hashes(stable: Key -> Id, legacy: (Key, int, nat) -> Id)

  /** No collisions: what SHA-256 gives for ids without NUL bytes or surrounding blanks. */
  ghost predicate CollisionFree(h: Hashes) {
    && (forall k :: !IsBlank(h.stable(k))) && (forall k, pk, n :: !IsBlank(h.legacy(k, pk, n)))
    && (forall k, k' :: h.stable(k) == h.stable(k') ==> k == k')
    && (forall k, pk, n, k', pk', n' :: h.legacy(k, pk, n) == h.legacy(k', pk', n') ==> k == k' && pk == pk' && n == n')
    && (forall k, k', pk, n :: h.stable(k) != h.legacy(k', pk, n))
  }

  // The suffix search.

  /** Ids tried before suffix `n`. */
  ghost function Tried(h: Hashes, m: Message, first: Id, n: nat): set<Id> {
    if n <= 1 then {} else Tried(h, m, first, n - 1) + {if n == 2 then first else h.legacy(m.key, m.sourcePk, n - 2)}
  }

  /** The candidate before suffix `n`: the first one, then one per suffix. */
  function Candidate(h: Hashes, m: Message, first: Id, n: nat): Id {
    if n <= 1 then first else h.legacy(m.key, m.sourcePk, n - 1)
  }

  ghost predicate FirstCandidate(h: Hashes, m: Message, first: Id) {
    first == h.stable(m.key) || first == h.legacy(m.key, m.sourcePk, 0)
  }

  lemma {:induction false} TriedExactly(h: Hashes, m: Message, first: Id, n: nat, x: Id)
    ensures x in Tried(h, m, first, n) <==> exists j: nat :: 1 <= j < n && x == Candidate(h, m, first, j)
  {
    if n > 1 {
      TriedExactly(h, m, first, n - 1, x);
      var k: nat := n - 1;
      assert Candidate(h, m, first, k) == if n == 2 then first else h.legacy(m.key, m.sourcePk, n - 2);
      if j: nat :| 1 <= j < n && x == Candidate(h, m, first, j) && j != k {
        assert 1 <= j < n - 1;
      }
    }
  }

  lemma CandidateIsNew(h: Hashes, m: Message, first: Id, n: nat)
    requires CollisionFree(h) && FirstCandidate(h, m, first) && n >= 1
    ensures Candidate(h, m, first, n) !in Tried(h, m, first, n)
  {
    TriedExactly(h, m, first, n, Candidate(h, m, first, n));
  }

  lemma FewerLeft(h: Hashes, m: Message, first: Id, n: nat, taken: set<Id>)
    requires CollisionFree(h) && FirstCandidate(h, m, first) && n >= 1 && Candidate(h, m, first, n) in taken
    ensures |taken - Tried(h, m, first, n + 1)| < |taken - Tried(h, m, first, n)|
  {
    var c := Candidate(h, m, first, n);
    CandidateIsNew(h, m, first, n);
    var a, b := taken - Tried(h, m, first, n + 1), taken - Tried(h, m, first, n);
    assert Tried(h, m, first, n + 1) == Tried(h, m, first, n) + {c};
    assert a + {c} == b;
  }

  /** The first candidate that is not taken; every taken candidate uses up one taken id. */
  function FreeId(h: Hashes, m: Message, first: Id, n: nat, taken: set<Id>): (id: Id)
    requires CollisionFree(h) && FirstCandidate(h, m, first) && n >= 1
    ensures id !in taken && id != NO_ID
    decreases |taken - Tried(h, m, first, n)|
  {
    var c := Candidate(h, m, first, n);
    if c !in taken then c
    else
      FewerLeft(h, m, first, n, taken);
      FreeId(h, m, first, n + 1, taken)
  }

  lemma {:induction false} FreeIdIsHashed(h: Hashes, m: Message, first: Id, n: nat, taken: set<Id>)
    requires CollisionFree(h) && FirstCandidate(h, m, first) && n >= 1
    ensures FreeId(h, m, first, n, taken) == first || exists k: nat :: FreeId(h, m, first, n, taken) == h.legacy(m.key, m.sourcePk, k)
    decreases |taken - Tried(h, m, first, n)|
  {
    hide CollisionFree, FirstCandidate;
    if Candidate(h, m, first, n) in taken {
      FewerLeft(h, m, first, n, taken);
      FreeIdIsHashed(h, m, first, n + 1, taken);
    }
  }

  method FindFreeId(h: Hashes, m: Message, first: Id, taken: set<Id>) returns (id: Id)
    requires CollisionFree(h) && FirstCandidate(h, m, first)
    ensures id == FreeId(h, m, first, 1, taken)
  {
    id := first;
    var suffix: nat := 1;
    while id in taken
      invariant suffix >= 1 && id == Candidate(h, m, first, suffix)
      invariant FreeId(h, m, first, 1, taken) == FreeId(h, m, first, suffix, taken)
      decreases |taken - Tried(h, m, first, suffix)|
    {
      FewerLeft(h, m, first, suffix, taken);
      id := h.legacy(m.key, m.sourcePk, suffix);
      suffix := suffix + 1;
    }
  }

  // Choosing an id for one message.

  /** Rows stored for a Telegram message. */
  function Family(table: Table, k: Key): (ids: set<Id>) {
    set id | id in table && table[id].key == k
  }

  function Matches(table: Table, k: Key, pk: int): (ids: set<Id>) {
    set id | id in table && table[id].key == k && table[id].sourcePk == pk
  }

  lemma FirstExists(ids: set<Id>)
    requires ids != {}
    ensures exists id :: id in ids && forall x :: x in ids && x != id ==> LexLess(id, x)
  {
    hide LexLess;
    LexOrders(ids);
    var id := Greatest(Reverse(LexLess), ids);
  }

  /** The first of some ids, in id order. */
  ghost function First(ids: set<Id>): (id: Id)
    requires ids != {}
    ensures id in ids && forall x :: x in ids && x != id ==> LexLess(id, x)
  {
    FirstExists(ids);
    var id :| id in ids && forall x :: x in ids && x != id ==> LexLess(id, x);
    id
  }

  lemma FirstUnique(ids: set<Id>, a: Id)
    requires a in ids && forall x :: x in ids && x != a ==> LexLess(a, x)
    ensures First(ids) == a
  {
    LexAsymmetric(a, First(ids));
  }

  /** How many messages of a batch lack an id under one key. */
  function MissingCount(ms: seq<Message>, k: Key): nat {
    if ms == [] then 0
    else
      var last := ms[|ms| - 1];
      MissingCount(ms[..|ms| - 1], k) + if last.eventId == NO_ID && last.key == k then 1 else 0
  }

  /** A batch is imported beside a stored table, or is a snapshot of its own. */
  datatype Batch = Imported(messages: seq<Message>, table: Table) | Legacy(messages: seq<Message>)

  function FirstId(h: Hashes, m: Message, several: bool): Id {
    if several then h.legacy(m.key, m.sourcePk, 0) else h.stable(m.key)
  }

  /** The id given to a message of an imported batch, when `used` ids are given already. */
  ghost function ImportedId(h: Hashes, ms: seq<Message>, table: Table, m: Message, used: set<Id>): Id
    requires CollisionFree(h)
  {
    var family, matches := Family(table, m.key), Matches(table, m.key, m.sourcePk);
    if |family| == 1 && MissingCount(ms, m.key) == 1 then First(family)
    else if matches != {} then First(matches)
    else FreeId(h, m, FirstId(h, m, MissingCount(ms, m.key) > 1 || |family| > 1), 1, used + table.Keys)
  }

  /** The id given to a message of a legacy snapshot. */
  function LegacyId(h: Hashes, ms: seq<Message>, m: Message, used: set<Id>): Id
    requires CollisionFree(h)
  {
    FreeId(h, m, FirstId(h, m, MissingCount(ms, m.key) > 1), 1, used)
  }

  ghost function NextId(h: Hashes, batch: Batch, m: Message, used: set<Id>): Id
    requires CollisionFree(h)
  {
    match batch
    case Imported(ms, table) => ImportedId(h, ms, table, m, used)
    case Legacy(ms) => LegacyId(h, ms, m, used)
  }

  // Whole batches.

  datatype Assigned = Assigned(ids: map<nat, Id>, used: set<Id>)

  /** Ids the batch brings with it. */
  function GivenIds(ms: seq<Message>): set<Id> {
    set m | m in ms && m.eventId != NO_ID :: m.eventId
  }

  /** Indexes into a batch. */
  predicate Indexes(order: seq<nat>, n: nat) {
    forall k :: 0 <= k < |order| ==> order[k] < n
  }

  /** The messages at the indexes of `order`, one after another. */
  ghost function AssignAll(h: Hashes, batch: Batch, order: seq<nat>): (a: Assigned)
    requires CollisionFree(h) && Indexes(order, |batch.messages|)
  {
    if order == [] then Assigned(map[], GivenIds(batch.messages))
    else
      var a, i := AssignAll(h, batch, order[..|order| - 1]), order[|order| - 1];
      var id := NextId(h, batch, batch.messages[i], a.used);
      Assigned(a.ids[i := id], a.used + {id})
  }

  /** Indexes of the messages without an id. */
  function Missing(ms: seq<Message>): (order: seq<nat>)
    ensures Indexes(order, |ms|) && Distinct(order)
    ensures forall i: nat :: i in order <==> i < |ms| && ms[i].eventId == NO_ID
  {
    if ms == [] then []
    else
      var rest, n := Missing(ms[..|ms| - 1]), |ms| - 1;
      if ms[n].eventId == NO_ID then rest + [n] else rest
  }

  predicate KeyLess(a: Key, b: Key) {
    LexLess(a.chat, b.chat) || (a.chat == b.chat && LexLess(a.messageId, b.messageId))
  }

  /** Imported batches go by chat, message, source id; legacy ones by source id, chat, message. */
  predicate Earlier(batch: Batch, a: Message, b: Message) {
    if batch.Imported? then KeyLess(a.key, b.key) || (a.key == b.key && a.sourcePk < b.sourcePk)
    else a.sourcePk < b.sourcePk || (a.sourcePk == b.sourcePk && KeyLess(a.key, b.key))
  }

  function IndexOrder(batch: Batch): Order<nat> {
    (i: nat, j: nat) => i < |batch.messages| && j < |batch.messages| && Earlier(batch, batch.messages[i], batch.messages[j])
  }

  /** The order of assignment: a stable sort of the indexes without an id. */
  function OrderOf(batch: Batch): (order: seq<nat>)
    ensures Indexes(order, |batch.messages|) && Distinct(order)
    ensures forall i: nat :: i in order <==> i < |batch.messages| && batch.messages[i].eventId == NO_ID
  {
    var missing := Missing(batch.messages);
    SortKeeps(IndexOrder(batch), missing);
    SortDistinct(IndexOrder(batch), missing);
    var order := SortBy(IndexOrder(batch), missing);
    assert forall i: nat :: i in order <==> i in Elements(order);
    assert forall k :: 0 <= k < |order| ==> order[k] in order;
    order
  }

  ghost function Ids(h: Hashes, batch: Batch): (ids: map<nat, Id>)
    requires CollisionFree(h)
  {
    AssignAll(h, batch, OrderOf(batch)).ids
  }

  /** Some messages with the ids they were given. */
  function WithIds(ms: seq<Message>, ids: map<nat, Id>): (out: seq<Message>)
    ensures |out| == |ms|
  {
    seq(|ms|, i requires 0 <= i < |ms| => if i in ids then ms[i].(eventId := ids[i]) else ms[i])
  }

  /** The batch with every message identified. */
  ghost function Normalized(h: Hashes, batch: Batch): (ms: seq<Message>)
    requires CollisionFree(h)
    ensures |ms| == |batch.messages|
  {
    WithIds(batch.messages, Ids(h, batch))
  }

  // Facts about one run.

  lemma {:induction false} AssignedIndexes(h: Hashes, batch: Batch, order: seq<nat>)
    requires CollisionFree(h) && Indexes(order, |batch.messages|)
    ensures forall i: nat :: i in AssignAll(h, batch, order).ids <==> i in order
  {
    hide NextId;
    if order != [] {
      AssignedIndexes(h, batch, order[..|order| - 1]);
      assert order == order[..|order| - 1] + [order[|order| - 1]];
    }
  }

  /** A message keeps the id it was given when its turn came. */
  lemma {:induction false} IdAt(h: Hashes, batch: Batch, order: seq<nat>, a: nat)
    requires CollisionFree(h) && Indexes(order, |batch.messages|) && Distinct(order) && a < |order|
    ensures order[a] in AssignAll(h, batch, order).ids
    ensures AssignAll(h, batch, order).ids[order[a]] ==
      NextId(h, batch, batch.messages[order[a]], AssignAll(h, batch, order[..a]).used)
    decreases |order|
  {
    hide NextId;
    if a < |order| - 1 {
      var init := order[..|order| - 1];
      assert init[..a] == order[..a];
      IdAt(h, batch, init, a);
    }
  }

  /** Ids given earlier are used. */
  lemma {:induction false} UsedBefore(h: Hashes, batch: Batch, order: seq<nat>, n: nat)
    requires CollisionFree(h) && Indexes(order, |batch.messages|) && n <= |order|
    ensures AssignAll(h, batch, order[..n]).used <= AssignAll(h, batch, order).used
    ensures GivenIds(batch.messages) <= AssignAll(h, batch, order).used
    decreases |order|
  {
    hide NextId, GivenIds;
    if n < |order| {
      assert order[..|order| - 1][..n] == order[..n];
      UsedBefore(h, batch, order[..|order| - 1], n);
    } else {
      assert order[..n] == order;
      if order != [] {
        UsedBefore(h, batch, order[..|order| - 1], 0);
      }
    }
  }

  lemma GivenIdUsed(h: Hashes, batch: Batch, order: seq<nat>, a: nat, b: nat)
    requires CollisionFree(h) && Indexes(order, |batch.messages|) && Distinct(order) && a < b < |order|
    ensures order[a] in AssignAll(h, batch, order).ids
    ensures AssignAll(h, batch, order).ids[order[a]] in AssignAll(h, batch, order[..b]).used
  {
    hide NextId;
    IdAt(h, batch, order, a);
    var upTo := order[..a + 1];
    assert upTo[..a] == order[..a];
    assert order[..b][..a + 1] == upTo;
    UsedBefore(h, batch, order[..b], a + 1);
  }

  /** How a message came by its id: from the stored rows of its own family, or fresh. */
  ghost predicate Chosen(batch: Batch, m: Message, used: set<Id>, id: Id) {
    || (id !in used && id != NO_ID && (batch.Imported? ==> id !in batch.table))
    || (batch.Imported? && id in batch.table && batch.table[id].key == m.key
        && (batch.table[id].sourcePk == m.sourcePk || MissingCount(batch.messages, m.key) == 1))
  }

  lemma NextIdChosen(h: Hashes, batch: Batch, m: Message, used: set<Id>)
    requires CollisionFree(h)
    ensures Chosen(batch, m, used, NextId(h, batch, m, used))
  {
    hide LexLess, MissingCount, CollisionFree;
  }

  lemma {:induction false} CountTwice(ms: seq<Message>, k: Key, i: nat, j: nat)
    requires i < j < |ms| && ms[i].eventId == NO_ID && ms[j].eventId == NO_ID && ms[i].key == ms[j].key == k
    ensures MissingCount(ms, k) >= 2
  {
    if j < |ms| - 1 {
      CountTwice(ms[..|ms| - 1], k, i, j);
    } else {
      CountOnce(ms[..|ms| - 1], k, i);
    }
  }

  lemma {:induction false} CountOnce(ms: seq<Message>, k: Key, i: nat)
    requires i < |ms| && ms[i].eventId == NO_ID && ms[i].key == k
    ensures MissingCount(ms, k) >= 1
  {
    if i < |ms| - 1 {
      CountOnce(ms[..|ms| - 1], k, i);
    }
  }

  /** Messages without an id have distinct chat, message and source id. */
  ghost predicate DistinctSources(ms: seq<Message>) {
    forall i, j :: 0 <= i < j < |ms| && ms[i].eventId == NO_ID && ms[j].eventId == NO_ID ==>
      ms[i].key != ms[j].key || ms[i].sourcePk != ms[j].sourcePk
  }

  lemma TwoIds(h: Hashes, batch: Batch, a: nat, b: nat)
    requires CollisionFree(h) && DistinctSources(batch.messages) && a < b < |OrderOf(batch)|
    ensures var order, ids := OrderOf(batch), Ids(h, batch);
      order[a] in ids && order[b] in ids && ids[order[a]] != ids[order[b]]
  {
    hide NextId, OrderOf, MissingCount, CollisionFree;
    var order := OrderOf(batch);
    var i, j := order[a], order[b];
    assert i in order && j in order;
    IdAt(h, batch, order, a);
    IdAt(h, batch, order, b);
    GivenIdUsed(h, batch, order, a, b);
    NextIdChosen(h, batch, batch.messages[i], AssignAll(h, batch, order[..a]).used);
    NextIdChosen(h, batch, batch.messages[j], AssignAll(h, batch, order[..b]).used);
    if batch.messages[i].key == batch.messages[j].key {
      CountTwice(batch.messages, batch.messages[i].key, if i < j then i else j, if i < j then j else i);
    }
  }

  /**
   An imported batch without ids gets pairwise distinct, non-empty ids, none of which belongs to a stored row of another
   message.
   */
  lemma ImportedIdsInjective(h: Hashes, ms: seq<Message>, table: Table, i: nat, j: nat)
    requires CollisionFree(h) && DistinctSources(ms) && GivenIds(ms) == {} && i < |ms| && j < |ms|
    ensures var out := Normalized(h, Imported(ms, table));
      && (out[i].eventId == out[j].eventId ==> i == j)
      && (out[i].eventId in table ==> table[out[i].eventId].key == ms[i].key)
      && (NO_ID !in table ==> out[i].eventId != NO_ID)
  {
    hide NextId, OrderOf, MissingCount, CollisionFree, AssignAll, DistinctSources, GivenIds;
    var batch := Imported(ms, table);
    var order := OrderOf(batch);
    NoneGiven(ms, i);
    NoneGiven(ms, j);
    assert i in order && j in order;
    var a, b :| 0 <= a < |order| && order[a] == i && 0 <= b < |order| && order[b] == j;
    AssignedIndexes(h, batch, order);
    IdAt(h, batch, order, a);
    NextIdChosen(h, batch, ms[i], AssignAll(h, batch, order[..a]).used);
    if a < b {
      TwoIds(h, batch, a, b);
    } else if b < a {
      TwoIds(h, batch, b, a);
    }
  }

  /** Whatever the batch, ids never cross from one Telegram message to another. */
  lemma ImportedIdsStayInFamily(h: Hashes, ms: seq<Message>, table: Table, i: nat, j: nat)
    requires CollisionFree(h) && GivenIds(ms) == {} && i < |ms| && j < |ms|
    ensures var out := Normalized(h, Imported(ms, table));
      && (out[i].eventId in table ==> table[out[i].eventId].key == ms[i].key)
      && (out[i].eventId == out[j].eventId ==> ms[i].key == ms[j].key)
  {
    hide NextId, OrderOf, MissingCount, CollisionFree, AssignAll, GivenIds;
    var batch := Imported(ms, table);
    var order := OrderOf(batch);
    NoneGiven(ms, i);
    NoneGiven(ms, j);
    assert i in order && j in order;
    var a, b :| 0 <= a < |order| && order[a] == i && 0 <= b < |order| && order[b] == j;
    AssignedIndexes(h, batch, order);
    IdAt(h, batch, order, a);
    IdAt(h, batch, order, b);
    NextIdChosen(h, batch, ms[i], AssignAll(h, batch, order[..a]).used);
    NextIdChosen(h, batch, ms[j], AssignAll(h, batch, order[..b]).used);
    if a < b {
      GivenIdUsed(h, batch, order, a, b);
    } else if b < a {
      GivenIdUsed(h, batch, order, b, a);
    }
  }

  lemma NoneGiven(ms: seq<Message>, i: nat)
    requires GivenIds(ms) == {} && i < |ms|
    ensures ms[i].eventId == NO_ID
  {
    assert forall m :: m in ms && m.eventId != NO_ID ==> m.eventId in GivenIds(ms);
    assert ms[i] in ms;
  }

  // Batches of which some messages bring ids.

  /** The stored id that a message of an imported batch takes, if any: the only one of its family, or one of its source. */
  ghost function StoredChoice(ms: seq<Message>, table: Table, m: Message): Option<Id> {
    var family, matches := Family(table, m.key), Matches(table, m.key, m.sourcePk);
    if |family| == 1 && MissingCount(ms, m.key) == 1 then Some(First(family))
    else if matches != {} then Some(First(matches))
    else None
  }

  /** The turn of message `i`: a stored id, or one that neither the batch nor the table has. */
  lemma MixedTurn(h: Hashes, ms: seq<Message>, table: Table, i: nat)
    requires CollisionFree(h) && i < |ms|
    ensures var out, c := Normalized(h, Imported(ms, table)), StoredChoice(ms, table, ms[i]);
      && (ms[i].eventId != NO_ID ==> out[i] == ms[i])
      && (ms[i].eventId == NO_ID && c.Some? ==> out[i].eventId == c.value)
      && (ms[i].eventId == NO_ID && c.None? ==> out[i].eventId !in GivenIds(ms))
  {
    hide OrderOf, MissingCount, CollisionFree, AssignAll, GivenIds, LexLess;
    var batch := Imported(ms, table);
    var order := OrderOf(batch);
    AssignedIndexes(h, batch, order);
    if ms[i].eventId == NO_ID {
      assert i in order;
      var a :| 0 <= a < |order| && order[a] == i;
      IdAt(h, batch, order, a);
      UsedBefore(h, batch, order[..a], 0);
    }
  }

  lemma MissingDiffer(h: Hashes, ms: seq<Message>, table: Table, i: nat, j: nat)
    requires CollisionFree(h) && DistinctSources(ms) && i < j < |ms| && ms[i].eventId == NO_ID && ms[j].eventId == NO_ID
    ensures var out := Normalized(h, Imported(ms, table)); out[i].eventId != out[j].eventId
  {
    hide NextId, OrderOf, MissingCount, CollisionFree, AssignAll, DistinctSources, GivenIds;
    var batch := Imported(ms, table);
    var order := OrderOf(batch);
    assert i in order && j in order;
    var a, b :| 0 <= a < |order| && order[a] == i && 0 <= b < |order| && order[b] == j;
    if a < b {
      TwoIds(h, batch, a, b);
    } else {
      TwoIds(h, batch, b, a);
    }
  }

  ghost predicate DistinctIds(ms: seq<Message>) {
    forall i, j :: 0 <= i < j < |ms| ==> ms[i].eventId != ms[j].eventId
  }

  /** No message without an id takes a stored id that another message of the batch brings. */
  ghost predicate NoneTaken(ms: seq<Message>, table: Table) {
    forall m :: m in ms && m.eventId == NO_ID && StoredChoice(ms, table, m).Some? ==>
      StoredChoice(ms, table, m).value !in GivenIds(ms)
  }

  /** A batch whose own ids are distinct gets pairwise distinct ids exactly when none of them is also taken from the store. */
  lemma MixedIdsDistinctExactly(h: Hashes, ms: seq<Message>, table: Table)
    requires CollisionFree(h) && DistinctSources(ms)
    requires forall i, j :: 0 <= i < j < |ms| && ms[i].eventId != NO_ID ==> ms[i].eventId != ms[j].eventId
    ensures DistinctIds(Normalized(h, Imported(ms, table))) <==> NoneTaken(ms, table)
  {
    hide Normalized, CollisionFree, DistinctSources, StoredChoice;
    var out := Normalized(h, Imported(ms, table));
    if NoneTaken(ms, table) {
      forall i, j | 0 <= i < j < |ms| ensures out[i].eventId != out[j].eventId {
        MixedPair(h, ms, table, i, j);
      }
    } else {
      var m :| m in ms && m.eventId == NO_ID && StoredChoice(ms, table, m).Some? && StoredChoice(ms, table, m).value in GivenIds(ms);
      var i :| 0 <= i < |ms| && ms[i] == m;
      var j :| 0 <= j < |ms| && ms[j].eventId != NO_ID && ms[j].eventId == StoredChoice(ms, table, m).value;
      MixedTurn(h, ms, table, i);
      MixedTurn(h, ms, table, j);
    }
  }

  lemma MixedPair(h: Hashes, ms: seq<Message>, table: Table, i: nat, j: nat)
    requires CollisionFree(h) && DistinctSources(ms) && NoneTaken(ms, table) && i < j < |ms|
    requires ms[i].eventId != NO_ID ==> ms[i].eventId != ms[j].eventId
    ensures Normalized(h, Imported(ms, table))[i].eventId != Normalized(h, Imported(ms, table))[j].eventId
  {
    hide Normalized, CollisionFree, DistinctSources, StoredChoice;
    MixedTurn(h, ms, table, i);
    MixedTurn(h, ms, table, j);
    assert ms[i] in ms && ms[j] in ms;
    if ms[i].eventId == NO_ID && ms[j].eventId == NO_ID {
      MissingDiffer(h, ms, table, i, j);
    }
  }

  /** One stored row, and a batch that brings its id and has another message of the same family: both get that id. */
  lemma MixedBatchCollides(h: Hashes, k: Key, x: Id)
    requires CollisionFree(h) && x != NO_ID
    ensures var ms := [Message(x, k, 1), Message(NO_ID, k, 2)];
      var out := Normalized(h, Imported(ms, map[x := Stored(k, 1)]));
      out[0].eventId == x && out[1].eventId == x
  {
    hide CollisionFree, Normalized;
    var ms, table := [Message(x, k, 1), Message(NO_ID, k, 2)], map[x := Stored(k, 1)];
    MixedTurn(h, ms, table, 0);
    MixedTurn(h, ms, table, 1);
    assert ms[..1] == [ms[0]] && ms[..1][..0] == [];
    assert MissingCount(ms[..1], k) == 0;
    assert Family(table, k) == {x};
    FirstUnique({x}, x);
  }

  /** A message that has an id keeps it. */
  lemma GivenIdStays(h: Hashes, ms: seq<Message>, i: nat)
    requires CollisionFree(h) && i < |ms| && ms[i].eventId != NO_ID
    ensures Normalized(h, Legacy(ms))[i] == ms[i]
  {
    hide NextId, OrderOf, MissingCount, CollisionFree, AssignAll;
    AssignedIndexes(h, Legacy(ms), OrderOf(Legacy(ms)));
  }

  /**
   Legacy assignment keeps the ids a snapshot has, and gives each message without one a non-empty id used by no other
   message.
   */
  lemma LegacyIdsFresh(h: Hashes, ms: seq<Message>, i: nat, j: nat)
    requires CollisionFree(h) && DistinctSources(ms) && i < |ms| && j < |ms| && i != j
    ensures var out := Normalized(h, Legacy(ms));
      && out[i].key == ms[i].key && out[i].sourcePk == ms[i].sourcePk && out[i].eventId != NO_ID
      && (ms[i].eventId != NO_ID ==> out[i] == ms[i])
      && (ms[i].eventId == NO_ID ==> out[i].eventId != out[j].eventId)
  {
    hide NextId, OrderOf, MissingCount, CollisionFree, AssignAll;
    var batch := Legacy(ms);
    var order := OrderOf(batch);
    AssignedIndexes(h, batch, order);
    if ms[i].eventId == NO_ID {
      assert i in order;
      var a :| 0 <= a < |order| && order[a] == i;
      IdAt(h, batch, order, a);
      NextIdChosen(h, batch, ms[i], AssignAll(h, batch, order[..a]).used);
      if ms[j].eventId == NO_ID {
        assert j in order;
        var b :| 0 <= b < |order| && order[b] == j;
        if a < b {
          TwoIds(h, batch, a, b);
        } else {
          TwoIds(h, batch, b, a);
        }
      } else {
        assert ms[j].eventId in GivenIds(ms);
        UsedBefore(h, batch, order[..a], 0);
      }
    }
  }

  // Importing the same batch again.

  /** The table after storing identified messages. */
  function Store(table: Table, ms: seq<Message>): (t: Table) {
    if ms == [] then table
    else
      var last := ms[|ms| - 1];
      Store(table, ms[..|ms| - 1])[last.eventId := Stored(last.key, last.sourcePk)]
  }

  lemma {:induction false} StoredRows(table: Table, ms: seq<Message>, id: Id)
    requires forall i, j :: 0 <= i < j < |ms| ==> ms[i].eventId != ms[j].eventId
    ensures forall i :: 0 <= i < |ms| && ms[i].eventId == id ==>
      id in Store(table, ms) && Store(table, ms)[id] == Stored(ms[i].key, ms[i].sourcePk)
    ensures (forall i :: 0 <= i < |ms| ==> ms[i].eventId != id) ==>
      (id in Store(table, ms) <==> id in table) && (id in table ==> Store(table, ms)[id] == table[id])
  {
    if ms != [] {
      StoredRows(table, ms[..|ms| - 1], id);
    }
  }

  lemma {:induction false} SameCounts(ms: seq<Message>, again: seq<Message>, k: Key)
    requires |again| == |ms|
    requires forall i :: 0 <= i < |ms| ==> ms[i].eventId == again[i].eventId == NO_ID && again[i].key == ms[i].key
    ensures MissingCount(again, k) == MissingCount(ms, k)
  {
    if ms != [] {
      SameCounts(ms[..|ms| - 1], again[..|ms| - 1], k);
    }
  }

  /** The id of message `i`, with the ids that were used when its turn came. */
  lemma TurnOf(h: Hashes, batch: Batch, i: nat) returns (used: set<Id>)
    requires CollisionFree(h) && i < |batch.messages| && batch.messages[i].eventId == NO_ID
    ensures Normalized(h, batch)[i].eventId == NextId(h, batch, batch.messages[i], used)
    ensures Normalized(h, batch)[i].key == batch.messages[i].key
    ensures Normalized(h, batch)[i].sourcePk == batch.messages[i].sourcePk
  {
    hide NextId, OrderOf, MissingCount, CollisionFree, AssignAll;
    var order := OrderOf(batch);
    assert i in order;
    var a :| 0 <= a < |order| && order[a] == i;
    IdAt(h, batch, order, a);
    used := AssignAll(h, batch, order[..a]).used;
  }

  /** A batch imported once, and the same messages again; the source id of a lone message may have changed. */
  ghost predicate Reimported(ms: seq<Message>, again: seq<Message>, table: Table) {
    && |again| == |ms|
    && (forall i :: 0 <= i < |ms| ==> ms[i].eventId == again[i].eventId == NO_ID && again[i].key == ms[i].key)
    && (forall i :: 0 <= i < |ms| && again[i].sourcePk != ms[i].sourcePk ==>
          MissingCount(ms, ms[i].key) == 1 && |Family(table, ms[i].key)| == 1)
  }

  /** Importing the same batch again assigns the same ids. */
  lemma ReimportKeepsIds(h: Hashes, ms: seq<Message>, table: Table, again: seq<Message>, i: nat)
    requires CollisionFree(h) && DistinctSources(ms) && GivenIds(ms) == {} && NO_ID !in table && i < |ms|
    requires Reimported(ms, again, Store(table, Normalized(h, Imported(ms, table))))
    ensures var table' := Store(table, Normalized(h, Imported(ms, table)));
      Normalized(h, Imported(again, table'))[i].eventId == Normalized(h, Imported(ms, table))[i].eventId
  {
    hide Normalized, MissingCount, CollisionFree, FreeId, FirstId, Store, LexLess, Matches, Family, First, DistinctSources,
      ImportedId;
    var batch := Imported(ms, table);
    var out := Normalized(h, batch);
    var table' := Store(table, out);
    var next := Imported(again, table');
    var used := TurnOf(h, batch, i);
    var used' := TurnOf(h, next, i);
    SameCounts(ms, again, ms[i].key);
    DistinctOut(h, ms, table);
    SameChoice(h, ms, table, out, i, again[i], used, used', again);
  }

  lemma DistinctOut(h: Hashes, ms: seq<Message>, table: Table)
    requires CollisionFree(h) && DistinctSources(ms) && GivenIds(ms) == {}
    ensures var out := Normalized(h, Imported(ms, table));
      && (forall i, j :: 0 <= i < j < |out| ==> out[i].eventId != out[j].eventId)
      && (forall i :: 0 <= i < |out| ==> out[i].key == ms[i].key && out[i].sourcePk == ms[i].sourcePk)
  {
    hide Normalized, MissingCount, CollisionFree, DistinctSources;
    var out := Normalized(h, Imported(ms, table));
    forall i, j | 0 <= i < j < |out| ensures out[i].eventId != out[j].eventId {
      ImportedIdsInjective(h, ms, table, i, j);
    }
    forall i | 0 <= i < |out| ensures out[i].key == ms[i].key && out[i].sourcePk == ms[i].sourcePk {
      NoneGiven(ms, i);
      var used := TurnOf(h, Imported(ms, table), i);
    }
  }

  /** After storing, the row of message `i` is the first that matches it again. */
  lemma SameChoice(h: Hashes, ms: seq<Message>, table: Table, out: seq<Message>, i: nat, m: Message, used: set<Id>, used': set<Id>,
                   again: seq<Message>)
    requires CollisionFree(h) && DistinctSources(ms) && GivenIds(ms) == {} && i < |ms| == |out|
    requires forall a, b :: 0 <= a < b < |out| ==> out[a].eventId != out[b].eventId
    requires forall a :: 0 <= a < |out| ==> out[a].key == ms[a].key && out[a].sourcePk == ms[a].sourcePk
    requires out[i].eventId == ImportedId(h, ms, table, ms[i], used)
    requires m.key == ms[i].key && MissingCount(again, m.key) == MissingCount(ms, m.key)
    requires m.sourcePk != ms[i].sourcePk ==> MissingCount(ms, m.key) == 1 && |Family(Store(table, out), m.key)| == 1
    ensures ImportedId(h, again, Store(table, out), m, used') == out[i].eventId
  {
    hide MissingCount, CollisionFree, FreeId, FirstId, Store, LexLess;
    var t, x := Store(table, out), out[i].eventId;
    StoredRows(table, out, x);
    var family, matches := Family(t, m.key), Matches(t, m.key, m.sourcePk);
    assert x in family;
    if |family| == 1 && MissingCount(again, m.key) == 1 {
      assert family == {x} by {
        assert |family - {x}| == 0;
      }
    } else {
      assert x in matches;
      forall y | y in matches && y != x ensures LexLess(x, y) {
        StoredRows(table, out, y);
        if j :| 0 <= j < |out| && out[j].eventId == y {
          NoneGiven(ms, i);
          NoneGiven(ms, j);
        } else {
          assert y in Matches(table, m.key, m.sourcePk) && y in Family(table, m.key);
          LoneFamily(Family(table, m.key), y);
        }
      }
      FirstUnique(matches, x);
    }
  }

  lemma LoneFamily(ids: set<Id>, y: Id)
    requires y in ids
    ensures |ids| == 1 ==> First(ids) == y
  {
    assert |ids - {y}| == |ids| - 1;
  }

  // Legacy assignment does not depend on slice order.

  function MissingOf(ms: seq<Message>): (missing: set<Message>) {
    set m | m in ms && m.eventId == NO_ID
  }

  function MissingUnder(ms: seq<Message>, k: Key): set<Message> {
    set m | m in ms && m.eventId == NO_ID && m.key == k
  }

  lemma UnderGrows(ms: seq<Message>, m: Message, k: Key)
    requires DistinctSources(ms + [m])
    ensures |MissingUnder(ms + [m], k)| == |MissingUnder(ms, k)| + if m.eventId == NO_ID && m.key == k then 1 else 0
  {
    var all := ms + [m];
    assert forall x :: x in all <==> x in ms || x == m;
    var a, b := MissingUnder(ms, k), MissingUnder(all, k);
    if m.eventId == NO_ID && m.key == k {
      assert b == a + {m};
      assert all[|ms|] == m && forall n :: 0 <= n < |ms| ==> all[n] == ms[n];
    } else {
      assert b == a;
    }
  }

  lemma {:induction false} MissingCountIsSize(ms: seq<Message>, k: Key)
    requires DistinctSources(ms)
    ensures MissingCount(ms, k) == |MissingUnder(ms, k)|
  {
    hide MissingUnder;
    if ms == [] {
      NothingUnder(k);
    } else {
      var init, last := ms[..|ms| - 1], ms[|ms| - 1];
      assert ms == init + [last];
      assert DistinctSources(init);
      MissingCountIsSize(init, k);
      UnderGrows(init, last, k);
    }
  }

  lemma NothingUnder(k: Key)
    ensures MissingUnder([], k) == {}
  {
  }

  lemma SameMissing(ms: seq<Message>, other: seq<Message>, k: Key)
    requires DistinctSources(ms) && DistinctSources(other) && (forall m :: m in ms <==> m in other)
    ensures MissingCount(ms, k) == MissingCount(other, k) && GivenIds(ms) == GivenIds(other)
  {
    MissingCountIsSize(ms, k);
    MissingCountIsSize(other, k);
    assert MissingUnder(ms, k) == MissingUnder(other, k);
  }

  function MessageOrder(batch: Batch): Order<Message> {
    (a, b) => Earlier(batch, a, b)
  }

  lemma KeyStrict(a: Key, b: Key, c: Key)
    ensures !KeyLess(a, a) && (a != b ==> KeyLess(a, b) || KeyLess(b, a))
    ensures KeyLess(a, b) && KeyLess(b, c) ==> KeyLess(a, c)
  {
    hide LexLess;
    LexOrders({a.chat, b.chat, c.chat});
    LexOrders({a.messageId, b.messageId, c.messageId});
  }

  lemma EarlierStrict(batch: Batch, a: Message, b: Message, c: Message)
    ensures !Earlier(batch, a, a)
    ensures a.key != b.key || a.sourcePk != b.sourcePk ==> Earlier(batch, a, b) || Earlier(batch, b, a)
    ensures Earlier(batch, a, b) && Earlier(batch, b, c) ==> Earlier(batch, a, c)
  {
    hide KeyLess;
    KeyStrict(a.key, b.key, c.key);
  }

  /** Messages without ids are strictly ordered when their sources are distinct. */
  lemma MessageOrders(batch: Batch)
    requires DistinctSources(batch.messages)
    ensures Orders(MessageOrder(batch), MissingOf(batch.messages))
  {
    hide Earlier;
    var S := MissingOf(batch.messages);
    forall a | a in S ensures !Earlier(batch, a, a) {
      EarlierStrict(batch, a, a, a);
    }
    forall a, b | a in S && b in S && a != b ensures Earlier(batch, a, b) || Earlier(batch, b, a) {
      EarlierStrict(batch, a, b, b);
    }
    forall a, b, c | a in S && b in S && c in S && Earlier(batch, a, b) && Earlier(batch, b, c) ensures Earlier(batch, a, c) {
      EarlierStrict(batch, a, b, c);
    }
  }

  /** The messages in the order they get their ids. */
  function Processed(batch: Batch): (ms: seq<Message>) {
    var order := OrderOf(batch);
    seq(|order|, k requires 0 <= k < |order| => batch.messages[order[k]])
  }

  lemma ProcessedSorted(batch: Batch)
    requires DistinctSources(batch.messages)
    ensures Ascending(MessageOrder(batch), Processed(batch)) && Elements(Processed(batch)) == MissingOf(batch.messages)
  {
    hide Earlier;
    var missing := Missing(batch.messages);
    var less := IndexOrder(batch);
    IndexesOrdered(batch);
    SortAscending(less, missing);
    var order, done := OrderOf(batch), Processed(batch);
    forall i, j | 0 <= i < j < |done| ensures Earlier(batch, done[i], done[j]) {
      assert less(order[i], order[j]);
    }
    forall m ensures m in done <==> m in MissingOf(batch.messages) {
      if m in MissingOf(batch.messages) {
        var i :| 0 <= i < |batch.messages| && batch.messages[i] == m;
        assert i in order;
        var k :| 0 <= k < |order| && order[k] == i;
        assert done[k] == m;
      }
      if m in done {
        var k :| 0 <= k < |done| && done[k] == m;
        assert order[k] in order;
      }
    }
  }

  lemma IndexesOrdered(batch: Batch)
    requires DistinctSources(batch.messages)
    ensures Orders(IndexOrder(batch), Elements(Missing(batch.messages)))
  {
    hide Earlier, Missing;
    var S, less, ms := Elements(Missing(batch.messages)), IndexOrder(batch), batch.messages;
    assert forall i: nat :: i in S ==> i < |ms| && ms[i].eventId == NO_ID;
    forall i: nat | i in S ensures !less(i, i) {
      EarlierStrict(batch, ms[i], ms[i], ms[i]);
    }
    forall i: nat, j: nat | i in S && j in S && i != j ensures less(i, j) || less(j, i) {
      EarlierStrict(batch, ms[i], ms[j], ms[j]);
    }
    forall i: nat, j: nat, k: nat | i in S && j in S && k in S && less(i, j) && less(j, k) ensures less(i, k) {
      EarlierStrict(batch, ms[i], ms[j], ms[k]);
    }
  }

  /** Runs over the same messages in the same order give the same ids. */
  lemma {:induction false} SameRun(h: Hashes, a: Batch, b: Batch, order: seq<nat>, other: seq<nat>)
    requires CollisionFree(h) && Indexes(order, |a.messages|) && Indexes(other, |b.messages|) && |order| == |other|
    requires a.Legacy? && b.Legacy? && GivenIds(a.messages) == GivenIds(b.messages)
    requires forall k :: MissingCount(a.messages, k) == MissingCount(b.messages, k)
    requires forall k :: 0 <= k < |order| ==> a.messages[order[k]] == b.messages[other[k]]
    ensures AssignAll(h, a, order).used == AssignAll(h, b, other).used
  {
    hide FreeId, FirstId, MissingCount, CollisionFree, GivenIds;
    if order != [] {
      SameRun(h, a, b, order[..|order| - 1], other[..|other| - 1]);
    }
  }

  /** A legacy snapshot's messages get the same ids however its slice is ordered. */
  lemma LegacyIdsOrderFree(h: Hashes, ms: seq<Message>, other: seq<Message>, i: nat, j: nat)
    requires CollisionFree(h) && DistinctSources(ms) && DistinctSources(other) && (forall m :: m in ms <==> m in other)
    requires i < |ms| && j < |other| && ms[i] == other[j]
    ensures Normalized(h, Legacy(ms))[i].eventId == Normalized(h, Legacy(other))[j].eventId
  {
    hide FreeId, FirstId, MissingCount, CollisionFree, GivenIds, AssignAll, OrderOf, DistinctSources, KeyLess, LegacyId;
    var a, b := Legacy(ms), Legacy(other);
    ProcessedSorted(a);
    ProcessedSorted(b);
    assert MissingOf(ms) == MissingOf(other);
    MessageOrders(a);
    SameOrderAnyBatch(a, b);
    AscendingUnique(MessageOrder(a), Processed(a), Processed(b));
    forall k ensures MissingCount(ms, k) == MissingCount(other, k) && GivenIds(ms) == GivenIds(other) {
      SameMissing(ms, other, k);
    }
    SameMissing(ms, other, ms[i].key);
    if ms[i].eventId == NO_ID {
      SameTurn(h, a, b, i, j);
    } else {
      AssignedIndexes(h, a, OrderOf(a));
      AssignedIndexes(h, b, OrderOf(b));
    }
  }

  lemma SameOrderAnyBatch(a: Batch, b: Batch)
    requires a.Legacy? && b.Legacy? && Ascending(MessageOrder(b), Processed(b))
    ensures Ascending(MessageOrder(a), Processed(b))
  {
    hide KeyLess, OrderOf, Processed;
    var s := Processed(b);
    forall i, j | 0 <= i < j < |s| ensures Earlier(a, s[i], s[j]) {
      assert MessageOrder(b)(s[i], s[j]);
    }
  }

  lemma SameTurn(h: Hashes, a: Batch, b: Batch, i: nat, j: nat)
    requires CollisionFree(h) && a.Legacy? && b.Legacy? && Processed(a) == Processed(b)
    requires GivenIds(a.messages) == GivenIds(b.messages)
    requires forall k :: MissingCount(a.messages, k) == MissingCount(b.messages, k)
    requires DistinctSources(b.messages)
    requires i < |a.messages| && j < |b.messages| && a.messages[i] == b.messages[j] && a.messages[i].eventId == NO_ID
    ensures Normalized(h, a)[i].eventId == Normalized(h, b)[j].eventId
  {
    hide FreeId, FirstId, MissingCount, CollisionFree, GivenIds, AssignAll, OrderOf;
    var order, other := OrderOf(a), OrderOf(b);
    assert i in order;
    var k :| 0 <= k < |order| && order[k] == i;
    assert |Processed(a)| == |order| && |Processed(b)| == |other|;
    forall n | 0 <= n < |order| ensures a.messages[order[n]] == b.messages[other[n]] {
      assert Processed(a)[n] == Processed(b)[n];
    }
    assert b.messages[other[k]] == b.messages[j];
    assert other[k] in other;
    assert other[k] == j;
    IdAt(h, a, order, k);
    IdAt(h, b, other, k);
    SameRun(h, a, b, order[..k], other[..k]);
    assert MissingCount(a.messages, a.messages[i].key) == MissingCount(b.messages, a.messages[i].key);
  }

  // The migration backfill.

  /** The id the backfill gives a row: hashed with its source id when the message has several rows. */
  function BackfilledId(h: Hashes, k: Key, pk: int, familySize: nat): Id {
    if familySize > 1 then h.legacy(k, pk, 0) else h.stable(k)
  }

  /** Used ids are those of other messages, each its first candidate. */
  lemma {:induction false} FirstCandidatesSuffice(h: Hashes, ms: seq<Message>, order: seq<nat>)
    requires CollisionFree(h) && DistinctSources(ms) && GivenIds(ms) == {} && Indexes(order, |ms|) && Distinct(order)
    ensures forall id :: id in AssignAll(h, Legacy(ms), order).used <==>
      exists a :: 0 <= a < |order| && id == FirstId(h, ms[order[a]], MissingCount(ms, ms[order[a]].key) > 1)
  {
    hide MissingCount, CollisionFree, DistinctSources, FirstId, FreeId, GivenIds;
    if order != [] {
      var init, n := order[..|order| - 1], |order| - 1;
      FirstCandidatesSuffice(h, ms, init);
      FirstIsFree(h, ms, init, order[n]);
      var used := AssignAll(h, Legacy(ms), init).used;
      forall id ensures id in AssignAll(h, Legacy(ms), order).used <==>
        exists a :: 0 <= a < |order| && id == FirstId(h, ms[order[a]], MissingCount(ms, ms[order[a]].key) > 1)
      {
        if a :| 0 <= a < |init| && id == FirstId(h, ms[init[a]], MissingCount(ms, ms[init[a]].key) > 1) {
          assert order[a] == init[a];
        }
        if a :| 0 <= a < |order| && id == FirstId(h, ms[order[a]], MissingCount(ms, ms[order[a]].key) > 1) && a < n {
          assert order[a] == init[a];
        }
      }
    }
  }

  /** First candidates of different messages differ. */
  lemma FirstIdsDiffer(h: Hashes, ms: seq<Message>, i: nat, j: nat)
    requires CollisionFree(h) && DistinctSources(ms) && i < |ms| && j < |ms| && i != j
    requires ms[i].eventId == ms[j].eventId == NO_ID
    ensures FirstId(h, ms[i], MissingCount(ms, ms[i].key) > 1) != FirstId(h, ms[j], MissingCount(ms, ms[j].key) > 1)
  {
    hide MissingCount;
    if ms[i].key == ms[j].key {
      CountTwice(ms, ms[i].key, if i < j then i else j, if i < j then j else i);
    }
  }

  lemma FirstIsFree(h: Hashes, ms: seq<Message>, order: seq<nat>, i: nat)
    requires CollisionFree(h) && DistinctSources(ms) && GivenIds(ms) == {} && Indexes(order, |ms|) && i < |ms| && i !in order
    requires forall id :: id in AssignAll(h, Legacy(ms), order).used <==>
      exists a :: 0 <= a < |order| && id == FirstId(h, ms[order[a]], MissingCount(ms, ms[order[a]].key) > 1)
    ensures LegacyId(h, ms, ms[i], AssignAll(h, Legacy(ms), order).used) == FirstId(h, ms[i], MissingCount(ms, ms[i].key) > 1)
  {
    hide MissingCount, GivenIds, AssignAll, CollisionFree, DistinctSources, FirstId;
    var first, used := FirstId(h, ms[i], MissingCount(ms, ms[i].key) > 1), AssignAll(h, Legacy(ms), order).used;
    if first in used {
      var a :| 0 <= a < |order| && first == FirstId(h, ms[order[a]], MissingCount(ms, ms[order[a]].key) > 1);
      assert order[a] in order;
      NoneGiven(ms, i);
      NoneGiven(ms, order[a]);
      FirstIdsDiffer(h, ms, i, order[a]);
    }
  }

  /** When every id is missing, a legacy snapshot gets row by row what the migration backfill gives. */
  lemma LegacyAgreesWithBackfill(h: Hashes, ms: seq<Message>, i: nat)
    requires CollisionFree(h) && DistinctSources(ms) && GivenIds(ms) == {} && i < |ms|
    ensures Normalized(h, Legacy(ms))[i].eventId ==
      BackfilledId(h, ms[i].key, ms[i].sourcePk, MissingCount(ms, ms[i].key))
  {
    hide MissingCount, CollisionFree, DistinctSources, FreeId, GivenIds, AssignAll, OrderOf, LegacyId;
    var batch := Legacy(ms);
    var order := OrderOf(batch);
    NoneGiven(ms, i);
    assert i in order;
    var a :| 0 <= a < |order| && order[a] == i;
    IdAt(h, batch, order, a);
    FirstCandidatesSuffice(h, ms, order[..a]);
    FirstIsFree(h, ms, order[..a], i);
  }
}
