/** Which id each message of a batch gets, in terms of keys, source ids, positions and hashes only. */
module EventIdRules {
  import opened EventIds
  import opened Ranking
  import opened TextOrder

  /** The messages of a Telegram message that lack an id. */
  function Lacking(ms: seq<Message>, k: Key): (at: set<nat>) {
    set i: nat | i < |ms| && ms[i].eventId == NO_ID && ms[i].key == k
  }

  predicate KeyBefore(a: Key, b: Key) {
    Precedes(a.chat, b.chat) || (a.chat == b.chat && Precedes(a.messageId, b.messageId))
  }

  /**
   Message `i` gets its id before `j`: by chat, message and source id in an import, by source id, chat and message in a
   legacy snapshot, and by position where all three agree.
   */
  predicate Sooner(batch: Batch, i: nat, j: nat)
    requires i < |batch.messages| && j < |batch.messages|
  {
    var a, b := batch.messages[i], batch.messages[j];
    if a.key == b.key && a.sourcePk == b.sourcePk then i < j
    else if batch.Imported? then KeyBefore(a.key, b.key) || (a.key == b.key && a.sourcePk < b.sourcePk)
    else a.sourcePk < b.sourcePk || (a.sourcePk == b.sourcePk && KeyBefore(a.key, b.key))
  }

  /** An id that message `i` cannot take: it is stored, another message brings it, or got it sooner. */
  ghost predicate Taken(batch: Batch, out: seq<Message>, i: nat, x: Id)
    requires |out| == |batch.messages| && i < |out|
  {
    || (batch.Imported? && x in batch.table)
    || exists j: nat :: j < |out| && out[j].eventId == x && if batch.messages[j].eventId == NO_ID then Sooner(batch, j, i) else true
  }

  /** The ids message `m` may take, in order of preference; a message that shares its key is hashed with its source id. */
  function Wish(h: Hashes, m: Message, shared: bool, n: nat): Id {
    if n == 0 && !shared then h.stable(m.key) else h.legacy(m.key, m.sourcePk, n)
  }

  ghost predicate TakesFree(h: Hashes, batch: Batch, out: seq<Message>, i: nat, shared: bool)
    requires |out| == |batch.messages| && i < |out|
  {
    exists n: nat :: out[i].eventId == Wish(h, batch.messages[i], shared, n) && !Taken(batch, out, i, out[i].eventId)
      && forall l: nat :: l < n ==> Taken(batch, out, i, Wish(h, batch.messages[i], shared, l))
  }

  /** The stored ids of a Telegram message, and those with one source id. */
  function StoredOf(table: Table, k: Key): set<Id> {
    set id | id in table && table[id].key == k
  }

  function StoredFrom(table: Table, k: Key, pk: int): set<Id> {
    set id | id in table && table[id].key == k && table[id].sourcePk == pk
  }

  /**
   A message alone under its key takes the only stored id of that key; otherwise the first stored id of its own source;
   otherwise the first of its wishes that is free.
   */
  ghost predicate ImportRule(h: Hashes, ms: seq<Message>, table: Table, out: seq<Message>, i: nat)
    requires |out| == |ms| && i < |ms|
  {
    var k, id := ms[i].key, out[i].eventId;
    var alone := |Lacking(ms, k)| == 1;
    if |StoredOf(table, k)| == 1 && alone then id in StoredOf(table, k)
    else if StoredFrom(table, k, ms[i].sourcePk) != {} then
      && id in StoredFrom(table, k, ms[i].sourcePk)
      && forall x :: x in StoredFrom(table, k, ms[i].sourcePk) && x != id ==> Precedes(id, x)
    else TakesFree(h, Imported(ms, table), out, i, !alone || |StoredOf(table, k)| > 1)
  }

  // The normalizers follow the rules.

  lemma {:induction false} CountIsLacking(ms: seq<Message>, k: Key)
    ensures MissingCount(ms, k) == |Lacking(ms, k)|
  {
    if ms == [] {
      assert Lacking(ms, k) == {};
    } else {
      var n := |ms| - 1;
      CountIsLacking(ms[..n], k);
      var here := if ms[n].eventId == NO_ID && ms[n].key == k then {n} else {};
      assert Lacking(ms, k) == Lacking(ms[..n], k) + here;
    }
  }

  lemma KeyBeforeIs(a: Key, b: Key)
    ensures KeyBefore(a, b) == KeyLess(a, b)
  {
    hide LexLess, Precedes;
    LexIsPrecedes(a.chat, b.chat);
    LexIsPrecedes(a.messageId, b.messageId);
  }

  lemma SoonerIs(batch: Batch, i: nat, j: nat)
    requires i < |batch.messages| && j < |batch.messages|
    ensures var a, b := batch.messages[i], batch.messages[j];
      Sooner(batch, i, j) <==> Earlier(batch, a, b) || (!Earlier(batch, b, a) && i < j)
  {
    hide KeyLess, KeyBefore;
    var a, b := batch.messages[i], batch.messages[j];
    KeyBeforeIs(a.key, b.key);
    EarlierStrict(batch, a, b, a);
    EarlierStrict(batch, a, a, a);
  }

  function SoonerOrder(batch: Batch): Order<nat> {
    (i: nat, j: nat) => i < |batch.messages| && j < |batch.messages| && Sooner(batch, i, j)
  }

  /** No two turns come at once. */
  lemma SoonerOrders(batch: Batch, S: set<nat>)
    requires forall i :: i in S ==> i < |batch.messages|
    ensures Orders(SoonerOrder(batch), S)
  {
    hide Sooner, Earlier;
    var ms, less := batch.messages, SoonerOrder(batch);
    forall i: nat | i in S ensures !less(i, i) {
      SoonerIs(batch, i, i);
      EarlierStrict(batch, ms[i], ms[i], ms[i]);
    }
    forall i: nat, j: nat | i in S && j in S && i != j ensures less(i, j) || less(j, i) {
      SoonerIs(batch, i, j);
      SoonerIs(batch, j, i);
    }
    forall i: nat, j: nat, k: nat | i in S && j in S && k in S && less(i, j) && less(j, k) ensures less(i, k) {
      SoonerChains(batch, i, j, k);
    }
  }

  lemma SoonerChains(batch: Batch, i: nat, j: nat, k: nat)
    requires i < |batch.messages| && j < |batch.messages| && k < |batch.messages|
    requires Sooner(batch, i, j) && Sooner(batch, j, k)
    ensures Sooner(batch, i, k)
  {
    hide KeyBefore, KeyLess;
    var a, b, c := batch.messages[i], batch.messages[j], batch.messages[k];
    KeyBeforeIs(a.key, b.key);
    KeyBeforeIs(b.key, c.key);
    KeyBeforeIs(a.key, c.key);
    KeyStrict(a.key, b.key, c.key);
    KeyStrict(b.key, a.key, c.key);
    KeyStrict(a.key, c.key, a.key);
  }

  lemma {:induction false} SameInsert(batch: Batch, x: nat, s: seq<nat>)
    requires x < |batch.messages| && forall k :: 0 <= k < |s| ==> s[k] < x
    ensures Insert(IndexOrder(batch), x, s) == Insert(SoonerOrder(batch), x, s)
  {
    hide Earlier, Sooner;
    if s != [] {
      SoonerIs(batch, x, s[0]);
      SameInsert(batch, x, s[1..]);
    }
  }

  /** The library sort is stable, so positions decide between equals. */
  lemma {:induction false} SameSort(batch: Batch, s: seq<nat>)
    requires Indexes(s, |batch.messages|) && forall i, j :: 0 <= i < j < |s| ==> s[i] < s[j]
    ensures SortBy(IndexOrder(batch), s) == SortBy(SoonerOrder(batch), s)
  {
    hide Earlier, Sooner, Insert;
    if s != [] {
      var init, last := s[..|s| - 1], s[|s| - 1];
      SameSort(batch, init);
      var r := SortBy(SoonerOrder(batch), init);
      SortKeeps(SoonerOrder(batch), init);
      forall k | 0 <= k < |r| ensures r[k] < last {
        assert r[k] in Elements(init);
      }
      SameInsert(batch, last, r);
    }
  }

  lemma {:induction false} MissingRises(ms: seq<Message>)
    ensures forall i, j :: 0 <= i < j < |Missing(ms)| ==> Missing(ms)[i] < Missing(ms)[j]
  {
    if ms != [] {
      MissingRises(ms[..|ms| - 1]);
    }
  }

  lemma TurnsInOrder(batch: Batch)
    ensures Ascending(SoonerOrder(batch), OrderOf(batch))
  {
    hide Missing, SortBy, Sooner;
    var missing := Missing(batch.messages);
    MissingRises(batch.messages);
    SameSort(batch, missing);
    SoonerOrders(batch, Elements(missing));
    SortAscending(SoonerOrder(batch), missing);
  }

  /** The used ids at a turn: those the batch brings, and those of the turns before. */
  lemma {:induction false} UsedExactly(h: Hashes, batch: Batch, order: seq<nat>, x: Id)
    requires CollisionFree(h) && Indexes(order, |batch.messages|) && Distinct(order)
    ensures var a := AssignAll(h, batch, order);
      x in a.used <==> x in GivenIds(batch.messages) || exists b :: 0 <= b < |order| && order[b] in a.ids && a.ids[order[b]] == x
  {
    hide NextId, GivenIds, CollisionFree;
    if order != [] {
      var init, i := order[..|order| - 1], order[|order| - 1];
      UsedExactly(h, batch, init, x);
      AssignedIndexes(h, batch, init);
      var a, a' := AssignAll(h, batch, init), AssignAll(h, batch, order);
      if b :| 0 <= b < |init| && init[b] in a.ids && a.ids[init[b]] == x {
        assert order[b] in a'.ids && a'.ids[order[b]] == x;
      }
      if b :| 0 <= b < |order| && order[b] in a'.ids && a'.ids[order[b]] == x && b < |init| {
        assert init[b] in a.ids && a.ids[init[b]] == x;
      }
    }
  }

  /** The id that an earlier turn gave. */
  lemma EarlierTurn(h: Hashes, batch: Batch, a: nat, b: nat)
    requires CollisionFree(h) && b < a < |OrderOf(batch)|
    ensures var order, ids := OrderOf(batch), AssignAll(h, batch, OrderOf(batch)[..a]).ids;
      order[b] in ids && Normalized(h, batch)[order[b]].eventId == ids[order[b]]
  {
    hide NextId, OrderOf, CollisionFree, AssignAll;
    var order := OrderOf(batch);
    var upTo := order[..a];
    assert upTo[..b] == order[..b];
    IdAt(h, batch, order, b);
    IdAt(h, batch, upTo, b);
  }

  lemma BroughtStays(h: Hashes, batch: Batch, j: nat)
    requires CollisionFree(h) && j < |batch.messages| && batch.messages[j].eventId != NO_ID
    ensures Normalized(h, batch)[j] == batch.messages[j]
  {
    hide OrderOf, CollisionFree, AssignAll;
    AssignedIndexes(h, batch, OrderOf(batch));
  }

  /** What is taken at a turn is what the normalizer has used or finds stored. */
  lemma TakenIs(h: Hashes, batch: Batch, a: nat, x: Id)
    requires CollisionFree(h) && a < |OrderOf(batch)|
    ensures Taken(batch, Normalized(h, batch), OrderOf(batch)[a], x) <==>
      x in AssignAll(h, batch, OrderOf(batch)[..a]).used || (batch.Imported? && x in batch.table)
  {
    hide OrderOf, CollisionFree, AssignAll, Sooner, Normalized, SortBy;
    var order, ms, out := OrderOf(batch), batch.messages, Normalized(h, batch);
    var upTo, i := order[..a], order[a];
    var turn := AssignAll(h, batch, upTo);
    UsedExactly(h, batch, upTo, x);
    TurnsInOrder(batch);
    if j: nat :| j < |out| && out[j].eventId == x && if ms[j].eventId == NO_ID then Sooner(batch, j, i) else true {
      if ms[j].eventId == NO_ID {
        assert j in order;
        var b :| 0 <= b < |order| && order[b] == j;
        SoonerIsEarlierTurn(batch, a, b);
        EarlierTurn(h, batch, a, b);
        assert upTo[b] in turn.ids && turn.ids[upTo[b]] == x;
      } else {
        BroughtStays(h, batch, j);
        assert ms[j] in ms && x in GivenIds(ms);
      }
    }
    if x in GivenIds(ms) {
      var j :| 0 <= j < |ms| && ms[j].eventId != NO_ID && ms[j].eventId == x;
      BroughtStays(h, batch, j);
    }
    if b :| 0 <= b < a && upTo[b] in turn.ids && turn.ids[upTo[b]] == x {
      EarlierTurn(h, batch, a, b);
      assert order[b] in order;
      assert SoonerOrder(batch)(order[b], order[a]);
    }
  }

  lemma SoonerIsEarlierTurn(batch: Batch, a: nat, b: nat)
    requires a < |OrderOf(batch)| && b < |OrderOf(batch)| && Sooner(batch, OrderOf(batch)[b], OrderOf(batch)[a])
    ensures b < a
  {
    hide OrderOf, Sooner;
    var order := OrderOf(batch);
    TurnsInOrder(batch);
    SoonerOrders(batch, {order[a], order[b]});
    var first, second := if a < b then a else b, if a < b then b else a;
    assert a == b || SoonerOrder(batch)(order[first], order[second]);
  }

  lemma WishIs(h: Hashes, m: Message, shared: bool, n: nat)
    ensures Wish(h, m, shared, n) == Candidate(h, m, FirstId(h, m, shared), n + 1)
  {
  }

  /** The search stops at the first candidate that is not taken. */
  lemma {:induction false} FreeIdIsFirst(h: Hashes, m: Message, first: Id, n: nat, taken: set<Id>) returns (at: nat)
    requires CollisionFree(h) && FirstCandidate(h, m, first) && n >= 1
    ensures at >= n && FreeId(h, m, first, n, taken) == Candidate(h, m, first, at)
    ensures forall l: nat :: n <= l < at ==> Candidate(h, m, first, l) in taken
    decreases |taken - Tried(h, m, first, n)|
  {
    hide CollisionFree, FirstCandidate, Candidate;
    if Candidate(h, m, first, n) !in taken {
      at := n;
    } else {
      FewerLeft(h, m, first, n, taken);
      at := FreeIdIsFirst(h, m, first, n + 1, taken);
    }
  }

  lemma TakesWish(h: Hashes, batch: Batch, a: nat, shared: bool, taken: set<Id>)
    requires CollisionFree(h) && a < |OrderOf(batch)|
    requires taken == AssignAll(h, batch, OrderOf(batch)[..a]).used + if batch.Imported? then batch.table.Keys else {}
    requires var i := OrderOf(batch)[a];
      var m := batch.messages[i];
      Normalized(h, batch)[i].eventId == FreeId(h, m, FirstId(h, m, shared), 1, taken)
    ensures TakesFree(h, batch, Normalized(h, batch), OrderOf(batch)[a], shared)
  {
    hide OrderOf, CollisionFree, AssignAll, Taken, Normalized, FreeId, Candidate, FirstId, Wish;
    var i, out := OrderOf(batch)[a], Normalized(h, batch);
    var m := batch.messages[i];
    var first := FirstId(h, m, shared);
    assert FirstCandidate(h, m, first) by {
      FirstIsCandidate(h, m, shared);
    }
    var at := FreeIdIsFirst(h, m, first, 1, taken);
    WishIs(h, m, shared, at - 1);
    TakenIs(h, batch, a, out[i].eventId);
    forall l: nat | l < at - 1 ensures Taken(batch, out, i, Wish(h, m, shared, l)) {
      WishIs(h, m, shared, l);
      TakenIs(h, batch, a, Wish(h, m, shared, l));
    }
  }

  lemma FirstIsCandidate(h: Hashes, m: Message, shared: bool)
    ensures FirstCandidate(h, m, FirstId(h, m, shared))
  {
  }

  /** The turn of a message without an id. */
  lemma TurnAt(h: Hashes, batch: Batch, i: nat) returns (a: nat)
    requires CollisionFree(h) && i < |batch.messages| && batch.messages[i].eventId == NO_ID
    ensures a < |OrderOf(batch)| && OrderOf(batch)[a] == i
    ensures var out := Normalized(h, batch);
      out[i] == batch.messages[i].(eventId := NextId(h, batch, batch.messages[i], AssignAll(h, batch, OrderOf(batch)[..a]).used))
  {
    hide NextId, OrderOf, CollisionFree, AssignAll;
    var order := OrderOf(batch);
    assert i in order;
    a :| 0 <= a < |order| && order[a] == i;
    IdAt(h, batch, order, a);
  }

  /** Every message of an imported batch keeps the id it brings, or gets the one the rule names. */
  lemma ImportedIdsAre(h: Hashes, ms: seq<Message>, table: Table, i: nat)
    requires CollisionFree(h) && i < |ms|
    ensures var out := Normalized(h, Imported(ms, table));
      && out[i] == ms[i].(eventId := out[i].eventId)
      && if ms[i].eventId != NO_ID then out[i].eventId == ms[i].eventId else ImportRule(h, ms, table, out, i)
  {
    hide OrderOf, CollisionFree, AssignAll, TakesFree, Normalized, MissingCount, FreeId, FirstId, LexLess, Precedes;
    var batch, m := Imported(ms, table), ms[i];
    var out := Normalized(h, batch);
    if m.eventId != NO_ID {
      BroughtStays(h, batch, i);
    } else {
      var a := TurnAt(h, batch, i);
      CountIsLacking(ms, m.key);
      assert i in Lacking(ms, m.key);
      var family, matches := Family(table, m.key), Matches(table, m.key, m.sourcePk);
      assert family == StoredOf(table, m.key) && matches == StoredFrom(table, m.key, m.sourcePk);
      var used := AssignAll(h, batch, OrderOf(batch)[..a]).used;
      if |family| == 1 && MissingCount(ms, m.key) == 1 {
      } else if matches != {} {
        forall x | x in matches && x != First(matches) ensures Precedes(First(matches), x) {
          LexIsPrecedes(First(matches), x);
        }
      } else {
        SomeLack(ms, i);
        TakesWish(h, batch, a, MissingCount(ms, m.key) > 1 || |family| > 1, used + table.Keys);
      }
    }
  }

  lemma SomeLack(ms: seq<Message>, i: nat)
    requires i < |ms| && ms[i].eventId == NO_ID
    ensures |Lacking(ms, ms[i].key)| >= 1
  {
    assert i in Lacking(ms, ms[i].key);
  }

  /** Likewise in a legacy snapshot, where nothing is stored. */
  lemma LegacyIdsAre(h: Hashes, ms: seq<Message>, i: nat)
    requires CollisionFree(h) && i < |ms|
    ensures var out := Normalized(h, Legacy(ms));
      && out[i] == ms[i].(eventId := out[i].eventId)
      && if ms[i].eventId != NO_ID then out[i].eventId == ms[i].eventId
         else TakesFree(h, Legacy(ms), out, i, |Lacking(ms, ms[i].key)| > 1)
  {
    hide OrderOf, CollisionFree, AssignAll, TakesFree, Normalized, MissingCount, FreeId, FirstId;
    var batch, m := Legacy(ms), ms[i];
    if m.eventId != NO_ID {
      BroughtStays(h, batch, i);
    } else {
      var a := TurnAt(h, batch, i);
      CountIsLacking(ms, m.key);
      TakesWish(h, batch, a, MissingCount(ms, m.key) > 1, AssignAll(h, batch, OrderOf(batch)[..a]).used);
    }
  }
}
