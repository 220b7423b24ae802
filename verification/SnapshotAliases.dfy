/** Which stored message a snapshot message is, when its event id is not stored. */
module SnapshotAliases {
  import opened Bytes
  import opened EventIds
  import opened EventIdNormalizers
  import opened Ranking
  import opened TextOrder
  import opened Wrappers

  /** How many snapshot messages share a Telegram message. */
  function KeyCount(ms: seq<Message>, k: Key): nat {
    if ms == [] then 0 else KeyCount(ms[..|ms| - 1], k) + if ms[|ms| - 1].key == k then 1 else 0
  }

  /**
   The stored row a snapshot message is taken for: the only one of its Telegram message when neither side has another,
   else the only one with its source id.
   */
  ghost function Resolved(table: Table, ms: seq<Message>, m: Message): Option<Id> {
    if m.eventId in table then None
    else if |Family(table, m.key)| == 1 && KeyCount(ms, m.key) == 1 then Some(First(Family(table, m.key)))
    else if |Matches(table, m.key, m.sourcePk)| == 1 then Some(First(Matches(table, m.key, m.sourcePk)))
    else None
  }

  ghost function AliasedIds(table: Table, all: seq<Message>, ms: seq<Message>): (ids: seq<Id>)
    ensures |ids| == |ms|
  {
    if ms == [] then []
    else
      var last := ms[|ms| - 1];
      var r := Resolved(table, all, last);
      AliasedIds(table, all, ms[..|ms| - 1]) + [if r.Some? then r.value else last.eventId]
  }

  ghost function AliasMap(table: Table, all: seq<Message>, ms: seq<Message>): (aliases: map<Id, Id>) {
    if ms == [] then map[]
    else
      var last := ms[|ms| - 1];
      var rest, r := AliasMap(table, all, ms[..|ms| - 1]), Resolved(table, all, last);
      if r.Some? then rest[last.eventId := r.value] else rest
  }

  /** The rows among the family that match a source id: none, one, or several. */
  method OnlyMatch(table: Table, existing: seq<Id>, k: Key, pk: int) returns (r: Option<Id>)
    requires Ascending(LexLess, existing) && Elements(existing) == Family(table, k)
    ensures r == if |Matches(table, k, pk)| == 1 then Some(First(Matches(table, k, pk))) else None
  {
    hide LexLess, First;
    FamilySizeIs(existing, table, k);
    LexOrders(Elements(existing));
    r := None;
    ghost var found: set<Id> := {};
    for i := 0 to |existing|
      invariant found == set x | x in existing[..i] && table[x].sourcePk == pk
      invariant |found| <= 1 && (r.Some? <==> |found| == 1) && (r.Some? ==> r.value in found)
    {
      assert existing[..i + 1] == existing[..i] + [existing[i]];
      if table[existing[i]].sourcePk == pk {
        assert existing[i] !in existing[..i] by {
          AscendingNew(existing, i);
        }
        if r.Some? {
          SeveralMatch(table, existing, k, pk, r.value, existing[i]);
          return None;
        }
        assert |found + {existing[i]}| == |found| + 1;
        found := found + {existing[i]};
        r := Some(existing[i]);
      }
    }
    assert existing[..|existing|] == existing;
    assert forall x :: x in existing <==> x in Elements(existing);
    assert found == Matches(table, k, pk);
    if r.Some? {
      OnlyMember(Matches(table, k, pk), r.value);
    }
  }

  lemma AscendingNew(s: seq<Id>, i: nat)
    requires Ascending(LexLess, s) && i < |s|
    ensures s[i] !in s[..i]
  {
    hide LexLess;
    LexOrders(Elements(s));
    forall j | 0 <= j < i ensures s[j] != s[i] {
      LexAsymmetric(s[j], s[i]);
    }
  }

  lemma SeveralMatch(table: Table, existing: seq<Id>, k: Key, pk: int, a: Id, b: Id)
    requires Elements(existing) == Family(table, k) && a in existing && b in existing && a != b
    requires a in table && b in table && table[a].sourcePk == pk && table[b].sourcePk == pk
    ensures |Matches(table, k, pk)| != 1
  {
    assert a in Elements(existing) && b in Elements(existing);
    SubsetSize({a, b}, Matches(table, k, pk));
  }

  /** The alias pass of reconcileSnapshotMessageEventIDs. */
  method ResolveAliases(table: Table, ms: seq<Message>) returns (ids: seq<Id>, aliases: map<Id, Id>)
    ensures ids == AliasedIds(table, ms, ms) && aliases == AliasMap(table, ms, ms)
  {
    hide LexLess, KeyCount;
    var counts := CountKeys(ms);
    ids, aliases := [], map[];
    for i := 0 to |ms|
      invariant ids == AliasedIds(table, ms, ms[..i]) && aliases == AliasMap(table, ms, ms[..i])
    {
      assert ms[..i + 1][..i] == ms[..i];
      var m := ms[i];
      var resolved: Option<Id> := None;
      if m.eventId !in table {
        var existing := QueryFamily(table, m.key);
        FamilySizeIs(existing, table, m.key);
        if |existing| == 1 && m.key in counts && counts[m.key] == 1 {
          assert existing[0] in Elements(existing);
          OnlyMember(Family(table, m.key), existing[0]);
          resolved := Some(existing[0]);
        } else {
          resolved := OnlyMatch(table, existing, m.key, m.sourcePk);
        }
      }
      if resolved.Some? {
        aliases := aliases[m.eventId := resolved.value];
        ids := ids + [resolved.value];
      } else {
        ids := ids + [m.eventId];
      }
    }
    assert ms[..|ms|] == ms;
  }

  method CountKeys(ms: seq<Message>) returns (counts: map<Key, nat>)
    ensures forall k :: (if k in counts then counts[k] else 0) == KeyCount(ms, k)
  {
    counts := map[];
    for i := 0 to |ms|
      invariant forall k :: (if k in counts then counts[k] else 0) == KeyCount(ms[..i], k)
    {
      assert ms[..i + 1][..i] == ms[..i];
      counts := counts[ms[i].key := (if ms[i].key in counts then counts[ms[i].key] else 0) + 1];
    }
    assert ms[..|ms|] == ms;
  }

  lemma {:induction false} CountedTwice(ms: seq<Message>, k: Key, i: nat, j: nat)
    requires i < j < |ms| && ms[i].key == ms[j].key == k
    ensures KeyCount(ms, k) >= 2
  {
    if j < |ms| - 1 {
      CountedTwice(ms[..|ms| - 1], k, i, j);
    } else {
      CountedOnce(ms[..|ms| - 1], k, i);
    }
  }

  lemma {:induction false} CountedOnce(ms: seq<Message>, k: Key, i: nat)
    requires i < |ms| && ms[i].key == k
    ensures KeyCount(ms, k) >= 1
  {
    if i < |ms| - 1 {
      CountedOnce(ms[..|ms| - 1], k, i);
    }
  }

  /**
   An alias is a stored id of the same Telegram message, its source is not stored, and messages with distinct sources
   are never taken for one stored row.
   */
  lemma AliasesSeparate(table: Table, ms: seq<Message>, i: nat, j: nat)
    requires i < |ms| && j < |ms| && i != j && (ms[i].key != ms[j].key || ms[i].sourcePk != ms[j].sourcePk)
    ensures var r := Resolved(table, ms, ms[i]);
      r.Some? ==> ms[i].eventId !in table && r.value in table && table[r.value].key == ms[i].key
    ensures Resolved(table, ms, ms[i]).None? || Resolved(table, ms, ms[i]) != Resolved(table, ms, ms[j])
  {
    hide LexLess, KeyCount;
    if ms[i].key == ms[j].key {
      CountedTwice(ms, ms[i].key, if i < j then i else j, if i < j then j else i);
    }
    FamilyNonEmpty(table, ms[i].key, ms[i].sourcePk);
    FamilyNonEmpty(table, ms[j].key, ms[j].sourcePk);
  }

  lemma FamilyNonEmpty(table: Table, k: Key, pk: int)
    ensures |Family(table, k)| == 1 ==> First(Family(table, k)) in table && table[First(Family(table, k))].key == k
    ensures |Matches(table, k, pk)| == 1 ==>
      var f := First(Matches(table, k, pk)); f in table && table[f].key == k && table[f].sourcePk == pk
  {
    hide LexLess;
  }

  // What a snapshot message is taken for, without the pass that finds it.

  /** The stored rows of a Telegram message. */
  function RowsFor(table: Table, k: Key): (rows: set<Id>) {
    set e | e in table && table[e].key == k
  }

  /** No other message of the snapshot has this one's Telegram message. */
  predicate Alone(ms: seq<Message>, i: nat)
    requires i < |ms|
  {
    forall k :: 0 <= k < |ms| && k != i ==> ms[k].key != ms[i].key
  }

  /** Exactly one stored row of the Telegram message has the source id, and it is `e`. */
  predicate OnlySource(table: Table, m: Message, e: Id) {
    e in RowsFor(table, m.key) && table[e].sourcePk == m.sourcePk
    && forall x :: x in RowsFor(table, m.key) && table[x].sourcePk == m.sourcePk ==> x == e
  }

  /**
   Message `i` goes under `e`: its own id when that is stored, else the only row of its Telegram message when neither side
   has another, else the only row with its source id, else its own id.
   */
  ghost predicate TakenAs(table: Table, ms: seq<Message>, i: nat, e: Id)
    requires i < |ms|
  {
    var m := ms[i];
    if m.eventId in table then e == m.eventId
    else if |RowsFor(table, m.key)| == 1 && Alone(ms, i) then e in RowsFor(table, m.key)
    else if exists x :: OnlySource(table, m, x) then OnlySource(table, m, e)
    else e == m.eventId
  }

  lemma {:induction false} AliasedAt(table: Table, all: seq<Message>, ms: seq<Message>, i: nat)
    requires i < |ms|
    ensures var r := Resolved(table, all, ms[i]); AliasedIds(table, all, ms)[i] == if r.Some? then r.value else ms[i].eventId
    decreases |ms|
  {
    hide Resolved;
    if i < |ms| - 1 {
      AliasedAt(table, all, ms[..|ms| - 1], i);
    }
  }

  lemma {:induction false} CountsOthers(ms: seq<Message>, k: Key, i: nat)
    requires i < |ms| && ms[i].key == k
    ensures KeyCount(ms, k) == 1 <==> Alone(ms, i)
  {
    CountedOnce(ms, k, i);
    if KeyCount(ms, k) == 1 {
      forall j | 0 <= j < |ms| && j != i ensures ms[j].key != k {
        if ms[j].key == k {
          CountedTwice(ms, k, if i < j then i else j, if i < j then j else i);
        }
      }
    } else if Alone(ms, i) {
      CountsOne(ms, k, i);
    }
  }

  lemma {:induction false} CountsOne(ms: seq<Message>, k: Key, i: nat)
    requires i < |ms| && ms[i].key == k && Alone(ms, i)
    ensures KeyCount(ms, k) == 1
    decreases |ms|
  {
    var n := |ms| - 1;
    if i < n {
      CountsOne(ms[..n], k, i);
    } else {
      CountsNone(ms[..n], k);
    }
  }

  lemma {:induction false} CountsNone(ms: seq<Message>, k: Key)
    requires forall j :: 0 <= j < |ms| ==> ms[j].key != k
    ensures KeyCount(ms, k) == 0
  {
    if ms != [] {
      CountsNone(ms[..|ms| - 1], k);
    }
  }

  lemma OneMatch(table: Table, m: Message)
    ensures |Matches(table, m.key, m.sourcePk)| == 1 <==> exists x :: OnlySource(table, m, x)
    ensures |Matches(table, m.key, m.sourcePk)| == 1 ==> OnlySource(table, m, First(Matches(table, m.key, m.sourcePk)))
  {
    hide LexLess, First;
    var X := Matches(table, m.key, m.sourcePk);
    if |X| == 1 {
      FamilyNonEmpty(table, m.key, m.sourcePk);
      var f := First(X);
      forall x | x in RowsFor(table, m.key) && table[x].sourcePk == m.sourcePk ensures x == f {
        assert x in X && f in X;
        if x != f {
          SubsetSize({x, f}, X);
        }
      }
      assert OnlySource(table, m, f);
    }
    if x :| OnlySource(table, m, x) {
      assert X == {x};
    }
  }

  /** The pass takes each message for that. */
  lemma AliasMeaning(table: Table, ms: seq<Message>, i: nat)
    requires i < |ms|
    ensures TakenAs(table, ms, i, AliasedIds(table, ms, ms)[i])
  {
    hide LexLess, First, KeyCount, AliasedIds;
    var m := ms[i];
    AliasedAt(table, ms, ms, i);
    CountsOthers(ms, m.key, i);
    OneMatch(table, m);
    FamilyNonEmpty(table, m.key, m.sourcePk);
    assert Family(table, m.key) == RowsFor(table, m.key);
  }
}
