/** Selecting, uniting and limiting the messages of several Postbox accounts, as the importer does it. */
module PostboxSelection {
  import opened Bytes
  import opened LimitPushdown
  import opened NewestFirst
  import opened Ranking
  import opened TextOrder
  import opened Wrappers

  /** The ids derived from account, peer and message by hashing, and the decimal form of a peer id. */
  datatype Ids = Ids(chatOf: (Text, int) -> Text, pkOf: (Text, int, int, int) -> int, decimalOf: int -> Text)

  const KEY_SIZE: nat := 20

  function PeerAt(raw: Text): i64
    requires |raw| >= 8
  {
    Signed64(Be32(raw[..4]) * 0x1_0000_0000 + Be32(raw[4..8]))
  }

  /** `x` is the signed number that a word spells. */
  predicate SpellsSigned(word: int, x: int, range: int) {
    -range <= 2 * x < range && word == if x >= 0 then x else x + range
  }

  /** The big-endian fields of a key: peer, namespace, time and message id. */
  predicate Spells(raw: Text, peer: int, namespace: int, ts: int, messageId: int) {
    && |raw| >= KEY_SIZE
    && SpellsSigned(Be32(raw[..4]) * TWO32 + Be32(raw[4..8]), peer, TWO64)
    && SpellsSigned(Be32(raw[8..12]), namespace, TWO32) && SpellsSigned(Be32(raw[12..16]), ts, TWO32)
    && SpellsSigned(Be32(raw[16..20]), messageId, TWO32)
  }

  /** The row a stored key spells, and the ids derived from it; a key that is too short stands for none. */
  function ParseMessageKey(ids: Ids, account: Text, raw: Text): (row: Option<Row>)
    ensures row.None? <==> |raw| < KEY_SIZE
    ensures row.Some? ==> var r := row.value;
      && r.account == account && r.raw == raw && Spells(raw, r.peer, r.namespace, r.ts, r.messageId)
      && r.chat == ids.chatOf(account, r.peer) && r.pk == ids.pkOf(account, r.peer, r.namespace, r.messageId)
  {
    if |raw| < KEY_SIZE then None
    else
      var peer := PeerAt(raw);
      var namespace, messageId := Signed32(Be32(raw[8..12])), Signed32(Be32(raw[16..20]));
      Some(Row(account, peer, ids.chatOf(account, peer), namespace, messageId, Signed32(Be32(raw[12..16])),
               ids.pkOf(account, peer, namespace, messageId), raw))
  }

  /** A chat is asked for by its store id or by its peer id, less white space around it; a blank id asks for every chat. */
  predicate MatchesChat(ids: Ids, r: Row, chatId: Text) {
    var id := Trim(chatId);
    id == [] || id == r.chat || id == ids.decimalOf(r.peer)
  }

  /** The rows of a key table that the chat filter lets through, in table order. */
  function MatchingRows(ids: Ids, account: Text, raws: seq<Text>, chatId: Text): (rows: seq<Row>) {
    if raws == [] then []
    else
      var rest, row := MatchingRows(ids, account, raws[..|raws| - 1], chatId), ParseMessageKey(ids, account, raws[|raws| - 1]);
      if row.Some? && MatchesChat(ids, row.value, chatId) then rest + [row.value] else rest
  }

  lemma {:induction false} MatchingRowsAreKeys(ids: Ids, account: Text, raws: seq<Text>, chatId: Text)
    requires Distinct(raws)
    ensures var rows := MatchingRows(ids, account, raws, chatId);
      && Distinct(rows)
      && (forall r :: r in rows ==> r.raw in raws && r.account == account && MatchesChat(ids, r, chatId))
      && (forall r, s :: r in rows && s in rows && r.raw == s.raw ==> r == s)
  {
    hide ParseMessageKey, MatchesChat;
    if raws != [] {
      MatchingRowsAreKeys(ids, account, raws[..|raws| - 1], chatId);
    }
  }

  // Groups of rows.

  datatype Group = Group(chat: Text, rows: seq<Row>, maxTs: int)

  /** The rows with a given key, in order. */
  function RowsAt<Key(==)>(rows: seq<Row>, keyOf: Row -> Key, k: Key): (at: seq<Row>) {
    if rows == [] then []
    else
      var rest, last := RowsAt(rows[..|rows| - 1], keyOf, k), rows[|rows| - 1];
      if keyOf(last) == k then rest + [last] else rest
  }

  lemma {:induction false} RowsAtKeeps<Key>(rows: seq<Row>, keyOf: Row -> Key, k: Key)
    ensures forall r :: r in RowsAt(rows, keyOf, k) <==> r in rows && keyOf(r) == k
    ensures Distinct(rows) ==> Distinct(RowsAt(rows, keyOf, k))
  {
    if rows != [] {
      RowsAtKeeps(rows[..|rows| - 1], keyOf, k);
      assert rows == rows[..|rows| - 1] + [rows[|rows| - 1]];
    }
  }

  ghost predicate GroupOf(g: Group, S: set<Row>) {
    && g.rows != [] && Distinct(g.rows) && Elements(g.rows) == InChat(S, g.chat) && IsMaxTs(S, g.chat, g.maxTs)
  }

  /** One group per chat of `S`. */
  ghost predicate Grouped(groups: seq<Group>, S: set<Row>) {
    && (forall i :: 0 <= i < |groups| ==> GroupOf(groups[i], S))
    && (forall i, j :: 0 <= i < j < |groups| ==> groups[i].chat != groups[j].chat)
    && (forall r :: r in S ==> exists i :: 0 <= i < |groups| && groups[i].chat == r.chat)
  }

  /** Grouping by `keyOf` is grouping by chat. */
  ghost predicate KeysAreChats<Key>(S: set<Row>, keyOf: Row -> Key) {
    forall a, b :: a in S && b in S ==> (keyOf(a) == keyOf(b) <==> a.chat == b.chat)
  }

  method NewestTime(rows: seq<Row>) returns (m: int)
    ensures m >= 0 && (forall r :: r in rows ==> r.ts <= m) && (m == 0 || exists r :: r in rows && r.ts == m)
  {
    m := 0;
    for i := 0 to |rows|
      invariant m >= 0 && (forall j :: 0 <= j < i ==> rows[j].ts <= m) && (m == 0 || exists r :: r in rows && r.ts == m)
    {
      if rows[i].ts > m {
        m := rows[i].ts;
        assert rows[i] in rows;
      }
    }
  }

  /** Fills a map from key to rows, then ranks each key by its newest row; the map has no order. */
  method GroupRows<Key(==,!new)>(rows: seq<Row>, keyOf: Row -> Key) returns (groups: seq<Group>)
    ensures Distinct(rows) && KeysAreChats(Elements(rows), keyOf) ==> Grouped(groups, Elements(rows))
  {
    var byKey: map<Key, seq<Row>> := map[];
    for i := 0 to |rows|
      invariant forall k :: k in byKey <==> RowsAt(rows[..i], keyOf, k) != []
      invariant forall k :: k in byKey ==> byKey[k] == RowsAt(rows[..i], keyOf, k)
    {
      RowsAtGrows(rows, keyOf, i);
      var k := keyOf(rows[i]);
      byKey := byKey[k := (if k in byKey then byKey[k] else []) + [rows[i]]];
    }
    assert rows[..|rows|] == rows;
    groups := RankKeys(rows, keyOf, byKey);
  }

  lemma RowsAtGrows<Key(!new)>(rows: seq<Row>, keyOf: Row -> Key, i: nat)
    requires i < |rows|
    ensures forall k ::
      RowsAt(rows[..i + 1], keyOf, k) == RowsAt(rows[..i], keyOf, k) + if keyOf(rows[i]) == k then [rows[i]] else []
  {
    assert rows[..i + 1][..i] == rows[..i];
  }

  method RankKeys<Key(==,!new)>(ghost rows: seq<Row>, ghost keyOf: Row -> Key, byKey: map<Key, seq<Row>>) returns (groups: seq<Group>)
    requires forall k :: k in byKey <==> RowsAt(rows, keyOf, k) != []
    requires forall k :: k in byKey ==> byKey[k] == RowsAt(rows, keyOf, k)
    ensures Distinct(rows) && KeysAreChats(Elements(rows), keyOf) ==> Grouped(groups, Elements(rows))
  {
    hide IsMaxTs, RowsAt;
    ghost var S, apart := Elements(rows), Distinct(rows) && KeysAreChats(Elements(rows), keyOf);
    forall r | r in rows ensures keyOf(r) in byKey {
      RowsAtKeeps(rows, keyOf, keyOf(r));
    }
    groups := [];
    var left := byKey.Keys;
    RankedNone(rows, keyOf, left);
    while left != {}
      invariant left <= byKey.Keys && (apart ==> RankedOutside(rows, keyOf, left, groups))
      decreases |left|
    {
      var k :| k in left;
      RowsAtKeeps(rows, keyOf, k);
      var newest := NewestTime(byKey[k]);
      var g := Group(byKey[k][0].chat, byKey[k], newest);
      if apart {
        OneGroup(rows, keyOf, k, g);
        GroupsGrow(rows, keyOf, left, k, groups, g);
      }
      groups := groups + [g];
      left := left - {k};
    }
    if apart {
      RankedAll(rows, keyOf, groups);
    }
  }

  /** The groups of the keys outside `left`, one for each. */
  ghost predicate RankedOutside<Key>(rows: seq<Row>, keyOf: Row -> Key, left: set<Key>, groups: seq<Group>) {
    var S := Elements(rows);
    && (forall i :: 0 <= i < |groups| ==> GroupOf(groups[i], S))
    && (forall i, j :: 0 <= i < j < |groups| ==> groups[i].chat != groups[j].chat)
    && (forall r :: r in S && keyOf(r) !in left ==> exists i :: 0 <= i < |groups| && groups[i].chat == r.chat)
    && (forall r :: r in S && keyOf(r) in left ==> forall i :: 0 <= i < |groups| ==> groups[i].chat != r.chat)
  }

  lemma RankedNone<Key>(rows: seq<Row>, keyOf: Row -> Key, left: set<Key>)
    requires forall r :: r in rows ==> keyOf(r) in left
    ensures RankedOutside(rows, keyOf, left, [])
  {
  }

  lemma RankedAll<Key>(rows: seq<Row>, keyOf: Row -> Key, groups: seq<Group>)
    requires RankedOutside(rows, keyOf, {}, groups)
    ensures Grouped(groups, Elements(rows))
  {
    hide GroupOf;
  }

  lemma OneGroup<Key>(rows: seq<Row>, keyOf: Row -> Key, k: Key, g: Group)
    requires Distinct(rows) && KeysAreChats(Elements(rows), keyOf)
    requires g.rows == RowsAt(rows, keyOf, k) && g.rows != [] && g.chat == g.rows[0].chat
    requires g.maxTs >= 0 && (forall r :: r in g.rows ==> r.ts <= g.maxTs)
    requires g.maxTs == 0 || exists r :: r in g.rows && r.ts == g.maxTs
    ensures GroupOf(g, Elements(rows))
    ensures forall r :: r in Elements(rows) ==> (keyOf(r) == k <==> r.chat == g.chat)
  {
    RowsAtKeeps(rows, keyOf, k);
    assert g.rows[0] in g.rows;
    assert Elements(g.rows) == InChat(Elements(rows), g.chat);
  }

  lemma GroupsGrow<Key>(rows: seq<Row>, keyOf: Row -> Key, left: set<Key>, k: Key, before: seq<Group>, g: Group)
    requires RankedOutside(rows, keyOf, left, before) && k in left && GroupOf(g, Elements(rows))
    requires forall r :: r in Elements(rows) ==> (keyOf(r) == k <==> r.chat == g.chat)
    ensures RankedOutside(rows, keyOf, left - {k}, before + [g])
  {
    GroupHasRow(g, Elements(rows));
    hide GroupOf;
    var after := before + [g];
    assert after[|before|] == g && forall i :: 0 <= i < |before| ==> after[i] == before[i];
  }

  lemma GroupHasRow(g: Group, S: set<Row>)
    requires GroupOf(g, S)
    ensures exists r :: r in S && r.chat == g.chat
  {
    assert g.rows[0] in Elements(g.rows);
  }

  // Ranking and cutting the groups.

  predicate GroupLess(a: Group, b: Group) {
    a.maxTs > b.maxTs || (a.maxTs == b.maxTs && LexLess(a.chat, b.chat))
  }

  function FirstUnder<T>(s: seq<T>, limit: int): seq<T> {
    if 0 < limit < |s| then s[..limit] else s
  }

  function LastUnder<T>(s: seq<T>, limit: int): seq<T> {
    if 0 < limit < |s| then s[|s| - limit..] else s
  }

  /** The kept rows of the ranked groups, group after group. */
  function CutRows(groups: seq<Group>, messages: int): (rows: seq<Row>) {
    if groups == [] then []
    else CutRows(groups[..|groups| - 1], messages) + LastUnder(SortBy(RowLess, groups[|groups| - 1].rows), messages)
  }

  lemma CutRowsStep(groups: seq<Group>, messages: int, i: nat)
    requires i < |groups|
    ensures CutRows(groups[..i + 1], messages) ==
      CutRows(groups[..i], messages) + LastUnder(SortBy(RowLess, groups[i].rows), messages)
  {
    hide LastUnder, SortBy;
    assert groups[..i + 1][..i] == groups[..i];
  }

  method NewestRows(rows: seq<Row>, messages: int) returns (kept: seq<Row>)
    ensures kept == LastUnder(SortBy(RowLess, rows), messages)
  {
    hide SortBy;
    kept := SortBy(RowLess, rows);
    if messages > 0 && messages < |kept| {
      kept := kept[|kept| - messages..];
    }
  }


  method CutEach(ranked: seq<Group>, messages: int) returns (out: seq<Row>)
    ensures out == CutRows(ranked, messages)
  {
    hide SortBy, LastUnder;
    out := [];
    for i := 0 to |ranked|
      invariant out == CutRows(ranked[..i], messages)
    {
      CutRowsStep(ranked, messages, i);
      var rows := NewestRows(ranked[i].rows, messages);
      out := out + rows;
    }
    assert ranked[..|ranked|] == ranked;
  }

  /** The rows kept of one chat are its newest. */
  lemma CutGroup(g: Group, S: set<Row>, messages: int, r: Row)
    requires GroupOf(g, S) && CollisionFree(S)
    ensures r in LastUnder(SortBy(RowLess, g.rows), messages) <==> r in InChat(S, g.chat) && Under(Newer(S, r), messages)
    ensures Distinct(LastUnder(SortBy(RowLess, g.rows), messages))
  {
    hide RowLess, IsMaxTs;
    var X, s := InChat(S, g.chat), SortBy(RowLess, g.rows);
    RowOrders(S, X);
    SortAscending(RowLess, g.rows);
    assert r in s <==> r in Elements(s);
    if 0 < messages < |s| {
      LastByRank(RowLess, s, messages, r);
    } else if r in X {
      NewerBound(S, g.chat, r, s);
    }
    AscendingDistinct(RowLess, s);
  }

  lemma NewerBound(S: set<Row>, c: Text, r: Row, s: seq<Row>)
    requires CollisionFree(S) && r in InChat(S, c)
    requires Ascending(RowLess, s) && Elements(s) == InChat(S, c)
    ensures Newer(S, r) < |s|
  {
    RowOrders(S, InChat(S, c));
    AscendingSize(RowLess, s);
    RankSplit(RowLess, InChat(S, c), r);
  }

  lemma AscendingDistinct<T(!new)>(less: Order<T>, s: seq<T>)
    requires Orders(less, Elements(s)) && Ascending(less, s)
    ensures Distinct(s)
  {
    forall i, j | 0 <= i < j < |s| ensures s[i] != s[j] {
      assert less(s[i], s[j]) && s[i] in Elements(s);
    }
  }

  lemma {:induction false} CutAll(groups: seq<Group>, S: set<Row>, messages: int, r: Row)
    requires CollisionFree(S) && (forall i :: 0 <= i < |groups| ==> GroupOf(groups[i], S))
    requires forall i, j :: 0 <= i < j < |groups| ==> groups[i].chat != groups[j].chat
    ensures r in CutRows(groups, messages) <==>
      r in S && (exists i :: 0 <= i < |groups| && groups[i].chat == r.chat) && Under(Newer(S, r), messages)
    ensures Distinct(CutRows(groups, messages))
  {
    hide GroupOf, CollisionFree, Newer, LastUnder, SortBy;
    if groups != [] {
      var init, last := groups[..|groups| - 1], groups[|groups| - 1];
      forall x ensures x in CutRows(init, messages) ==> x.chat != last.chat {
        CutAll(init, S, messages, x);
      }
      CutAll(init, S, messages, r);
      var kept := LastUnder(SortBy(RowLess, last.rows), messages);
      forall x ensures x in kept ==> x.chat == last.chat {
        CutGroup(last, S, messages, x);
      }
      CutGroup(last, S, messages, r);
      if r.chat == last.chat {
        assert groups[|groups| - 1].chat == r.chat;
      }
      if i :| 0 <= i < |groups| && groups[i].chat == r.chat && r.chat != last.chat {
        assert init[i].chat == r.chat;
      }
      if i :| 0 <= i < |init| && init[i].chat == r.chat {
        assert groups[i].chat == r.chat;
      }
      DistinctJoin(CutRows(init, messages), kept, last.chat);
    }
  }

  lemma DistinctJoin(a: seq<Row>, b: seq<Row>, c: Text)
    requires Distinct(a) && Distinct(b) && (forall x :: x in a ==> x.chat != c) && (forall x :: x in b ==> x.chat == c)
    ensures Distinct(a + b)
  {
    forall i, j | 0 <= i < j < |a + b| ensures (a + b)[i] != (a + b)[j] {
      if i < |a| <= j {
        assert a[i] in a && b[j - |a|] in b;
      }
    }
  }

  /** Sorting groups ranks their chats. */
  lemma GroupsRanked(groups: seq<Group>, S: set<Row>)
    requires Grouped(groups, S)
    ensures var s := SortBy(GroupLess, groups);
      Orders(GroupLess, Elements(groups)) && Ascending(GroupLess, s) && Elements(s) == Elements(groups) && |s| == |groups|
  {
    hide LexLess, GroupOf;
    LexOrders(set g | g in groups :: g.chat);
    assert forall i, j :: 0 <= i < j < |groups| ==> groups[i] != groups[j];
    SortAscending(GroupLess, groups);
  }

  /** The rank of a group is the rank of its chat. */
  lemma GroupRank(groups: seq<Group>, S: set<Row>, g: Group)
    requires Grouped(groups, S) && g in groups
    ensures Rank(GroupLess, Elements(groups), g) == ChatRank(S, g.chat)
  {
    hide LexLess, IsMaxTs;
    var below, chats := Below(GroupLess, Elements(groups), g), Below(ChatOrder(S), Chats(S), g.chat);
    forall h | h in groups ensures h.maxTs == MaxTs(S, h.chat) && h.chat in Chats(S) {
      GroupMax(h, S);
    }
    forall c | c in chats ensures exists h :: h in below && h.chat == c {
      var r :| r in S && r.chat == c;
      var i :| 0 <= i < |groups| && groups[i].chat == c;
      assert groups[i] in below;
    }
    assert chats == set h | h in below :: h.chat;
    SameSize(below, chats, groups);
  }

  lemma GroupMax(h: Group, S: set<Row>)
    requires GroupOf(h, S)
    ensures h.maxTs == MaxTs(S, h.chat) && h.chat in Chats(S)
  {
    var m := MaxTs(S, h.chat);
    assert IsMaxTs(S, h.chat, m);
    assert h.rows[0] in Elements(h.rows);
  }

  lemma {:induction false} SameSize(gs: set<Group>, chats: set<Text>, groups: seq<Group>)
    requires chats == set h | h in gs :: h.chat
    requires forall i, j :: 0 <= i < j < |groups| ==> groups[i].chat != groups[j].chat
    requires forall h :: h in gs ==> h in groups
    ensures |gs| == |chats|
    decreases gs
  {
    if g :| g in gs {
      var rest := gs - {g};
      forall h | h in rest ensures h.chat != g.chat {
        var i, j :| 0 <= i < |groups| && groups[i] == h && 0 <= j < |groups| && groups[j] == g;
      }
      assert chats - {g.chat} == set h | h in rest :: h.chat;
      SameSize(rest, chats - {g.chat}, groups);
    }
  }

  /** Ranking and cutting computes the limited set. */
  lemma CutIsLimited(groups: seq<Group>, S: set<Row>, dialogs: int, messages: int)
    requires Grouped(groups, S) && CollisionFree(S)
    ensures var out := CutRows(FirstUnder(SortBy(GroupLess, groups), dialogs), messages);
      Distinct(out) && Elements(out) == Limited(S, dialogs, messages)
  {
    hide GroupOf, CollisionFree, Newer, CutRows, SortBy, ChatRank, GroupLess;
    GroupsRanked(groups, S);
    var s := SortBy(GroupLess, groups);
    var kept := FirstUnder(s, dialogs);
    forall i | 0 <= i < |kept| ensures GroupOf(kept[i], S) && kept[i] in groups {
      assert kept[i] in Elements(s);
    }
    forall i, j | 0 <= i < j < |kept| ensures kept[i].chat != kept[j].chat {
      RankedApart(groups, S, s, i, j);
    }
    forall r ensures r in CutRows(kept, messages) <==> r in Limited(S, dialogs, messages) {
      CutAll(kept, S, messages, r);
      if r in S {
        KeptChats(groups, S, s, dialogs, r);
      }
    }
    CutDistinct(kept, S, messages);
  }

  lemma CutDistinct(kept: seq<Group>, S: set<Row>, messages: int)
    requires CollisionFree(S) && (forall i :: 0 <= i < |kept| ==> GroupOf(kept[i], S))
    requires forall i, j :: 0 <= i < j < |kept| ==> kept[i].chat != kept[j].chat
    ensures Distinct(CutRows(kept, messages))
  {
    CutAll(kept, S, messages, Row([], 0, [], 0, 0, 0, 0, []));
  }

  lemma RankedApart(groups: seq<Group>, S: set<Row>, s: seq<Group>, i: nat, j: nat)
    requires Grouped(groups, S) && Ascending(GroupLess, s) && Elements(s) == Elements(groups) && i < j < |s|
    requires Orders(GroupLess, Elements(groups))
    ensures s[i].chat != s[j].chat
  {
    hide GroupOf, GroupLess;
    assert s[i] in Elements(s) && s[j] in Elements(s) && GroupLess(s[i], s[j]);
    var a, b :| 0 <= a < |groups| && groups[a] == s[i] && 0 <= b < |groups| && groups[b] == s[j];
  }

  /** The first groups are those whose chats rank under the limit. */
  lemma KeptChats(groups: seq<Group>, S: set<Row>, s: seq<Group>, dialogs: int, r: Row)
    requires Grouped(groups, S) && Orders(GroupLess, Elements(groups))
    requires Ascending(GroupLess, s) && Elements(s) == Elements(groups) && |s| == |groups| && r in S
    ensures var kept := FirstUnder(s, dialogs);
      (exists i :: 0 <= i < |kept| && kept[i].chat == r.chat) <==> Under(ChatRank(S, r.chat), dialogs)
  {
    hide GroupOf, GroupLess, ChatRank;
    var kept := FirstUnder(s, dialogs);
    var k :| 0 <= k < |groups| && groups[k].chat == r.chat;
    var g := groups[k];
    assert g in groups && g in Elements(s);
    GroupRank(groups, S, g);
    var a :| 0 <= a < |s| && s[a] == g;
    AscendingRank(GroupLess, s, a);
    if i :| 0 <= i < |kept| && kept[i].chat == r.chat {
      if i < a {
        RankedApart(groups, S, s, i, a);
      } else if a < i {
        RankedApart(groups, S, s, a, i);
      }
    }
    if Under(ChatRank(S, r.chat), dialogs) {
      assert kept[a].chat == r.chat;
    }
  }

  /** Sorts the groups, and cuts them and their rows: the newest messages of the newest chats are left. */
  method RankAndCut(groups: seq<Group>, dialogs: int, messages: int, ghost S: set<Row>) returns (out: seq<Row>)
    ensures Grouped(groups, S) && CollisionFree(S) ==>
      Distinct(out) && Elements(out) == Limited(S, dialogs, messages) && Newest(S, Elements(out), dialogs, messages)
  {
    hide SortBy, LastUnder, CutRows, Grouped, CollisionFree, Limited, Newest;
    var ranked := SortBy(GroupLess, groups);
    if dialogs > 0 && dialogs < |ranked| {
      ranked := ranked[..dialogs];
    }
    out := CutEach(ranked, messages);
    if Grouped(groups, S) && CollisionFree(S) {
      CutIsLimited(groups, S, dialogs, messages);
      LimitedIsNewest(S, dialogs, messages);
    }
  }

  // Selection in one account.

  predicate RawLess(a: Row, b: Row) {
    LexLess(a.raw, b.raw)
  }

  lemma RawOrders(S: set<Row>)
    requires forall r, s :: r in S && s in S && r.raw == s.raw ==> r == s
    ensures Orders(RawLess, S)
  {
    hide LexLess;
    LexOrders(set r | r in S :: r.raw);
  }

  /** The keys to read from one account, in key order. */
  method SelectMessageKeys(ids: Ids, account: Text, raws: seq<Text>, chatId: Text, dialogs: int, messages: int)
    returns (selected: seq<Row>)
    ensures var S := Elements(MatchingRows(ids, account, raws, chatId));
      Distinct(raws) && KeysAreChats(S, (r: Row) => r.peer) && CollisionFree(S) ==>
        && Elements(selected) == Limited(S, dialogs, messages) && Newest(S, Elements(selected), dialogs, messages)
        && Distinct(selected) && forall i, j :: 0 <= i < j < |selected| ==> Precedes(selected[i].raw, selected[j].raw)
  {
    hide ParseMessageKey, MatchesChat, SortBy, Newest, Precedes, RawLess;
    var rows := FilterKeys(ids, account, raws, chatId);
    ghost var S := Elements(rows);
    var groups := GroupRows(rows, (r: Row) => r.peer);
    var cut := RankAndCut(groups, dialogs, messages, S);
    selected := SortBy(RawLess, cut);
    if Distinct(raws) && KeysAreChats(S, (r: Row) => r.peer) && CollisionFree(S) {
      MatchingRowsAreKeys(ids, account, raws, chatId);
      RawSorted(cut, S, dialogs, messages);
    }
  }

  lemma RawSorted(cut: seq<Row>, S: set<Row>, dialogs: int, messages: int)
    requires Distinct(cut) && Elements(cut) == Limited(S, dialogs, messages)
    requires forall r, s :: r in S && s in S && r.raw == s.raw ==> r == s
    ensures var selected := SortBy(RawLess, cut);
      Elements(selected) == Limited(S, dialogs, messages) && Distinct(selected)
      && forall i, j :: 0 <= i < j < |selected| ==> Precedes(selected[i].raw, selected[j].raw)
  {
    hide SortBy, ChatRank, Newer, RawLess, Precedes;
    RawOrders(Elements(cut));
    SortAscending(RawLess, cut);
    var selected := SortBy(RawLess, cut);
    AscendingDistinct(RawLess, selected);
    forall i, j | 0 <= i < j < |selected| ensures Precedes(selected[i].raw, selected[j].raw) {
      RawPrecedes(selected[i], selected[j]);
    }
  }

  lemma RawPrecedes(a: Row, b: Row)
    ensures RawLess(a, b) <==> Precedes(a.raw, b.raw)
  {
    LexIsPrecedes(a.raw, b.raw);
  }

  method FilterKeys(ids: Ids, account: Text, raws: seq<Text>, chatId: Text) returns (rows: seq<Row>)
    ensures rows == MatchingRows(ids, account, raws, chatId)
  {
    hide ParseMessageKey, MatchesChat;
    rows := [];
    for i := 0 to |raws|
      invariant rows == MatchingRows(ids, account, raws[..i], chatId)
    {
      assert raws[..i + 1][..i] == raws[..i];
      var row := ParseMessageKey(ids, account, raws[i]);
      if row.None? || !MatchesChat(ids, row.value, chatId) {
        continue;
      }
      rows := rows + [row.value];
    }
    assert raws[..|raws|] == raws;
  }

  /** The messages of the highest-ranked chats, newest last. */
  method ApplyPostboxLimits(messages: seq<Row>, dialogsLimit: int, messagesLimit: int) returns (out: seq<Row>)
    ensures Distinct(messages) && CollisionFree(Elements(messages)) ==>
      && Elements(out) == Limited(Elements(messages), dialogsLimit, messagesLimit)
      && Newest(Elements(messages), Elements(out), dialogsLimit, messagesLimit) && OldestFirst(out)
  {
    hide SortBy, ChatRank, Newer, RowLess, CollisionFree, Newest;
    ghost var S := Elements(messages);
    var groups := GroupRows(messages, (r: Row) => r.chat);
    var cut := RankAndCut(groups, dialogsLimit, messagesLimit, S);
    out := SortBy(RowLess, cut);
    if Distinct(messages) && CollisionFree(S) {
      RowOrders(S, Elements(cut));
      SortAscending(RowLess, cut);
      SortedRows(out);
    }
  }

  /** Sorted by time, and at equal times by source id. */
  predicate OldestFirst(rows: seq<Row>) {
    forall i, j :: 0 <= i < j < |rows| ==> rows[i].ts < rows[j].ts || (rows[i].ts == rows[j].ts && rows[i].pk < rows[j].pk)
  }

  lemma SortedRows(rows: seq<Row>)
    ensures Ascending(RowLess, rows) <==> OldestFirst(rows)
  {
  }

  // Several accounts.

  /** One account's message table: its keys, each stored once. */
  datatype Account = Account(id: Text, raws: seq<Text>)

  function AllRows(ids: Ids, accounts: seq<Account>, chatId: Text): (K: set<Row>) {
    if accounts == [] then {}
    else
      var last := accounts[|accounts| - 1];
      AllRows(ids, accounts[..|accounts| - 1], chatId) + Elements(MatchingRows(ids, last.id, last.raws, chatId))
  }

  /** Each account and each key is listed once. */
  ghost predicate Listed(accounts: seq<Account>) {
    && (forall i :: 0 <= i < |accounts| ==> Distinct(accounts[i].raws))
    && (forall i, j :: 0 <= i < j < |accounts| ==> accounts[i].id != accounts[j].id)
  }

  datatype Identity = Identity(account: Text, chat: Text, namespace: int, messageId: int)

  function IdentityOf(r: Row): Identity {
    Identity(r.account, r.chat, r.namespace, r.messageId)
  }

  /** Derived ids do not collide. */
  ghost predicate IdsSound(K: set<Row>) {
    && Keys(K)
    && (forall a, b :: a in K && b in K && a.account == b.account && a.peer == b.peer ==> a.chat == b.chat)
    && (forall a, b :: a in K && b in K && a.chat == b.chat ==> a.peer == b.peer)
    && (forall a, b :: a in K && b in K && IdentityOf(a) == IdentityOf(b) ==> a == b)
  }

  lemma {:induction false} RowsOfAccount(ids: Ids, accounts: seq<Account>, chatId: Text, i: nat)
    requires Listed(accounts) && i < |accounts|
    ensures Elements(MatchingRows(ids, accounts[i].id, accounts[i].raws, chatId)) ==
      OfAccount(AllRows(ids, accounts, chatId), accounts[i].id)
    decreases |accounts|
  {
    hide MatchingRows;
    var init, last := accounts[..|accounts| - 1], accounts[|accounts| - 1];
    MatchingRowsAreKeys(ids, last.id, last.raws, chatId);
    if i < |init| {
      RowsOfAccount(ids, init, chatId, i);
    } else {
      AccountsOf(ids, init, chatId);
    }
  }

  lemma {:induction false} AccountsOf(ids: Ids, accounts: seq<Account>, chatId: Text)
    requires Listed(accounts)
    ensures forall r :: r in AllRows(ids, accounts, chatId) ==> exists i :: 0 <= i < |accounts| && accounts[i].id == r.account
  {
    hide MatchingRows;
    if accounts != [] {
      var init, last := accounts[..|accounts| - 1], accounts[|accounts| - 1];
      MatchingRowsAreKeys(ids, last.id, last.raws, chatId);
      AccountsOf(ids, init, chatId);
      forall r | r in AllRows(ids, accounts, chatId) ensures exists i :: 0 <= i < |accounts| && accounts[i].id == r.account {
        if r in AllRows(ids, init, chatId) {
          var i :| 0 <= i < |init| && init[i].id == r.account;
          assert accounts[i].id == r.account;
        } else {
          assert accounts[|accounts| - 1].id == r.account;
        }
      }
    }
  }

  /** What reading a record gives: a message, nothing to keep, or an error that ends the import. */
  datatype Reading = Message | Skipped | Broken

  type Reader = Row -> Reading

  function Decodes(reading: Reader): Row -> bool {
    (r: Row) => reading(r).Message?
  }

  datatype ImportError = Unreadable | ChatNotFound(chatId: Text)

  /** The messages of one account; without any limit every key is read. One record that cannot be read ends it. */
  method LoadMessageRecords(ids: Ids, account: Account, reading: Reader, chatId: Text, dialogs: int, messages: int)
    returns (r: Result<seq<Row>, ImportError>)
    ensures var S := Elements(MatchingRows(ids, account.id, account.raws, chatId));
      Distinct(account.raws) && KeysAreChats(S, (r: Row) => r.peer) && CollisionFree(S) ==>
        Loaded(r, Limited(S, dialogs, messages), reading)
  {
    hide MatchingRows, CollisionFree, ChatRank, Newer, Ascending, Trim;
    var keys;
    if dialogs > 0 || messages > 0 || Trim(chatId) != [] {
      keys := SelectMessageKeys(ids, account.id, account.raws, chatId, dialogs, messages);
    } else {
      keys := FilterKeys(ids, account.id, account.raws, chatId);
    }
    r := ReadRecords(keys, reading);
    assert forall x :: x in keys <==> x in Elements(keys);
  }

  /** The messages among some keys, unless one of their records is broken. */
  ghost predicate Loaded(r: Result<seq<Row>, ImportError>, keys: set<Row>, reading: Reader) {
    if exists x :: x in keys && reading(x).Broken? then r == Err(Unreadable)
    else r.Ok? && Elements(r.value) == set x | x in keys && Decodes(reading)(x)
  }

  method ReadRecords(keys: seq<Row>, reading: Reader) returns (r: Result<seq<Row>, ImportError>)
    ensures Loaded(r, Elements(keys), reading)
  {
    var records := [];
    for i := 0 to |keys|
      invariant forall r :: r in records <==> r in keys[..i] && reading(r).Message?
      invariant forall r :: r in keys[..i] ==> !reading(r).Broken?
    {
      match reading(keys[i])
      case Broken =>
        assert keys[i] in Elements(keys);
        return Err(Unreadable);
      case Skipped =>
      case Message =>
        records := records + [keys[i]];
    }
    assert keys[..|keys|] == keys;
    return Ok(records);
  }

  /** `m` holds exactly `U`, by identity. */
  ghost predicate Indexed(m: map<Identity, Row>, U: set<Row>) {
    && (forall k :: k in m ==> m[k] in U && IdentityOf(m[k]) == k)
    && (forall r :: r in U ==> IdentityOf(r) in m && m[IdentityOf(r)] == r)
  }

  ghost predicate DistinctIdentities(U: set<Row>) {
    forall a, b :: a in U && b in U && IdentityOf(a) == IdentityOf(b) ==> a == b
  }

  /** Adds messages by identity; a later one replaces an earlier one. */
  method AddAll(m: map<Identity, Row>, records: seq<Row>, ghost U: set<Row>) returns (n: map<Identity, Row>)
    ensures Indexed(m, U) && DistinctIdentities(U + Elements(records)) ==> Indexed(n, U + Elements(records))
  {
    n := m;
    for i := 0 to |records|
      invariant Indexed(m, U) && DistinctIdentities(U + Elements(records)) ==> Indexed(n, U + Elements(records[..i]))
    {
      n := n[IdentityOf(records[i]) := records[i]];
      assert Elements(records[..i + 1]) == Elements(records[..i]) + {records[i]};
    }
    assert records[..|records|] == records;
  }

  /** What the first `n` accounts contribute. */
  ghost function ReadFrom(K: set<Row>, decodes: Row -> bool, dialogs: int, messages: int, accounts: seq<Account>, n: nat): set<Row>
    requires n <= |accounts|
  {
    set r | r in ReadLimited(K, decodes, dialogs, messages) && exists j :: 0 <= j < n && accounts[j].id == r.account
  }

  /** The keys that one account reading under the limits. */
  ghost function KeysRead(K: set<Row>, account: Text, dialogs: int, messages: int): set<Row> {
    Limited(OfAccount(K, account), dialogs, messages)
  }

  /** A broken record is among those read. */
  ghost predicate Stuck(K: set<Row>, reading: Reader, dialogs: int, messages: int) {
    exists r :: r in K && r in KeysRead(K, r.account, dialogs, messages) && reading(r).Broken?
  }

  lemma OneAccountRead(ids: Ids, accounts: seq<Account>, chatId: Text, i: nat, reading: Reader, dialogs: int, messages: int,
                       r: Result<seq<Row>, ImportError>)
    requires Listed(accounts) && i < |accounts| && IdsSound(AllRows(ids, accounts, chatId))
    requires var S := Elements(MatchingRows(ids, accounts[i].id, accounts[i].raws, chatId));
      Distinct(accounts[i].raws) && KeysAreChats(S, (r: Row) => r.peer) && CollisionFree(S) ==>
        Loaded(r, Limited(S, dialogs, messages), reading)
    ensures var K := AllRows(ids, accounts, chatId);
      && Loaded(r, KeysRead(K, accounts[i].id, dialogs, messages), reading)
      && (r.Ok? ==>
            ReadFrom(K, Decodes(reading), dialogs, messages, accounts, i + 1) ==
              ReadFrom(K, Decodes(reading), dialogs, messages, accounts, i) + Elements(r.value))
      && DistinctIdentities(ReadFrom(K, Decodes(reading), dialogs, messages, accounts, i + 1))
  {
    hide ChatRank, Newer, AllRows, MatchingRows, RowLess;
    var K := AllRows(ids, accounts, chatId);
    RowsOfAccount(ids, accounts, chatId, i);
    var A := OfAccount(K, accounts[i].id);
    assert KeysAreChats(A, (r: Row) => r.peer) && CollisionFree(A);
    if r.Ok? {
      forall x ensures x in r.value <==> x in ReadLimited(K, Decodes(reading), dialogs, messages) && x.account == accounts[i].id {
        assert x in r.value <==> x in Elements(r.value);
      }
    }
  }

  /** The union of the accounts: one message per identity, the last one read. */
  method UniteAccounts(ids: Ids, accounts: seq<Account>, reading: Reader, chatId: Text, dialogs: int, messages: int)
    returns (r: Result<map<Identity, Row>, ImportError>)
    ensures var K := AllRows(ids, accounts, chatId);
      Listed(accounts) && IdsSound(K) ==>
        if Stuck(K, reading, dialogs, messages) then r == Err(Unreadable)
        else r.Ok? && Indexed(r.value, ReadLimited(K, Decodes(reading), dialogs, messages))
  {
    hide MatchingRows, Limited, AllRows, IdsSound, Listed, Indexed, ReadLimited, Loaded, KeysRead;
    ghost var K := AllRows(ids, accounts, chatId);
    ghost var sound := Listed(accounts) && IdsSound(K);
    var byIdentity: map<Identity, Row> := map[];
    NothingIndexed(K, Decodes(reading), dialogs, messages, accounts);
    for i := 0 to |accounts|
      invariant sound ==> Indexed(byIdentity, ReadFrom(K, Decodes(reading), dialogs, messages, accounts, i))
      invariant sound ==> forall k :: 0 <= k < i ==> Unbroken(K, accounts[k].id, reading, dialogs, messages)
    {
      var records := LoadMessageRecords(ids, accounts[i], reading, chatId, dialogs, messages);
      if sound {
        OneAccountRead(ids, accounts, chatId, i, reading, dialogs, messages, records);
        AccountOutcome(K, accounts[i].id, reading, dialogs, messages, records);
      }
      if records.Err? {
        return Err(records.error);
      }
      byIdentity := AddAll(byIdentity, records.value, ReadFrom(K, Decodes(reading), dialogs, messages, accounts, i));
    }
    if sound {
      AllAccountsRead(ids, accounts, chatId, Decodes(reading), dialogs, messages);
      NotStuck(ids, accounts, chatId, reading, dialogs, messages);
    }
    return Ok(byIdentity);
  }

  ghost predicate Unbroken(K: set<Row>, account: Text, reading: Reader, dialogs: int, messages: int) {
    forall r :: r in KeysRead(K, account, dialogs, messages) ==> !reading(r).Broken?
  }

  lemma AccountOutcome(K: set<Row>, account: Text, reading: Reader, dialogs: int, messages: int, r: Result<seq<Row>, ImportError>)
    requires Loaded(r, KeysRead(K, account, dialogs, messages), reading)
    ensures r.Ok? ==> Unbroken(K, account, reading, dialogs, messages)
    ensures r.Err? ==> r == Err(Unreadable) && Stuck(K, reading, dialogs, messages)
  {
    hide ChatRank, Newer;
  }

  lemma NotStuck(ids: Ids, accounts: seq<Account>, chatId: Text, reading: Reader, dialogs: int, messages: int)
    requires Listed(accounts)
    requires forall k :: 0 <= k < |accounts| ==> Unbroken(AllRows(ids, accounts, chatId), accounts[k].id, reading, dialogs, messages)
    ensures !Stuck(AllRows(ids, accounts, chatId), reading, dialogs, messages)
  {
    hide AllRows, KeysRead;
    AccountsOf(ids, accounts, chatId);
  }

  lemma NothingIndexed(K: set<Row>, decodes: Row -> bool, dialogs: int, messages: int, accounts: seq<Account>)
    ensures Indexed(map[], ReadFrom(K, decodes, dialogs, messages, accounts, 0))
  {
  }

  lemma AllAccountsRead(ids: Ids, accounts: seq<Account>, chatId: Text, decodes: Row -> bool, dialogs: int, messages: int)
    requires Listed(accounts)
    ensures var K := AllRows(ids, accounts, chatId);
      ReadFrom(K, decodes, dialogs, messages, accounts, |accounts|) == ReadLimited(K, decodes, dialogs, messages)
  {
    hide Limited, AllRows;
    AccountsOf(ids, accounts, chatId);
  }

  /** The members of a map in no particular order. */
  method ValuesOf(byIdentity: map<Identity, Row>, ghost U: set<Row>) returns (rows: seq<Row>)
    ensures Indexed(byIdentity, U) ==> Distinct(rows) && Elements(rows) == U
  {
    rows := [];
    var left := byIdentity.Keys;
    while left != {}
      invariant left <= byIdentity.Keys
      invariant Indexed(byIdentity, U) ==> Distinct(rows)
      invariant Indexed(byIdentity, U) ==> forall r :: r in rows <==> r in U && IdentityOf(r) !in left
      decreases |left|
    {
      var k :| k in left;
      rows := rows + [byIdentity[k]];
      left := left - {k};
    }
  }

  method FilterPostboxChat(ids: Ids, messages: seq<Row>, chatId: Text) returns (out: seq<Row>)
    ensures Distinct(messages) ==> Distinct(out)
    ensures Elements(out) == set r | r in messages && MatchesChat(ids, r, chatId)
  {
    hide MatchesChat;
    out := [];
    for i := 0 to |messages|
      invariant forall r :: r in out <==> r in messages[..i] && MatchesChat(ids, r, chatId)
      invariant Distinct(messages) ==> Distinct(out)
    {
      if MatchesChat(ids, messages[i], chatId) {
        out := out + [messages[i]];
      }
    }
    assert messages[..|messages|] == messages;
  }

  /** What an import under limits returns, given the rows of its accounts that match the chat filter. */
  ghost predicate IsImport(K: set<Row>, reading: Reader, chatId: Text, dialogs: int, messages: int, r: Result<seq<Row>, ImportError>) {
    var T := ReadLimited(K, Decodes(reading), dialogs, messages);
    if Stuck(K, reading, dialogs, messages) then r == Err(Unreadable)
    else if chatId != [] && T == {} then r == Err(ChatNotFound(chatId))
    else r.Ok? && OldestFirst(r.value) && Elements(r.value) == Limited(T, dialogs, messages)
  }

  /** Which keys are read: in each account those of the newest messages of its newest chats. */
  ghost predicate ReadsNewest(K: set<Row>, read: set<Row>, dialogs: int, messages: int) {
    read <= K && forall a :: Newest(OfAccount(K, a), OfAccount(read, a), dialogs, messages)
  }

  /** The outcome when those keys are read; the limits are applied again to the messages they hold. */
  ghost predicate Outcome(read: set<Row>, reading: Reader, chatId: Text, dialogs: int, messages: int, r: Result<seq<Row>, ImportError>) {
    var T := set x | x in read && reading(x).Message?;
    if exists x :: x in read && reading(x).Broken? then r == Err(Unreadable)
    else if |chatId| > 0 && T == {} then r == Err(ChatNotFound(chatId))
    else r.Ok? && OldestFirst(r.value) && Newest(T, Elements(r.value), dialogs, messages)
  }

  ghost predicate Imports(K: set<Row>, reading: Reader, chatId: Text, dialogs: int, messages: int, r: Result<seq<Row>, ImportError>) {
    exists read :: ReadsNewest(K, read, dialogs, messages) && Outcome(read, reading, chatId, dialogs, messages, r)
  }

  /** In terms of times, ids and counts only. */
  lemma ImportIsNewest(K: set<Row>, reading: Reader, chatId: Text, dialogs: int, messages: int, r: Result<seq<Row>, ImportError>)
    requires Keys(K) && IsImport(K, reading, chatId, dialogs, messages, r)
    ensures Imports(K, reading, chatId, dialogs, messages, r)
  {
    hide Limited, Newest, OldestFirst;
    var read := set x | x in K && x in KeysRead(K, x.account, dialogs, messages);
    forall a ensures Newest(OfAccount(K, a), OfAccount(read, a), dialogs, messages) {
      LimitedIsNewest(OfAccount(K, a), dialogs, messages);
      LimitedWithin(OfAccount(K, a), dialogs, messages);
      assert OfAccount(read, a) == Limited(OfAccount(K, a), dialogs, messages);
    }
    var T := set x | x in read && reading(x).Message?;
    assert T == ReadLimited(K, Decodes(reading), dialogs, messages);
    LimitedIsNewest(T, dialogs, messages);
    assert Outcome(read, reading, chatId, dialogs, messages, r);
  }

  lemma LimitedWithin(S: set<Row>, dialogs: int, messages: int)
    ensures Limited(S, dialogs, messages) <= S
  {
  }

  /**
   The messages imported from several accounts: each is read with the limits pushed down, then the union is
   filtered and limited again.
   */
  method ImportPostbox(ids: Ids, accounts: seq<Account>, reading: Reader, chatId: Text, dialogs: int, messages: int)
    returns (r: Result<seq<Row>, ImportError>)
    ensures var K := AllRows(ids, accounts, chatId);
      Listed(accounts) && IdsSound(K) ==>
        IsImport(K, reading, chatId, dialogs, messages, r) && Imports(K, reading, chatId, dialogs, messages, r)
    ensures var K := AllRows(ids, accounts, chatId);
      Listed(accounts) && IdsSound(K) && r.Ok? && (forall x :: x in K ==> reading(x).Message?) ==>
        Newest(K, Elements(r.value), dialogs, messages) && OldestFirst(r.value)
  {
    hide ReadLimited, Limited, AllRows, Indexed, MatchesChat, RowLess, CollisionFree, Apart, OldestFirst, Stuck, Newest, Imports;
    ghost var K := AllRows(ids, accounts, chatId);
    ghost var T := ReadLimited(K, Decodes(reading), dialogs, messages);
    var read := UniteAccounts(ids, accounts, reading, chatId, dialogs, messages);
    if read.Err? {
      r := Err(read.error);
      if Listed(accounts) && IdsSound(K) {
        ImportIsNewest(K, reading, chatId, dialogs, messages, r);
      }
      return;
    }
    var united := ValuesOf(read.value, T);
    var filtered := FilterPostboxChat(ids, united, chatId);
    if Listed(accounts) && IdsSound(K) {
      ReadMatches(ids, accounts, chatId, Decodes(reading), dialogs, messages);
      forall x ensures x in filtered <==> x in T {
        assert x in filtered <==> x in Elements(filtered);
        assert x in united <==> x in Elements(united);
      }
      assert Elements(filtered) == T;
      assert |filtered| > 0 ==> filtered[0] in T;
    }
    if chatId != [] && |filtered| == 0 {
      r := Err(ChatNotFound(chatId));
    } else {
      var out := ApplyPostboxLimits(filtered, dialogs, messages);
      r := Ok(out);
    }
    if Listed(accounts) && IdsSound(K) {
      ImportIsNewest(K, reading, chatId, dialogs, messages, r);
    }
    if Listed(accounts) && IdsSound(K) && r.Ok? && forall x :: x in K ==> reading(x).Message? {
      assert K == set x | x in K && reading(x).Message?;
      ImportKeepsNewest(ids, accounts, reading, chatId, dialogs, messages, r);
    }
  }

  /** What was read already matches the chat filter and still has distinct sort keys. */
  lemma ReadMatches(ids: Ids, accounts: seq<Account>, chatId: Text, decodes: Row -> bool, dialogs: int, messages: int)
    requires Listed(accounts) && IdsSound(AllRows(ids, accounts, chatId))
    ensures var T := ReadLimited(AllRows(ids, accounts, chatId), decodes, dialogs, messages);
      CollisionFree(T) && forall r :: r in T ==> MatchesChat(ids, r, chatId)
  {
    hide Limited, MatchesChat;
    RowsMatch(ids, accounts, chatId);
  }

  lemma {:induction false} RowsMatch(ids: Ids, accounts: seq<Account>, chatId: Text)
    requires Listed(accounts)
    ensures forall r :: r in AllRows(ids, accounts, chatId) ==> MatchesChat(ids, r, chatId)
  {
    hide MatchingRows, MatchesChat;
    if accounts != [] {
      var last := accounts[|accounts| - 1];
      MatchingRowsAreKeys(ids, last.id, last.raws, chatId);
      RowsMatch(ids, accounts[..|accounts| - 1], chatId);
    }
  }

  // The chat filter, key by key or at the end.

  lemma {:induction false} MatchingRowsFiltered(ids: Ids, account: Text, raws: seq<Text>, chatId: Text)
    ensures Elements(MatchingRows(ids, account, raws, chatId)) ==
      set r | r in Elements(MatchingRows(ids, account, raws, [])) && MatchesChat(ids, r, chatId)
  {
    hide ParseMessageKey, MatchesChat;
    if raws != [] {
      var init, row := raws[..|raws| - 1], ParseMessageKey(ids, account, raws[|raws| - 1]);
      MatchingRowsFiltered(ids, account, init, chatId);
      if row.Some? {
        BlankMatches(ids, row.value);
      }
      AddedRow(MatchingRows(ids, account, init, chatId), row);
      AddedRow(MatchingRows(ids, account, init, []), row);
    }
  }

  lemma BlankMatches(ids: Ids, r: Row)
    ensures MatchesChat(ids, r, [])
  {
  }

  lemma AddedRow(rows: seq<Row>, row: Option<Row>)
    ensures row.Some? ==> Elements(rows + [row.value]) == Elements(rows) + {row.value}
  {
  }

  /** Filtering keys by chat as they are listed selects the rows that filtering everything selects. */
  lemma {:induction false} AllRowsFiltered(ids: Ids, accounts: seq<Account>, chatId: Text)
    ensures AllRows(ids, accounts, chatId) == set r | r in AllRows(ids, accounts, []) && MatchesChat(ids, r, chatId)
  {
    hide MatchingRows, MatchesChat;
    if accounts != [] {
      var last := accounts[|accounts| - 1];
      AllRowsFiltered(ids, accounts[..|accounts| - 1], chatId);
      MatchingRowsFiltered(ids, last.id, last.raws, chatId);
    }
  }

  lemma {:induction false} AllRowsOf(ids: Ids, accounts: seq<Account>, chatId: Text, r: Row)
    ensures r in AllRows(ids, accounts, chatId) <==>
      exists a :: a in accounts && r in Elements(MatchingRows(ids, a.id, a.raws, chatId))
  {
    hide MatchingRows;
    if accounts != [] {
      var init, last := accounts[..|accounts| - 1], accounts[|accounts| - 1];
      assert accounts == init + [last];
      AllRowsOf(ids, init, chatId, r);
    }
  }

  /** Row `r` stands for key `raw` of an account, and its chat is the one asked for, if any is. */
  ghost predicate AskedFor(ids: Ids, account: Account, raw: Text, chatId: Text, r: Row) {
    && raw in account.raws && r.account == account.id && r.raw == raw
    && Spells(raw, r.peer, r.namespace, r.ts, r.messageId)
    && r.chat == ids.chatOf(account.id, r.peer) && r.pk == ids.pkOf(account.id, r.peer, r.namespace, r.messageId)
    && (IsBlank(chatId) || Trim(chatId) == r.chat || Trim(chatId) == ids.decimalOf(r.peer))
  }

  lemma SignedOnce(word: int, x: int, y: int, range: int)
    requires SpellsSigned(word, x, range) && SpellsSigned(word, y, range)
    ensures x == y
  {
  }

  lemma SpelledFields(raw: Text, r: Row, s: Row)
    requires Spells(raw, r.peer, r.namespace, r.ts, r.messageId) && Spells(raw, s.peer, s.namespace, s.ts, s.messageId)
    ensures r.peer == s.peer && r.namespace == s.namespace && r.ts == s.ts && r.messageId == s.messageId
  {
    hide SpellsSigned;
    SignedOnce(Be32(raw[..4]) * TWO32 + Be32(raw[4..8]), r.peer, s.peer, TWO64);
    SignedOnce(Be32(raw[8..12]), r.namespace, s.namespace, TWO32);
    SignedOnce(Be32(raw[12..16]), r.ts, s.ts, TWO32);
    SignedOnce(Be32(raw[16..20]), r.messageId, s.messageId, TWO32);
  }

  lemma SpelledLong(raw: Text, r: Row)
    requires Spells(raw, r.peer, r.namespace, r.ts, r.messageId)
    ensures |raw| >= KEY_SIZE
  {
  }

  /** A key spells one row. */
  lemma SpelledOnce(ids: Ids, account: Text, raw: Text, r: Row)
    requires Spells(raw, r.peer, r.namespace, r.ts, r.messageId) && r.account == account && r.raw == raw
    requires r.chat == ids.chatOf(account, r.peer) && r.pk == ids.pkOf(account, r.peer, r.namespace, r.messageId)
    ensures ParseMessageKey(ids, account, raw) == Some(r)
  {
    hide Spells, ParseMessageKey;
    SpelledLong(raw, r);
    var s := ParseMessageKey(ids, account, raw).value;
    SpelledFields(raw, r, s);
    assert r == s;
  }

  lemma FilterAsks(ids: Ids, r: Row, chatId: Text)
    ensures MatchesChat(ids, r, chatId) <==> IsBlank(chatId) || Trim(chatId) == r.chat || Trim(chatId) == ids.decimalOf(r.peer)
  {
    hide Trim, IsBlank;
    TrimBare(chatId);
  }

  lemma SpelledRow(ids: Ids, account: Account, raw: Text, chatId: Text, r: Row)
    requires raw in account.raws
    ensures AskedFor(ids, account, raw, chatId, r) <==>
      ParseMessageKey(ids, account.id, raw) == Some(r) && MatchesChat(ids, r, chatId)
  {
    hide Trim, IsBlank, Spells, MatchesChat, ParseMessageKey;
    FilterAsks(ids, r, chatId);
    if AskedFor(ids, account, raw, chatId, r) {
      SpelledOnce(ids, account.id, raw, r);
    }
  }

  lemma {:induction false} MatchingRow(ids: Ids, account: Text, raws: seq<Text>, chatId: Text, r: Row)
    ensures r in MatchingRows(ids, account, raws, chatId) <==>
      exists raw :: raw in raws && ParseMessageKey(ids, account, raw) == Some(r) && MatchesChat(ids, r, chatId)
  {
    hide ParseMessageKey, MatchesChat;
    if raws != [] {
      var init, last := raws[..|raws| - 1], raws[|raws| - 1];
      assert raws == init + [last];
      MatchingRow(ids, account, init, chatId, r);
    }
  }

  /** The rows an import is about are those of the keys of its accounts whose chat is asked for. */
  lemma RowsAsked(ids: Ids, accounts: seq<Account>, chatId: Text, r: Row)
    ensures r in AllRows(ids, accounts, chatId) <==> exists a, raw :: a in accounts && AskedFor(ids, a, raw, chatId, r)
  {
    hide MatchingRows, MatchesChat, ParseMessageKey, AllRows, AskedFor;
    AllRowsOf(ids, accounts, chatId, r);
    if a :| a in accounts && r in Elements(MatchingRows(ids, a.id, a.raws, chatId)) {
      MatchingRow(ids, a.id, a.raws, chatId, r);
      var raw :| raw in a.raws && ParseMessageKey(ids, a.id, raw) == Some(r) && MatchesChat(ids, r, chatId);
      SpelledRow(ids, a, raw, chatId, r);
    }
    if a, raw :| a in accounts && AskedFor(ids, a, raw, chatId, r) {
      AskedKey(ids, a, raw, chatId, r);
      SpelledRow(ids, a, raw, chatId, r);
      MatchingRow(ids, a.id, a.raws, chatId, r);
      assert r in Elements(MatchingRows(ids, a.id, a.raws, chatId));
    }
  }

  lemma AskedKey(ids: Ids, account: Account, raw: Text, chatId: Text, r: Row)
    requires AskedFor(ids, account, raw, chatId, r)
    ensures raw in account.raws
  {
  }

  lemma SameAccounts(accounts: seq<Account>, other: seq<Account>)
    requires multiset(other) == multiset(accounts)
    ensures forall a :: a in other <==> a in accounts
  {
    forall a ensures a in other <==> a in accounts {
      assert a in other <==> a in multiset(other);
      assert a in accounts <==> a in multiset(accounts);
    }
  }

  /** The rows of the accounts do not depend on their order. */
  lemma AllRowsAnyOrder(ids: Ids, accounts: seq<Account>, other: seq<Account>, chatId: Text)
    requires multiset(other) == multiset(accounts)
    ensures AllRows(ids, other, chatId) == AllRows(ids, accounts, chatId)
  {
    hide AllRows, MatchingRows;
    SameAccounts(accounts, other);
    forall r ensures r in AllRows(ids, other, chatId) <==> r in AllRows(ids, accounts, chatId) {
      AllRowsOf(ids, other, chatId, r);
      AllRowsOf(ids, accounts, chatId, r);
    }
  }

  /** Accounts listed once are listed once in any order. */
  lemma ListedAnyOrder(accounts: seq<Account>, other: seq<Account>)
    requires Listed(accounts) && multiset(other) == multiset(accounts)
    ensures Listed(other)
  {
    SameAccounts(accounts, other);
    forall i | 0 <= i < |other| ensures Distinct(other[i].raws) {
      assert other[i] in accounts;
    }
    assert Distinct(accounts);
    DistinctOnce(accounts);
    DistinctOnce(other);
    forall i, j | 0 <= i < j < |other| ensures other[i].id != other[j].id {
      assert other[i] != other[j] && other[i] in accounts && other[j] in accounts;
    }
  }

  lemma SubsetSound(K: set<Row>, A: set<Row>)
    requires IdsSound(K) && A <= K
    ensures IdsSound(A)
  {
  }

  /** A limit keeps something of anything. */
  lemma LimitedKeepsSome(S: set<Row>, dialogs: int, messages: int)
    requires CollisionFree(S) && S != {}
    ensures Limited(S, dialogs, messages) != {}
  {
    hide RowLess, Newer, CollisionFree;
    var r :| r in S;
    assert r.chat in Chats(S);
    ChatOrders(S, Chats(S));
    ReverseOrders(ChatOrder(S), Chats(S));
    var c := Greatest(Reverse(ChatOrder(S)), Chats(S));
    assert Below(ChatOrder(S), Chats(S), c) == {};
    var n := NewestKept(S, c);
    assert n in Limited(S, dialogs, messages);
  }

  lemma ReverseOrders<T(!new)>(less: Order<T>, S: set<T>)
    requires Orders(less, S)
    ensures Orders(Reverse(less), S)
  {
  }

  /** All rows of all accounts that the chat filter asks for. */
  ghost function Asked(ids: Ids, accounts: seq<Account>, chatId: Text): set<Row> {
    set r | r in AllRows(ids, accounts, []) && MatchesChat(ids, r, chatId)
  }

  /** What reading the messages `S` and limiting them once returns. */
  ghost predicate LimitedOnce(S: set<Row>, chatId: Text, dialogs: int, messages: int, r: Result<seq<Row>, ImportError>) {
    if chatId != [] && S == {} then r == Err(ChatNotFound(chatId))
    else r.Ok? && OldestFirst(r.value) && Elements(r.value) == Limited(S, dialogs, messages)
  }

  /**
   An import returns what reading every message of every account, filtering by chat and limiting once returns, for any
   limits, when no record is broken and dropping undecodable keys is harmless: in particular when every key decodes.
   */
  lemma ImportIsUnlimitedRead(ids: Ids, accounts: seq<Account>, reading: Reader, chatId: Text, dialogs: int, messages: int,
                              r: Result<seq<Row>, ImportError>)
    requires Listed(accounts) && IdsSound(AllRows(ids, accounts, []))
    requires IsImport(AllRows(ids, accounts, chatId), reading, chatId, dialogs, messages, r)
    requires forall x :: x in Asked(ids, accounts, chatId) ==> !reading(x).Broken?
    requires var K := Asked(ids, accounts, chatId);
      (forall x :: x in K ==> reading(x).Message?) || Harmless(K, Decodes(reading))
    ensures LimitedOnce(Decodable(Asked(ids, accounts, chatId), Decodes(reading)), chatId, dialogs, messages, r)
  {
    hide ChatRank, Newer, RowLess, ReadLimited, Limited, OldestFirst, Harmless, AllRows, MatchesChat;
    var K := Asked(ids, accounts, chatId);
    AllRowsFiltered(ids, accounts, chatId);
    assert K == AllRows(ids, accounts, chatId);
    SubsetSound(AllRows(ids, accounts, []), K);
    if forall x :: x in K ==> reading(x).Message? {
      AllDecodeHarmless(K, Decodes(reading));
    }
    PushdownHolds(K, Decodes(reading), dialogs, messages);
    NothingToRead(K, Decodes(reading), dialogs, messages);
  }

  /** So an import returns the newest messages of the newest chats of everything that is asked for, oldest first. */
  lemma ImportKeepsNewest(ids: Ids, accounts: seq<Account>, reading: Reader, chatId: Text, dialogs: int, messages: int,
                          r: Result<seq<Row>, ImportError>)
    requires Listed(accounts) && IdsSound(AllRows(ids, accounts, chatId)) && r.Ok?
    requires IsImport(AllRows(ids, accounts, chatId), reading, chatId, dialogs, messages, r)
    requires var K := AllRows(ids, accounts, chatId);
      (forall x :: x in K ==> reading(x).Message?) || Harmless(K, Decodes(reading))
    ensures var S := set x | x in AllRows(ids, accounts, chatId) && reading(x).Message?;
      Newest(S, Elements(r.value), dialogs, messages) && OldestFirst(r.value)
  {
    hide ChatRank, Newer, RowLess, ReadLimited, Limited, OldestFirst, Harmless, AllRows, Newest;
    var K := AllRows(ids, accounts, chatId);
    var S := set x | x in K && reading(x).Message?;
    assert S == Decodable(K, Decodes(reading));
    if forall x :: x in K ==> reading(x).Message? {
      AllDecodeHarmless(K, Decodes(reading));
    }
    PushdownHolds(K, Decodes(reading), dialogs, messages);
    LimitedIsNewest(S, dialogs, messages);
  }

  /** The limited read finds something exactly when there is something to find. */
  lemma NothingToRead(K: set<Row>, decodes: Row -> bool, dialogs: int, messages: int)
    requires Keys(K)
    requires Limited(ReadLimited(K, decodes, dialogs, messages), dialogs, messages) == Limited(Decodable(K, decodes), dialogs, messages)
    ensures ReadLimited(K, decodes, dialogs, messages) == {} <==> Decodable(K, decodes) == {}
  {
    hide ChatRank, Newer, RowLess;
    var S, T := Decodable(K, decodes), ReadLimited(K, decodes, dialogs, messages);
    if T == {} && S != {} {
      LimitedKeepsSome(S, dialogs, messages);
    }
  }

  /** The order of the accounts does not matter: not for the list, nor for what is refused. */
  lemma ImportOrderFree(ids: Ids, accounts: seq<Account>, other: seq<Account>, reading: Reader, chatId: Text, dialogs: int,
                        messages: int, r: Result<seq<Row>, ImportError>, s: Result<seq<Row>, ImportError>)
    requires Listed(accounts) && IdsSound(AllRows(ids, accounts, chatId)) && multiset(other) == multiset(accounts)
    requires IsImport(AllRows(ids, accounts, chatId), reading, chatId, dialogs, messages, r)
    requires IsImport(AllRows(ids, other, chatId), reading, chatId, dialogs, messages, s)
    ensures Listed(other) && IdsSound(AllRows(ids, other, chatId)) && r == s
  {
    hide ChatRank, Newer, RowLess, ReadLimited, Ascending, AllRows, Stuck, CollisionFree, Apart, Listed, OldestFirst;
    var K := AllRows(ids, accounts, chatId);
    ListedAnyOrder(accounts, other);
    AllRowsAnyOrder(ids, accounts, other, chatId);
    if r.Ok? {
      ReadIsSubset(K, Decodes(reading), dialogs, messages);
      RowOrders(K, Elements(r.value));
      SortedRows(r.value);
      SortedRows(s.value);
      AscendingUnique(RowLess, r.value, s.value);
    }
  }

  lemma ReadIsSubset(K: set<Row>, decodes: Row -> bool, dialogs: int, messages: int)
    ensures ReadLimited(K, decodes, dialogs, messages) <= K
  {
    hide Limited;
  }
}
