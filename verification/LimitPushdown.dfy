/** Limiting each account before limiting their union: when the answer is the one asked for. */
module LimitPushdown {
  import opened Bytes
  import opened Ranking
  import opened TextOrder

  /** A stored message, by its parsed key and the ids derived from it. */
  datatype Row = Row(account: Text, peer: int, chat: Text, namespace: int, messageId: int, ts: int, pk: int, raw: Text)

  /** sortPostboxMessages: oldest first, ties by source id. */
  predicate RowLess(a: Row, b: Row) {
    a.ts < b.ts || (a.ts == b.ts && a.pk < b.pk)
  }

  ghost predicate CollisionFree(S: set<Row>) {
    forall a, b :: a in S && b in S && a.ts == b.ts && a.pk == b.pk ==> a == b
  }

  lemma RowOrders(S: set<Row>, A: set<Row>)
    requires CollisionFree(S) && A <= S
    ensures Orders(RowLess, A) && Orders(Reverse(RowLess), A)
  {
  }

  function InChat(S: set<Row>, c: Text): (rows: set<Row>) {
    set r | r in S && r.chat == c
  }

  function Chats(S: set<Row>): (chats: set<Text>) {
    set r | r in S :: r.chat
  }

  /** The newest time in a chat; the search starts at 0, so times before 1970 count as 0. */
  ghost predicate IsMaxTs(S: set<Row>, c: Text, m: int) {
    && m >= 0 && (forall r :: r in InChat(S, c) ==> r.ts <= m)
    && (m == 0 || exists r :: r in InChat(S, c) && r.ts == m)
  }

  lemma {:induction false} MaxTsExists(S: set<Row>, c: Text)
    ensures exists m :: IsMaxTs(S, c, m)
    decreases |S|
  {
    var m := 0;
    if s :| s in S {
      MaxTsExists(S - {s}, c);
      var k :| IsMaxTs(S - {s}, c, k);
      assert InChat(S - {s}, c) <= InChat(S, c) <= InChat(S - {s}, c) + {s};
      m := if s.chat == c && s.ts > k then s.ts else k;
      assert s.chat == c ==> s in InChat(S, c);
    }
    assert IsMaxTs(S, c, m);
  }

  ghost function MaxTs(S: set<Row>, c: Text): (m: int)
    ensures IsMaxTs(S, c, m)
  {
    MaxTsExists(S, c);
    var m :| IsMaxTs(S, c, m);
    m
  }

  /** Ranked chats: newest first, ties by store id. */
  ghost function ChatOrder(S: set<Row>): Order<Text> {
    (c, d) => MaxTs(S, c) > MaxTs(S, d) || (MaxTs(S, c) == MaxTs(S, d) && LexLess(c, d))
  }

  lemma ChatOrders(S: set<Row>, chats: set<Text>)
    ensures Orders(ChatOrder(S), chats)
  {
    hide LexLess;
    LexOrders(chats);
  }

  /** A limit of zero or less is no limit. */
  predicate Under(n: nat, limit: int) {
    limit <= 0 || n < limit
  }

  /** How many messages of its chat are newer than `r`. */
  function Newer(S: set<Row>, r: Row): nat {
    Rank(Reverse(RowLess), InChat(S, r.chat), r)
  }

  ghost function ChatRank(S: set<Row>, c: Text): nat {
    Rank(ChatOrder(S), Chats(S), c)
  }

  /** applyPostboxLimits as a set: the newest messages of the highest-ranked chats. */
  ghost function Limited(S: set<Row>, dialogs: int, messages: int): set<Row> {
    set r | r in S && Under(ChatRank(S, r.chat), dialogs) && Under(Newer(S, r), messages)
  }

  // Reading each account with the limits pushed down.

  function OfAccount(K: set<Row>, a: Text): set<Row> {
    set r | r in K && r.account == a
  }

  /** Rows whose record decodes to a message. */
  function Decodable(K: set<Row>, decodes: Row -> bool): set<Row> {
    set r | r in K && decodes(r)
  }

  /** Limits are applied to keys, account by account; a key that does not decode is dropped afterwards. */
  ghost function ReadLimited(K: set<Row>, decodes: Row -> bool, dialogs: int, messages: int): set<Row> {
    set r | r in K && decodes(r) && r in Limited(OfAccount(K, r.account), dialogs, messages)
  }

  /** Store ids name one chat of one account. */
  ghost predicate Apart(K: set<Row>) {
    forall a, b :: a in K && b in K && a.chat == b.chat ==> a.account == b.account
  }

  /** What a caller can check on the stored keys: dropping undecodable ones cannot change what a limit selects. */
  ghost predicate Harmless(K: set<Row>, decodes: Row -> bool) {
    && (forall r, u :: r in K && u in K && r.chat == u.chat && decodes(r) && !decodes(u) ==> RowLess(u, r))
    && (forall r :: r in K && decodes(r) ==>
          ChatRank(OfAccount(K, r.account), r.chat) <= ChatRank(Decodable(K, decodes), r.chat))
  }

  /** Reading a set of keys under assumptions the ids provide. */
  ghost predicate Keys(K: set<Row>) {
    CollisionFree(K) && Apart(K)
  }

  lemma ChatOfAccount(K: set<Row>, r: Row)
    requires Apart(K) && r in K
    ensures InChat(OfAccount(K, r.account), r.chat) == InChat(K, r.chat)
  {
  }

  /** Without undecodable rows among the newer ones, the count of newer rows is that of the messages. */
  lemma NewerDecodable(K: set<Row>, decodes: Row -> bool, r: Row)
    requires Keys(K) && Harmless(K, decodes) && r in K && decodes(r)
    ensures Newer(OfAccount(K, r.account), r) == Newer(Decodable(K, decodes), r)
  {
    hide ChatRank;
    ChatOfAccount(K, r);
    var dec := Decodable(K, decodes);
    var later := Reverse(RowLess);
    var a, b := Below(later, InChat(K, r.chat), r), Below(later, InChat(dec, r.chat), r);
    forall y | y in a ensures y in b {
      assert RowLess(r, y) && !RowLess(y, r);
    }
    assert a == b;
  }

  /** The newest message of a chat is kept by every limit. */
  lemma NewestKept(S: set<Row>, c: Text) returns (n: Row)
    requires CollisionFree(S) && c in Chats(S)
    ensures n in S && n.chat == c && Newer(S, n) == 0 && forall r :: r in InChat(S, c) ==> r.ts <= n.ts
  {
    var X := InChat(S, c);
    var s :| s in S && s.chat == c;
    assert s in X;
    RowOrders(S, X);
    n := Greatest(RowLess, X);
    assert Below(Reverse(RowLess), X, n) == {};
  }

  /** What the pushed-down read leaves of the messages. */
  ghost predicate Kept(K: set<Row>, decodes: Row -> bool, dialogs: int, messages: int, r: Row) {
    && r in Decodable(K, decodes)
    && Under(ChatRank(OfAccount(K, r.account), r.chat), dialogs)
    && Under(Newer(Decodable(K, decodes), r), messages)
  }

  lemma ReadLimitedKeeps(K: set<Row>, decodes: Row -> bool, dialogs: int, messages: int, r: Row)
    requires Keys(K) && Harmless(K, decodes)
    ensures r in ReadLimited(K, decodes, dialogs, messages) <==> Kept(K, decodes, dialogs, messages, r)
  {
    hide ChatRank, Newer, Harmless, Keys;
    if r in Decodable(K, decodes) {
      NewerDecodable(K, decodes, r);
    }
  }

  /** In a chat the read kept, the newest time and the count of newer messages are as if all had been read. */
  lemma KeptChatUnchanged(K: set<Row>, decodes: Row -> bool, dialogs: int, messages: int, r: Row)
    requires Keys(K) && Harmless(K, decodes) && Kept(K, decodes, dialogs, messages, r)
    ensures var T := ReadLimited(K, decodes, dialogs, messages);
      && Newer(T, r) == Newer(Decodable(K, decodes), r)
      && MaxTs(T, r.chat) == MaxTs(Decodable(K, decodes), r.chat)
  {
    hide ChatRank, Harmless, ReadLimited, Newer, RowLess;
    var dec, T := Decodable(K, decodes), ReadLimited(K, decodes, dialogs, messages);
    var c := r.chat;
    forall x ensures x in InChat(T, c) <==> x in InChat(dec, c) && Under(Newer(dec, x), messages) {
      ReadLimitedKeeps(K, decodes, dialogs, messages, x);
      SameAccount(K, decodes, dialogs, messages, r, x);
    }
    KeptNewer(dec, T, r, messages);
    KeptMaxTs(dec, T, c, messages);
  }

  lemma SameAccount(K: set<Row>, decodes: Row -> bool, dialogs: int, messages: int, r: Row, x: Row)
    requires Apart(K) && Kept(K, decodes, dialogs, messages, r)
    ensures x in InChat(Decodable(K, decodes), r.chat) ==>
      (Kept(K, decodes, dialogs, messages, x) <==> Under(Newer(Decodable(K, decodes), x), messages))
    ensures Kept(K, decodes, dialogs, messages, x) && x.chat == r.chat ==> x in InChat(Decodable(K, decodes), r.chat)
  {
    hide ChatRank, Newer;
  }

  /** `T` keeps the newest messages of chat `c` of `S`. */
  ghost predicate KeepsNewest(S: set<Row>, T: set<Row>, c: Text, messages: int) {
    forall x :: x in InChat(T, c) <==> x in InChat(S, c) && Under(Newer(S, x), messages)
  }

  lemma KeptNewer(S: set<Row>, T: set<Row>, r: Row, messages: int)
    requires CollisionFree(S) && KeepsNewest(S, T, r.chat, messages) && r in InChat(T, r.chat)
    ensures Newer(T, r) == Newer(S, r)
  {
    hide RowLess;
    var X, Y, later := InChat(S, r.chat), InChat(T, r.chat), Reverse(RowLess);
    RowOrders(S, X);
    assert r in X;
    forall y | y in Below(later, X, r) ensures y in Y {
      RankGrows(later, X, y, r);
      assert y.chat == r.chat;
      assert Newer(S, y) < Newer(S, r);
    }
    assert Below(later, X, r) == Below(later, Y, r);
  }

  lemma KeptMaxTs(S: set<Row>, T: set<Row>, c: Text, messages: int)
    requires CollisionFree(S) && KeepsNewest(S, T, c, messages) && c in Chats(S)
    ensures MaxTs(T, c) == MaxTs(S, c)
  {
    hide Newer, RowLess;
    var n := NewestKept(S, c);
    assert n in InChat(S, c) && n in InChat(T, c);
    var m := MaxTs(S, c);
    assert IsMaxTs(T, c, m);
  }

  /** Every chat the unlimited answer selects was read, and the read does not promote another. */
  lemma SelectedChats(K: set<Row>, decodes: Row -> bool, dialogs: int, messages: int, r: Row)
    requires Keys(K) && Harmless(K, decodes) && r in Decodable(K, decodes)
    requires Under(Newer(Decodable(K, decodes), r), messages)
    ensures var T := ReadLimited(K, decodes, dialogs, messages);
      r in T && Under(ChatRank(T, r.chat), dialogs) <==> Under(ChatRank(Decodable(K, decodes), r.chat), dialogs)
  {
    hide Newer, ReadLimited, Keys;
    var dec, T := Decodable(K, decodes), ReadLimited(K, decodes, dialogs, messages);
    ReadLimitedKeeps(K, decodes, dialogs, messages, r);
    if dialogs > 0 {
      if Under(ChatRank(dec, r.chat), dialogs) {
        SelectedStays(K, decodes, dialogs, messages, r);
      } else if r in T {
        OthersStay(K, decodes, dialogs, messages, r);
      }
    }
  }

  /** Chats ranked below one another among all messages are ranked the same way among those read. */
  lemma SameOrder(K: set<Row>, decodes: Row -> bool, dialogs: int, messages: int, r: Row, s: Row)
    requires Keys(K) && Harmless(K, decodes)
    requires Kept(K, decodes, dialogs, messages, r) && Kept(K, decodes, dialogs, messages, s)
    ensures ChatOrder(ReadLimited(K, decodes, dialogs, messages))(r.chat, s.chat) ==
      ChatOrder(Decodable(K, decodes))(r.chat, s.chat)
  {
    hide Harmless, Keys, Kept, ReadLimited, Decodable;
    KeptChatUnchanged(K, decodes, dialogs, messages, r);
    KeptChatUnchanged(K, decodes, dialogs, messages, s);
  }

  lemma SelectedStays(K: set<Row>, decodes: Row -> bool, dialogs: int, messages: int, r: Row)
    requires Keys(K) && Harmless(K, decodes) && Kept(K, decodes, dialogs, messages, r)
    ensures ChatRank(ReadLimited(K, decodes, dialogs, messages), r.chat) <= ChatRank(Decodable(K, decodes), r.chat)
  {
    hide Harmless, Keys, Kept, ReadLimited, ChatOrder;
    var dec, T := Decodable(K, decodes), ReadLimited(K, decodes, dialogs, messages);
    var before, all := Below(ChatOrder(T), Chats(T), r.chat), Below(ChatOrder(dec), Chats(dec), r.chat);
    forall c | c in before ensures c in all {
      var s :| s in T && s.chat == c;
      ReadLimitedKeeps(K, decodes, dialogs, messages, s);
      SameOrder(K, decodes, dialogs, messages, s, r);
      KeptIsDecodable(K, decodes, dialogs, messages, s);
    }
    SubsetSize(before, all);
  }

  lemma KeptIsDecodable(K: set<Row>, decodes: Row -> bool, dialogs: int, messages: int, s: Row)
    requires Kept(K, decodes, dialogs, messages, s)
    ensures s in Decodable(K, decodes) && s.chat in Chats(Decodable(K, decodes))
  {
    hide ChatRank, Newer;
  }

  /** Each chat ranked under the limit was read: its newest message was. */
  lemma NewestRead(K: set<Row>, decodes: Row -> bool, dialogs: int, messages: int, c: Text) returns (n: Row)
    requires Keys(K) && Harmless(K, decodes) && c in Chats(Decodable(K, decodes))
    requires Under(ChatRank(Decodable(K, decodes), c), dialogs)
    ensures n.chat == c && Kept(K, decodes, dialogs, messages, n) && n in ReadLimited(K, decodes, dialogs, messages)
  {
    hide ChatRank, Newer, ReadLimited;
    n := NewestKept(Decodable(K, decodes), c);
    ReadLimitedKeeps(K, decodes, dialogs, messages, n);
  }

  lemma OthersStay(K: set<Row>, decodes: Row -> bool, dialogs: int, messages: int, r: Row)
    requires Keys(K) && Harmless(K, decodes) && Kept(K, decodes, dialogs, messages, r) && dialogs > 0
    requires ChatRank(Decodable(K, decodes), r.chat) >= dialogs
    ensures ChatRank(ReadLimited(K, decodes, dialogs, messages), r.chat) >= dialogs
  {
    hide Harmless, Keys, Kept, ReadLimited, ChatOrder, Decodable;
    var dec, T := Decodable(K, decodes), ReadLimited(K, decodes, dialogs, messages);
    KeptIsDecodable(K, decodes, dialogs, messages, r);
    ChatOrders(dec, Chats(dec));
    LowRanksBelow(ChatOrder(dec), Chats(dec), r.chat, dialogs);
    var low := set c | c in Below(ChatOrder(dec), Chats(dec), r.chat) && Rank(ChatOrder(dec), Chats(dec), c) < dialogs;
    var before := Below(ChatOrder(T), Chats(T), r.chat);
    forall c | c in low ensures c in before {
      var n := NewestRead(K, decodes, dialogs, messages, c);
      SameOrder(K, decodes, dialogs, messages, n, r);
    }
    SubsetSize(low, before);
  }

  /** Reading with the limits pushed down and limiting again gives what limiting once gives. */
  lemma PushdownHolds(K: set<Row>, decodes: Row -> bool, dialogs: int, messages: int)
    requires Keys(K) && Harmless(K, decodes)
    ensures Limited(ReadLimited(K, decodes, dialogs, messages), dialogs, messages) ==
      Limited(Decodable(K, decodes), dialogs, messages)
  {
    hide ChatRank, Newer, ReadLimited, Decodable, Harmless, Keys, Kept;
    var dec, T := Decodable(K, decodes), ReadLimited(K, decodes, dialogs, messages);
    forall r ensures r in Limited(T, dialogs, messages) <==> r in Limited(dec, dialogs, messages) {
      ReadLimitedKeeps(K, decodes, dialogs, messages, r);
      if Kept(K, decodes, dialogs, messages, r) {
        KeptChatUnchanged(K, decodes, dialogs, messages, r);
        KeptIsDecodable(K, decodes, dialogs, messages, r);
      }
      if r in dec && Under(Newer(dec, r), messages) {
        SelectedChats(K, decodes, dialogs, messages, r);
      }
    }
  }

  /** An undecodable key newer than a message of its chat displaces it, for some limit. */
  lemma NewerKeyDisplaces(K: set<Row>, decodes: Row -> bool, r: Row, u: Row) returns (messages: int)
    requires Keys(K) && r in K && u in K && r.chat == u.chat && decodes(r) && !decodes(u) && !RowLess(u, r)
    ensures r in Limited(Decodable(K, decodes), 0, messages) && r !in ReadLimited(K, decodes, 0, messages)
  {
    hide ChatRank;
    var dec := Decodable(K, decodes);
    var later := Reverse(RowLess);
    messages := 1 + Newer(dec, r);
    ChatOfAccount(K, r);
    var a, b := Below(later, InChat(dec, r.chat), r), Below(later, InChat(K, r.chat), r);
    assert u in b && u !in a;
    SubsetSize(a + {u}, b);
  }

  /** A chat ranked lower by its account's keys than among all messages is dropped, for some limit. */
  lemma GhostChatDisplaces(K: set<Row>, decodes: Row -> bool, r: Row) returns (dialogs: int)
    requires r in K && decodes(r)
    requires ChatRank(OfAccount(K, r.account), r.chat) > ChatRank(Decodable(K, decodes), r.chat)
    ensures r in Limited(Decodable(K, decodes), dialogs, 0) && r !in ReadLimited(K, decodes, dialogs, 0)
  {
    hide ChatRank, Newer;
    dialogs := 1 + ChatRank(Decodable(K, decodes), r.chat);
  }

  /**
   The pushed-down read preserves the answer for every limit exactly when dropping undecodable keys
   afterwards is harmless.
   */
  lemma PushdownExact(K: set<Row>, decodes: Row -> bool)
    requires Keys(K)
    ensures Harmless(K, decodes) <==>
      forall dialogs: int, messages: int ::
        Limited(ReadLimited(K, decodes, dialogs, messages), dialogs, messages) ==
        Limited(Decodable(K, decodes), dialogs, messages)
  {
    hide ChatRank, Newer, RowLess, Keys;
    if Harmless(K, decodes) {
      forall dialogs: int, messages: int
        ensures Limited(ReadLimited(K, decodes, dialogs, messages), dialogs, messages) ==
          Limited(Decodable(K, decodes), dialogs, messages)
      {
        hide Harmless;
        PushdownHolds(K, decodes, dialogs, messages);
      }
    } else {
      Displaced(K, decodes);
    }
  }

  lemma Displaced(K: set<Row>, decodes: Row -> bool)
    requires Keys(K) && !Harmless(K, decodes)
    ensures exists dialogs: int, messages: int ::
      Limited(ReadLimited(K, decodes, dialogs, messages), dialogs, messages) !=
      Limited(Decodable(K, decodes), dialogs, messages)
  {
    hide ChatRank, Newer, RowLess, Keys;
    if r, u :| r in K && u in K && r.chat == u.chat && decodes(r) && !decodes(u) && !RowLess(u, r) {
      var messages := NewerKeyDisplaces(K, decodes, r, u);
      assert r !in Limited(ReadLimited(K, decodes, 0, messages), 0, messages);
    } else {
      var r :| r in K && decodes(r) &&
               ChatRank(OfAccount(K, r.account), r.chat) > ChatRank(Decodable(K, decodes), r.chat);
      var dialogs := GhostChatDisplaces(K, decodes, r);
      assert r !in Limited(ReadLimited(K, decodes, dialogs, 0), dialogs, 0);
    }
  }

  /** One chat, an old message and a newer key without one: a limit of one message selects the key and so nothing. */
  lemma UndecodableKeyHidesMessage()
    ensures var old_ := Row([1], 7, [7], 0, 1, 10, 1, [1]);
      var new_ := Row([1], 7, [7], 0, 2, 20, 2, [2]);
      var decodes := (r: Row) => r.ts == 10;
      && Keys({old_, new_})
      && Limited(ReadLimited({old_, new_}, decodes, 0, 1), 0, 1) == {}
      && Limited(Decodable({old_, new_}, decodes), 0, 1) == {old_}
  {
    hide ChatRank;
    var old_ := Row([1], 7, [7], 0, 1, 10, 1, [1]);
    var new_ := Row([1], 7, [7], 0, 2, 20, 2, [2]);
    var decodes := (r: Row) => r.ts == 10;
    var K := {old_, new_};
    var later := Reverse(RowLess);
    assert new_.chat == old_.chat == [7] && RowLess(old_, new_) && later(new_, old_);
    assert new_ in InChat(K, [7]);
    assert new_ in Below(later, InChat(K, [7]), old_);
    assert |Below(later, InChat(K, [7]), old_)| >= |{new_}| by {
      SubsetSize({new_}, Below(later, InChat(K, [7]), old_));
    }
    assert OfAccount(K, [1]) == K;
    assert Newer(K, old_) >= 1;
    assert ReadLimited(K, decodes, 0, 1) == {};
    assert Decodable(K, decodes) == {old_};
    assert !later(old_, old_) && InChat({old_}, [7]) <= {old_};
    assert Below(later, InChat({old_}, [7]), old_) == {};
  }

  /** When every key decodes, nothing is dropped and the answer is always preserved. */
  lemma AllDecodeHarmless(K: set<Row>, decodes: Row -> bool)
    requires Keys(K) && forall r :: r in K ==> decodes(r)
    ensures Harmless(K, decodes)
  {
    hide Keys, RowLess;
    assert Decodable(K, decodes) == K;
    forall r | r in K ensures ChatRank(OfAccount(K, r.account), r.chat) <= ChatRank(K, r.chat) {
      AccountRank(K, r);
    }
  }

  lemma AccountMaxTs(K: set<Row>, r: Row)
    requires Apart(K) && r in K
    ensures MaxTs(OfAccount(K, r.account), r.chat) == MaxTs(K, r.chat)
  {
    ChatOfAccount(K, r);
    assert IsMaxTs(K, r.chat, MaxTs(OfAccount(K, r.account), r.chat));
  }

  lemma AccountRank(K: set<Row>, r: Row)
    requires Keys(K) && r in K
    ensures ChatRank(OfAccount(K, r.account), r.chat) <= ChatRank(K, r.chat)
  {
    hide MaxTs, LexLess;
    var A := OfAccount(K, r.account);
    var before, all := Below(ChatOrder(A), Chats(A), r.chat), Below(ChatOrder(K), Chats(K), r.chat);
    forall c | c in before ensures c in all {
      var s :| s in A && s.chat == c;
      AccountMaxTs(K, s);
      AccountMaxTs(K, r);
    }
    SubsetSize(before, all);
  }
}
