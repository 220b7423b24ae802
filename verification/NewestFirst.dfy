/** What a limit keeps, in terms of times, ids and counts only. */
module NewestFirst {
  import opened LimitPushdown
  import opened Ranking
  import opened TextOrder

  /** When a message was sent; before 1970 counts as 1970. */
  function Time(r: Row): nat {
    if r.ts < 0 then 0 else r.ts
  }

  /** Some message of chat `c` is at least as new as every message of chat `d`. */
  ghost predicate AsNew(S: set<Row>, c: Text, d: Text) {
    exists x :: x in S && x.chat == c && forall y :: y in S && y.chat == d ==> Time(y) <= Time(x)
  }

  /** `K` has messages of the chat. */
  ghost predicate Holds(K: set<Row>, c: Text) {
    exists x :: x in K && x.chat == c
  }

  /** A kept chat has as new a message as any dropped one; on equal terms its id comes first. */
  ghost predicate KeepsNewestChats(S: set<Row>, K: set<Row>) {
    forall c, d :: Holds(K, c) && Holds(S, d) && !Holds(K, d) ==> AsNew(S, c, d) && (AsNew(S, d, c) ==> Precedes(c, d))
  }

  /** In a kept chat no dropped message is newer; at equal times the kept ones have the greater ids. */
  ghost predicate KeepsNewestMessages(S: set<Row>, K: set<Row>) {
    forall k, d :: k in K && d in S && d !in K && d.chat == k.chat ==> d.ts < k.ts || (d.ts == k.ts && d.pk < k.pk)
  }

  /** The smaller of a count and a limit; a limit of zero or less is none. */
  function AtMost(n: nat, limit: int): nat {
    if limit > 0 && limit < n then limit else n
  }

  /** As many chats as the limit allows, and in each as many messages. */
  ghost predicate KeepsEnough(S: set<Row>, K: set<Row>, dialogs: int, messages: int) {
    && |set r | r in K :: r.chat| == AtMost(|set r | r in S :: r.chat|, dialogs)
    && forall c :: Holds(K, c) ==> |set r | r in K && r.chat == c| == AtMost(|set r | r in S && r.chat == c|, messages)
  }

  /** `K` is the newest messages of the newest chats of `S`, as many as the limits allow. */
  ghost predicate Newest(S: set<Row>, K: set<Row>, dialogs: int, messages: int) {
    K <= S && KeepsNewestChats(S, K) && KeepsNewestMessages(S, K) && KeepsEnough(S, K, dialogs, messages)
  }

  // A limited set is that.

  lemma HeldChats(S: set<Row>, c: Text)
    ensures c in Chats(S) <==> Holds(S, c)
  {
    if Holds(S, c) {
      var x :| x in S && x.chat == c;
      assert x.chat in Chats(S);
    }
  }

  /** A chat is held by the limited set exactly when its rank is under the limit. */
  lemma LimitedHolds(S: set<Row>, dialogs: int, messages: int, c: Text)
    requires CollisionFree(S)
    ensures Holds(Limited(S, dialogs, messages), c) <==> Holds(S, c) && Under(ChatRank(S, c), dialogs)
  {
    hide ChatRank, Newer;
    if Holds(S, c) && Under(ChatRank(S, c), dialogs) {
      HeldChats(S, c);
      var n := NewestKept(S, c);
      assert n in Limited(S, dialogs, messages);
    }
  }

  /** The newest time of a chat is the time of one of its messages. */
  lemma MaxIsTime(S: set<Row>, c: Text) returns (x: Row)
    requires CollisionFree(S) && Holds(S, c)
    ensures x in S && x.chat == c && Time(x) == MaxTs(S, c) && forall y :: y in S && y.chat == c ==> Time(y) <= Time(x)
  {
    hide Newer;
    HeldChats(S, c);
    x := NewestKept(S, c);
    assert x in InChat(S, c);
    assert IsMaxTs(S, c, MaxTs(S, c));
    forall y | y in S && y.chat == c ensures Time(y) <= Time(x) {
      assert y in InChat(S, c);
    }
  }

  lemma AsNewIsMax(S: set<Row>, c: Text, d: Text)
    requires CollisionFree(S) && Holds(S, c) && Holds(S, d)
    ensures AsNew(S, c, d) <==> MaxTs(S, c) >= MaxTs(S, d)
  {
    hide MaxTs, CollisionFree;
    var x := MaxIsTime(S, c);
    var y := MaxIsTime(S, d);
  }

  lemma RankedFirst(S: set<Row>, c: Text, d: Text)
    requires CollisionFree(S) && Holds(S, c) && Holds(S, d) && c != d && ChatRank(S, c) <= ChatRank(S, d)
    ensures AsNew(S, c, d) && (AsNew(S, d, c) ==> Precedes(c, d))
  {
    hide MaxTs, CollisionFree, LexLess, Precedes, AsNew;
    HeldChats(S, c);
    HeldChats(S, d);
    ChatOrders(S, Chats(S));
    if ChatOrder(S)(d, c) {
      RankGrows(ChatOrder(S), Chats(S), d, c);
    }
    AsNewIsMax(S, c, d);
    AsNewIsMax(S, d, c);
    LexIsPrecedes(c, d);
  }

  lemma LimitedChats(S: set<Row>, dialogs: int, messages: int)
    requires CollisionFree(S)
    ensures KeepsNewestChats(S, Limited(S, dialogs, messages))
  {
    hide Limited, ChatRank, AsNew, Precedes, Holds, CollisionFree;
    var K := Limited(S, dialogs, messages);
    forall c, d | Holds(K, c) && Holds(S, d) && !Holds(K, d) ensures AsNew(S, c, d) && (AsNew(S, d, c) ==> Precedes(c, d)) {
      LimitedHolds(S, dialogs, messages, c);
      LimitedHolds(S, dialogs, messages, d);
      RankedFirst(S, c, d);
    }
  }

  lemma NewerRanks(S: set<Row>, k: Row, d: Row)
    requires CollisionFree(S) && k in S && d in S && k != d && d.chat == k.chat && Newer(S, k) < Newer(S, d)
    ensures d.ts < k.ts || (d.ts == k.ts && d.pk < k.pk)
  {
    var X, later := InChat(S, k.chat), Reverse(RowLess);
    RowOrders(S, X);
    if later(d, k) {
      RankGrows(later, X, d, k);
    }
  }

  lemma LimitedMessages(S: set<Row>, dialogs: int, messages: int)
    requires CollisionFree(S)
    ensures KeepsNewestMessages(S, Limited(S, dialogs, messages))
  {
    hide ChatRank, Newer, CollisionFree;
    var K := Limited(S, dialogs, messages);
    forall k, d | k in K && d in S && d !in K && d.chat == k.chat ensures d.ts < k.ts || (d.ts == k.ts && d.pk < k.pk) {
      NewerRanks(S, k, d);
    }
  }

  lemma LimitedChatCount(S: set<Row>, dialogs: int, messages: int)
    requires CollisionFree(S)
    ensures var K := Limited(S, dialogs, messages); |set r | r in K :: r.chat| == AtMost(|set r | r in S :: r.chat|, dialogs)
  {
    hide Limited, CollisionFree, ChatOrder, Holds;
    var K := Limited(S, dialogs, messages);
    assert Chats(K) == set r | r in K :: r.chat;
    assert Chats(S) == set r | r in S :: r.chat;
    forall c ensures c in Chats(K) <==> c in Chats(S) && Under(ChatRank(S, c), dialogs) {
      LimitedHolds(S, dialogs, messages, c);
      HeldChats(S, c);
      HeldChats(K, c);
    }
    ChatOrders(S, Chats(S));
    if dialogs > 0 {
      LowRanks(ChatOrder(S), Chats(S), dialogs);
      assert Chats(K) == set c | c in Chats(S) && Rank(ChatOrder(S), Chats(S), c) < dialogs;
    } else {
      assert Chats(K) == Chats(S);
    }
  }

  lemma LimitedMessageCount(S: set<Row>, dialogs: int, messages: int, c: Text)
    requires CollisionFree(S) && Holds(Limited(S, dialogs, messages), c)
    ensures var K := Limited(S, dialogs, messages);
      |set r | r in K && r.chat == c| == AtMost(|set r | r in S && r.chat == c|, messages)
  {
    hide ChatRank, CollisionFree, RowLess;
    var K, X := Limited(S, dialogs, messages), InChat(S, c);
    LimitedHolds(S, dialogs, messages, c);
    assert X == set r | r in S && r.chat == c;
    RowOrders(S, X);
    if messages > 0 {
      LowRanks(Reverse(RowLess), X, messages);
      assert (set r | r in K && r.chat == c) == set r | r in X && Rank(Reverse(RowLess), X, r) < messages;
    } else {
      assert (set r | r in K && r.chat == c) == X;
    }
  }

  /** Limiting keeps the newest messages of the newest chats, and as many as it may. */
  lemma LimitedIsNewest(S: set<Row>, dialogs: int, messages: int)
    requires CollisionFree(S)
    ensures Newest(S, Limited(S, dialogs, messages), dialogs, messages)
  {
    hide CollisionFree, KeepsNewestChats, KeepsNewestMessages, ChatRank, Newer, Holds;
    LimitedChats(S, dialogs, messages);
    LimitedMessages(S, dialogs, messages);
    LimitedChatCount(S, dialogs, messages);
    forall c | Holds(Limited(S, dialogs, messages), c)
      ensures |set r | r in Limited(S, dialogs, messages) && r.chat == c| == AtMost(|set r | r in S && r.chat == c|, messages)
    {
      LimitedMessageCount(S, dialogs, messages, c);
    }
  }
}
