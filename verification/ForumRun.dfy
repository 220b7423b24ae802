/** A whole forum collection, request by request, in terms of slots, messages and counts only. */
module ForumRun {
  import opened ForumTopics
  import opened Wrappers

  /** The slot holds a topic that is neither deleted nor topic 0. */
  predicate Holds(slots: seq<Slot>, p: int) {
    0 <= p < |slots| && slots[p].Some? && slots[p].value.id != 0
  }

  ghost predicate LastLive(slots: seq<Slot>, t: Topic) {
    exists p :: Holds(slots, p) && slots[p].value == t && forall q :: p < q < |slots| ==> !Holds(slots, q)
  }

  predicate IsTop(messages: seq<Message>, last: Topic, i: int) {
    0 <= i < |messages| && messages[i].Sent? && messages[i].id == last.topMessage
  }

  /**
   The date and message of the next request: those of the topic's top message where the page has it, with the topic's
   own date when topics go by creation; without it the topic's date and no message.
   */
  ghost predicate OffsetsAre(messages: seq<Message>, byCreateDate: bool, last: Topic, date: int, id: int) {
    || (exists i :: IsTop(messages, last, i) && (forall j :: 0 <= j < i ==> !IsTop(messages, last, j))
          && id == messages[i].id && date == if byCreateDate then last.date else messages[i].date)
    || ((forall i :: !IsTop(messages, last, i)) && date == last.date && id == 0)
  }

  /** The cursor a page leads to. */
  ghost predicate Leads(page: Page, c: Cursor) {
    exists t :: LastLive(page.topics, t) && c.topic == t.id && OffsetsAre(page.messages, page.orderByCreateDate, t, c.date, c.id)
  }

  /** No page of `replies` has a live topic with this id. */
  ghost predicate Unserved(replies: seq<Reply>, id: int) {
    forall i, p :: 0 <= i < |replies| && Holds(PageOf(replies[i]), p) ==> PageOf(replies[i])[p].value.id != id
  }

  /** The page brings a topic that no page before it had. */
  ghost predicate Fresh(before: seq<Reply>, page: Page) {
    exists p :: Holds(page.topics, p) && Unserved(before, page.topics[p].value.id)
  }

  /** The last positive count the server gave, or 0. */
  ghost predicate Counted(replies: seq<Reply>, count: int) {
    || (exists i :: 0 <= i < |replies| && replies[i].Got? && replies[i].page.count == count > 0
          && forall j :: i < j < |replies| && replies[j].Got? ==> replies[j].page.count <= 0)
    || (count == 0 && forall j :: 0 <= j < |replies| && replies[j].Got? ==> replies[j].page.count <= 0)
  }

  /** Request `i` was not cancelled, was sent from cursor `cs[i]`, and its page led on to a new cursor with a new topic. */
  ghost predicate Continues(server: (nat, Cursor) -> Reply, cancelled: nat -> bool, replies: seq<Reply>, cs: seq<Cursor>, i: nat)
    requires i < |replies| && i + 1 < |cs|
  {
    && !cancelled(i) && replies[i] == server(i, cs[i]) && replies[i].Got?
    && Leads(replies[i].page, cs[i + 1]) && cs[i + 1] !in cs[1..i + 1] && Fresh(replies[..i], replies[i].page)
  }

  /** Why the last page ended the collection, when `n` topics were found. */
  ghost predicate PageEnds(before: seq<Reply>, page: Page, cs: seq<Cursor>, n: nat, count: int, ending: Ending) {
    if forall p :: !Holds(page.topics, p) then ending == Complete
    else
      && (!Fresh(before, page) || exists c :: Leads(page, c) && c in cs)
      && ending == if !Fresh(before, page) && 0 < count <= n then Complete else Stalled
  }

  /** The outcome of a collection whose requests went out from the cursors `cs`. */
  ghost predicate IsRun(server: (nat, Cursor) -> Reply, cancelled: nat -> bool, cap: nat, cs: seq<Cursor>, o: Outcome) {
    && cs != [] && cs[0] == Cursor(0, 0, 0) && |cs| - 1 <= |o.replies| <= |cs| && |o.replies| <= cap
    && (forall i :: 0 <= i < |cs| - 1 ==> Continues(server, cancelled, o.replies, cs, i))
    && (|o.replies| < |cs| ==>
          o.ending == if |o.replies| == cap then PageLimit else Cancelled)
    && (|o.replies| < |cs| && |o.replies| < cap ==> cancelled(|o.replies|))
    && (|o.replies| == |cs| ==>
          var k := |cs| - 1;
          var reply := o.replies[k];
          && !cancelled(k) && reply == server(k, cs[k])
          && match reply
             case Failed => o.ending == RequestFailed
             case NoPage => o.ending == NilPage
             case Got(page) => exists count ::
               Counted(o.replies, count) && PageEnds(o.replies[..k], page, cs[1..], |o.topics|, count, o.ending))
  }

  /** `t` stands at `m` and nothing before has its id. */
  ghost predicate FirstAt(served: seq<Topic>, t: Topic, m: nat) {
    m < |served| && served[m] == t && forall l :: 0 <= l < m ==> served[l].id != t.id
  }

  /** `topics` are the first of each id in `served`, in order; `at` says where each stands. */
  ghost predicate Firsts(served: seq<Topic>, topics: seq<Topic>, at: seq<nat>) {
    && |at| == |topics| && (forall k :: 0 <= k < |at| ==> FirstAt(served, topics[k], at[k]))
    && (forall k, l :: 0 <= k < l < |at| ==> at[k] < at[l])
    && (forall t :: t in served ==> t.id in Ids(topics))
  }

  // The collector's functions say the same.

  lemma {:induction false} OffsetsMean(messages: seq<Message>, byCreateDate: bool, last: Topic)
    ensures var (date, id) := Offsets(messages, byCreateDate, last); OffsetsAre(messages, byCreateDate, last, date, id)
  {
    if messages != [] && !IsTop(messages, last, 0) {
      var rest := messages[1..];
      OffsetsMean(rest, byCreateDate, last);
      assert forall i :: IsTop(rest, last, i) ==> IsTop(messages, last, i + 1);
      assert forall i :: IsTop(messages, last, i) ==> IsTop(rest, last, i - 1);
      var (date, id) := Offsets(rest, byCreateDate, last);
      if i :| IsTop(rest, last, i) && (forall j :: 0 <= j < i ==> !IsTop(rest, last, j))
              && id == rest[i].id && date == if byCreateDate then last.date else rest[i].date
      {
        assert IsTop(messages, last, i + 1);
      }
    } else if messages != [] {
      assert IsTop(messages, last, 0);
    }
  }

  /** There is one such pair. */
  lemma OffsetsUnique(messages: seq<Message>, byCreateDate: bool, last: Topic, date: int, id: int, date': int, id': int)
    requires OffsetsAre(messages, byCreateDate, last, date, id) && OffsetsAre(messages, byCreateDate, last, date', id')
    ensures date == date' && id == id'
  {
  }

  lemma {:induction false} UsableLast(slots: seq<Slot>)
    ensures var ts := Usable(slots);
      if ts == [] then forall p :: !Holds(slots, p) else LastLive(slots, ts[|ts| - 1])
  {
    hide Holds, LastLive, Usable;
    if slots == [] {
      NoSlots();
    } else {
      var n := |slots| - 1;
      UsableLast(slots[..n]);
      assert slots[..|slots|] == slots;
      UsableStep(slots, n);
      LastSlot(slots);
    }
  }

  lemma NoSlots()
    ensures Usable([]) == [] && forall p :: !Holds([], p)
  {
  }

  lemma LastSlot(slots: seq<Slot>)
    requires slots != []
    ensures var n := |slots| - 1;
      if Live(slots[n]) then LastLive(slots, slots[n].value)
      else
        && (forall t :: LastLive(slots[..n], t) ==> LastLive(slots, t))
        && ((forall p :: !Holds(slots[..n], p)) ==> forall p :: !Holds(slots, p))
  {
    var n := |slots| - 1;
    assert forall p :: 0 <= p < n ==> (Holds(slots, p) <==> Holds(slots[..n], p));
    if Live(slots[n]) {
      assert Holds(slots, n);
    } else {
      forall t | LastLive(slots[..n], t) ensures LastLive(slots, t) {
        var p :| Holds(slots[..n], p) && slots[..n][p].value == t && forall q :: p < q < n ==> !Holds(slots[..n], q);
        assert Holds(slots, p);
      }
    }
  }

  lemma LastUnique(slots: seq<Slot>, t: Topic, u: Topic)
    requires LastLive(slots, t) && LastLive(slots, u)
    ensures t == u
  {
  }

  lemma CursorLeads(page: Page, c: Cursor)
    requires Usable(page.topics) != []
    ensures var ts := Usable(page.topics); Leads(page, c) <==> c == CursorAfter(page, ts[|ts| - 1])
  {
    hide LastLive, OffsetsAre, Offsets, Usable;
    var ts := Usable(page.topics);
    var last := ts[|ts| - 1];
    UsableLast(page.topics);
    OffsetsMean(page.messages, page.orderByCreateDate, last);
    var (date, id) := Offsets(page.messages, page.orderByCreateDate, last);
    if Leads(page, c) {
      var t :| LastLive(page.topics, t) && c.topic == t.id && OffsetsAre(page.messages, page.orderByCreateDate, t, c.date, c.id);
      LastUnique(page.topics, t, last);
      OffsetsUnique(page.messages, page.orderByCreateDate, last, date, id, c.date, c.id);
    }
  }

  lemma UnservedId(replies: seq<Reply>, id: int)
    requires id != 0
    ensures Unserved(replies, id) <==> id !in Ids(Served(replies))
  {
    hide Served;
    if id in Ids(Served(replies)) {
      var t :| t in Served(replies) && t.id == id;
      ServedBySomeReply(replies, t);
      var i :| 0 <= i < |replies| && Some(t) in PageOf(replies[i]);
      var p :| 0 <= p < |PageOf(replies[i])| && PageOf(replies[i])[p] == Some(t);
      assert Holds(PageOf(replies[i]), p);
    }
    if !Unserved(replies, id) {
      var i, p :| 0 <= i < |replies| && Holds(PageOf(replies[i]), p) && PageOf(replies[i])[p].value.id == id;
      ServedBySomeReply(replies, PageOf(replies[i])[p].value);
    }
  }

  /** The list grows by a page exactly when the page brings a new topic. */
  lemma GrowsWhenFresh(before: seq<Reply>, page: Page, out: seq<Topic>)
    requires DistinctIds(out) && Ids(out) == Ids(Served(before))
    ensures |AddAll(out, Usable(page.topics))| == |out| <==> !Fresh(before, page)
  {
    hide Served, AddAll, Unserved, Usable;
    var ts := Usable(page.topics);
    var all := AddAll(out, ts);
    AddAllSame(out, ts);
    AddAllDistinct(out, ts);
    UsableIsLive(page.topics);
    if p :| Holds(page.topics, p) && Unserved(before, page.topics[p].value.id) {
      var t := page.topics[p].value;
      UnservedId(before, t.id);
      assert page.topics[p] == Some(t) && t in ts && t.id in Ids(all);
    } else if |all| > |out| {
      var t := all[|out|];
      assert t in all && all[..|out|] == out;
      assert t.id !in Ids(out);
      assert t !in out;
      UnservedId(before, t.id);
    }
  }

  lemma CountedNext(replies: seq<Reply>, count: int, reply: Reply)
    requires Counted(replies, count)
    ensures Counted(replies + [reply], if reply.Got? then Advertised(count, reply.page) else count)
  {
    var all := replies + [reply];
    assert all[|replies|] == reply && forall i :: 0 <= i < |replies| ==> all[i] == replies[i];
  }

  /** Where the collection stands after some pages that led on. */
  ghost predicate Reaches(server: (nat, Cursor) -> Reply, cancelled: nat -> bool, replies: seq<Reply>, cs: seq<Cursor>, s: State) {
    && |cs| == |replies| + 1 && cs[0] == START && s.next == cs[|replies|]
    && (forall i :: 0 <= i < |replies| ==> Continues(server, cancelled, replies, cs, i))
    && (forall c :: c in s.cursors <==> c in cs[1..])
    && DistinctIds(s.out) && Ids(s.out) == Ids(Served(replies)) && Counted(replies, s.expected)
  }

  lemma ContinuesOn(server: (nat, Cursor) -> Reply, cancelled: nat -> bool, replies: seq<Reply>, cs: seq<Cursor>,
                    more: seq<Reply>, next: seq<Cursor>)
    requires |cs| == |replies| + 1
    requires forall i :: 0 <= i < |replies| ==> Continues(server, cancelled, replies, cs, i)
    ensures forall i :: 0 <= i < |replies| ==> Continues(server, cancelled, replies + more, cs + next, i)
  {
    hide Leads, Fresh;
    forall i | 0 <= i < |replies| ensures Continues(server, cancelled, replies + more, cs + next, i) {
      assert Continues(server, cancelled, replies, cs, i);
      assert (replies + more)[..i] == replies[..i] && (cs + next)[1..i + 1] == cs[1..i + 1];
      assert (replies + more)[i] == replies[i] && (cs + next)[i] == cs[i] && (cs + next)[i + 1] == cs[i + 1];
    }
  }

  lemma IdsJoin(replies: seq<Reply>, reply: Reply)
    ensures Ids(Served(replies + [reply])) == Ids(Served(replies)) + Ids(Usable(PageOf(reply)))
  {
    hide Usable;
    ServedJoins(replies, reply);
  }

  lemma {:induction false} ServedJoins(replies: seq<Reply>, reply: Reply)
    ensures Served(replies + [reply]) == Served(replies) + Usable(PageOf(reply))
  {
    hide Usable;
    if replies == [] {
      assert replies + [reply] == [reply] && [reply][1..] == [];
    } else {
      assert (replies + [reply])[1..] == replies[1..] + [reply];
      ServedJoins(replies[1..], reply);
    }
  }

  /** A page that leads on. */
  lemma ReachesOn(server: (nat, Cursor) -> Reply, cancelled: nat -> bool, replies: seq<Reply>, cs: seq<Cursor>, s: State, page: Page)
    requires Reaches(server, cancelled, replies, cs, s) && !cancelled(|replies|)
    requires server(|replies|, s.next) == Got(page) && Advance(s, page).Next?
    ensures var t := Advance(s, page).state; Reaches(server, cancelled, replies + [Got(page)], cs + [t.next], t)
  {
    hide Served, AddAll, Usable, Leads, Fresh, Counted, CursorAfter;
    var reply, t := Got(page), Advance(s, page).state;
    var replies', cs' := replies + [reply], cs + [t.next];
    ContinuesOn(server, cancelled, replies, cs, [reply], [t.next]);
    CursorLeads(page, t.next);
    GrowsWhenFresh(replies, page, s.out);
    assert replies'[..|replies|] == replies && cs'[1..|replies| + 1] == cs[1..] && cs'[1..] == cs[1..] + [t.next];
    AddAllDistinct(s.out, Usable(page.topics));
    IdsJoin(replies, reply);
    CountedNext(replies, s.expected, reply);
  }

  /** A page that ends the collection. */
  lemma PageStops(server: (nat, Cursor) -> Reply, cancelled: nat -> bool, replies: seq<Reply>, cs: seq<Cursor>, s: State, page: Page)
    requires Reaches(server, cancelled, replies, cs, s) && Advance(s, page).Stop?
    ensures Counted(replies + [Got(page)], Advertised(s.expected, page))
    ensures var stop := Advance(s, page);
      PageEnds(replies, page, cs[1..], |stop.out|, Advertised(s.expected, page), stop.ending)
  {
    hide Served, AddAll, Usable, Leads, Fresh, Counted, CursorAfter, Continues;
    CountedNext(replies, s.expected, Got(page));
    UsableLast(page.topics);
    if Usable(page.topics) != [] {
      var ts := Usable(page.topics);
      var next := CursorAfter(page, ts[|ts| - 1]);
      HasLive(page.topics);
      CursorLeads(page, next);
      GrowsWhenFresh(replies, page, s.out);
      AddAllSame(s.out, ts);
    }
  }

  lemma HasLive(slots: seq<Slot>)
    requires Usable(slots) != []
    ensures exists p :: Holds(slots, p)
  {
    UsableLast(slots);
  }

  lemma {:induction false} RunsOn(server: (nat, Cursor) -> Reply, cancelled: nat -> bool, cap: nat, replies: seq<Reply>, cs: seq<Cursor>,
                                 s: State)
    returns (cs': seq<Cursor>)
    requires Reaches(server, cancelled, replies, cs, s) && |replies| <= cap
    ensures IsRun(server, cancelled, cap, cs', Prefixed(replies, Collect(server, cancelled, |replies|, cap, s)))
    decreases cap - |replies|
  {
    hide Advance, Continues, Counted, PageEnds, Served, Ids, DistinctIds;
    cs' := cs;
    var o := Collect(server, cancelled, |replies|, cap, s);
    if |replies| < cap && !cancelled(|replies|) {
      var reply := server(|replies|, s.next);
      if reply.Got? && Advance(s, reply.page).Next? {
        var t := Advance(s, reply.page).state;
        ReachesOn(server, cancelled, replies, cs, s, reply.page);
        cs' := RunsOn(server, cancelled, cap, replies + [reply], cs + [t.next], t);
        Regroup(replies, reply, Collect(server, cancelled, |replies| + 1, cap, t));
      } else {
        ContinuesOn(server, cancelled, replies, cs, [reply], []);
        assert cs + [] == cs && (replies + [reply])[..|replies|] == replies;
        if reply.Got? {
          PageStops(server, cancelled, replies, cs, s, reply.page);
        }
      }
    } else {
      assert replies + [] == replies;
    }
  }

  /**
   Every collection, request by request: it starts from the zero cursor, each page but the last leads to the cursor of
   the next request, and the last one is where the ending says. A cap of zero or less is a thousand pages.
   */
  lemma CollectionRuns(server: (nat, Cursor) -> Reply, cancelled: nat -> bool, maxPages: int) returns (cs: seq<Cursor>)
    ensures var cap := if maxPages <= 0 then 1000 else maxPages;
      IsRun(server, cancelled, cap, cs, Collect(server, cancelled, 0, PageCap(maxPages), FIRST))
  {
    hide Collect, IsRun;
    NothingSeen();
    cs := RunsOn(server, cancelled, PageCap(maxPages), [], [START], FIRST);
    var o := Collect(server, cancelled, 0, PageCap(maxPages), FIRST);
    assert Prefixed([], o) == o by {
      assert [] + o.replies == o.replies;
    }
  }

  lemma {:induction false} FirstsAre(ts: seq<Topic>) returns (at: seq<nat>)
    ensures Firsts(ts, AddAll([], ts), at)
  {
    hide FirstAt, Ids;
    at := [];
    if ts != [] {
      var init, last := ts[..|ts| - 1], ts[|ts| - 1];
      assert ts == init + [last];
      var r := AddAll([], init);
      at := FirstsAre(init);
      FirstsStay(init, r, at, last);
      if last.id !in Ids(r) {
        FirstsMore(init, r, at, last);
        at := at + [|init|];
      }
    }
  }

  lemma FirstsStay(ts: seq<Topic>, topics: seq<Topic>, at: seq<nat>, last: Topic)
    requires Firsts(ts, topics, at)
    ensures last.id in Ids(topics) ==> Firsts(ts + [last], topics, at)
    ensures forall k :: 0 <= k < |at| ==> FirstAt(ts + [last], topics[k], at[k])
  {
    hide Ids;
    forall k | 0 <= k < |at| ensures FirstAt(ts + [last], topics[k], at[k]) {
      assert FirstAt(ts, topics[k], at[k]);
    }
  }

  lemma FirstsMore(ts: seq<Topic>, topics: seq<Topic>, at: seq<nat>, last: Topic)
    requires Firsts(ts, topics, at) && last.id !in Ids(topics)
    requires forall k :: 0 <= k < |at| ==> FirstAt(ts + [last], topics[k], at[k])
    ensures Firsts(ts + [last], topics + [last], at + [|ts|])
  {
    assert FirstAt(ts + [last], last, |ts|);
    assert forall k :: 0 <= k < |at| ==> FirstAt(ts, topics[k], at[k]);
    assert last in topics + [last];
    assert forall t :: t in topics ==> t in topics + [last];
    hide FirstAt;
    assert Ids(topics) <= Ids(topics + [last]) && last.id in Ids(topics + [last]);
  }

  /** The topics returned are the first of each id among the live topics served, in the order served. */
  lemma CollectionFirsts(server: (nat, Cursor) -> Reply, cancelled: nat -> bool, maxPages: int) returns (at: seq<nat>)
    ensures var o := Collect(server, cancelled, 0, PageCap(maxPages), FIRST); Firsts(Served(o.replies), o.topics, at)
  {
    hide Collect, Firsts;
    CollectSound(server, cancelled, 0, PageCap(maxPages), FIRST);
    at := FirstsAre(Served(Collect(server, cancelled, 0, PageCap(maxPages), FIRST).replies));
  }
}
