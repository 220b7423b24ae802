/** Collecting the topics of a forum, page by page, from a server that may answer anything. */
module ForumTopics {
  import opened Wrappers

  const DEFAULT_MAX_PAGES: nat := 1000

  datatype Topic = Topic(id: int, topMessage: int, date: int, title: string)

  /** A list slot: a topic, or a deleted or missing one. */
  type Slot = Option<Topic>

  datatype Message = Missing | Empty(emptyId: int) | Sent(id: int, date: int)

  datatype Page = Page(count: int, topics: seq<Slot>, messages: seq<Message>, orderByCreateDate: bool)

  datatype Cursor = Cursor(topic: int, id: int, date: int)

  const START: Cursor := Cursor(0, 0, 0)

  datatype Reply = Got(page: Page) | NoPage | Failed

  datatype Ending = Complete | Cancelled | RequestFailed | NilPage | Stalled | PageLimit

  /** The topics returned, why the collection ended, and the reply to every request made. */
  datatype Outcome = Outcome(topics: seq<Topic>, ending: Ending, replies: seq<Reply>)

  /** Deleted topics and topic 0 are skipped. */
  predicate Live(slot: Slot) {
    slot.Some? && slot.value.id != 0
  }

  function Usable(slots: seq<Slot>): (ts: seq<Topic>) {
    if slots == [] then []
    else
      var rest, last := Usable(slots[..|slots| - 1]), slots[|slots| - 1];
      if Live(last) then rest + [last.value] else rest
  }

  function Ids(ts: seq<Topic>): set<int> {
    set t | t in ts :: t.id
  }

  /** Appends the topics whose id is new, in order. */
  function AddAll(out: seq<Topic>, ts: seq<Topic>): (r: seq<Topic>)
    ensures |r| >= |out|
  {
    if ts == [] then out
    else
      var r, last := AddAll(out, ts[..|ts| - 1]), ts[|ts| - 1];
      if last.id in Ids(r) then r else r + [last]
  }

  /** The date and message the next request starts from. */
  function Offsets(messages: seq<Message>, byCreateDate: bool, last: Topic): (int, int) {
    if messages == [] then (last.date, 0)
    else if messages[0].Sent? && messages[0].id == last.topMessage then
      (if byCreateDate then last.date else messages[0].date, last.topMessage)
    else Offsets(messages[1..], byCreateDate, last)
  }

  function CursorAfter(page: Page, last: Topic): Cursor {
    var (date, id) := Offsets(page.messages, page.orderByCreateDate, last);
    Cursor(last.id, id, date)
  }

  datatype State = State(out: seq<Topic>, cursors: set<Cursor>, expected: int, next: Cursor)

  datatype Step = Next(state: State) | Stop(out: seq<Topic>, ending: Ending)

  function Advertised(expected: int, page: Page): int {
    if page.count > 0 then page.count else expected
  }

  /** What one received page does. */
  function Advance(s: State, page: Page): Step {
    var expected, usable := Advertised(s.expected, page), Usable(page.topics);
    var out := AddAll(s.out, usable);
    if usable == [] then Stop(out, Complete)
    else
      var cursor := CursorAfter(page, usable[|usable| - 1]);
      if cursor in s.cursors || |out| == |s.out| then
        Stop(out, if |out| == |s.out| && expected > 0 && |out| >= expected then Complete else Stalled)
      else Next(State(out, s.cursors + {cursor}, expected, cursor))
  }

  /** Requests number `n` onwards. The server answers request `n` as it likes; the caller may cancel before it. */
  function Collect(server: (nat, Cursor) -> Reply, cancelled: nat -> bool, n: nat, maxPages: nat, s: State): (o: Outcome)
    decreases maxPages - n
  {
    if n >= maxPages then Outcome(s.out, PageLimit, [])
    else if cancelled(n) then Outcome(s.out, Cancelled, [])
    else
      var reply := server(n, s.next);
      match reply
      case Failed => Outcome(s.out, RequestFailed, [reply])
      case NoPage => Outcome(s.out, NilPage, [reply])
      case Got(page) =>
        match Advance(s, page)
        case Stop(out, ending) => Outcome(out, ending, [reply])
        case Next(t) =>
          var o := Collect(server, cancelled, n + 1, maxPages, t);
          o.(replies := [reply] + o.replies)
  }

  const FIRST: State := State([], {}, 0, START)

  function PageCap(maxPages: int): nat {
    if maxPages <= 0 then DEFAULT_MAX_PAGES else maxPages
  }

  // The collector as it runs.

  method ForumTopicOffsets(page: Page, last: Topic) returns (date: int, id: int)
    ensures (date, id) == Offsets(page.messages, page.orderByCreateDate, last)
  {
    for i := 0 to |page.messages|
      invariant Offsets(page.messages, page.orderByCreateDate, last) ==
                Offsets(page.messages[i..], page.orderByCreateDate, last)
    {
      var raw := page.messages[i];
      assert page.messages[i..][1..] == page.messages[i + 1..];
      if raw.Sent? && raw.id == last.topMessage {
        if page.orderByCreateDate {
          return last.date, last.topMessage;
        }
        return raw.date, last.topMessage;
      }
    }
    return last.date, 0;
  }

  /** The topic loop of one page. */
  method AddPage(slots: seq<Slot>, out: seq<Topic>, seen: set<int>) returns (out': seq<Topic>, seen': set<int>, last: Slot)
    requires seen == Ids(out)
    ensures out' == AddAll(out, Usable(slots)) && seen' == Ids(out')
    ensures var ts := Usable(slots); last == if ts == [] then None else Some(ts[|ts| - 1])
  {
    hide Usable, AddAll, Ids;
    out', seen', last := out, seen, None;
    NothingUsable(out);
    assert slots[..0] == [];
    for i := 0 to |slots|
      invariant out' == AddAll(out, Usable(slots[..i])) && seen' == Ids(out')
      invariant var ts := Usable(slots[..i]); last == if ts == [] then None else Some(ts[|ts| - 1])
    {
      UsableStep(slots, i);
      if !Live(slots[i]) {
        continue;
      }
      var topic := slots[i].value;
      AddStep(out, Usable(slots[..i]), topic);
      last := Some(topic);
      if topic.id in seen' {
        continue;
      }
      seen' := seen' + {topic.id};
      out' := out' + [topic];
    }
    assert slots[..|slots|] == slots;
  }

  lemma UsableStep(slots: seq<Slot>, i: nat)
    requires i < |slots|
    ensures Usable(slots[..i + 1]) == if Live(slots[i]) then Usable(slots[..i]) + [slots[i].value] else Usable(slots[..i])
  {
    assert slots[..i + 1][..i] == slots[..i];
  }

  lemma AddStep(out: seq<Topic>, ts: seq<Topic>, t: Topic)
    ensures var before := AddAll(out, ts);
      && AddAll(out, ts + [t]) == (if t.id in Ids(before) then before else before + [t])
      && Ids(before + [t]) == Ids(before) + {t.id}
  {
    assert (ts + [t])[..|ts|] == ts;
    var before := AddAll(out, ts);
    assert forall x :: x in before + [t] <==> x in before || x == t;
  }

  method CollectForumTopics(server: (nat, Cursor) -> Reply, cancelled: nat -> bool, maxPages: int) returns (o: Outcome)
    ensures o == Collect(server, cancelled, 0, PageCap(maxPages), FIRST)
  {
    hide Usable, AddAll, Ids, Offsets;
    var cap := PageCap(maxPages);
    var out: seq<Topic>, seen: set<int>, cursors: set<Cursor>, expected, next := [], {}, {}, 0, START;
    var replies: seq<Reply> := [];
    NothingSeen();
    for pages := 0 to cap
      invariant seen == Ids(out)
      invariant Prefixed(replies, Collect(server, cancelled, pages, cap, State(out, cursors, expected, next))) ==
                Collect(server, cancelled, 0, cap, FIRST)
    {
      ghost var s := State(out, cursors, expected, next);
      if cancelled(pages) {
        return Outcome(out, Cancelled, replies);
      }
      var reply := server(pages, next);
      ghost var rest := Collect(server, cancelled, pages, cap, s);
      ghost var earlier := replies;
      replies := replies + [reply];
      if reply.Failed? {
        return Outcome(out, RequestFailed, replies);
      }
      if reply.NoPage? {
        return Outcome(out, NilPage, replies);
      }
      var page := reply.page;
      if page.count > 0 {
        expected := page.count;
      }
      if |page.topics| == 0 {
        NothingUsable(out);
        return Outcome(out, Complete, replies);
      }
      var previous := |out|;
      var last;
      out, seen, last := AddPage(page.topics, out, seen);
      if last.None? {
        return Outcome(out, Complete, replies);
      }
      var nextDate, nextId := ForumTopicOffsets(page, last.value);
      var cursor := Cursor(last.value.id, nextId, nextDate);
      if cursor in cursors || |out| == previous {
        if |out| == previous && expected > 0 && |out| >= expected {
          return Outcome(out, Complete, replies);
        }
        return Outcome(out, Stalled, replies);
      }
      cursors := cursors + {cursor};
      next := cursor;
      Regroup(earlier, reply, Collect(server, cancelled, pages + 1, cap, State(out, cursors, expected, next)));
    }
    return Outcome(out, PageLimit, replies);
  }

  function Prefixed(earlier: seq<Reply>, o: Outcome): Outcome {
    o.(replies := earlier + o.replies)
  }

  lemma Regroup(earlier: seq<Reply>, reply: Reply, o: Outcome)
    ensures Prefixed(earlier, o.(replies := [reply] + o.replies)) == Prefixed(earlier + [reply], o)
  {
    assert earlier + ([reply] + o.replies) == earlier + [reply] + o.replies;
  }

  lemma NothingSeen()
    ensures Ids([]) == {}
  {
  }

  lemma NothingUsable(out: seq<Topic>)
    ensures Usable([]) == [] && AddAll(out, []) == out
  {
  }

  // Soundness against any server.

  function PageOf(reply: Reply): seq<Slot> {
    if reply.Got? then reply.page.topics else []
  }

  /** All usable topics served, in order. */
  function Served(replies: seq<Reply>): (ts: seq<Topic>) {
    if replies == [] then [] else Usable(PageOf(replies[0])) + Served(replies[1..])
  }

  /** The last positive count advertised. */
  function AdvertisedBy(expected: int, replies: seq<Reply>): int
    decreases replies
  {
    if replies == [] then expected
    else AdvertisedBy(if replies[0].Got? then Advertised(expected, replies[0].page) else expected, replies[1..])
  }

  predicate DistinctIds(ts: seq<Topic>) {
    forall i, j :: 0 <= i < j < |ts| ==> ts[i].id != ts[j].id
  }

  lemma {:induction false} AddAllJoins(out: seq<Topic>, a: seq<Topic>, b: seq<Topic>)
    ensures AddAll(AddAll(out, a), b) == AddAll(out, a + b)
    decreases |b|
  {
    if b == [] {
      assert a + b == a;
    } else {
      assert (a + b)[..|a + b| - 1] == a + b[..|b| - 1];
      AddAllJoins(out, a, b[..|b| - 1]);
    }
  }

  lemma {:induction false} AddAllDistinct(out: seq<Topic>, ts: seq<Topic>)
    requires DistinctIds(out)
    ensures DistinctIds(AddAll(out, ts))
    ensures Ids(AddAll(out, ts)) == Ids(out) + Ids(ts)
    ensures forall t :: t in AddAll(out, ts) ==> t in out || t in ts
  {
    if ts != [] {
      var init, last := ts[..|ts| - 1], ts[|ts| - 1];
      AddAllDistinct(out, init);
      var r := AddAll(out, init);
      assert ts == init + [last];
      assert last.id !in Ids(r) ==> forall i :: 0 <= i < |r| ==> r[i] in r && r[i].id != last.id;
      if last.id in Ids(r) {
        assert Ids(ts) <= Ids(init) + {last.id};
      }
    }
  }

  lemma {:induction false} UsableIsLive(slots: seq<Slot>)
    ensures forall t :: t in Usable(slots) <==> Some(t) in slots && t.id != 0
    ensures Usable(slots) == [] <==> forall i :: 0 <= i < |slots| ==> !Live(slots[i])
  {
    if slots != [] {
      UsableIsLive(slots[..|slots| - 1]);
      assert slots == slots[..|slots| - 1] + [slots[|slots| - 1]];
    }
  }

  /** The reply that ended a complete collection: nothing usable, or nothing new at or above the advertised count. */
  predicate Ends(reply: Reply, before: seq<Topic>, topics: seq<Topic>, expected: int) {
    && reply.Got?
    && (Usable(reply.page.topics) == [] || (topics == before && 0 < expected <= |topics|))
  }

  /** The last of the replies ended the collection, given what the others had served. */
  predicate EndedBy(o: Outcome, out: seq<Topic>, expected: int) {
    && o.replies != []
    && var before := AddAll(out, Served(o.replies[..|o.replies| - 1]));
      Ends(o.replies[|o.replies| - 1], before, o.topics, AdvertisedBy(expected, o.replies))
  }

  lemma {:induction false} CollectSound(server: (nat, Cursor) -> Reply, cancelled: nat -> bool, n: nat, maxPages: nat, s: State)
    ensures var o := Collect(server, cancelled, n, maxPages, s);
      && o.topics == AddAll(s.out, Served(o.replies))
      && |o.replies| + |s.out| <= |o.topics| + 1 && |o.replies| <= (if n < maxPages then maxPages - n else 0)
      && (o.ending == Complete ==> EndedBy(o, s.out, s.expected))
    decreases maxPages - n
  {
    hide Usable, AddAll, CursorAfter;
    NothingUsable(s.out);
    if n < maxPages && !cancelled(n) {
      var reply := server(n, s.next);
      ServedOne(reply);
      assert [reply][..0] == [];
      if reply.Got? && Advance(s, reply.page).Next? {
        var t := Advance(s, reply.page).state;
        CollectSound(server, cancelled, n + 1, maxPages, t);
        var o := Collect(server, cancelled, n + 1, maxPages, t);
        ServedMore(reply, o.replies, s.out);
        if o.ending == Complete {
          var init := o.replies[..|o.replies| - 1];
          ServedMore(reply, init, s.out);
          assert ([reply] + o.replies)[..|o.replies|] == [reply] + init;
        }
      } else {
        StoppedAddsNothing(s, reply);
      }
    }
  }

  lemma ServedOne(reply: Reply)
    ensures Served([reply]) == Usable(PageOf(reply))
    ensures !reply.Got? ==> Served([reply]) == []
    ensures forall expected: int :: AdvertisedBy(expected, [reply]) == if reply.Got? then Advertised(expected, reply.page) else expected
  {
    assert [reply][1..] == [];
    assert Usable(PageOf(reply)) + [] == Usable(PageOf(reply));
  }

  lemma ServedMore(reply: Reply, replies: seq<Reply>, out: seq<Topic>)
    ensures AddAll(AddAll(out, Usable(PageOf(reply))), Served(replies)) == AddAll(out, Served([reply] + replies))
    ensures forall expected: int ::
      AdvertisedBy(expected, [reply] + replies) ==
      AdvertisedBy(if reply.Got? then Advertised(expected, reply.page) else expected, replies)
  {
    assert ([reply] + replies)[1..] == replies;
    AddAllJoins(out, Usable(PageOf(reply)), Served(replies));
  }

  /** When the length did not grow, nothing was added. */
  lemma {:induction false} AddAllSame(out: seq<Topic>, ts: seq<Topic>)
    ensures out <= AddAll(out, ts)
  {
    if ts != [] {
      AddAllSame(out, ts[..|ts| - 1]);
    }
  }

  lemma StoppedAddsNothing(s: State, reply: Reply)
    requires reply.Got? ==> Advance(s, reply.page).Stop?
    ensures reply.Got? && Advance(s, reply.page).ending == Complete ==>
      Ends(reply, s.out, Advance(s, reply.page).out, Advertised(s.expected, reply.page))
  {
    if reply.Got? {
      AddAllSame(s.out, Usable(reply.page.topics));
    }
  }

  lemma {:induction false} ServedBySomeReply(replies: seq<Reply>, t: Topic)
    ensures t in Served(replies) <==> t.id != 0 && exists i :: 0 <= i < |replies| && Some(t) in PageOf(replies[i])
  {
    hide Usable;
    if replies != [] {
      UsableIsLive(PageOf(replies[0]));
      ServedBySomeReply(replies[1..], t);
      if i :| 0 <= i < |replies| && Some(t) in PageOf(replies[i]) && i > 0 {
        assert Some(t) in PageOf(replies[1..][i - 1]);
      }
      if i :| 0 <= i < |replies[1..]| && Some(t) in PageOf(replies[1..][i]) {
        assert Some(t) in PageOf(replies[i + 1]);
      }
    }
  }

  /**
   Whatever the server answers: the returned topics have distinct ids, each was served, every usable id served is among
   them, requests exceed the topics by at most one and never exceed the cap, and success means the last page held no
   usable topic, or nothing new at or above the advertised count.
   */
  lemma CollectionSound(server: (nat, Cursor) -> Reply, cancelled: nat -> bool, maxPages: int)
    ensures var o := Collect(server, cancelled, 0, PageCap(maxPages), FIRST);
      && DistinctIds(o.topics)
      && (forall t :: t in o.topics ==> t.id != 0 && exists i :: 0 <= i < |o.replies| && Some(t) in PageOf(o.replies[i]))
      && Ids(o.topics) == Ids(Served(o.replies))
      && |o.replies| <= |o.topics| + 1 && |o.replies| <= PageCap(maxPages)
      && (o.ending == Complete ==> EndedBy(o, [], 0))
  {
    hide Collect, AddAll, Served, EndedBy;
    var o := Collect(server, cancelled, 0, PageCap(maxPages), FIRST);
    CollectSound(server, cancelled, 0, PageCap(maxPages), FIRST);
    AddAllDistinct([], Served(o.replies));
    NothingSeen();
    forall t | t in o.topics ensures t.id != 0 && exists i :: 0 <= i < |o.replies| && Some(t) in PageOf(o.replies[i]) {
      ServedBySomeReply(o.replies, t);
    }
  }

  // Completeness against an honest server.

  /** A fixed topic list, cut into consecutive segments. */
  type Segments = seq<seq<Slot>>

  function LiveTopics(segs: Segments): (ts: seq<Topic>) {
    if segs == [] then [] else LiveTopics(segs[..|segs| - 1]) + Usable(segs[|segs| - 1])
  }

  function LastId(segs: Segments, k: nat): int
    requires k < |segs| && Usable(segs[k]) != []
  {
    var ts := Usable(segs[k]);
    ts[|ts| - 1].id
  }

  /** How many segments come before the first one without a live topic. */
  function LiveRun(segs: Segments): (k: nat)
    ensures k <= |segs|
    ensures forall i :: 0 <= i < k ==> Usable(segs[i]) != []
    ensures k < |segs| ==> Usable(segs[k]) == []
  {
    if segs == [] then 0
    else
      var init := segs[..|segs| - 1];
      var k := LiveRun(init);
      assert k == |init| || init[k] == segs[k];
      assert forall i :: 0 <= i < k ==> init[i] == segs[i];
      if k == |init| && Usable(segs[|init|]) != [] then |segs| else k
  }

  /**
   The server answers from the list: the first request gets the first segment, and a request from the last live topic of
   a segment gets the one after it, or an empty page. Counts, messages and order are whatever it says.
   */
  ghost predicate Honest(server: (nat, Cursor) -> Reply, segs: Segments) {
    && (forall n: nat :: server(n, START).Got? && server(n, START).page.topics == (if segs == [] then [] else segs[0]))
    && (forall n: nat, c: Cursor, k: nat :: k < LiveRun(segs) && c.topic == LastId(segs, k) ==>
          server(n, c).Got? && server(n, c).page.topics == (if k + 1 < |segs| then segs[k + 1] else []))
  }

  /** Where the collection stands after `k` segments. */
  ghost predicate Reached(segs: Segments, k: nat, s: State) {
    && k <= LiveRun(segs) && s.out == LiveTopics(segs[..k])
    && (if k == 0 then s.next == START && s.cursors == {} else s.next.topic == LastId(segs, k - 1))
    && (forall c :: c in s.cursors ==> c.topic in Ids(s.out))
  }

  lemma {:induction false} AddAllFresh(out: seq<Topic>, ts: seq<Topic>)
    requires DistinctIds(out + ts)
    ensures AddAll(out, ts) == out + ts
  {
    if ts == [] {
      assert out + ts == out;
    } else {
      var init, last := ts[..|ts| - 1], ts[|ts| - 1];
      assert out + ts == out + init + [last];
      assert forall i :: 0 <= i < |out + init| ==> (out + init)[i] == (out + ts)[i];
      AddAllFresh(out, init);
      var all := out + ts;
      assert last == all[|all| - 1];
      forall t | t in out + init ensures t.id != last.id {
        var i :| 0 <= i < |out + init| && (out + init)[i] == t;
        assert all[i].id != all[|all| - 1].id;
      }
    }
  }

  lemma {:induction false} LiveTopicsDistinct(segs: Segments, k: nat)
    requires k <= |segs| && DistinctIds(LiveTopics(segs))
    ensures LiveTopics(segs[..k]) <= LiveTopics(segs) && DistinctIds(LiveTopics(segs[..k]))
    decreases |segs|
  {
    hide Usable;
    if k == |segs| {
      assert segs[..k] == segs;
    } else {
      var init := segs[..|segs| - 1];
      assert init[..k] == segs[..k];
      var a := LiveTopics(init);
      assert forall i :: 0 <= i < |a| ==> a[i] == LiveTopics(segs)[i];
      LiveTopicsDistinct(init, k);
    }
  }

  lemma LiveTopicsStep(segs: Segments, k: nat)
    requires k < |segs|
    ensures LiveTopics(segs[..k + 1]) == LiveTopics(segs[..k]) + Usable(segs[k])
  {
    assert segs[..k + 1][..k] == segs[..k];
  }

  /** A live segment moves the collection one segment on. */
  lemma SegmentAdvances(segs: Segments, k: nat, s: State, page: Page)
    requires DistinctIds(LiveTopics(segs)) && Reached(segs, k, s) && k < LiveRun(segs) && page.topics == segs[k]
    ensures Advance(s, page).Next? && Reached(segs, k + 1, Advance(s, page).state)
  {
    hide LiveTopics, Usable, Offsets, LiveRun, AddAll;
    var usable := Usable(segs[k]);
    var last := usable[|usable| - 1];
    LiveTopicsDistinct(segs, k + 1);
    LiveTopicsStep(segs, k);
    AddAllFresh(s.out, usable);
    var out := s.out + usable;
    assert out[|out| - 1] == last && last in out;
    forall c | c in s.cursors ensures c.topic != last.id {
      var i :| 0 <= i < |s.out| && s.out[i].id == c.topic;
      assert out[i] == s.out[i];
    }
    assert Ids(s.out) <= Ids(out) && last.id in Ids(out);
  }

  lemma {:induction false} HonestRun(server: (nat, Cursor) -> Reply, segs: Segments, maxPages: nat, k: nat, s: State)
    requires Honest(server, segs) && DistinctIds(LiveTopics(segs)) && Reached(segs, k, s) && k <= maxPages
    ensures var o, m := Collect(server, _ => false, k, maxPages, s), LiveRun(segs);
      && o.topics == LiveTopics(segs[..if m <= maxPages then m else maxPages])
      && o.ending == (if m < maxPages then Complete else PageLimit)
    decreases maxPages - k
  {
    hide LiveTopics, LiveRun, Usable, AddAll, CursorAfter;
    if k < maxPages {
      var reply := server(k, s.next);
      if k < LiveRun(segs) {
        SegmentAdvances(segs, k, s, reply.page);
        HonestRun(server, segs, maxPages, k + 1, Advance(s, reply.page).state);
      } else {
        NothingUsable(s.out);
      }
    }
  }

  /**
   Against an honest server an uncancelled collection returns the live topics of the segments before the first one
   without a live topic, within the page cap. So it reports success and returns the whole list exactly when no live
   topic follows a segment without one and the cap leaves a request for the page that ends the list.
   */
  lemma HonestCollection(server: (nat, Cursor) -> Reply, segs: Segments, maxPages: int)
    requires Honest(server, segs) && DistinctIds(LiveTopics(segs))
    ensures var o, m := Collect(server, _ => false, 0, PageCap(maxPages), FIRST), LiveRun(segs);
      && (o.ending == Complete && o.topics == LiveTopics(segs) <==>
            m < PageCap(maxPages) && LiveTopics(segs[m..]) == [])
      && (m < PageCap(maxPages) ==> o.ending == Complete && o.topics == LiveTopics(segs[..m]))
      && (m >= PageCap(maxPages) ==> o.ending == PageLimit && o.topics == LiveTopics(segs[..PageCap(maxPages)]))
  {
    hide LiveTopics, LiveRun, Collect, Honest;
    var m := LiveRun(segs);
    NothingLive();
    assert segs[..0] == [];
    HonestRun(server, segs, PageCap(maxPages), 0, FIRST);
    LiveTopicsJoin(segs[..m], segs[m..]);
    assert segs[..m] + segs[m..] == segs;
    if LiveTopics(segs[..m]) == LiveTopics(segs) {
      assert |LiveTopics(segs[m..])| == 0;
    }
  }

  lemma NothingLive()
    ensures LiveTopics([]) == []
  {
  }

  lemma {:induction false} LiveTopicsJoin(a: Segments, b: Segments)
    ensures LiveTopics(a + b) == LiveTopics(a) + LiveTopics(b)
    decreases |b|
  {
    hide Usable;
    if b == [] {
      assert a + b == a;
    } else {
      assert (a + b)[..|a + b| - 1] == a + b[..|b| - 1];
      LiveTopicsJoin(a, b[..|b| - 1]);
    }
  }
}
