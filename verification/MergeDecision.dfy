/** Which of two rows of a message a snapshot merge keeps, by their histories and times alone. */
module MergeDecision {
  import opened ArchiveTables
  import opened Bytes
  import opened MessageJournal
  import opened Ranking
  import opened RevisionChain
  import opened RevisionGraph
  import opened Revisions
  import opened RowChanges
  import opened SnapshotMerge
  import opened TextOrder
  import opened Wrappers

  /** A side whose last revision is known. */
  ghost predicate Ended(s: Side) {
    s.chain != [] && s.chain[|s.chain| - 1] in s.revs
  }

  /** The time of a side: its last revision's, or a later edit time of its row, or of an edit without one its observation. */
  ghost function SideTime(s: Side): Time
    requires Ended(s)
  {
    var tip, edited := s.revs[s.chain[|s.chain| - 1]], s.row.content.editTs;
    if edited > tip.eventAt then edited
    else if edited == 0 && tip.eventType == Edited && tip.observedAt > tip.eventAt then tip.observedAt
    else tip.eventAt
  }

  /** The time a row states: its edit, else its sending. */
  function StatedTime(m: Message): Time {
    if m.content.editTs == 0 then m.content.ts else m.content.editTs
  }

  predicate SaysTheSame(a: Message, b: Message) {
    a.content == b.content && a.tomb == b.tomb
  }

  predicate Ahead(a: seq<Id>, b: seq<Id>) {
    a <= b && a != b
  }

  /**
   The snapshot's row `b`, whose history is `given`, is written over the stored row `a`: when they say the same, or the
   snapshot's history goes on from the stored one; never to revive a deleted message otherwise, nor from a history that the
   stored one goes on from. Equal and forked histories are decided by time, and at equal times by the id of the last revision.
   */
  ghost predicate Supersedes(a: Side, b: Side, given: seq<Id>)
    requires Ended(a) && Ended(b) && given != []
  {
    if SaysTheSame(a.row, b.row) || Ahead(a.chain, given) then true
    else if (a.row.tomb.Deleted? && b.row.tomb.Live?) || Ahead(given, a.chain) then false
    else
      || SideTime(b) > SideTime(a)
      || (SideTime(b) == SideTime(a) && Precedes(a.chain[|a.chain| - 1], given[|given| - 1]))
  }

  // Descent between the ends of two chains.

  /** Lines that meet are one line up to there. */
  lemma {:induction false} LinesMeet(links: Links, c: seq<Id>, d: seq<Id>, i: nat, j: nat)
    requires Line(links, c) && Line(links, d) && i < |c| && j < |d| && c[i] == d[j]
    ensures i == j && c[..i + 1] == d[..j + 1]
    decreases i
  {
    assert LineAt(links, c, i) && LineAt(links, d, j);
    if i > 0 {
      assert LineAt(links, c, i - 1);
    }
    if j > 0 {
      assert LineAt(links, d, j - 1);
    }
    if i > 0 && j > 0 {
      LinesMeet(links, c, d, i - 1, j - 1);
      assert c[..i + 1] == c[..i] + [c[i]] && d[..j + 1] == d[..j] + [d[j]];
    }
  }

  /** The end of one line descends from the end of another exactly when it goes on from it. */
  lemma EndDescends(links: Links, c: seq<Id>, d: seq<Id>)
    requires Line(links, c) && Line(links, d) && Distinct(d) && c != [] && d != []
    ensures Descends(links, d[|d| - 1], c[|c| - 1]) <==> Ahead(c, d)
  {
    hide Back, Line;
    var x, y := c[|c| - 1], d[|d| - 1];
    if Ahead(c, d) {
      assert x == d[|c| - 1];
      LineDescends(links, d, |c| - 1, |d| - 1);
    }
    if Descends(links, y, x) {
      var n: nat :| n > 0 && Back(links, y, n) == x;
      LineBack(links, d, |d| - 1, n);
      assert x == d[|d| - 1 - n];
      LinesMeet(links, c, d, |c| - 1, |d| - 1 - n);
    }
  }

  lemma OrderTime(s: Side, row: Message)
    requires Ended(s) && row.content == s.row.content
    ensures TipOrder(s, row).eventAt == SideTime(s) && TipOrder(s, row).id == s.revs[s.chain[|s.chain| - 1]].id
  {
  }

  lemma PayloadSays(a: Message, b: Message)
    ensures PayloadOf(a) == PayloadOf(b) <==> SaysTheSame(a, b)
  {
  }

  /** Preference between the ends of two chains. */
  lemma EndsPrefer(a: Side, b: Side, links: Links, x: RevisionOrder, y: RevisionOrder)
    requires Ended(a) && Ended(b) && Line(links, a.chain) && Line(links, b.chain) && Distinct(a.chain) && Distinct(b.chain)
    requires x.id == a.chain[|a.chain| - 1] && y.id == b.chain[|b.chain| - 1]
    requires x.eventAt == SideTime(a) && y.eventAt == SideTime(b)
    ensures Prefer(y, x, links) <==>
      if Ahead(a.chain, b.chain) then true else if Ahead(b.chain, a.chain) then false
      else SideTime(b) > SideTime(a) || (SideTime(b) == SideTime(a) && Precedes(x.id, y.id))
  {
    hide Descends, Line, LexLess, Precedes, SideTime;
    EndDescends(links, a.chain, b.chain);
    EndDescends(links, b.chain, a.chain);
    LexIsPrecedes(x.id, y.id);
  }

  /** What a merge decides about a stored message and a snapshot of it, both with one history. */
  lemma MergeDecides(a: Side, b: Side, hash: Hash, m: Id)
    requires Injective(hash) && Told(a, m) && Offered(b, m) && RowsHashed(a.rows, hash) && RowsHashed(b.rows, hash)
    ensures Ended(a) && Ended(b) && (Selected(a.rows, b.rows, m, a.row, b.row) <==> Supersedes(a, b, b.chain))
  {
    hide Preferred, Line, Injective, RowsHashed, LinksOf, Prefer, Lists, Answers, HasPayload, CanonicalOrder, SideTime, Precedes,
      Descends, PayloadOf;
    var links := LinksOf(a.rows + b.rows);
    var current, incoming := a.row, PreserveDestinationMedia(a.row, b.row);
    BothTips(a, b, hash, m);
    SideEnd(a, m);
    SideEnd(b, m);
    PayloadSays(current, incoming);
    if !SaysTheSame(a.row, b.row) {
      var exact := Preferred(a.rows, m, Some(PayloadOf(current)), links);
      var same := Preferred(b.rows, m, Some(PayloadOf(incoming)), links);
      PreferredIsTip(a, m, if exact.Some? then Some(PayloadOf(current)) else None, links);
      PreferredIsTip(b, m, if same.None? && incoming.tomb.Deleted? then None else Some(PayloadOf(incoming)), links);
      OrderTime(a, current);
      OrderTime(b, incoming);
      EndDescends(links, a.chain, b.chain);
      EndsPrefer(a, b, links, TipOrder(a, current), TipOrder(b, incoming));
    }
  }

  lemma {:induction false} NoRevisions(rows: seq<Revision>, m: Id, payload: Option<Payload>, links: Links)
    requires forall r :: r in rows ==> r.message != m
    ensures Preferred(rows, m, payload, links).None?
  {
    hide Pick;
    NoOrders(rows, m, payload);
  }

  /** Without revisions in the snapshot the rows' own times decide, and a deleted message is not revived. */
  lemma ClockDecides(stored: seq<Revision>, snapshot: seq<Revision>, m: Id, current: Message, given: Message)
    requires forall r :: r in snapshot ==> r.message != m
    ensures Selected(stored, snapshot, m, current, given) <==>
      || SaysTheSame(current, given)
      || (!(current.tomb.Deleted? && given.tomb.Live?) && StatedTime(given) > StatedTime(current))
  {
    hide Preferred, LinksOf, Prefer, Descends;
    var links, incoming := LinksOf(stored + snapshot), PreserveDestinationMedia(current, given);
    PayloadSays(current, incoming);
    NoRevisions(snapshot, m, None, links);
    NoRevisions(snapshot, m, Some(PayloadOf(incoming)), links);
  }

  /** Without stored revisions the snapshot's history is compared with the stored row's own time. */
  lemma HistoryAgainstClock(stored: seq<Revision>, b: Side, hash: Hash, m: Id, current: Message)
    requires Injective(hash) && Offered(b, m) && RowsHashed(stored, hash) && RowsHashed(b.rows, hash)
    requires forall r :: r in stored ==> r.message != m
    ensures Ended(b)
    ensures Selected(stored, b.rows, m, current, b.row) <==>
      || SaysTheSame(current, b.row)
      || (!(current.tomb.Deleted? && b.row.tomb.Live?) && SideTime(b) > StatedTime(current))
  {
    hide Preferred, LinksOf, Prefer, Descends, Line, Injective, RowsHashed, Lists, Answers, HasPayload, CanonicalOrder, SideTime;
    var links, incoming := LinksOf(stored + b.rows), PreserveDestinationMedia(current, b.row);
    SideEnd(b, m);
    ChainIsLine(stored, b.rows, hash, b, m);
    TipSpeaks(b.rows, b.revs, m, b.chain, links, b.row);
    MediaKeepsPayload(current, b.row);
    PayloadSays(current, incoming);
    NoRevisions(stored, m, None, links);
    NoRevisions(stored, m, Some(PayloadOf(current)), links);
    var same := Preferred(b.rows, m, Some(PayloadOf(incoming)), links);
    PreferredIsTip(b, m, if same.None? && incoming.tomb.Deleted? then None else Some(PayloadOf(incoming)), links);
    OrderTime(b, incoming);
  }
}
