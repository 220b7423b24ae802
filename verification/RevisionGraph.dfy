/** Predecessor links between revisions: ancestry, and which revision is the tip. */
module RevisionGraph {
  import opened Bytes
  import opened Ranking
  import opened TextOrder

  type Id = Text

  const NONE: Id := []

  /** Predecessors by revision id; a missing entry and the empty id both mean none. */
  type Links = map<Id, Id>

  function Parent(links: Links, e: Id): Id {
    if e != NONE && e in links then links[e] else NONE
  }

  /** The revision `n` links back. */
  function Back(links: Links, e: Id, n: nat): Id {
    if n == 0 then e else Parent(links, Back(links, e, n - 1))
  }

  /** Following predecessors from `e` reaches `a` in at least one step; a revision does not descend from itself. */
  ghost predicate Descends(links: Links, e: Id, a: Id) {
    e != NONE && a != NONE && e != a && exists n: nat :: n > 0 && Back(links, e, n) == a
  }

  // Walking back.

  lemma {:induction false} BackAdds(links: Links, e: Id, m: nat, n: nat)
    ensures Back(links, Back(links, e, m), n) == Back(links, e, m + n)
  {
    if n > 0 {
      BackAdds(links, e, m, n - 1);
    }
  }

  lemma {:induction false} BackEnds(links: Links, e: Id, m: nat, n: nat)
    requires m <= n && Back(links, e, m) == NONE
    ensures Back(links, e, n) == NONE
  {
    if m < n {
      BackEnds(links, e, m, n - 1);
    }
  }

  /** Once a walk repeats a revision it meets no new one. */
  lemma {:induction false} RepeatsForever(links: Links, e: Id, i: nat, n: nat, m: nat) returns (k: nat)
    requires i < n && Back(links, e, n) == Back(links, e, i)
    ensures k < n && Back(links, e, m) == Back(links, e, k)
    decreases m
  {
    if m < n {
      k := m;
    } else {
      BackAdds(links, e, n, m - n);
      BackAdds(links, e, i, m - n);
      k := RepeatsForever(links, e, i, n, m - n + i);
    }
  }

  function Universe(links: Links, e: Id): set<Id> {
    links.Keys + links.Values + {e}
  }

  lemma {:induction false} BackInside(links: Links, e: Id, n: nat)
    ensures Back(links, e, n) == NONE || Back(links, e, n) in Universe(links, e)
  {
    if n > 0 {
      BackInside(links, e, n - 1);
    }
  }

  /** The revisions a walk has met after `n` steps. */
  ghost function Met(links: Links, e: Id, n: nat): set<Id> {
    if n == 0 then {} else Met(links, e, n - 1) + {Back(links, e, n - 1)}
  }

  lemma {:induction false} MetExactly(links: Links, e: Id, n: nat, x: Id)
    ensures x in Met(links, e, n) <==> exists k: nat :: k < n && Back(links, e, k) == x
  {
    if n > 0 {
      MetExactly(links, e, n - 1, x);
      if x == Back(links, e, n - 1) {
        var k: nat := n - 1;
        assert k < n && Back(links, e, k) == x;
      } else if k: nat :| k < n && Back(links, e, k) == x {
        assert k < n - 1;
      }
    }
  }

  /** A walk that comes back to a revision it met never reaches one it has not met. */
  lemma CycleMisses(links: Links, e: Id, n: nat, a: Id)
    requires Back(links, e, n) in Met(links, e, n) && a !in Met(links, e, n)
    ensures !Descends(links, e, a)
  {
    hide Back, Met;
    MetExactly(links, e, n, Back(links, e, n));
    var i: nat :| i < n && Back(links, e, i) == Back(links, e, n);
    forall m: nat ensures Back(links, e, m) != a {
      var k := RepeatsForever(links, e, i, n, m);
      MetExactly(links, e, n, a);
    }
  }

  /** A walk that ends without meeting a revision does not descend from it. */
  lemma EndMisses(links: Links, e: Id, n: nat, a: Id)
    requires Back(links, e, n) == NONE && a !in Met(links, e, n)
    ensures !Descends(links, e, a)
  {
    hide Back, Met;
    forall m: nat ensures a == NONE || Back(links, e, m) != a {
      if m < n {
        MetExactly(links, e, n, a);
      } else {
        BackEnds(links, e, n, m);
      }
    }
  }

  lemma WalkStep(links: Links, e: Id, n: nat)
    ensures Back(links, e, n + 1) == Parent(links, Back(links, e, n))
    ensures Met(links, e, n + 1) == Met(links, e, n) + {Back(links, e, n)}
  {
  }

  lemma WalkStart(links: Links, e: Id)
    ensures Back(links, e, 0) == e && Met(links, e, 0) == {}
  {
  }

  lemma WalkArrives(links: Links, e: Id, n: nat, a: Id)
    requires e != a && a != NONE && e != NONE && Back(links, e, n) == a
    ensures Descends(links, e, a)
  {
  }

  /** Exact on every map of links, cyclic ones included. */
  method RevisionDescendsFrom(eventId: Id, ancestorId: Id, links: Links) returns (d: bool)
    ensures d <==> Descends(links, eventId, ancestorId)
  {
    hide Back, Met, Descends, Universe;
    if eventId == NONE || ancestorId == NONE || eventId == ancestorId {
      NotProper(links, eventId, ancestorId);
      return false;
    }
    var seen: set<Id> := {};
    var current := eventId;
    ghost var n: nat := 0;
    ghost var left := Universe(links, eventId);
    WalkStart(links, eventId);
    while current != NONE
      invariant current == Back(links, eventId, n) && seen == Met(links, eventId, n) && ancestorId !in seen
      invariant left == Universe(links, eventId) - seen
      decreases |left|
    {
      if current == ancestorId {
        WalkArrives(links, eventId, n, ancestorId);
        return true;
      }
      if current in seen {
        CycleMisses(links, eventId, n, ancestorId);
        return false;
      }
      BackInside(links, eventId, n);
      WalkStep(links, eventId, n);
      left := left - {current};
      seen := seen + {current};
      current := if current in links then links[current] else NONE;
      n := n + 1;
    }
    EndMisses(links, eventId, n, ancestorId);
    return false;
  }

  lemma NotProper(links: Links, e: Id, a: Id)
    requires e == NONE || a == NONE || e == a
    ensures !Descends(links, e, a)
  {
  }

  // Acyclic histories.

  ghost predicate Acyclic(links: Links) {
    forall e: Id, n: nat :: e != NONE && n > 0 ==> Back(links, e, n) != e
  }

  lemma DescendsTransitive(links: Links, a: Id, b: Id, c: Id)
    requires Acyclic(links) && Descends(links, a, b) && Descends(links, b, c)
    ensures Descends(links, a, c)
  {
    var m: nat :| m > 0 && Back(links, a, m) == b;
    var n: nat :| n > 0 && Back(links, b, n) == c;
    BackAdds(links, a, m, n);
    assert Back(links, a, m + n) == c;
  }

  lemma DescendsAsymmetric(links: Links, a: Id, b: Id)
    requires Acyclic(links) && Descends(links, a, b)
    ensures !Descends(links, b, a)
  {
    if Descends(links, b, a) {
      var m: nat :| m > 0 && Back(links, a, m) == b;
      var n: nat :| n > 0 && Back(links, b, n) == a;
      BackAdds(links, a, m, n);
    }
  }

  // Preferring one revision to another.

  datatype EventType = Created | Edited | Deletion | Observation

  datatype RevisionOrder = RevisionOrder(eventAt: nat, observedAt: nat, id: Id, eventType: EventType, predecessor: Id)

  /** Later, or as late with the greater id. */
  predicate Later(a: RevisionOrder, b: RevisionOrder) {
    a.eventAt > b.eventAt || (a.eventAt == b.eventAt && LexLess(b.id, a.id))
  }

  /** preferRevisionOrder: ancestry first, then time, then id. */
  ghost predicate Prefer(candidate: RevisionOrder, current: RevisionOrder, links: Links) {
    if Descends(links, candidate.id, current.id) then true
    else if Descends(links, current.id, candidate.id) then false
    else Later(candidate, current)
  }

  method PreferRevisionOrder(candidate: RevisionOrder, current: RevisionOrder, links: Links) returns (p: bool)
    ensures p <==> Prefer(candidate, current, links)
  {
    hide LexLess;
    var down := RevisionDescendsFrom(candidate.id, current.id, links);
    if down {
      return true;
    }
    var up := RevisionDescendsFrom(current.id, candidate.id, links);
    if up {
      return false;
    }
    if candidate.eventAt != current.eventAt {
      return candidate.eventAt > current.eventAt;
    }
    return LexLess(current.id, candidate.id);
  }

  /** The loop that keeps the preferred of the rows seen so far. */
  ghost function Pick(rows: seq<RevisionOrder>, links: Links): RevisionOrder
    requires rows != []
  {
    if |rows| == 1 then rows[0]
    else
      var best, last := Pick(rows[..|rows| - 1], links), rows[|rows| - 1];
      if Prefer(last, best, links) then last else best
  }

  method PickTip(rows: seq<RevisionOrder>, links: Links) returns (tip: RevisionOrder)
    requires rows != []
    ensures tip == Pick(rows, links)
  {
    hide Prefer;
    tip := rows[0];
    assert rows[..1] == [rows[0]];
    for i := 1 to |rows|
      invariant tip == Pick(rows[..i], links)
    {
      assert rows[..i + 1][..i] == rows[..i];
      var better := PreferRevisionOrder(rows[i], tip, links);
      if better {
        tip := rows[i];
      }
    }
    assert rows[..|rows|] == rows;
  }

  /** `t` descends from every other row. */
  ghost predicate IsTip(rows: seq<RevisionOrder>, links: Links, t: RevisionOrder) {
    t in rows && forall r :: r in rows && r != t ==> Descends(links, t.id, r.id)
  }

  lemma {:induction false} PickIsMember(rows: seq<RevisionOrder>, links: Links)
    requires rows != []
    ensures Pick(rows, links) in rows
  {
    hide Prefer;
    if |rows| > 1 {
      PickIsMember(rows[..|rows| - 1], links);
    }
  }

  /** `w` is preferred to every other row, and none of them to it. */
  ghost predicate Wins(rows: seq<RevisionOrder>, links: Links, w: RevisionOrder) {
    w in rows && forall r :: r in rows && r != w ==> Prefer(w, r, links) && !Prefer(r, w, links)
  }

  /** The fold picks a row that wins, in whatever order the rows come. */
  lemma {:induction false} PickFindsWinner(rows: seq<RevisionOrder>, links: Links, w: RevisionOrder)
    requires Wins(rows, links, w)
    ensures Pick(rows, links) == w
    decreases |rows|
  {
    hide Prefer;
    if |rows| > 1 {
      var init, last := rows[..|rows| - 1], rows[|rows| - 1];
      assert rows == init + [last];
      PickIsMember(init, links);
      if w in init {
        PickFindsWinner(init, links, w);
      }
    }
  }

  /** The fold picks a row that descends from all others when none of them descends from it. */
  lemma PickFindsDescendant(rows: seq<RevisionOrder>, links: Links, t: RevisionOrder)
    requires IsTip(rows, links, t) && forall r :: r in rows && r != t ==> !Descends(links, r.id, t.id)
    ensures Pick(rows, links) == t
  {
    hide Later, Descends, Pick;
    PickFindsWinner(rows, links, t);
  }

  /** In acyclic histories the fold picks the tip, in whatever order the rows come. */
  lemma PickFindsTip(rows: seq<RevisionOrder>, links: Links, t: RevisionOrder)
    requires Acyclic(links) && IsTip(rows, links, t)
    ensures Pick(rows, links) == t
  {
    hide Pick, Descends, Acyclic;
    forall r | r in rows && r != t ensures !Descends(links, r.id, t.id) {
      DescendsAsymmetric(links, t.id, r.id);
    }
    PickFindsDescendant(rows, links, t);
  }

  /**
   On acyclic histories the preference is the order by time and id exactly when no revision descends from one that order
   puts after it; it is then a strict total order on rows with distinct ids.
   */
  lemma PreferIsTimeOrder(S: set<RevisionOrder>, links: Links)
    requires Acyclic(links)
    ensures (forall a, b :: a in S && b in S ==> (Prefer(a, b, links) <==> Later(a, b))) <==>
      (forall a, b :: a in S && b in S && Descends(links, a.id, b.id) ==> Later(a, b))
  {
    hide LexLess, Descends, Acyclic;
    forall a, b | a in S && b in S && Descends(links, a.id, b.id)
      ensures Prefer(a, b, links) && !Descends(links, b.id, a.id)
    {
      DescendsAsymmetric(links, a.id, b.id);
    }
    forall a, b ensures !(Later(a, b) && Later(b, a)) {
      LexAsymmetric(a.id, b.id);
    }
  }

  ghost function PreferOrder(links: Links): Order<RevisionOrder> {
    (a, b) => Prefer(a, b, links)
  }

  // When the preference orders revisions.

  predicate DistinctIds(S: set<RevisionOrder>) {
    forall a, b :: a in S && b in S && a.id == b.id ==> a == b
  }

  ghost predicate Unrelated(links: Links, a: Id, b: Id) {
    !Descends(links, a, b) && !Descends(links, b, a)
  }

  /** `x` descends from `y`, and a revision `z` of another branch lies between them against their descent. */
  ghost predicate Skewed(links: Links, x: RevisionOrder, y: RevisionOrder, z: RevisionOrder) {
    && Descends(links, x.id, y.id) && Unrelated(links, x.id, z.id) && Unrelated(links, y.id, z.id)
    && Later(y, z) && Later(z, x)
  }

  lemma LaterStrict(a: RevisionOrder, b: RevisionOrder, c: RevisionOrder)
    ensures !(Later(a, b) && Later(b, a))
    ensures a.id != b.id ==> Later(a, b) || Later(b, a)
    ensures Later(a, b) && Later(b, c) ==> Later(a, c)
  {
    hide LexLess;
    LexOrders({a.id, b.id, c.id});
  }

  /** On acyclic histories with distinct ids exactly one of two revisions is preferred. */
  lemma PreferDecides(a: RevisionOrder, b: RevisionOrder, links: Links)
    requires Acyclic(links) && a.id != b.id
    ensures Prefer(a, b, links) != Prefer(b, a, links)
  {
    hide Descends, Acyclic, Later;
    LaterStrict(a, b, a);
    if Descends(links, a.id, b.id) {
      DescendsAsymmetric(links, a.id, b.id);
    } else if Descends(links, b.id, a.id) {
      DescendsAsymmetric(links, b.id, a.id);
    }
  }

  /** A revision preferred over two links of a cycle: both cannot be descent. */
  lemma NotBothDescents(a: RevisionOrder, b: RevisionOrder, c: RevisionOrder, links: Links)
    requires Acyclic(links) && Descends(links, a.id, b.id) && Prefer(c, a, links)
    ensures !Descends(links, b.id, c.id)
  {
    hide Descends, Acyclic, Later;
    if Descends(links, b.id, c.id) {
      DescendsTransitive(links, a.id, b.id, c.id);
      DescendsAsymmetric(links, a.id, c.id);
    }
  }

  /** A cycle of preferences has one step of descent against two of time. */
  lemma CycleIsSkewed(a: RevisionOrder, b: RevisionOrder, c: RevisionOrder, links: Links)
    requires Acyclic(links) && Prefer(a, b, links) && Prefer(b, c, links) && Prefer(c, a, links)
    ensures Skewed(links, a, b, c) || Skewed(links, b, c, a) || Skewed(links, c, a, b)
  {
    hide Descends, Acyclic, Later;
    LaterStrict(a, b, c);
    LaterStrict(c, a, b);
    if Descends(links, a.id, b.id) {
      NotBothDescents(a, b, c, links);
    }
    if Descends(links, b.id, c.id) {
      NotBothDescents(b, c, a, links);
    }
    if Descends(links, c.id, a.id) {
      NotBothDescents(c, a, b, links);
    }
  }

  /**
   On acyclic histories the preference is a strict total order exactly when no revision descends from one that a
   revision of another branch separates from it the wrong way in time.
   */
  lemma PreferOrdersExactly(S: set<RevisionOrder>, links: Links)
    requires Acyclic(links) && DistinctIds(S)
    ensures Orders(PreferOrder(links), S) <==>
      !(exists x, y, z :: x in S && y in S && z in S && Skewed(links, x, y, z))
  {
    hide Descends, Acyclic, Later, Prefer, Skewed;
    var less := PreferOrder(links);
    forall a, b | a in S && b in S ensures a != b ==> less(a, b) != less(b, a) ensures !less(a, a) {
      if a != b {
        PreferDecides(a, b, links);
      }
      NotPreferredToItself(a, links);
    }
    if x, y, z :| x in S && y in S && z in S && Skewed(links, x, y, z) {
      SkewedIsCycle(x, y, z, links);
      assert less(x, y) && less(y, z) && less(z, x);
    } else {
      forall x, y, z | x in S && y in S && z in S && less(x, y) && less(y, z) ensures less(x, z) {
        if !less(x, z) && x != z {
          CycleIsSkewed(x, y, z, links);
        }
      }
    }
  }

  lemma NotPreferredToItself(a: RevisionOrder, links: Links)
    ensures !Prefer(a, a, links)
  {
    LexAsymmetric(a.id, a.id);
  }

  lemma SkewedIsCycle(x: RevisionOrder, y: RevisionOrder, z: RevisionOrder, links: Links)
    requires Skewed(links, x, y, z)
    ensures Prefer(x, y, links) && Prefer(y, z, links) && Prefer(z, x, links)
  {
    hide Descends, Later;
  }

  /** Times that strictly increase along links are enough. */
  lemma PreferOrders(S: set<RevisionOrder>, links: Links)
    requires Acyclic(links) && DistinctIds(S)
    requires forall a, b :: a in S && b in S && Descends(links, a.id, b.id) ==> a.eventAt > b.eventAt
    ensures Orders(PreferOrder(links), S)
  {
    hide LexLess, Descends, Acyclic;
    PreferOrdersExactly(S, links);
  }

  // When the fold does not depend on the order of the rows.

  /** Exactly one of every two rows is preferred to the other. */
  ghost predicate Decided(rows: seq<RevisionOrder>, links: Links) {
    Distinct(rows) && forall a, b :: a in rows && b in rows && a != b ==> Prefer(a, b, links) != Prefer(b, a, links)
  }

  lemma AcyclicDecides(rows: seq<RevisionOrder>, links: Links)
    requires Acyclic(links) && Distinct(rows) && DistinctIds(Elements(rows))
    ensures Decided(rows, links)
  {
    hide Prefer, Acyclic;
    forall a, b | a in rows && b in rows && a != b ensures Prefer(a, b, links) != Prefer(b, a, links) {
      assert a in Elements(rows) && b in Elements(rows);
      PreferDecides(a, b, links);
    }
  }

  /** A first row that loses to the second is not picked. */
  lemma {:induction false} LoserIsGone(t: RevisionOrder, u: RevisionOrder, rest: seq<RevisionOrder>, links: Links)
    requires Prefer(u, t, links)
    ensures Pick([t, u] + rest, links) in [u] + rest
    decreases |rest|
  {
    hide Prefer;
    var rows := [t, u] + rest;
    if rest == [] {
      assert rows == [t, u] && rows[..1] == [t];
    } else {
      var init := rest[..|rest| - 1];
      assert rows[..|rows| - 1] == [t, u] + init;
      LoserIsGone(t, u, init, links);
    }
  }

  /** Two rows can be brought to the front. */
  lemma Fronted(rows: seq<RevisionOrder>, t: RevisionOrder, u: RevisionOrder) returns (rest: seq<RevisionOrder>)
    requires Distinct(rows) && t in rows && u in rows && t != u
    ensures multiset([t, u] + rest) == multiset(rows) && t !in [u] + rest
  {
    var one := Removed(rows, t);
    assert u in multiset(rows) && u in multiset(one);
    rest := Removed(one, u);
    DistinctOnce(rows);
    assert multiset([t, u] + rest) == multiset([t]) + (multiset([u]) + multiset(rest)) by {
      assert [t, u] + rest == [t] + ([u] + rest);
    }
    assert multiset(rows)[t] <= 1;
    assert t !in multiset(one);
  }

  lemma Removed(rows: seq<RevisionOrder>, t: RevisionOrder) returns (rest: seq<RevisionOrder>)
    requires t in rows
    ensures multiset(rows) == multiset(rest) + multiset{t}
  {
    var i :| 0 <= i < |rows| && rows[i] == t;
    rest := rows[..i] + rows[i + 1..];
    assert rows == rows[..i] + [t] + rows[i + 1..];
  }

  lemma {:induction false} SameRows(rows: seq<RevisionOrder>, other: seq<RevisionOrder>)
    requires multiset(rows) == multiset(other)
    ensures forall r :: r in rows <==> r in other
    ensures rows == [] <==> other == []
  {
    forall r ensures r in rows <==> r in other {
      assert r in rows <==> r in multiset(rows);
      assert r in other <==> r in multiset(other);
    }
    assert |multiset(rows)| == |rows| && |multiset(other)| == |other|;
  }

  /** Every order of the rows gives the same pick. */
  ghost predicate PickFixed(rows: seq<RevisionOrder>, links: Links) {
    forall other: seq<RevisionOrder> :: other != [] && multiset(other) == multiset(rows) ==> Pick(other, links) == Pick(rows, links)
  }

  /** `w` is preferred to all other rows. */
  ghost predicate Best(rows: seq<RevisionOrder>, links: Links, w: RevisionOrder) {
    w in rows && forall r :: r in rows && r != w ==> Prefer(w, r, links)
  }

  lemma BestIsPicked(rows: seq<RevisionOrder>, other: seq<RevisionOrder>, links: Links, w: RevisionOrder)
    requires Decided(rows, links) && Best(rows, links, w) && multiset(other) == multiset(rows)
    ensures other != [] && Pick(other, links) == w
  {
    hide Prefer, Pick;
    SameRows(rows, other);
    PickFindsWinner(other, links, w);
  }

  /** An order of the rows in which a row that loses to another is not picked. */
  lemma OrderAgainst(rows: seq<RevisionOrder>, t: RevisionOrder, u: RevisionOrder, links: Links) returns (other: seq<RevisionOrder>)
    requires Distinct(rows) && t in rows && u in rows && t != u && Prefer(u, t, links)
    ensures other != [] && multiset(other) == multiset(rows) && Pick(other, links) != t
  {
    hide Prefer, Pick;
    var rest := Fronted(rows, t, u);
    LoserIsGone(t, u, rest, links);
    other := [t, u] + rest;
  }

  lemma PickedIsBest(rows: seq<RevisionOrder>, links: Links)
    requires rows != [] && Decided(rows, links) && PickFixed(rows, links)
    ensures Best(rows, links, Pick(rows, links))
  {
    hide Prefer, Pick;
    var t := Pick(rows, links);
    PickIsMember(rows, links);
    forall u | u in rows && u != t ensures Prefer(t, u, links) {
      if !Prefer(t, u, links) {
        var other := OrderAgainst(rows, t, u, links);
      }
    }
  }

  /** Among decided rows the pick does not depend on their order exactly when some row is preferred to all the others. */
  lemma PickOrderFree(rows: seq<RevisionOrder>, links: Links)
    requires rows != [] && Decided(rows, links)
    ensures PickFixed(rows, links) <==> exists w :: Best(rows, links, w)
  {
    hide Prefer, Pick, Best, Decided;
    if w :| Best(rows, links, w) {
      BestIsPicked(rows, rows, links, w);
      forall other: seq<RevisionOrder> | other != [] && multiset(other) == multiset(rows)
        ensures Pick(other, links) == Pick(rows, links)
      {
        BestIsPicked(rows, other, links, w);
      }
    }
    if PickFixed(rows, links) {
      PickedIsBest(rows, links);
    }
  }

  /**
   A skewed triple, whose preference is a cycle, so that the fold depends on row order: `x` descends from `y` but is
   older, and a fork `z` lies between them in time.
   */
  lemma PreferIsNotTransitive()
    ensures var links: Links := map[[1] := [2]];
      var x, y := RevisionOrder(1, 0, [1], Edited, [2]), RevisionOrder(3, 0, [2], Created, []);
      var z := RevisionOrder(2, 0, [3], Edited, []);
      && Skewed(links, x, y, z) && Prefer(x, y, links) && Prefer(y, z, links) && Prefer(z, x, links)
      && Pick([x, y, z], links) != Pick([y, z, x], links)
  {
    var links: Links := map[[1] := [2]];
    var x, y := RevisionOrder(1, 0, [1], Edited, [2]), RevisionOrder(3, 0, [2], Created, []);
    var z := RevisionOrder(2, 0, [3], Edited, []);
    assert Back(links, [1], 1) == [2];
    forall n: nat | n > 0 ensures Back(links, [2], n) == NONE && Back(links, [3], n) == NONE {
      BackEnds(links, [2], 1, n);
      BackEnds(links, [3], 1, n);
    }
    assert Back(links, [1], 1) != [3];
    forall n: nat | n > 0 ensures Back(links, [1], n) != [3] {
      BackAdds(links, [1], 1, n - 1);
    }
    PickThree(x, y, z, links);
    PickThree(y, z, x, links);
  }

  lemma PickThree(a: RevisionOrder, b: RevisionOrder, c: RevisionOrder, links: Links)
    ensures Pick([a, b, c], links) ==
      var best := if Prefer(b, a, links) then b else a;
      if Prefer(c, best, links) then c else best
  {
    hide Prefer;
    var abc, ab := [a, b, c], [a, b];
    assert abc[..2] == ab && ab[..1] == [a];
    assert Pick(ab, links) == if Prefer(b, a, links) then b else a;
    assert Pick(abc, links) == if Prefer(c, Pick(ab, links), links) then c else Pick(ab, links);
  }
}
