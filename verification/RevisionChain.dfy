/** Revisions of one message as a chain of predecessors that only grows at its tip. */
module RevisionChain {
  import opened ArchiveTables
  import opened Bytes
  import opened Ranking
  import opened RevisionGraph
  import opened Revisions
  import opened TextOrder
  import opened Wrappers

  /** The revision table. */
  type Revs = map<Id, Revision>

  /** `c` lists all revisions of message `m`, each the predecessor of the next, the first without one. */
  ghost predicate Chain(revs: Revs, m: Id, c: seq<Id>) {
    && Distinct(c)
    && (forall i :: 0 <= i < |c| ==> Linked(revs, m, c, i))
    && (forall e :: e in revs && revs[e].message == m ==> e in c)
  }

  ghost predicate Linked(revs: Revs, m: Id, c: seq<Id>, i: nat)
    requires i < |c|
  {
    && c[i] != NONE && c[i] in revs && revs[c[i]].id == c[i] && revs[c[i]].message == m
    && revs[c[i]].predecessor == if i == 0 then NONE else c[i - 1]
  }

  /** The links among the revisions of one message. */
  function LinksFor(revs: Revs, m: Id): Links {
    map e | e in revs && revs[e].message == m :: revs[e].predecessor
  }

  lemma {:induction false} ChainBack(revs: Revs, m: Id, c: seq<Id>, i: nat, n: nat)
    requires Chain(revs, m, c) && i < |c|
    ensures Back(LinksFor(revs, m), c[i], n) == if n <= i then c[i - n] else NONE
  {
    if n > 0 {
      ChainBack(revs, m, c, i, n - 1);
      if n - 1 <= i {
        assert Linked(revs, m, c, i - (n - 1));
      }
    }
  }

  /** Off the chain there are no links. */
  lemma {:induction false} OffChain(revs: Revs, m: Id, c: seq<Id>, e: Id, n: nat)
    requires Chain(revs, m, c) && e !in c && n > 0
    ensures Back(LinksFor(revs, m), e, n) == NONE
  {
    if n > 1 {
      OffChain(revs, m, c, e, n - 1);
    } else {
      assert Back(LinksFor(revs, m), e, 0) == e;
    }
  }

  lemma ChainAcyclic(revs: Revs, m: Id, c: seq<Id>)
    requires Chain(revs, m, c)
    ensures Acyclic(LinksFor(revs, m))
  {
    var links := LinksFor(revs, m);
    forall e: Id, n: nat | e != NONE && n > 0 ensures Back(links, e, n) != e {
      if e in c {
        var i :| 0 <= i < |c| && c[i] == e;
        ChainBack(revs, m, c, i, n);
      } else {
        OffChain(revs, m, c, e, n);
      }
    }
  }

  /** Later revisions of a chain descend from earlier ones. */
  lemma ChainDescends(revs: Revs, m: Id, c: seq<Id>, i: nat, j: nat)
    requires Chain(revs, m, c) && i < j < |c|
    ensures Descends(LinksFor(revs, m), c[j], c[i])
  {
    assert Linked(revs, m, c, i) && Linked(revs, m, c, j);
    ChainBack(revs, m, c, j, j - i);
  }

  // Finding the predecessor of a new revision.

  predicate HasPayload(revs: Revs, e: Id, target: Option<Payload>) {
    e in revs && (target.Some? ==> revs[e].payload == target.value)
  }

  /** Some revision of the message recorded just that. */
  ghost predicate HasRecord(revs: Revs, m: Id, payload: Payload) {
    exists e :: e in revs && revs[e].message == m && revs[e].payload == payload
  }

  /** The candidates among the revisions of a message, in any order. */
  ghost predicate Candidates(revs: Revs, m: Id, target: Option<Payload>, rows: seq<RevisionOrder>) {
    && (forall r :: r in rows ==> r.id in revs && revs[r.id].message == m && HasPayload(revs, r.id, target) && r == OrderOf(revs[r.id]))
    && (forall e :: e in revs && revs[e].message == m && HasPayload(revs, e, target) ==> OrderOf(revs[e]) in rows)
  }

  /** On a chain the preferred candidate is the last one. */
  lemma LastIsPicked(revs: Revs, m: Id, c: seq<Id>, target: Option<Payload>, rows: seq<RevisionOrder>, k: nat)
    requires Chain(revs, m, c) && Candidates(revs, m, target, rows)
    requires k < |c| && HasPayload(revs, c[k], target) && forall i :: k < i < |c| ==> !HasPayload(revs, c[i], target)
    ensures rows != [] && Pick(rows, LinksFor(revs, m)).id == c[k]
  {
    hide Pick, Acyclic, Descends;
    var links, t := LinksFor(revs, m), OrderOf(revs[c[k]]);
    assert Linked(revs, m, c, k);
    ChainAcyclic(revs, m, c);
    forall r | r in rows && r != t ensures Descends(links, t.id, r.id) {
      assert r.id in c;
      var i :| 0 <= i < |c| && c[i] == r.id;
      assert Linked(revs, m, c, i);
      ChainDescends(revs, m, c, i, k);
    }
    PickFindsTip(rows, links, t);
  }

  /** Revisions are stored under their ids. */
  ghost predicate IdsMatch(revs: Revs) {
    forall e :: e in revs ==> revs[e].id == e
  }

  /** The rows of one message with a given payload, as a query lists them. */
  method QueryRevisions(revs: Revs, m: Id, target: Option<Payload>) returns (rows: seq<RevisionOrder>)
    requires IdsMatch(revs)
    ensures Candidates(revs, m, target, rows)
  {
    rows := [];
    var todo := revs.Keys;
    while todo != {}
      invariant todo <= revs.Keys
      invariant forall r :: r in rows ==>
        r.id in revs && revs[r.id].message == m && HasPayload(revs, r.id, target) && r == OrderOf(revs[r.id])
      invariant forall e :: e in revs && e !in todo && revs[e].message == m && HasPayload(revs, e, target) ==> OrderOf(revs[e]) in rows
      decreases |todo|
    {
      var e :| e in todo;
      todo := todo - {e};
      if revs[e].message == m && HasPayload(revs, e, target) {
        rows := rows + [OrderOf(revs[e])];
      }
    }
  }

  /** Index of the last revision of a chain with the payload. */
  ghost function LastWith(revs: Revs, c: seq<Id>, target: Option<Payload>): (k: nat)
    requires exists i :: 0 <= i < |c| && HasPayload(revs, c[i], target)
    ensures k < |c| && HasPayload(revs, c[k], target) && forall i :: k < i < |c| ==> !HasPayload(revs, c[i], target)
    decreases |c|
  {
    if HasPayload(revs, c[|c| - 1], target) then |c| - 1
    else
      assert forall i :: 0 <= i < |c| - 1 ==> c[..|c| - 1][i] == c[i];
      LastWith(revs, c[..|c| - 1], target)
  }

  /** The revision a new one follows: the last with the stored row's payload, else the tip; NONE on an empty chain. */
  ghost function PredecessorOn(revs: Revs, c: seq<Id>, target: Option<Payload>): Id {
    if c == [] then NONE
    else if exists i :: 0 <= i < |c| && HasPayload(revs, c[i], target) then c[LastWith(revs, c, target)]
    else c[|c| - 1]
  }

  /** messageRevisionPredecessor, and whether the message has revisions; on a chain the choice is a place in it. */
  method MessageRevisionPredecessor(revs: Revs, m: Id, target: Option<Payload>)
    returns (tip: Option<RevisionOrder>, any: bool)
    requires IdsMatch(revs)
    ensures any == tip.Some? && (any <==> exists e :: e in revs && revs[e].message == m)
    ensures tip.Some? ==> RevisionOf(revs, m, tip.value)
    ensures target.Some? && HasRecord(revs, m, target.value) ==> tip.Some? && revs[tip.value.id].payload == target.value
    ensures forall c :: Chain(revs, m, c) ==>
      (tip.Some? <==> c != []) && (c != [] ==> tip.value.id == PredecessorOn(revs, c, target))
  {
    hide Pick, Candidates, LastWith, HasPayload, HasRecord, Chain, RevisionOf, IdsMatch, PredecessorOn;
    var links := LinksFor(revs, m);
    var all := QueryRevisions(revs, m, None);
    var rows := QueryRevisions(revs, m, target);
    CandidatesExist(revs, m, None, all);
    CandidatesExist(revs, m, target, rows);
    PayloadListed(revs, m, target, rows);
    forall c | Chain(revs, m, c)
      ensures (all != [] <==> c != []) && (rows != [] ==> c != [])
      ensures rows != [] ==> Pick(rows, links).id == PredecessorOn(revs, c, target)
      ensures rows == [] && all != [] ==> Pick(all, links).id == PredecessorOn(revs, c, target)
    {
      CandidatesOn(revs, m, c, None, all);
      CandidatesOn(revs, m, c, target, rows);
      ChosenOn(revs, c, target);
    }
    any := |all| > 0;
    if |rows| > 0 {
      CandidateOfAll(revs, m, target, rows, all);
      var t := PickTip(rows, links);
      return Some(t), any;
    }
    if |all| > 0 {
      var t := PickTip(all, links);
      return Some(t), any;
    }
    return None, any;
  }

  /** A stored revision of the message, as an order. */
  ghost predicate RevisionOf(revs: Revs, m: Id, o: RevisionOrder) {
    o.id in revs && revs[o.id].message == m && o == OrderOf(revs[o.id])
  }

  lemma CandidatesExist(revs: Revs, m: Id, target: Option<Payload>, rows: seq<RevisionOrder>)
    requires Candidates(revs, m, target, rows)
    ensures target.None? ==> (rows != [] <==> exists e :: e in revs && revs[e].message == m)
    ensures rows != [] ==> RevisionOf(revs, m, Pick(rows, LinksFor(revs, m)))
  {
    hide Pick;
    if rows != [] {
      PickIsMember(rows, LinksFor(revs, m));
      assert rows[0] in rows;
    }
    if e :| e in revs && revs[e].message == m && target.None? {
      assert HasPayload(revs, e, target);
    }
  }

  /** A revision with the payload is listed, and then the one picked has it. */
  lemma PayloadListed(revs: Revs, m: Id, target: Option<Payload>, rows: seq<RevisionOrder>)
    requires Candidates(revs, m, target, rows)
    ensures target.Some? && HasRecord(revs, m, target.value) ==> rows != []
    ensures rows != [] ==> Pick(rows, LinksFor(revs, m)).id in revs
    ensures rows != [] && target.Some? ==> revs[Pick(rows, LinksFor(revs, m)).id].payload == target.value
  {
    hide Pick;
    if rows != [] {
      PickIsMember(rows, LinksFor(revs, m));
    }
    if target.Some? && HasRecord(revs, m, target.value) {
      var e :| e in revs && revs[e].message == m && revs[e].payload == target.value;
      assert HasPayload(revs, e, target);
    }
  }

  lemma CandidateOfAll(revs: Revs, m: Id, target: Option<Payload>, rows: seq<RevisionOrder>, all: seq<RevisionOrder>)
    requires Candidates(revs, m, target, rows) && Candidates(revs, m, None, all) && rows != []
    ensures all != []
  {
    assert rows[0] in rows;
    assert HasPayload(revs, rows[0].id, None);
    assert OrderOf(revs[rows[0].id]) in all;
  }

  /** Without a revision that has the payload, the choice is the tip. */
  lemma ChosenOn(revs: Revs, c: seq<Id>, target: Option<Payload>)
    ensures c != [] && (forall i :: 0 <= i < |c| ==> !HasPayload(revs, c[i], target)) ==> PredecessorOn(revs, c, target) == c[|c| - 1]
  {
    hide HasPayload;
  }

  /** What a query over a chain yields, and what the fold over it picks. */
  lemma CandidatesOn(revs: Revs, m: Id, c: seq<Id>, target: Option<Payload>, rows: seq<RevisionOrder>)
    requires Chain(revs, m, c) && Candidates(revs, m, target, rows)
    ensures rows != [] <==> exists i :: 0 <= i < |c| && HasPayload(revs, c[i], target)
    ensures rows != [] ==> c != [] && Pick(rows, LinksFor(revs, m)).id == PredecessorOn(revs, c, target)
    ensures target.None? ==> (rows != [] <==> c != []) && (c != [] ==> PredecessorOn(revs, c, target) == c[|c| - 1])
  {
    hide Pick;
    forall i | 0 <= i < |c| ensures Linked(revs, m, c, i) {
    }
    if i :| 0 <= i < |c| && HasPayload(revs, c[i], target) {
      assert Linked(revs, m, c, i);
      assert OrderOf(revs[c[i]]) in rows;
      LastIsPicked(revs, m, c, target, rows, LastWith(revs, c, target));
    }
    if rows != [] {
      assert rows[0] in rows;
      var i :| 0 <= i < |c| && c[i] == rows[0].id;
    }
    if target.None? && c != [] {
      assert Linked(revs, m, c, |c| - 1);
      assert HasPayload(revs, c[|c| - 1], target);
    }
  }

  // Appending.

  /** The new revision of message `m`, after `predecessor`. */
  function NewRevision(hash: Hash, m: Id, eventType: EventType, eventAt: Time, observedAt: Time, payload: Payload, predecessor: Id):
    (r: Revision)
    ensures Hashed(hash, r)
  {
    Revision(hash(m, eventType, eventAt, payload, predecessor), m, eventType, eventAt, observedAt, payload, predecessor)
  }

  /** insertMessageRevision: an id that exists already is left alone. */
  function InsertRevision(revs: Revs, r: Revision): Revs {
    if r.id in revs then revs else revs[r.id := r]
  }

  ghost predicate AllHashed(revs: Revs, hash: Hash) {
    forall e :: e in revs ==> revs[e].id == e && Hashed(hash, revs[e])
  }

  /** Revisions are only ever added. */
  ghost predicate Kept(before: Revs, after: Revs) {
    forall e :: e in before ==> e in after && after[e] == before[e]
  }

  lemma KeptSelf(a: Revs)
    ensures Kept(a, a)
  {
  }

  lemma KeptTransitive(a: Revs, b: Revs, c: Revs)
    requires Kept(a, b) && Kept(b, c)
    ensures Kept(a, c)
  {
  }

  lemma InsertKeeps(revs: Revs, r: Revision)
    requires IdsMatch(revs)
    ensures Kept(revs, InsertRevision(revs, r)) && IdsMatch(InsertRevision(revs, r))
  {
  }

  /** The revision of a chain at index `i` does not follow the tip. */
  lemma TipHasNoSuccessor(revs: Revs, m: Id, c: seq<Id>, i: nat)
    requires Chain(revs, m, c) && i < |c|
    ensures c[i] in revs && revs[c[i]].predecessor != c[|c| - 1]
  {
    assert Linked(revs, m, c, i) && Linked(revs, m, c, |c| - 1);
    assert i > 0 ==> c[i - 1] != c[|c| - 1];
  }

  lemma NotStored(revs: Revs, hash: Hash, m: Id, c: seq<Id>, r: Revision, e: Id)
    requires Injective(hash) && AllHashed(revs, hash) && Chain(revs, m, c) && e in revs
    requires Hashed(hash, r) && r.message == m && r.predecessor == if c == [] then NONE else c[|c| - 1]
    ensures e != r.id
  {
    hide Chain;
    var s := revs[e];
    assert e == HashWith(hash, s, s.message, s.predecessor) && r.id == HashWith(hash, r, m, r.predecessor);
    if s.message == m {
      MemberOf(revs, m, c, e);
      var i :| 0 <= i < |c| && c[i] == e;
      TipHasNoSuccessor(revs, m, c, i);
    }
  }

  lemma MemberOf(revs: Revs, m: Id, c: seq<Id>, e: Id)
    requires Chain(revs, m, c) && e in revs && revs[e].message == m
    ensures e in c && c != []
  {
  }

  /** A revision after the tip is new, and extends the chain of its message only. */
  lemma AppendExtends(revs: Revs, hash: Hash, m: Id, c: seq<Id>, r: Revision)
    requires Injective(hash) && AllHashed(revs, hash) && Chain(revs, m, c)
    requires Hashed(hash, r) && r.message == m && r.predecessor == if c == [] then NONE else c[|c| - 1]
    ensures r.id !in revs && AllHashed(InsertRevision(revs, r), hash) && Chain(InsertRevision(revs, r), m, c + [r.id])
  {
    hide HashWith;
    forall e | e in revs ensures e != r.id {
      NotStored(revs, hash, m, c, r, e);
    }
    var d, revs' := c + [r.id], InsertRevision(revs, r);
    forall i | 0 <= i < |c| ensures c[i] in revs {
      assert Linked(revs, m, c, i);
    }
    assert r.id != NONE by {
      HashesExist(hash, r);
    }
    forall i | 0 <= i < |d| ensures Linked(revs', m, d, i) {
      assert i < |c| ==> Linked(revs, m, c, i);
    }
  }

  lemma HashesExist(hash: Hash, r: Revision)
    requires Injective(hash) && Hashed(hash, r)
    ensures r.id != NONE
  {
  }

  lemma AppendKeepsOthers(revs: Revs, m: Id, c: seq<Id>, r: Revision)
    requires Chain(revs, m, c) && r.message != m && r.id !in revs
    ensures Chain(InsertRevision(revs, r), m, c)
  {
    var revs' := InsertRevision(revs, r);
    forall i | 0 <= i < |c| ensures Linked(revs', m, c, i) {
      assert Linked(revs, m, c, i);
    }
  }
}
