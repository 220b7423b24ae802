/** Renaming the revisions of messages that a merge identifies with stored ones. */
module RevisionRemap {
  import opened Bytes
  import opened RevisionGraph
  import opened Revisions
  import opened TextOrder

  /** Revisions by id. */
  type History = map<Id, Revision>

  function LinksOf(h: History): Links {
    map e | e in h :: h[e].predecessor
  }

  /** Ids are content hashes, links stay inside one message and the history, and there is no cycle. */
  ghost predicate Sound(h: History, hash: Hash) {
    && Injective(hash) && Acyclic(LinksOf(h))
    && (forall e :: e in h ==> e != NONE && e == h[e].id && Hashed(hash, h[e]))
    && (forall e :: e in h && h[e].predecessor != NONE ==> h[e].predecessor in h && h[h[e].predecessor].message == h[e].message)
  }

  function Alias(aliases: map<Id, Id>, message: Id): Id {
    if message in aliases then aliases[message] else message
  }

  /** No two messages of the history end up under one id. */
  ghost predicate AliasesInjective(h: History, aliases: map<Id, Id>) {
    forall e, f :: e in h && f in h && Alias(aliases, h[e].message) == Alias(aliases, h[f].message) ==>
      h[e].message == h[f].message
  }

  /** remapRevisionID without its memo: `visiting` guards against cycles. */
  function Remap(h: History, aliases: map<Id, Id>, hash: Hash, e: Id, visiting: set<Id>): Id
    decreases |h.Keys - visiting|
  {
    if e == NONE || e !in h || e in visiting then e
    else if h[e].message !in aliases then e
    else
      assert h.Keys - (visiting + {e}) < h.Keys - visiting;
      Smaller(h.Keys - (visiting + {e}), h.Keys - visiting);
      HashWith(hash, h[e], aliases[h[e].message], Remap(h, aliases, hash, h[e].predecessor, visiting + {e}))
  }

  lemma Smaller(a: set<Id>, b: set<Id>)
    requires a < b
    ensures |a| < |b|
  {
    assert b == a + (b - a);
  }

  /** The new id of a revision. */
  function NewId(h: History, aliases: map<Id, Id>, hash: Hash, e: Id): Id {
    Remap(h, aliases, hash, e, {})
  }

  /** In an acyclic history the guard never matters below revisions already being visited. */
  ghost predicate AboveAll(h: History, e: Id, visiting: set<Id>) {
    forall n: nat :: Back(LinksOf(h), e, n) !in visiting
  }

  lemma {:induction false} GuardIrrelevant(h: History, aliases: map<Id, Id>, hash: Hash, e: Id, visiting: set<Id>, other: set<Id>)
    requires Acyclic(LinksOf(h)) && AboveAll(h, e, visiting) && AboveAll(h, e, other)
    ensures Remap(h, aliases, hash, e, visiting) == Remap(h, aliases, hash, e, other)
    decreases |h.Keys - visiting|
  {
    hide HashWith, Acyclic;
    assert Back(LinksOf(h), e, 0) == e;
    if e != NONE && e in h && h[e].message in aliases {
      assert h.Keys - (visiting + {e}) < h.Keys - visiting;
      Smaller(h.Keys - (visiting + {e}), h.Keys - visiting);
      StillAbove(h, e, visiting);
      StillAbove(h, e, other);
      GuardIrrelevant(h, aliases, hash, h[e].predecessor, visiting + {e}, other + {e});
    }
  }

  lemma StillAbove(h: History, e: Id, visiting: set<Id>)
    requires Acyclic(LinksOf(h)) && e != NONE && e in h && AboveAll(h, e, visiting)
    ensures AboveAll(h, h[e].predecessor, visiting + {e})
  {
    var links := LinksOf(h);
    assert Back(links, e, 1) == h[e].predecessor;
    forall n: nat ensures Back(links, h[e].predecessor, n) !in visiting + {e} {
      BackAdds(links, e, 1, n);
    }
  }

  /** The new id is a hash over the message's new id and the predecessor's new id. */
  lemma NewIdStep(h: History, aliases: map<Id, Id>, hash: Hash, e: Id)
    requires Acyclic(LinksOf(h)) && e != NONE && e in h && h[e].message in aliases
    ensures NewId(h, aliases, hash, e) ==
      HashWith(hash, h[e], aliases[h[e].message], NewId(h, aliases, hash, h[e].predecessor))
  {
    hide HashWith, Acyclic;
    StillAbove(h, e, {});
    assert {} + {e} == {e};
    GuardIrrelevant(h, aliases, hash, h[e].predecessor, {e}, {});
  }

  // The memoised recursion.

  /** Entries of the memo are final ids. */
  ghost predicate Memo(h: History, aliases: map<Id, Id>, hash: Hash, memo: map<Id, Id>) {
    forall e :: e in memo ==> e != NONE && e in h && memo[e] == NewId(h, aliases, hash, e)
  }

  /** Terminates on every history; on acyclic ones it computes the new id. */
  method RemapRevisionID(h: History, aliases: map<Id, Id>, hash: Hash, e: Id, memo: map<Id, Id>, visiting: set<Id>)
    returns (r: Id, memo': map<Id, Id>)
    ensures Acyclic(LinksOf(h)) && AboveAll(h, e, visiting) && Memo(h, aliases, hash, memo) ==>
      r == NewId(h, aliases, hash, e) && Memo(h, aliases, hash, memo')
    decreases |h.Keys - visiting|
  {
    hide HashWith, Acyclic, Remap;
    if e == NONE {
      NothingToRemap(h, aliases, hash, e);
      return NONE, memo;
    }
    if e in memo {
      return memo[e], memo;
    }
    if e !in h || e in visiting {
      assert Back(LinksOf(h), e, 0) == e;
      NothingToRemap(h, aliases, hash, e);
      return e, memo;
    }
    if h[e].message !in aliases {
      NothingToRemap(h, aliases, hash, e);
      return e, memo[e := e];
    }
    assert h.Keys - (visiting + {e}) < h.Keys - visiting;
    Smaller(h.Keys - (visiting + {e}), h.Keys - visiting);
    if Acyclic(LinksOf(h)) && AboveAll(h, e, visiting) {
      StillAbove(h, e, visiting);
      NewIdStep(h, aliases, hash, e);
    }
    var predecessor;
    predecessor, memo' := RemapRevisionID(h, aliases, hash, h[e].predecessor, memo, visiting + {e});
    r := HashWith(hash, h[e], aliases[h[e].message], predecessor);
    memo' := memo'[e := r];
  }

  lemma NothingToRemap(h: History, aliases: map<Id, Id>, hash: Hash, e: Id)
    ensures e == NONE || e !in h || h[e].message !in aliases ==> NewId(h, aliases, hash, e) == e
  {
  }

  /** A revision of an aliased message moves to the alias, with its links; others stay. */
  function Remapped(h: History, aliases: map<Id, Id>, hash: Hash, r: Revision): Revision {
    if r.message !in aliases then r
    else
      r.(message := aliases[r.message], predecessor := NewId(h, aliases, hash, r.predecessor), id := NewId(h, aliases, hash, r.id))
  }

  method RemapRevisions(h: History, aliases: map<Id, Id>, hash: Hash, revisions: seq<Revision>) returns (out: seq<Revision>)
    ensures |out| == |revisions|
    ensures Acyclic(LinksOf(h)) ==> forall i :: 0 <= i < |out| ==> out[i] == Remapped(h, aliases, hash, revisions[i])
  {
    hide NewId, Acyclic;
    out := [];
    var memo: map<Id, Id> := map[];
    for i := 0 to |revisions|
      invariant |out| == i
      invariant Acyclic(LinksOf(h)) ==> Memo(h, aliases, hash, memo)
      invariant Acyclic(LinksOf(h)) ==> forall j :: 0 <= j < i ==> out[j] == Remapped(h, aliases, hash, revisions[j])
    {
      var r := revisions[i];
      if r.message in aliases {
        var predecessor, id;
        predecessor, memo := RemapRevisionID(h, aliases, hash, r.predecessor, memo, {});
        id, memo := RemapRevisionID(h, aliases, hash, r.id, memo, {});
        r := r.(message := aliases[r.message], predecessor := predecessor, id := id);
      }
      out := out + [r];
    }
  }

  // The homomorphism.

  /** Every link of the remapped history names the remapped parent. */
  lemma LinkNamesParent(h: History, aliases: map<Id, Id>, hash: Hash, e: Id)
    requires Sound(h, hash) && e in h
    ensures var r := Remapped(h, aliases, hash, h[e]);
      r.id == NewId(h, aliases, hash, e) && r.predecessor == NewId(h, aliases, hash, h[e].predecessor)
  {
    hide NewId;
    NothingToRemap(h, aliases, hash, e);
    NothingToRemap(h, aliases, hash, h[e].predecessor);
  }

  /** How many links back from `e` the history goes. */
  lemma {:induction false} HistoryEnds(h: History, e: Id, met: set<Id>)
    requires Acyclic(LinksOf(h)) && AboveAll(h, e, met) && met <= h.Keys
    requires forall f :: f in h ==> f != NONE
    ensures exists n: nat :: Back(LinksOf(h), e, n) !in h
    decreases |h.Keys - met|
  {
    hide Acyclic;
    var links := LinksOf(h);
    assert Back(links, e, 0) == e;
    if e in h {
      StillAbove(h, e, met);
      assert h.Keys - (met + {e}) < h.Keys - met;
      Smaller(h.Keys - (met + {e}), h.Keys - met);
      HistoryEnds(h, h[e].predecessor, met + {e});
      var n: nat :| Back(links, h[e].predecessor, n) !in h;
      assert Back(links, e, 1) == h[e].predecessor;
      BackAdds(links, e, 1, n);
    }
  }

  /** Distinct revisions keep distinct ids. */
  lemma {:induction false} NewIdInjective(h: History, aliases: map<Id, Id>, hash: Hash, e: Id, f: Id, n: nat)
    requires Sound(h, hash) && AliasesInjective(h, aliases)
    requires (e in h || e == NONE) && (f in h || f == NONE)
    requires Back(LinksOf(h), e, n) !in h
    requires NewId(h, aliases, hash, e) == NewId(h, aliases, hash, f)
    ensures e == f
    decreases n
  {
    hide NewId, Back, Acyclic;
    NewIdHash(h, aliases, hash, e);
    NewIdHash(h, aliases, hash, f);
    if e in h && f in h {
      EndsSooner(h, e, n);
      NewIdInjective(h, aliases, hash, h[e].predecessor, h[f].predecessor, n - 1);
    }
  }

  lemma EndsSooner(h: History, e: Id, n: nat)
    requires e in h && e != NONE && Back(LinksOf(h), e, n) !in h
    ensures n > 0 && Back(LinksOf(h), h[e].predecessor, n - 1) !in h
  {
    var links := LinksOf(h);
    assert Back(links, e, 0) == e;
    assert Back(links, e, 1) == Parent(links, Back(links, e, 0)) == h[e].predecessor;
    BackAdds(links, e, 1, n - 1);
  }

  /** Aliased or not, a new id is the hash of the aliased message and the predecessor's new id. */
  lemma NewIdHash(h: History, aliases: map<Id, Id>, hash: Hash, e: Id)
    requires Sound(h, hash) && (e in h || e == NONE)
    ensures e == NONE ==> NewId(h, aliases, hash, e) == NONE
    ensures var p := if e in h then NewId(h, aliases, hash, h[e].predecessor) else NONE;
      e in h ==> NewId(h, aliases, hash, e) == HashWith(hash, h[e], Alias(aliases, h[e].message), p)
    ensures e in h ==> NewId(h, aliases, hash, e) != NONE
  {
    hide NewId, Acyclic;
    NothingToRemap(h, aliases, hash, e);
    if e in h {
      if h[e].message in aliases {
        NewIdStep(h, aliases, hash, e);
      } else {
        NothingToRemap(h, aliases, hash, h[e].predecessor);
      }
    }
  }

  /** The links of the remapped history. */
  ghost predicate RemappedLinks(h: History, aliases: map<Id, Id>, hash: Hash, links: Links) {
    && links.Keys == (set e | e in h :: NewId(h, aliases, hash, e))
    && forall e :: e in h ==> links[NewId(h, aliases, hash, e)] == NewId(h, aliases, hash, h[e].predecessor)
  }

  lemma ParentCommutes(h: History, aliases: map<Id, Id>, hash: Hash, links: Links, b: Id)
    requires Sound(h, hash) && RemappedLinks(h, aliases, hash, links) && (b in h || b == NONE)
    ensures var p := Parent(LinksOf(h), b);
      (p in h || p == NONE) && Parent(links, NewId(h, aliases, hash, b)) == NewId(h, aliases, hash, p)
  {
    hide NewId, Acyclic, Injective, HashWith;
    NewIdHash(h, aliases, hash, b);
    NewIdHash(h, aliases, hash, NONE);
  }

  lemma {:induction false} BackCommutes(h: History, aliases: map<Id, Id>, hash: Hash, links: Links, e: Id, n: nat)
    requires Sound(h, hash) && RemappedLinks(h, aliases, hash, links) && (e in h || e == NONE)
    ensures var b := Back(LinksOf(h), e, n);
      (b in h || b == NONE) && Back(links, NewId(h, aliases, hash, e), n) == NewId(h, aliases, hash, b)
  {
    hide NewId, Sound, Parent, RemappedLinks;
    if n > 0 {
      BackCommutes(h, aliases, hash, links, e, n - 1);
      ParentCommutes(h, aliases, hash, links, Back(LinksOf(h), e, n - 1));
    }
  }

  /**
   Remapping is a graph homomorphism that preserves ancestry in both directions, when predecessors stay inside one message,
   aliases are injective and ids are content hashes.
   */
  lemma RemapPreservesAncestry(h: History, aliases: map<Id, Id>, hash: Hash, links: Links, e: Id, a: Id)
    requires Sound(h, hash) && AliasesInjective(h, aliases) && RemappedLinks(h, aliases, hash, links) && e in h && a in h
    ensures Descends(links, NewId(h, aliases, hash, e), NewId(h, aliases, hash, a)) <==> Descends(LinksOf(h), e, a)
    ensures NewId(h, aliases, hash, e) == NewId(h, aliases, hash, a) <==> e == a
  {
    hide NewId, Acyclic, Back;
    NewIdHash(h, aliases, hash, e);
    NewIdHash(h, aliases, hash, a);
    Separate(h, aliases, hash, e, a);
    forall n: nat
      ensures Back(links, NewId(h, aliases, hash, e), n) == NewId(h, aliases, hash, a) <==> Back(LinksOf(h), e, n) == a
    {
      BackCommutes(h, aliases, hash, links, e, n);
      Separate(h, aliases, hash, Back(LinksOf(h), e, n), a);
    }
  }

  lemma Separate(h: History, aliases: map<Id, Id>, hash: Hash, e: Id, f: Id)
    requires Sound(h, hash) && AliasesInjective(h, aliases) && (e in h || e == NONE) && (f in h || f == NONE)
    ensures NewId(h, aliases, hash, e) == NewId(h, aliases, hash, f) <==> e == f
  {
    hide NewId, Acyclic, Back;
    if NewId(h, aliases, hash, e) == NewId(h, aliases, hash, f) {
      HistoryEnds(h, e, {});
      var n: nat :| Back(LinksOf(h), e, n) !in h;
      NewIdInjective(h, aliases, hash, e, f, n);
    }
  }
}
