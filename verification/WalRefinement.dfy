/**
 One-pass replay against the reference semantics of a log: run the committed transactions one
 at a time, each resizing the encrypted image and then writing its pages.
 */
module WalRefinement {
  import opened Bytes
  import opened Pages
  import opened Sqlcipher
  import opened Wal
  import opened Wrappers

  function ZeroPages(n: nat, ps: nat): (r: seq<Page>)
    ensures |r| == n && Sized(r, ps)
    ensures forall i :: 0 <= i < n ==> r[i] == Zeros(ps)
  {
    if n == 0 then [] else ZeroPages(n - 1, ps) + [Zeros(ps)]
  }

  /** The image cut to `n` pages, or extended with zero pages. */
  function Resize(pages: seq<Page>, n: nat, ps: nat): (r: seq<Page>)
    ensures |r| == n
    ensures Sized(pages, ps) ==> Sized(r, ps)
  {
    if n <= |pages| then pages[..n] else pages + ZeroPages(n - |pages|, ps)
  }

  function WriteAll(pages: seq<Page>, writes: seq<Write>): (r: seq<Page>)
    ensures |r| == |pages|
  {
    if writes == [] then pages
    else
      var k := |writes| - 1;
      var before := WriteAll(pages, writes[..k]);
      if 0 < writes[k].pageNo <= |pages| then before[writes[k].pageNo - 1 := writes[k].page] else before
  }

  function ApplyTxn(pages: seq<Page>, t: Txn, ps: nat): seq<Page> {
    WriteAll(Resize(pages, t.pages, ps), t.writes)
  }

  /** The reference semantics: the database after each transaction in turn. */
  function RunTxns(pages: seq<Page>, txns: seq<Txn>, ps: nat): seq<Page> {
    if txns == [] then pages
    else ApplyTxn(RunTxns(pages, txns[..|txns| - 1], ps), txns[|txns| - 1], ps)
  }

  function SizeAfter(size: nat, txns: seq<Txn>): nat {
    if txns == [] then size else txns[|txns| - 1].pages
  }

  /** The last write to page `p`, if any. */
  function LastWrite(writes: seq<Write>, p: nat): Option<Page> {
    if writes == [] then None
    else if writes[|writes| - 1].pageNo == p then Some(writes[|writes| - 1].page)
    else LastWrite(writes[..|writes| - 1], p)
  }

  lemma {:induction false} LastWriteConcat(a: seq<Write>, b: seq<Write>, p: nat)
    ensures LastWrite(a + b, p) == if LastWrite(b, p).Some? then LastWrite(b, p) else LastWrite(a, p)
  {
    if b == [] {
      assert a + b == a;
    } else {
      var k := |b| - 1;
      assert (a + b)[..|a + b| - 1] == a + b[..k];
      LastWriteConcat(a, b[..k], p);
    }
  }

  lemma {:induction false} LastWriteHit(writes: seq<Write>, i: nat)
    requires i < |writes|
    ensures LastWrite(writes, writes[i].pageNo).Some?
  {
    if i < |writes| - 1 {
      LastWriteHit(writes[..|writes| - 1], i);
    }
  }

  lemma {:induction false} LastWriteFrom(writes: seq<Write>, p: nat) returns (i: nat)
    requires LastWrite(writes, p).Some?
    ensures i < |writes| && writes[i].pageNo == p && writes[i].page == LastWrite(writes, p).value
  {
    i := |writes| - 1;
    if writes[i].pageNo != p {
      i := LastWriteFrom(writes[..i], p);
    }
  }

  /** Writing leaves each page with its last write, or as it was. */
  lemma {:induction false} WriteAllAt(pages: seq<Page>, writes: seq<Write>, i: nat)
    requires i < |pages|
    ensures WriteAll(pages, writes)[i] ==
      if LastWrite(writes, i + 1).Some? then LastWrite(writes, i + 1).value else pages[i]
  {
    if writes != [] {
      WriteAllAt(pages, writes[..|writes| - 1], i);
    }
  }

  /** Every page between the old and the new size is written, except possibly the page `lock`. */
  ghost predicate Grown(size: nat, t: Txn, lock: nat) {
    forall p :: size < p <= t.pages && p != lock ==> LastWrite(t.writes, p).Some?
  }

  /** Every growing transaction writes every page it adds. */
  ghost predicate GrowsFully(size: nat, txns: seq<Txn>, lock: nat) {
    txns != [] ==>
      var k := |txns| - 1;
      GrowsFully(size, txns[..k], lock) && Grown(SizeAfter(size, txns[..k]), txns[k], lock)
  }

  /** SQLite never stores anything in the lock-byte page. */
  ghost predicate LockUnused(pages: seq<Page>, txns: seq<Txn>, lock: nat, ps: nat) {
    && (0 < lock <= |pages| ==> pages[lock - 1] == Zeros(ps))
    && LastWrite(AllWrites(txns), lock).None?
  }

  lemma {:induction false} RunTxnsSize(pages: seq<Page>, txns: seq<Txn>, ps: nat)
    ensures |RunTxns(pages, txns, ps)| == SizeAfter(|pages|, txns)
  {
  }

  /** What a page holds after `writes`, starting from `pages` extended with zeros. */
  function PageAfter(pages: seq<Page>, writes: seq<Write>, i: nat, ps: nat): Page {
    if LastWrite(writes, i + 1).Some? then LastWrite(writes, i + 1).value
    else if i < |pages| then pages[i]
    else Zeros(ps)
  }

  lemma ApplyTxnAt(pages: seq<Page>, t: Txn, i: nat, ps: nat)
    requires i < t.pages
    ensures ApplyTxn(pages, t, ps)[i] == PageAfter(pages, t.writes, i, ps)
  {
    WriteAllAt(Resize(pages, t.pages, ps), t.writes, i);
  }

  /** Page `p` lay outside the file at some commit after its last write, or was never in the file. */
  ghost predicate Lost(size: nat, txns: seq<Txn>, p: nat) {
    && txns != []
    && var k := |txns| - 1;
      LastWrite(txns[k].writes, p).None? && (p > SizeAfter(size, txns[..k]) || Lost(size, txns[..k], p))
  }

  /** Running transactions one at a time leaves a lost page zero, and any other with its last write in the whole log. */
  lemma {:induction false} RunTxnsAt(pages: seq<Page>, txns: seq<Txn>, ps: nat, i: nat)
    requires i < SizeAfter(|pages|, txns)
    ensures |RunTxns(pages, txns, ps)| == SizeAfter(|pages|, txns)
    ensures RunTxns(pages, txns, ps)[i] ==
      if Lost(|pages|, txns, i + 1) then Zeros(ps) else PageAfter(pages, AllWrites(txns), i, ps)
  {
    RunTxnsSize(pages, txns, ps);
    if txns != [] {
      var k := |txns| - 1;
      var init, t := txns[..k], txns[k];
      var before := RunTxns(pages, init, ps);
      RunTxnsSize(pages, init, ps);
      ApplyTxnAt(before, t, i, ps);
      LastWriteConcat(AllWrites(init), t.writes, i + 1);
      if i < |before| {
        RunTxnsAt(pages, init, ps, i);
      }
    }
  }

  /** No page of the final file that was lost has anything for one pass to bring back. */
  ghost predicate NothingRevived(pages: seq<Page>, txns: seq<Txn>, ps: nat) {
    forall i :: 0 <= i < SizeAfter(|pages|, txns) && Lost(|pages|, txns, i + 1) ==>
      PageAfter(pages, AllWrites(txns), i, ps) == Zeros(ps)
  }

  /**
   One pass over all committed writes, on an image already resized to the last page count, gives what running the
   transactions one at a time gives exactly when no lost page has an older version that is not zero.
   */
  lemma OnePassExact(pages: seq<Page>, txns: seq<Txn>, ps: nat)
    ensures WriteAll(Resize(pages, SizeAfter(|pages|, txns), ps), AllWrites(txns)) == RunTxns(pages, txns, ps) <==>
      NothingRevived(pages, txns, ps)
  {
    var n := SizeAfter(|pages|, txns);
    var onePass, run := WriteAll(Resize(pages, n, ps), AllWrites(txns)), RunTxns(pages, txns, ps);
    RunTxnsSize(pages, txns, ps);
    forall i | 0 <= i < n
      ensures onePass[i] == PageAfter(pages, AllWrites(txns), i, ps)
      ensures run[i] == if Lost(|pages|, txns, i + 1) then Zeros(ps) else PageAfter(pages, AllWrites(txns), i, ps)
    {
      WriteAllAt(Resize(pages, n, ps), AllWrites(txns), i);
      RunTxnsAt(pages, txns, ps, i);
    }
    if NothingRevived(pages, txns, ps) {
      forall i | 0 <= i < n ensures onePass[i] == run[i] {
      }
    }
  }

  /** When every growing transaction writes the pages it adds, only the lock page can be lost. */
  lemma {:induction false} LostIsLock(size: nat, txns: seq<Txn>, lock: nat, p: nat)
    requires GrowsFully(size, txns, lock) && p <= SizeAfter(size, txns) && Lost(size, txns, p)
    ensures p == lock
  {
    var k := |txns| - 1;
    if p <= SizeAfter(size, txns[..k]) {
      LostIsLock(size, txns[..k], lock, p);
    }
  }

  /** What SQLite guarantees of a log is enough. */
  lemma OnePassRefinesTransactions(pages: seq<Page>, txns: seq<Txn>, lock: nat, ps: nat)
    requires GrowsFully(|pages|, txns, lock) && LockUnused(pages, txns, lock, ps)
    ensures WriteAll(Resize(pages, SizeAfter(|pages|, txns), ps), AllWrites(txns)) == RunTxns(pages, txns, ps)
  {
    hide Lost, RunTxns, GrowsFully, WriteAll, Resize;
    forall i | 0 <= i < SizeAfter(|pages|, txns) && Lost(|pages|, txns, i + 1)
      ensures PageAfter(pages, AllWrites(txns), i, ps) == Zeros(ps)
    {
      LostIsLock(|pages|, txns, lock, i + 1);
    }
    OnePassExact(pages, txns, ps);
  }

  // The page-count bound.

  function PagesWritten(writes: seq<Write>): set<nat> {
    set i | 0 <= i < |writes| :: writes[i].pageNo
  }

  lemma {:induction false} PagesWrittenCount(writes: seq<Write>)
    ensures |PagesWritten(writes)| <= |writes|
  {
    if writes != [] {
      var k := |writes| - 1;
      PagesWrittenCount(writes[..k]);
      assert PagesWritten(writes) == PagesWritten(writes[..k]) + {writes[k].pageNo};
    }
  }

  function Range(a: nat, b: nat): set<nat> {
    if a >= b then {} else Range(a, b - 1) + {b}
  }

  lemma {:induction false} RangeCount(a: nat, b: nat)
    requires a <= b
    ensures |Range(a, b)| == b - a
    ensures forall p :: p in Range(a, b) <==> a < p <= b
  {
    if a < b {
      RangeCount(a, b - 1);
    }
  }

  /** The pages up to `size` that can hold data. */
  function DataPages(size: nat, lock: nat): int {
    if size >= lock then size - 1 else size
  }

  lemma SubsetCount<T>(a: set<T>, b: set<T>)
    requires a <= b
    ensures |a| <= |b|
  {
    assert |b| == |a| + |b - a| by {
      assert b == a + (b - a);
    }
  }

  lemma GrowthCount(size: nat, t: Txn, lock: nat)
    requires Grown(size, t, lock)
    ensures DataPages(t.pages, lock) <= DataPages(size, lock) + |t.writes|
  {
    if size < t.pages {
      var added := Range(size, t.pages) - {lock};
      RangeCount(size, t.pages);
      forall p | p in added ensures p in PagesWritten(t.writes) {
        var i := LastWriteFrom(t.writes, p);
      }
      SubsetCount(added, PagesWritten(t.writes));
      PagesWrittenCount(t.writes);
      if lock in Range(size, t.pages) {
        assert Range(size, t.pages) == added + {lock};
      } else {
        assert Range(size, t.pages) == added;
      }
    }
  }

  lemma {:induction false} TotalGrowth(size: nat, txns: seq<Txn>, lock: nat)
    requires GrowsFully(size, txns, lock)
    ensures DataPages(SizeAfter(size, txns), lock) <= DataPages(size, lock) + |AllWrites(txns)|
  {
    if txns != [] {
      var k := |txns| - 1;
      TotalGrowth(size, txns[..k], lock);
      GrowthCount(SizeAfter(size, txns[..k]), txns[k], lock);
    }
  }

  /** A log whose growing transactions write what they add never exceeds the replay's page bound. */
  lemma BoundNeverRejects(size: nat, txns: seq<Txn>, lock: nat)
    requires GrowsFully(size, txns, lock) && txns != []
    ensures SizeAfter(size, txns) <= size + |AllWrites(txns)| + 1
  {
    TotalGrowth(size, txns, lock);
  }

  /**
   The growth condition matters: a shrink followed by a regrow that leaves the regrown page
   unwritten makes one-pass replay keep the old page where the transactions leave zeros.
   */
  lemma UnwrittenRegrowthDiffers(a: Page, b: Page, ps: nat)
    requires |a| == |b| == ps && b != Zeros(ps)
    ensures var pages, txns := [a, b], [Txn([Write(1, a)], 1), Txn([Write(1, a)], 2)];
      && !GrowsFully(|pages|, txns, 3)
      && WriteAll(Resize(pages, 2, ps), AllWrites(txns)) != RunTxns(pages, txns, ps)
  {
    hide WriteAll, Resize, RunTxns;
    var pages, t1, t2 := [a, b], Txn([Write(1, a)], 1), Txn([Write(1, a)], 2);
    var txns := [t1, t2];
    assert txns[..1] == [t1];
    OneWrite(a);
    assert !Grown(1, t2, 3);
    LastWriteConcat(t1.writes, t2.writes, 2);
    assert AllWrites(txns) == t1.writes + t2.writes by {
      AllWritesSnoc([t1], t2);
      AllWritesSnoc([], t1);
      assert [t1] + [t2] == txns && [] + [t1] == [t1];
    }
    assert Lost(2, txns, 1 + 1) && PageAfter(pages, AllWrites(txns), 1, ps) == b;
    OnePassExact(pages, txns, ps);
  }

  lemma OneWrite(a: Page)
    ensures LastWrite([Write(1, a)], 2).None?
  {
    assert [Write(1, a)][..0] == [];
  }
}
