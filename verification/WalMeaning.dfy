/**
 What opening an encrypted database with its log means: decrypting and replaying the bytes
 gives the decryption of the image that the committed transactions leave one at a time.
 */
module WalMeaning {
  import opened Bytes
  import opened Pages
  import opened Sqlcipher
  import opened Wal
  import opened WalRefinement
  import opened Wrappers

  /** openDecryptedDB up to handing the image to SQLite. */
  function OpenDecrypted(suite: seq<byte> -> Cipher, main: seq<byte>, wal: seq<byte>, key: seq<byte>): Result<seq<byte>, Error> {
    var plain :- DecryptImage(suite, main, key);
    Replay(suite, plain, wal, key)
  }

  lemma {:induction false} FlattenZeroPages(n: nat, ps: nat)
    ensures Flatten(ZeroPages(n, ps)) == Zeros(Offset(n, ps))
  {
    if n > 0 {
      FlattenZeroPages(n - 1, ps);
      FlattenSnoc(ZeroPages(n - 1, ps), Zeros(ps));
    }
  }

  lemma FlattenResize(pages: seq<Page>, n: nat, ps: nat)
    requires Sized(pages, ps)
    ensures Flatten(Resize(pages, n, ps)) == Padded(Flatten(pages), Offset(n, ps))
  {
    FlattenLength(pages, ps);
    if n <= |pages| {
      assert pages == pages[..n] + pages[n..];
      FlattenConcat(pages[..n], pages[n..]);
      FlattenLength(pages[..n], ps);
      OffsetMonotone(n, |pages|, ps);
    } else {
      FlattenConcat(pages, ZeroPages(n - |pages|, ps));
      FlattenZeroPages(n - |pages|, ps);
      OffsetAdd(|pages|, n - |pages|, ps);
    }
  }

  lemma {:induction false} OffsetAdd(a: nat, b: nat, ps: nat)
    ensures Offset(a + b, ps) == Offset(a, ps) + Offset(b, ps)
  {
    if b > 0 {
      OffsetAdd(a, b - 1, ps);
    }
  }

  /** The replay buffer starts as the decrypted pages, cut or extended to the committed size. */
  lemma InitialPagesOfFlat(pages: seq<Page>, n: nat, ps: nat)
    requires Sized(pages, ps) && ps > 0
    ensures InitialPages(Flatten(pages), ps, n) == Resize(pages, n, ps)
  {
    FlattenResize(pages, n, ps);
    SplitFlatten(Resize(pages, n, ps), ps);
  }

  lemma LastWriteCons(w: Write, rest: seq<Write>, p: nat)
    ensures LastWrite([w] + rest, p) ==
      if LastWrite(rest, p).Some? then LastWrite(rest, p) else if w.pageNo == p then Some(w.page) else None
  {
    LastWriteConcat([w], rest, p);
    assert [w][..0] == [];
  }

  /** Overlaying decrypted writes leaves each page with its last write decrypted, or as it was. */
  lemma {:induction false} ApplyWritesAt(d: PageCipher, pages: seq<Page>, writes: seq<Write>, i: nat)
    requires i < |pages| && ApplyWrites(d, pages, writes).Ok?
    ensures var last := LastWrite(writes, i + 1);
      var page := ApplyWrites(d, pages, writes).value[i];
      if last.Some? then d(i + 1, last.value) == Ok(page) else page == pages[i]
    decreases writes
  {
    if writes != [] {
      var w, rest := writes[0], writes[1..];
      assert writes == [w] + rest;
      LastWriteCons(w, rest, i + 1);
      if w.pageNo == 0 || w.pageNo > |pages| {
        ApplyWritesAt(d, pages, rest, i);
      } else {
        ApplyWritesAt(d, pages[w.pageNo - 1 := d(w.pageNo, w.page).value], rest, i);
      }
    }
  }

  /** Every write inside an image of `n` pages authenticates. */
  ghost predicate Authentic(d: PageCipher, writes: seq<Write>, n: nat) {
    forall k :: 0 <= k < |writes| && 0 < writes[k].pageNo <= n ==> d(writes[k].pageNo, writes[k].page).Ok?
  }

  /** Replay fails exactly when some committed write inside the final image does not authenticate. */
  lemma {:induction false} ApplyWritesSucceeds(d: PageCipher, pages: seq<Page>, writes: seq<Write>)
    ensures ApplyWrites(d, pages, writes).Ok? <==> Authentic(d, writes, |pages|)
    decreases writes
  {
    if writes != [] {
      var w, rest := writes[0], writes[1..];
      assert forall k :: 0 <= k < |rest| ==> rest[k] == writes[k + 1];
      if w.pageNo == 0 || w.pageNo > |pages| {
        ApplyWritesSucceeds(d, pages, rest);
      } else if d(w.pageNo, w.page).Ok? {
        ApplyWritesSucceeds(d, pages[w.pageNo - 1 := d(w.pageNo, w.page).value], rest);
      }
      if Authentic(d, rest, |pages|) && (0 < w.pageNo <= |pages| ==> d(w.pageNo, w.page).Ok?) {
        forall k | 0 <= k < |writes| && 0 < writes[k].pageNo <= |pages| ensures d(writes[k].pageNo, writes[k].page).Ok? {
          if k > 0 {
            assert rest[k - 1] == writes[k];
          }
        }
      }
    }
  }

  lemma LockPageZero(c: Cipher, ps: nat)
    requires ValidPageSize(ps)
    ensures LockPage(ps) > 1
    ensures Decryptor(c, ps)(LockPage(ps), Zeros(ps)) == Ok(Zeros(ps))
  {
    DivAtLeast(PENDING_BYTE, ps, 1);
  }

  lemma DivAtLeast(a: nat, d: nat, q: nat)
    requires d > 0 && q * d <= a
    ensures a / d >= q
  {
    if a / d < q {
      MulMonotone(a / d + 1, q, d);
    }
  }

  /** The encrypted image one pass leaves: resized to the committed page count, then written. */
  function OnePass(raws: seq<Page>, writes: seq<Write>, n: nat, ps: nat): (r: seq<Page>)
    ensures |r| == n
  {
    WriteAll(Resize(raws, n, ps), writes)
  }

  /** The starting images agree page by page, wherever no write will land. */
  lemma ResizedPage(d: PageCipher, ps: nat, raws: seq<Page>, plain: seq<Page>, writes: seq<Write>, n: u32, lock: nat, i: nat)
    requires DecryptAll(d, raws) == Ok(plain) && d(lock, Zeros(ps)) == Ok(Zeros(ps))
    requires Grown(|raws|, Txn(writes, n), lock) && i < n && LastWrite(writes, i + 1).None?
    ensures d(i + 1, Resize(raws, n, ps)[i]) == Ok(Resize(plain, n, ps)[i])
  {
    if i < |raws| {
      DecryptAllAt(d, raws, i);
    }
  }

  /** One page of the overlaid image is the decryption of that page of the encrypted image. */
  lemma OverlaidPage(d: PageCipher, raws: seq<Page>, plain: seq<Page>, writes: seq<Write>, img: seq<Page>, i: nat)
    requires i < |raws| == |plain| && ApplyWrites(d, plain, writes) == Ok(img)
    requires LastWrite(writes, i + 1).None? ==> d(i + 1, raws[i]) == Ok(plain[i])
    ensures d(i + 1, WriteAll(raws, writes)[i]) == Ok(img[i])
  {
    WriteAllAt(raws, writes, i);
    ApplyWritesAt(d, plain, writes, i);
  }

  lemma DecryptAllIs(d: PageCipher, raws: seq<Page>, img: seq<Page>)
    requires |img| == |raws| && forall i :: 0 <= i < |raws| ==> d(i + 1, raws[i]) == Ok(img[i])
    ensures DecryptAll(d, raws) == Ok(img)
  {
    DecryptAllSucceeds(d, raws);
    var got := DecryptAll(d, raws).value;
    forall i | 0 <= i < |raws| ensures got[i] == img[i] {
      DecryptAllAt(d, raws, i);
    }
    assert got == img;
  }

  lemma ReplayedPages(d: PageCipher, ps: nat, raws: seq<Page>, plain: seq<Page>, writes: seq<Write>, n: u32, lock: nat, img: seq<Page>)
    requires DecryptAll(d, raws) == Ok(plain) && d(lock, Zeros(ps)) == Ok(Zeros(ps))
    requires Grown(|raws|, Txn(writes, n), lock)
    requires ApplyWrites(d, Resize(plain, n, ps), writes) == Ok(img)
    ensures DecryptAll(d, OnePass(raws, writes, n, ps)) == Ok(img)
  {
    var after := OnePass(raws, writes, n, ps);
    forall i | 0 <= i < n ensures d(i + 1, after[i]) == Ok(img[i]) {
      if LastWrite(writes, i + 1).None? {
        ResizedPage(d, ps, raws, plain, writes, n, lock, i);
      }
      OverlaidPage(d, Resize(raws, n, ps), Resize(plain, n, ps), writes, img, i);
    }
    DecryptAllIs(d, after, img);
  }

  /** A page beyond the original image that no transaction writes can only be the lock page. */
  lemma {:induction false} UnwrittenIsLock(size: nat, txns: seq<Txn>, lock: nat, p: nat)
    requires GrowsFully(size, txns, lock)
    requires size < p <= SizeAfter(size, txns) && LastWrite(AllWrites(txns), p).None?
    ensures p == lock
  {
    if txns != [] {
      var k := |txns| - 1;
      LastWriteConcat(AllWrites(txns[..k]), txns[k].writes, p);
      if p <= SizeAfter(size, txns[..k]) {
        UnwrittenIsLock(size, txns[..k], lock, p);
      }
    }
  }

  /** Page 1 spells out the page size in its plaintext header. */
  predicate Declares(page: Page, ps: nat) {
    && HEADER <= page && |page| >= PLAIN_HEADER
    && var raw := Horner(0, 0, page[16], page[17]);
       if raw == 1 then ps == 65536 else raw == ps && ValidPageSize(ps)
  }

  lemma FlattenStart(pages: seq<Page>)
    requires pages != []
    ensures pages[0] <= Flatten(pages)
  {
    FlattenAround(pages, 0);
  }

  /** A decrypted image still declares its page size. */
  lemma DecryptedDeclares(c: Cipher, ps: nat, raws: seq<Page>)
    requires ValidPageSize(ps) && Sized(raws, ps) && raws != [] && Declares(raws[0], ps)
    requires DecryptAll(Decryptor(c, ps), raws).Ok?
    ensures var plain := Flatten(DecryptAll(Decryptor(c, ps), raws).value);
      PageSizeReadable(plain) && PageSizeOf(plain) == Ok(ps) && |plain| == Offset(|raws|, ps)
  {
    var d := Decryptor(c, ps);
    var pages := DecryptAll(d, raws).value;
    DecryptAllAt(d, raws, 0);
    DecryptAllSized(d, raws, ps);
    FlattenStart(pages);
    FlattenLength(pages, ps);
    SameHeader(raws[0], pages[0]);
    SameHeader(raws[0], Flatten(pages));
  }

  lemma SameHeader(page: Page, data: seq<byte>)
    requires |page| >= PLAIN_HEADER && |data| >= PLAIN_HEADER && data[..PLAIN_HEADER] == page[..PLAIN_HEADER]
    ensures (HEADER <= page <==> HEADER <= data) && data[16] == page[16] && data[17] == page[17]
  {
    var head := page[..PLAIN_HEADER];
    assert page[..16] == head[..16] == data[..16];
    assert page[16] == head[16] == data[16] && page[17] == head[17] == data[17];
  }

  lemma RawDeclares(ps: nat, raws: seq<Page>)
    requires ValidPageSize(ps) && Sized(raws, ps) && raws != [] && Declares(raws[0], ps)
    ensures var main := Flatten(raws);
      && PageSizeReadable(main) && PageSizeOf(main) == Ok(ps)
      && |main| % ps == 0 && |main| >= PLAIN_HEADER && SplitPages(main, ps) == raws
  {
    FlattenStart(raws);
    FlattenLength(raws, ps);
    OffsetDiv(|raws|, ps);
    SplitFlatten(raws, ps);
    SameHeader(raws[0], Flatten(raws));
  }

  // Replay against the transactions, without assuming anything of how the file grew.

  /** What replay makes of page `i`: its last write decrypted, the page as it was, or zeros past the end of the file. */
  function Replayed(d: PageCipher, raws: seq<Page>, writes: seq<Write>, i: nat, ps: nat): Result<Page, Error> {
    if LastWrite(writes, i + 1).Some? then d(i + 1, LastWrite(writes, i + 1).value)
    else if i < |raws| then d(i + 1, raws[i])
    else Ok(Zeros(ps))
  }

  /** Each lost page of the final file, which the transactions leave zero, decrypts as what replay puts there. */
  ghost predicate LostAgree(d: PageCipher, raws: seq<Page>, txns: seq<Txn>, ps: nat) {
    forall i :: 0 <= i < SizeAfter(|raws|, txns) && Lost(|raws|, txns, i + 1) ==>
      d(i + 1, Zeros(ps)) == Replayed(d, raws, AllWrites(txns), i, ps)
  }

  lemma {:induction false} NeverHeldIsLost(size: nat, txns: seq<Txn>, p: nat)
    requires size < p <= SizeAfter(size, txns) && LastWrite(AllWrites(txns), p).None?
    ensures Lost(size, txns, p)
  {
    var k := |txns| - 1;
    LastWriteConcat(AllWrites(txns[..k]), txns[k].writes, p);
    if p <= SizeAfter(size, txns[..k]) {
      NeverHeldIsLost(size, txns[..k], p);
    }
  }

  /** Whatever decrypts has the page size. */
  ghost predicate GivesSized(d: PageCipher, ps: nat) {
    forall n: nat, p: Page :: d(n, p).Ok? ==> |d(n, p).value| == ps
  }

  lemma DecryptorGivesSized(c: Cipher, ps: nat)
    requires ps >= PLAIN_HEADER
    ensures GivesSized(Decryptor(c, ps), ps)
  {
    hide DecryptPage;
  }

  /** Each page of a replayed image. */
  lemma ReplayedAt(d: PageCipher, raws: seq<Page>, plain: seq<Page>, writes: seq<Write>, n: nat, ps: nat, i: nat)
    requires DecryptAll(d, raws) == Ok(plain) && ApplyWrites(d, Resize(plain, n, ps), writes).Ok? && i < n
    ensures Replayed(d, raws, writes, i, ps) == Ok(ApplyWrites(d, Resize(plain, n, ps), writes).value[i])
  {
    ApplyWritesAt(d, Resize(plain, n, ps), writes, i);
    if i < |raws| {
      DecryptAllAt(d, raws, i);
    }
  }

  /** A page that was not lost is the decryption of what the transactions leave there. */
  lemma KeptAt(d: PageCipher, raws: seq<Page>, txns: seq<Txn>, ps: nat, i: nat)
    requires i < SizeAfter(|raws|, txns)
    ensures |RunTxns(raws, txns, ps)| == SizeAfter(|raws|, txns)
    ensures d(i + 1, RunTxns(raws, txns, ps)[i]) ==
      if Lost(|raws|, txns, i + 1) then d(i + 1, Zeros(ps)) else Replayed(d, raws, AllWrites(txns), i, ps)
  {
    hide Lost, RunTxns, AllWrites, LastWrite;
    RunTxnsAt(raws, txns, ps, i);
    if i >= |raws| && LastWrite(AllWrites(txns), i + 1).None? {
      NeverHeldIsLost(|raws|, txns, i + 1);
    }
  }

  /** The replayed image is the decryption of what the transactions leave exactly when the lost pages agree. */
  lemma ReplayedExactly(d: PageCipher, raws: seq<Page>, plain: seq<Page>, txns: seq<Txn>, ps: nat, img: seq<Page>)
    requires DecryptAll(d, raws) == Ok(plain)
    requires ApplyWrites(d, Resize(plain, SizeAfter(|raws|, txns), ps), AllWrites(txns)) == Ok(img)
    ensures DecryptAll(d, RunTxns(raws, txns, ps)) == Ok(img) <==> LostAgree(d, raws, txns, ps)
  {
    hide RunTxns, ApplyWrites, Lost, Replayed;
    var n, after := SizeAfter(|raws|, txns), RunTxns(raws, txns, ps);
    RunTxnsSize(raws, txns, ps);
    forall i | 0 <= i < n
      ensures Replayed(d, raws, AllWrites(txns), i, ps) == Ok(img[i])
      ensures d(i + 1, after[i]) ==
        if Lost(|raws|, txns, i + 1) then d(i + 1, Zeros(ps)) else Replayed(d, raws, AllWrites(txns), i, ps)
    {
      ReplayedAt(d, raws, plain, AllWrites(txns), n, ps, i);
      KeptAt(d, raws, txns, ps, i);
    }
    if LostAgree(d, raws, txns, ps) {
      DecryptAllIs(d, after, img);
    }
    if DecryptAll(d, after) == Ok(img) {
      forall i | 0 <= i < n && Lost(|raws|, txns, i + 1)
        ensures d(i + 1, Zeros(ps)) == Replayed(d, raws, AllWrites(txns), i, ps)
      {
        DecryptAllAt(d, after, i);
      }
    }
  }

  lemma {:induction false} DecryptedSized(d: PageCipher, raws: seq<Page>, ps: nat)
    requires GivesSized(d, ps) && DecryptAll(d, raws).Ok?
    ensures Sized(DecryptAll(d, raws).value, ps)
  {
    forall i | 0 <= i < |raws| ensures |DecryptAll(d, raws).value[i]| == ps {
      DecryptAllAt(d, raws, i);
    }
  }

  lemma {:induction false} OverlaidSized(d: PageCipher, pages: seq<Page>, writes: seq<Write>, ps: nat)
    requires GivesSized(d, ps) && Sized(pages, ps) && ApplyWrites(d, pages, writes).Ok?
    ensures Sized(ApplyWrites(d, pages, writes).value, ps)
    decreases |writes|
  {
    if writes != [] {
      var w := writes[0];
      if w.pageNo == 0 || w.pageNo > |pages| {
        OverlaidSized(d, pages, writes[1..], ps);
      } else {
        OverlaidSized(d, pages[w.pageNo - 1 := d(w.pageNo, w.page).value], writes[1..], ps);
      }
    }
  }

  lemma FlattenSame(a: seq<Page>, b: seq<Page>, ps: nat)
    requires ps > 0 && Sized(a, ps) && Sized(b, ps) && Flatten(a) == Flatten(b)
    ensures a == b
  {
    SplitFlatten(a, ps);
    SplitFlatten(b, ps);
  }

  /** Opening gives the decryption of `after`. */
  ghost predicate Opens(d: PageCipher, after: seq<Page>, image: seq<byte>) {
    DecryptAll(d, after).Ok? && image == Flatten(DecryptAll(d, after).value)
  }

  lemma OverlayExact(d: PageCipher, ps: nat, raws: seq<Page>, plain: seq<Page>, txns: seq<Txn>)
    requires ps > 0 && GivesSized(d, ps) && DecryptAll(d, raws) == Ok(plain) && Sized(plain, ps)
    ensures var n := SizeAfter(|raws|, txns);
      var r := Overlay(d, Flatten(plain), ps, AllWrites(txns), n);
      && (r.Ok? <==> n <= |raws| + |AllWrites(txns)| + 1 && Authentic(d, AllWrites(txns), n))
      && (r.Ok? ==> (Opens(d, RunTxns(raws, txns, ps), r.value) <==> LostAgree(d, raws, txns, ps)))
  {
    hide RunTxns, ApplyWrites, LostAgree, GivesSized, Authentic, InitialPages, Resize;
    var n := SizeAfter(|raws|, txns);
    FlattenLength(plain, ps);
    OffsetDiv(|raws|, ps);
    InitialPagesOfFlat(plain, n, ps);
    var first := Resize(plain, n, ps);
    ApplyWritesSucceeds(d, first, AllWrites(txns));
    if ApplyWrites(d, first, AllWrites(txns)).Ok? {
      var img := ApplyWrites(d, first, AllWrites(txns)).value;
      ReplayedExactly(d, raws, plain, txns, ps, img);
      OverlaidSized(d, first, AllWrites(txns), ps);
      if DecryptAll(d, RunTxns(raws, txns, ps)).Ok? {
        var v := DecryptAll(d, RunTxns(raws, txns, ps)).value;
        DecryptedSized(d, RunTxns(raws, txns, ps), ps);
        if Flatten(v) == Flatten(img) {
          FlattenSame(v, img, ps);
        }
      }
    }
  }

  /**
   Replaying committed transactions over a decrypted main file succeeds exactly when the committed size keeps the page
   bound and every write inside the final image authenticates. What it gives is the decryption of the image that the
   transactions leave when run one at a time exactly when the lost pages agree.
   */
  lemma ReplayMeansExactly(suite: seq<byte> -> Cipher, key: seq<byte>, ps: nat, raws: seq<Page>, txns: seq<Txn>)
    requires |key| == KEY_AND_SALT && ValidPageSize(ps) && Sized(raws, ps)
    requires raws != [] && Declares(raws[0], ps) && DecryptAll(Decryptor(suite(key), ps), raws).Ok?
    ensures var d, n := Decryptor(suite(key), ps), SizeAfter(|raws|, txns);
      var plain := Flatten(DecryptAll(d, raws).value);
      && PageSizeReadable(plain)
      && var r := ReplayTxns(suite, plain, ps, txns, key);
         && (r.Ok? <==> n <= |raws| + |AllWrites(txns)| + 1 && Authentic(d, AllWrites(txns), n))
         && (r.Ok? ==> (Opens(d, RunTxns(raws, txns, ps), r.value) <==> LostAgree(d, raws, txns, ps)))
  {
    hide Lost, Overlay, Decryptor, GivesSized, LostAgree, Opens, Authentic, RunTxns, Declares, DecryptAll;
    var d := Decryptor(suite(key), ps);
    DecryptedDeclares(suite(key), ps, raws);
    if txns != [] {
      DecryptAllSized(d, raws, ps);
      DecryptorGivesSized(suite(key), ps);
      OverlayExact(d, ps, raws, DecryptAll(d, raws).value, txns);
    } else {
      NothingCommitted(d, ps, raws);
    }
  }

  lemma NothingCommitted(d: PageCipher, ps: nat, raws: seq<Page>)
    requires DecryptAll(d, raws).Ok?
    ensures AllWrites([]) == [] && SizeAfter(|raws|, []) == |raws| && Authentic(d, [], |raws|)
    ensures Opens(d, RunTxns(raws, [], ps), Flatten(DecryptAll(d, raws).value)) && LostAgree(d, raws, [], ps)
  {
  }

  /** What SQLite guarantees of a log is enough for replay to mean the transactions. */
  lemma ReplayMeansTransactions(suite: seq<byte> -> Cipher, key: seq<byte>, ps: nat, raws: seq<Page>, txns: seq<Txn>)
    requires |key| == KEY_AND_SALT && ValidPageSize(ps) && Sized(raws, ps)
    requires raws != [] && Declares(raws[0], ps) && DecryptAll(Decryptor(suite(key), ps), raws).Ok?
    requires GrowsFully(|raws|, txns, LockPage(ps)) && LockUnused(raws, txns, LockPage(ps), ps)
    ensures var d := Decryptor(suite(key), ps);
      var plain := Flatten(DecryptAll(d, raws).value);
      && PageSizeReadable(plain)
      && var r := ReplayTxns(suite, plain, ps, txns, key);
         && (r.Ok? <==> Authentic(d, AllWrites(txns), SizeAfter(|raws|, txns)))
         && (r.Ok? ==> Opens(d, RunTxns(raws, txns, ps), r.value))
  {
    hide RunTxns, Opens, Declares, Authentic, Lost, GrowsFully;
    var d, lock := Decryptor(suite(key), ps), LockPage(ps);
    LockPageZero(suite(key), ps);
    forall i | 0 <= i < SizeAfter(|raws|, txns) && Lost(|raws|, txns, i + 1)
      ensures d(i + 1, Zeros(ps)) == Replayed(d, raws, AllWrites(txns), i, ps)
    {
      LostIsLock(|raws|, txns, lock, i + 1);
    }
    if txns != [] {
      BoundNeverRejects(|raws|, txns, lock);
    }
    ReplayMeansExactly(suite, key, ps, raws, txns);
  }

  /**
   The overlay, for any page cipher that leaves a zero lock page zero and any starting image whose
   missing pages are all written: it succeeds exactly when every write inside the final image
   authenticates, and then gives the decryption of the encrypted one-pass image.
   */
  lemma OverlayMeansOnePass(d: PageCipher, ps: nat, raws: seq<Page>, pages: seq<Page>, writes: seq<Write>, n: u32, lock: nat)
    requires ps > 0 && DecryptAll(d, raws) == Ok(pages) && Sized(pages, ps)
    requires d(lock, Zeros(ps)) == Ok(Zeros(ps)) && Grown(|raws|, Txn(writes, n), lock)
    ensures var r := Overlay(d, Flatten(pages), ps, writes, n);
      && (r.Ok? <==> Authentic(d, writes, n))
      && (r.Ok? ==> DecryptAll(d, OnePass(raws, writes, n, ps)).Ok?
                    && r.value == Flatten(DecryptAll(d, OnePass(raws, writes, n, ps)).value))
  {
    FlattenLength(pages, ps);
    OffsetDiv(|raws|, ps);
    GrowthCount(|raws|, Txn(writes, n), lock);
    InitialPagesOfFlat(pages, n, ps);
    var first := Resize(pages, n, ps);
    ApplyWritesSucceeds(d, first, writes);
    if ApplyWrites(d, first, writes).Ok? {
      ReplayedPages(d, ps, raws, pages, writes, n, lock, ApplyWrites(d, first, writes).value);
    }
  }
}
