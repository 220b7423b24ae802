/** Encrypted databases by their layout: which byte strings open, and as what. */
module SqlcipherFormat {
  import opened Bytes
  import opened Pages
  import opened Sqlcipher
  import opened Wal
  import opened WalFormat
  import opened Wrappers

  /**
   A page as SQLCipher version 4 seals it: its clear bytes (32 on page 1), encrypted blocks of 16 bytes, the 16 bytes of the
   initialization vector, and 64 bytes that authenticate blocks and vector under the page number.
   */
  ghost predicate Sealed(c: Cipher, n: nat, page: Page, clear: seq<byte>, blocks: seq<byte>, iv: seq<byte>, tag: seq<byte>) {
    && page == clear + blocks + iv + tag
    && |clear| == (if n == 1 then 32 else 0) && |blocks| % 16 == 0 && |iv| == 16 && |tag| == 64
    && tag == c.mac(n, blocks + iv)
  }

  /** The page that holds the byte at 2^30, which SQLite never writes. */
  predicate IsLockPage(n: nat, ps: nat, page: Page)
    requires ps > 0
  {
    n == 0x4000_0000 / ps + 1 && page == Zeros(ps)
  }

  /** A sealed page opens as its blocks decrypted; the other parts stay. */
  ghost predicate PageOpens(c: Cipher, n: nat, ps: nat, page: Page, out: Page)
    requires ps > 0
  {
    if IsLockPage(n, ps, page) then out == page
    else exists clear, blocks, iv, tag :: Sealed(c, n, page, clear, blocks, iv, tag) && out == clear + c.cbc(iv, blocks) + iv + tag
  }

  /** The parts of what authenticates: blocks, vector and tag. */
  ghost predicate Parts(c: Cipher, n: nat, body: seq<byte>, blocks: seq<byte>, iv: seq<byte>, tag: seq<byte>) {
    |blocks| % 16 == 0 && |iv| == 16 && |tag| == 64 && body == blocks + iv + tag && tag == c.mac(n, blocks + iv)
  }

  lemma PartsOpen(c: Cipher, n: nat, ps: nat, body: seq<byte>, blocks: seq<byte>, iv: seq<byte>, tag: seq<byte>)
    requires Parts(c, n, body, blocks, iv, tag) && !IsZeroLockPage(n, ps, body)
    ensures DecryptBody(c, n, ps, body) == Ok(c.cbc(iv, blocks) + iv + tag)
  {
    var k := |body| - 80;
    assert k == |blocks| && body[..k] == blocks && body[k..k + 16] == iv && body[k + 16..] == tag && body[k..] == iv + tag;
    assert body[..k + 16] == blocks + iv;
    assert c.cbc(iv, blocks) + (iv + tag) == c.cbc(iv, blocks) + iv + tag;
  }

  lemma OpenedParts(c: Cipher, n: nat, ps: nat, body: seq<byte>) returns (blocks: seq<byte>, iv: seq<byte>, tag: seq<byte>)
    requires !IsZeroLockPage(n, ps, body) && DecryptBody(c, n, ps, body).Ok?
    ensures Parts(c, n, body, blocks, iv, tag)
  {
    var k := |body| - 80;
    blocks, iv, tag := body[..k], body[k..k + 16], body[k + 16..];
    assert body == blocks + iv + tag && body[..k + 16] == blocks + iv;
  }

  lemma LockIsZero(n: nat, ps: nat, page: Page)
    requires LegalPageSize(ps) && |page| == ps
    ensures IsZeroLockPage(n, ps, page) <==> IsLockPage(n, ps, page)
    ensures IsLockPage(n, ps, page) ==> n > 1
    ensures !IsZeroLockPage(1, ps, page[32..])
  {
    LegalIsValid(ps);
    DivPositive(ps);
  }

  lemma DivPositive(ps: nat)
    requires LegalPageSize(ps)
    ensures 0x4000_0000 / ps >= 1
  {
  }

  function Clear(n: nat, page: Page): seq<byte>
    requires |page| >= 32
  {
    if n == 1 then page[..32] else []
  }

  /** A page is its clear bytes and a remainder, which decrypts on its own. */
  lemma RemainderDecrypts(c: Cipher, n: nat, ps: nat, page: Page, body: seq<byte>)
    requires |page| == ps >= 512 && page == Clear(n, page) + body
    ensures var r := DecryptBody(c, n, ps, body);
      DecryptPage(c, n, ps, page) == if r.Ok? then Ok(Clear(n, page) + r.value) else r
  {
    hide DecryptBody;
    assert body == if n == 1 then page[32..] else page;
    assert n != 1 && DecryptBody(c, n, ps, body).Ok? ==>
      Clear(n, page) + DecryptBody(c, n, ps, body).value == DecryptBody(c, n, ps, body).value;
  }

  lemma SealOpens(c: Cipher, n: nat, ps: nat, page: Page, clear: seq<byte>, blocks: seq<byte>, iv: seq<byte>, tag: seq<byte>)
    requires LegalPageSize(ps) && |page| == ps && !IsLockPage(n, ps, page) && Sealed(c, n, page, clear, blocks, iv, tag)
    ensures DecryptPage(c, n, ps, page) == Ok(clear + c.cbc(iv, blocks) + iv + tag)
  {
    hide DecryptBody, DecryptPage, LegalPageSize, IsZeroLockPage, IsLockPage;
    LockIsZero(n, ps, page);
    LegalIsLarge(ps);
    var body := blocks + iv + tag;
    assert page == clear + body && clear == Clear(n, page);
    assert n == 1 ==> body == page[32..];
    assert n != 1 ==> body == page;
    RemainderDecrypts(c, n, ps, page, body);
    PartsOpen(c, n, ps, body, blocks, iv, tag);
    assert clear + (c.cbc(iv, blocks) + iv + tag) == clear + c.cbc(iv, blocks) + iv + tag;
  }

  lemma OpenedIsSealed(c: Cipher, n: nat, ps: nat, page: Page)
    returns (clear: seq<byte>, blocks: seq<byte>, iv: seq<byte>, tag: seq<byte>)
    requires LegalPageSize(ps) && |page| == ps && !IsLockPage(n, ps, page) && DecryptPage(c, n, ps, page).Ok?
    ensures Sealed(c, n, page, clear, blocks, iv, tag)
  {
    hide DecryptBody, DecryptPage, LegalPageSize, IsZeroLockPage, IsLockPage;
    LockIsZero(n, ps, page);
    LegalIsLarge(ps);
    clear := Clear(n, page);
    var body := page[|clear|..];
    assert page == clear + body;
    RemainderDecrypts(c, n, ps, page, body);
    blocks, iv, tag := OpenedParts(c, n, ps, body);
    assert clear + (blocks + iv + tag) == clear + blocks + iv + tag;
  }

  /** A page decrypts exactly as its seal says. */
  lemma PageOpensExactly(c: Cipher, n: nat, ps: nat, page: Page, out: Page)
    requires LegalPageSize(ps) && |page| == ps
    ensures DecryptPage(c, n, ps, page) == Ok(out) <==> PageOpens(c, n, ps, page, out)
  {
    hide DecryptPage, LegalPageSize, IsLockPage, Sealed;
    LegalIsLarge(ps);
    if IsLockPage(n, ps, page) {
      ZeroPageOpens(c, n, ps, page);
    } else {
      if DecryptPage(c, n, ps, page) == Ok(out) {
        var clear, blocks, iv, tag := OpenedIsSealed(c, n, ps, page);
        SealOpens(c, n, ps, page, clear, blocks, iv, tag);
      }
      if clear, blocks, iv, tag :| Sealed(c, n, page, clear, blocks, iv, tag) && out == clear + c.cbc(iv, blocks) + iv + tag {
        SealOpens(c, n, ps, page, clear, blocks, iv, tag);
      }
    }
  }

  lemma LegalIsLarge(ps: nat)
    requires LegalPageSize(ps)
    ensures ps >= 512
  {
  }

  lemma ZeroPageOpens(c: Cipher, n: nat, ps: nat, page: Page)
    requires LegalPageSize(ps) && |page| == ps && IsLockPage(n, ps, page)
    ensures DecryptPage(c, n, ps, page) == Ok(page)
  {
    hide LegalPageSize, IsLockPage;
    LockIsZero(n, ps, page);
    LegalIsLarge(ps);
  }

  // Whole databases.

  /** "SQLite format 3", ended by a zero byte. */
  predicate HasHeader(data: seq<byte>) {
    [83, 81, 76, 105, 116, 101, 32, 102, 111, 114, 109, 97, 116, 32, 51, 0] <= data
  }

  /** The page size a database states in bytes 16 and 17, where 1 stands for 65536; without a header it is 4096. */
  predicate Declared(data: seq<byte>, ps: nat)
    requires |data| >= 18
  {
    if HasHeader(data) then
      LegalPageSize(ps) && 0x100 * (data[16] as int) + data[17] == if ps == 65536 then 1 else ps
    else ps == 4096 && |data| % 4096 == 0
  }

  lemma DeclaredSize(data: seq<byte>, ps: nat)
    requires |data| >= 18
    ensures PageSizeOf(data) == Ok(ps) <==> Declared(data, ps)
  {
    hide IsPowerOfTwo;
    LegalIsValid(ps);
    LegalIsValid(65536);
    var raw := Horner(0, 0, data[16], data[17]);
    LegalIsValid(raw);
  }

  /** A key of 48 bytes, a stated page size that divides the database, and pages that open one by one. */
  ghost predicate Opens(suite: seq<byte> -> Cipher, data: seq<byte>, key: seq<byte>, ps: nat, out: seq<byte>) {
    && |key| == 48 && |data| >= 32 && Declared(data, ps) && ps > 0 && |data| % ps == 0 && |out| == |data|
    && forall i :: 0 <= i < |data| / ps ==> PageOpens(suite(key), i + 1, ps, PageAt(data, ps, i), PageAt(out, ps, i))
  }

  /** A database decrypts exactly as its pages open. */
  lemma DatabaseOpensExactly(suite: seq<byte> -> Cipher, data: seq<byte>, key: seq<byte>, out: seq<byte>)
    requires PageSizeReadable(data)
    ensures DecryptImage(suite, data, key) == Ok(out) <==> exists ps: nat :: Opens(suite, data, key, ps, out)
  {
    hide PageOpens, DecryptPage, Declared, PageSizeOf, LegalPageSize, ValidPageSize, DecryptAll;
    if |key| == 48 && |data| >= 32 && PageSizeOf(data).Ok? {
      var ps := PageSizeOf(data).value;
      DeclaredSize(data, ps);
      PageSizeIsValid(data);
      LegalIsValid(ps);
      LegalIsLarge(ps);
      if |data| % ps == 0 {
        ImageOpens(suite(key), ps, data, out);
        assert Opens(suite, data, key, ps, out) <==> DecryptImage(suite, data, key) == Ok(out);
      }
    }
    if ps: nat :| Opens(suite, data, key, ps, out) {
      DeclaredSize(data, ps);
    }
  }

  lemma ImageOpens(c: Cipher, ps: nat, data: seq<byte>, out: seq<byte>)
    requires LegalPageSize(ps) && ps >= 512 && |data| % ps == 0
    ensures var r := DecryptAll(Decryptor(c, ps), SplitPages(data, ps));
      r.Ok? && out == Flatten(r.value) <==>
        |out| == |data| && forall i :: 0 <= i < |data| / ps ==> PageOpens(c, i + 1, ps, PageAt(data, ps, i), PageAt(out, ps, i))
  {
    hide PageOpens, DecryptPage, LegalPageSize, DecryptAll;
    var d, raws := Decryptor(c, ps), SplitPages(data, ps);
    DecryptAllPointwise(d, raws);
    if DecryptAll(d, raws).Ok? && out == Flatten(DecryptAll(d, raws).value) {
      var pages := DecryptAll(d, raws).value;
      DecryptAllSized(d, raws, ps);
      FlattenLength(pages, ps);
      WholePages(|data|, ps);
      SplitFlatten(pages, ps);
      forall i | 0 <= i < |data| / ps ensures PageOpens(c, i + 1, ps, PageAt(data, ps, i), PageAt(out, ps, i)) {
        assert raws[i] == PageAt(data, ps, i) && SplitPages(out, ps)[i] == PageAt(out, ps, i) == pages[i];
        PageOpensExactly(c, i + 1, ps, raws[i], pages[i]);
      }
    }
    if |out| == |data| && forall i :: 0 <= i < |data| / ps ==> PageOpens(c, i + 1, ps, PageAt(data, ps, i), PageAt(out, ps, i)) {
      forall i | 0 <= i < |raws| ensures d(i + 1, raws[i]) == Ok(PageAt(out, ps, i)) {
        PageOpensExactly(c, i + 1, ps, raws[i], PageAt(out, ps, i));
      }
      var pages := DecryptAll(d, raws).value;
      assert pages == SplitPages(out, ps);
      FlattenSplit(out, ps);
    }
  }

  /** Page `i` is the first that does not open. */
  ghost predicate FirstRefused(c: Cipher, ps: nat, raws: seq<Page>, i: int, e: Error)
    requires ps >= 32
  {
    && 0 <= i < |raws| && Decryptor(c, ps)(i + 1, raws[i]) == Err(e)
    && forall k :: 0 <= k < i ==> Decryptor(c, ps)(k + 1, raws[k]).Ok?
  }

  lemma {:induction false} PageFails(c: Cipher, ps: nat, raws: seq<Page>)
    requires ps >= 32
    ensures var r := DecryptAll(Decryptor(c, ps), raws);
      r.Err? ==> exists i :: FirstRefused(c, ps, raws, i, r.error)
    decreases |raws|
  {
    hide Decryptor;
    if raws != [] {
      var n, d := |raws| - 1, Decryptor(c, ps);
      PageFails(c, ps, raws[..n]);
      if DecryptAll(d, raws[..n]).Err? {
        var i :| FirstRefused(c, ps, raws[..n], i, DecryptAll(d, raws[..n]).error);
        assert FirstRefused(c, ps, raws, i, DecryptAll(d, raws).error);
      } else if d(n + 1, raws[n]).Err? {
        forall k | 0 <= k < n ensures d(k + 1, raws[k]).Ok? {
          DecryptAllAt(d, raws[..n], k);
        }
        assert FirstRefused(c, ps, raws, n, d(n + 1, raws[n]).error);
      }
    }
  }

  /**
   What decryption refuses, in order: a key that is not 48 bytes, data of less than 32, no legal page size or one that does
   not divide the data, and the first page that does not open.
   */
  lemma DatabaseRefuses(suite: seq<byte> -> Cipher, data: seq<byte>, key: seq<byte>, ps: nat)
    requires PageSizeReadable(data) && ps >= 32
    ensures var r := DecryptImage(suite, data, key);
      if |key| != 48 then r == Err(KeyLength(|key|))
      else if |data| < 32 then r == Err(TooSmall(|data|))
      else
        && ((forall n :: !Declared(data, n)) ==> r.Err?)
        && (Declared(data, ps) ==>
              if |data| % ps != 0 then r == Err(NotMultiple(|data|, ps))
              else r.Err? ==> exists i :: FirstRefused(suite(key), ps, SplitPages(data, ps), i, r.error))
  {
    hide Declared, PageSizeOf, DecryptAll, ValidPageSize;
    if |key| == 48 && |data| >= 32 {
      DeclaredSize(data, ps);
      if PageSizeOf(data).Ok? {
        DeclaredSize(data, PageSizeOf(data).value);
      }
      PageFails(suite(key), ps, SplitPages(data, ps));
    }
  }

  /**
   What replay refuses, in order: an image that states no page size or another than the log's, a key that is not 48 bytes,
   and a committed size that the image, the log's pages and one more cannot make up.
   */
  lemma ReplayRefuses(suite: seq<byte> -> Cipher, plain: seq<byte>, ps: nat, txns: seq<Txn>, key: seq<byte>)
    requires |plain| >= 18 && ps >= 32
    ensures var r := ReplayTxns(suite, plain, ps, txns, key);
      if txns == [] then r == Ok(plain)
      else if forall n :: !Declared(plain, n) then r.Err?
      else if !Declared(plain, ps) then exists n :: Declared(plain, n) && r == Err(WalPageSize(ps, n))
      else if |key| != 48 then r == Err(KeyLength(|key|))
      else if LastPages(txns) > |plain| / ps + |AllWrites(txns)| + 1 then
        r == Err(TooManyPages(LastPages(txns), |plain| / ps + |AllWrites(txns)| + 1))
      else r.Err? ==> exists k :: 0 <= k < |AllWrites(txns)| && RefusedWrite(suite(key), ps, AllWrites(txns)[k], LastPages(txns), r.error)
  {
    hide Declared, PageSizeOf, Overlay, LastPages, AllWrites, RefusedWrite, Decryptor;
    DeclaredSize(plain, ps);
    if n: nat :| Declared(plain, n) {
      DeclaredSize(plain, n);
    }
    if txns != [] {
      OverlayRefuses(suite(key), plain, ps, AllWrites(txns), LastPages(txns));
    }
  }

  lemma OverlayRefuses(c: Cipher, plain: seq<byte>, ps: nat, writes: seq<Write>, pages: nat)
    requires ps >= 32
    ensures var r, max := Overlay(Decryptor(c, ps), plain, ps, writes, pages), |plain| / ps + |writes| + 1;
      if pages > max then r == Err(TooManyPages(pages, max))
      else r.Err? ==> exists k :: 0 <= k < |writes| && RefusedWrite(c, ps, writes[k], pages, r.error)
  {
    hide ApplyWrites, RefusedWrite, Decryptor;
    if pages <= |plain| / ps + |writes| + 1 {
      WriteFails(c, ps, InitialPages(plain, ps, pages), writes);
    }
  }

  /** A write inside the image whose page does not open. */
  ghost predicate RefusedWrite(c: Cipher, ps: nat, w: Write, pages: nat, e: Error)
    requires ps >= 32
  {
    0 < w.pageNo <= pages && Decryptor(c, ps)(w.pageNo, w.page) == Err(e)
  }

  lemma {:induction false} WriteFails(c: Cipher, ps: nat, pages: seq<Page>, writes: seq<Write>)
    requires ps >= 32
    ensures var r := ApplyWrites(Decryptor(c, ps), pages, writes);
      r.Err? ==> exists k :: 0 <= k < |writes| && RefusedWrite(c, ps, writes[k], |pages|, r.error)
    decreases |writes|
  {
    hide Decryptor;
    if writes != [] {
      var w, rest, d := writes[0], writes[1..], Decryptor(c, ps);
      ApplyFirst(d, pages, writes);
      if w.pageNo == 0 || w.pageNo > |pages| {
        WriteFails(c, ps, pages, rest);
      } else if d(w.pageNo, w.page).Ok? {
        WriteFails(c, ps, pages[w.pageNo - 1 := d(w.pageNo, w.page).value], rest);
      } else {
        assert RefusedWrite(c, ps, writes[0], |pages|, d(w.pageNo, w.page).error);
      }
      assert forall k :: 0 <= k < |rest| ==> rest[k] == writes[k + 1];
    }
  }
}
