/** The SQLCipher v4 page layer over opaque page authentication and block decryption. */
module Sqlcipher {
  import opened Bytes
  import opened Pages
  import opened Wrappers

  const HEADER: seq<byte> := [83, 81, 76, 105, 116, 101, 32, 102, 111, 114, 109, 97, 116, 32, 51, 0]
  const PLAIN_HEADER: nat := 32
  const KEY_AND_SALT: nat := 48
  const IV_SIZE: nat := 16
  const RESERVE_SIZE: nat := 80
  const MIN_PAGE_SIZE: nat := 512
  const MAX_PAGE_SIZE: nat := 65536
  const DEFAULT_PAGE_SIZE: nat := 4096
  const PENDING_BYTE: nat := 0x4000_0000

  /**
   HMAC-SHA-512 over (page number, page and IV), and AES-CBC decryption under (IV, payload).
   Both are uninterpreted; CBC keeps the length.
   */
  datatype RawCipher = RawCipher(mac: (nat, seq<byte>) -> seq<byte>, cbc: (seq<byte>, seq<byte>) -> seq<byte>)
  type Cipher = c: RawCipher | LengthPreserving(c.cbc) witness RawCipher((_, _) => [], (_, x) => x)

  ghost predicate LengthPreserving(cbc: (seq<byte>, seq<byte>) -> seq<byte>) {
    forall iv: seq<byte>, x: seq<byte> :: |cbc(iv, x)| == |x|
  }

  datatype Error =
    | KeyLength(len: nat)
    | TooSmall(len: nat)
    | NoHeader
    | InvalidPageSize(size: nat)
    | NotMultiple(len: nat, size: nat)
    | PageLength(len: nat)
    | BadPayload(payload: int)
    | HmacFailed(pageNo: nat)
    | WalPageSize(walSize: nat, dbSize: nat)
    | TooManyPages(claimed: nat, max: nat)

  predicate IsPowerOfTwo(n: nat) {
    n == 1 || (n > 0 && n % 2 == 0 && IsPowerOfTwo(n / 2))
  }

  predicate ValidPageSize(n: nat) {
    MIN_PAGE_SIZE <= n <= MAX_PAGE_SIZE && IsPowerOfTwo(n)
  }

  /** A header prefix that ends before the page-size field is out of range in the original. */
  predicate PageSizeReadable(data: seq<byte>) {
    HEADER <= data ==> |data| >= 18
  }

  function PageSizeOf(data: seq<byte>): Result<nat, Error>
    requires PageSizeReadable(data)
  {
    if HEADER <= data then
      var raw: nat := Horner(0, 0, data[16], data[17]);
      if raw == 1 then Ok(65536)
      else if !ValidPageSize(raw) then Err(InvalidPageSize(raw))
      else Ok(raw)
    else if |data| % DEFAULT_PAGE_SIZE == 0 then Ok(DEFAULT_PAGE_SIZE)
    else Err(NoHeader)
  }

  lemma PageSizeIsValid(data: seq<byte>)
    requires PageSizeReadable(data) && PageSizeOf(data).Ok?
    ensures ValidPageSize(PageSizeOf(data).value)
  {
    PowersOfTwo();
  }

  lemma PowersOfTwo()
    ensures IsPowerOfTwo(4096) && IsPowerOfTwo(65536)
  {
    assert IsPowerOfTwo(1) && IsPowerOfTwo(2) && IsPowerOfTwo(4) && IsPowerOfTwo(8) && IsPowerOfTwo(16);
    assert IsPowerOfTwo(32) && IsPowerOfTwo(64) && IsPowerOfTwo(128) && IsPowerOfTwo(256) && IsPowerOfTwo(512);
    assert IsPowerOfTwo(1024) && IsPowerOfTwo(2048) && IsPowerOfTwo(4096) && IsPowerOfTwo(8192);
    assert IsPowerOfTwo(16384) && IsPowerOfTwo(32768);
  }

  /** The number of the page holding SQLite's pending-lock byte (section 1.4 of the file format). */
  function LockPage(ps: nat): nat
    requires ps > 0
  {
    PENDING_BYTE / ps + 1
  }

  /** The one page that skips authentication: number, length and contents must all match. */
  predicate IsZeroLockPage(pageNo: nat, ps: nat, page: seq<byte>) {
    ps > 0 && |page| == ps && pageNo == LockPage(ps) && page == Zeros(ps)
  }

  /** What one authenticated page (or page remainder) decrypts to. */
  function DecryptBody(c: Cipher, pageNo: nat, ps: nat, page: seq<byte>): (r: Result<seq<byte>, Error>)
    ensures r.Ok? ==> |r.value| == |page|
  {
    var payload := |page| - RESERVE_SIZE;
    if IsZeroLockPage(pageNo, ps, page) then Ok(page)
    else if payload < 0 || payload % IV_SIZE != 0 then Err(BadPayload(payload))
    else if page[payload + IV_SIZE..] != c.mac(pageNo, page[..payload + IV_SIZE]) then Err(HmacFailed(pageNo))
    else Ok(c.cbc(page[payload..payload + IV_SIZE], page[..payload]) + page[payload..])
  }

  /** Decryption of whole pages, by page number. */
  type PageCipher = (nat, Page) -> Result<Page, Error>

  ghost predicate KeepsSize(d: PageCipher, ps: nat) {
    forall n: nat, p: Page :: |p| == ps && d(n, p).Ok? ==> |d(n, p).value| == ps
  }

  /** A whole page: page 1 keeps its first 32 bytes in the clear. */
  function DecryptPage(c: Cipher, pageNo: nat, ps: nat, page: Page): (r: Result<Page, Error>)
    requires |page| == ps && ps >= PLAIN_HEADER
    ensures r.Ok? ==> |r.value| == ps
  {
    if pageNo == 1 then
      var body :- DecryptBody(c, pageNo, ps, page[PLAIN_HEADER..]);
      Ok(page[..PLAIN_HEADER] + body)
    else DecryptBody(c, pageNo, ps, page)
  }

  function Decryptor(c: Cipher, ps: nat): (d: PageCipher)
    requires ps >= PLAIN_HEADER
    ensures KeepsSize(d, ps)
  {
    (n, page) => if |page| == ps then DecryptPage(c, n, ps, page) else Err(PageLength(|page|))
  }

  method PutBoth(dst: array<byte>, start: nat, head: seq<byte>, tail: seq<byte>)
    requires start + |head| + |tail| <= dst.Length
    modifies dst
    ensures dst[..] == old(dst[..start]) + (head + tail) + old(dst[start + |head| + |tail|..])
  {
    Put(dst, start + |head|, tail);
    Put(dst, start, head);
  }

  /** decryptSQLCipherPage, writing its output at `start`. A failure leaves the buffer alone. */
  method DecryptPageInto(c: Cipher, pageNo: nat, ps: nat, page: seq<byte>, dst: array<byte>, start: nat)
    returns (e: Option<Error>)
    requires start + |page| <= dst.Length
    modifies dst
    ensures var r := DecryptBody(c, pageNo, ps, page);
      if r.Ok? then e == None && dst[..] == old(dst[..start]) + r.value + old(dst[start + |page|..])
      else e == Some(r.error) && dst[..] == old(dst[..])
  {
    if IsZeroLockPage(pageNo, ps, page) {
      Put(dst, start, Zeros(|page|));
      return None;
    }
    var payload := |page| - RESERVE_SIZE;
    if payload < 0 || payload % IV_SIZE != 0 {
      return Some(BadPayload(payload));
    }
    if page[payload + IV_SIZE..] != c.mac(pageNo, page[..payload + IV_SIZE]) {
      return Some(HmacFailed(pageNo));
    }
    PutBoth(dst, start, c.cbc(page[payload..payload + IV_SIZE], page[..payload]), page[payload..]);
    return None;
  }

  lemma DecryptorAt(c: Cipher, ps: nat, pageNo: nat, page: Page)
    requires |page| == ps >= PLAIN_HEADER
    ensures var whole := DecryptBody(c, pageNo, ps, page);
      var rest := DecryptBody(c, pageNo, ps, page[PLAIN_HEADER..]);
      Decryptor(c, ps)(pageNo, page) ==
        if pageNo != 1 then whole else if rest.Ok? then Ok(page[..PLAIN_HEADER] + rest.value) else rest
  {
    hide DecryptBody;
  }

  lemma Spliced(was: seq<byte>, now: seq<byte>, start: nat, part: seq<byte>, end: nat)
    requires start + |part| <= end <= |was| && now == was[..start] + part + was[start + |part|..]
    ensures |now| == |was| && now[..start + |part|] == was[..start] + part && now[end..] == was[end..]
  {
  }

  /** Page 1 keeps its first 32 bytes, which were never encrypted. */
  method DecryptFirstPage(c: Cipher, ps: nat, page: Page, dst: array<byte>, start: nat) returns (e: Option<Error>)
    requires |page| == ps >= PLAIN_HEADER && start + ps <= dst.Length
    modifies dst
    ensures var r := DecryptBody(c, 1, ps, page[PLAIN_HEADER..]);
      if r.Ok? then e == None && dst[..] == old(dst[..start]) + (page[..PLAIN_HEADER] + r.value) + old(dst[start + ps..])
      else e == Some(r.error)
  {
    hide DecryptBody;
    ghost var was := dst[..];
    Put(dst, start, page[..PLAIN_HEADER]);
    Spliced(was, dst[..], start, page[..PLAIN_HEADER], start + ps);
    e := DecryptPageInto(c, 1, ps, page[PLAIN_HEADER..], dst, start + PLAIN_HEADER);
  }

  /** Decrypts one page of an image in place, as both image builders do. */
  method DecryptPageAt(c: Cipher, ghost d: PageCipher, pageNo: nat, ps: nat, page: Page, dst: array<byte>, start: nat)
    returns (e: Option<Error>)
    requires |page| == ps >= PLAIN_HEADER && start + ps <= dst.Length && d == Decryptor(c, ps)
    modifies dst
    ensures var r := d(pageNo, page);
      if r.Ok? then e == None && |r.value| == ps && dst[..] == old(dst[..start]) + r.value + old(dst[start + ps..])
      else e == Some(r.error)
  {
    hide DecryptBody, Decryptor, DecryptPage;
    DecryptorAt(c, ps, pageNo, page);
    if pageNo == 1 {
      e := DecryptFirstPage(c, ps, page, dst, start);
    } else {
      e := DecryptPageInto(c, pageNo, ps, page, dst, start);
    }
  }

  /** Every page of an image decrypted, failing at the first page that does not authenticate. */
  function DecryptAll(d: PageCipher, raws: seq<Page>): (r: Result<seq<Page>, Error>)
    ensures r.Ok? ==> |r.value| == |raws|
  {
    if raws == [] then Ok([])
    else
      var n := |raws|;
      var init :- DecryptAll(d, raws[..n - 1]);
      var last :- d(n, raws[n - 1]);
      Ok(init + [last])
  }

  lemma {:induction false} DecryptAllAt(d: PageCipher, raws: seq<Page>, i: nat)
    requires i < |raws| && DecryptAll(d, raws).Ok?
    ensures d(i + 1, raws[i]) == Ok(DecryptAll(d, raws).value[i])
  {
    if i < |raws| - 1 {
      DecryptAllAt(d, raws[..|raws| - 1], i);
    }
  }

  lemma {:induction false} DecryptAllSucceeds(d: PageCipher, raws: seq<Page>)
    requires forall i :: 0 <= i < |raws| ==> d(i + 1, raws[i]).Ok?
    ensures DecryptAll(d, raws).Ok?
  {
    if raws != [] {
      var init := raws[..|raws| - 1];
      assert forall i :: 0 <= i < |init| ==> init[i] == raws[i];
      DecryptAllSucceeds(d, init);
      assert d(|raws| - 1 + 1, raws[|raws| - 1]).Ok?;
    }
  }

  /** Decryption is page by page: it succeeds exactly when every page does, with those pages. */
  lemma DecryptAllPointwise(d: PageCipher, raws: seq<Page>)
    ensures DecryptAll(d, raws).Ok? <==> forall i :: 0 <= i < |raws| ==> d(i + 1, raws[i]).Ok?
    ensures DecryptAll(d, raws).Ok? ==>
      forall i :: 0 <= i < |raws| ==> d(i + 1, raws[i]) == Ok(DecryptAll(d, raws).value[i])
  {
    if DecryptAll(d, raws).Ok? {
      forall i | 0 <= i < |raws| ensures d(i + 1, raws[i]) == Ok(DecryptAll(d, raws).value[i]) {
        DecryptAllAt(d, raws, i);
      }
    } else if forall i :: 0 <= i < |raws| ==> d(i + 1, raws[i]).Ok? {
      DecryptAllSucceeds(d, raws);
    }
  }

  lemma DecryptAllSized(d: PageCipher, raws: seq<Page>, ps: nat)
    requires KeepsSize(d, ps) && Sized(raws, ps) && DecryptAll(d, raws).Ok?
    ensures Sized(DecryptAll(d, raws).value, ps)
  {
    forall i | 0 <= i < |raws| ensures |DecryptAll(d, raws).value[i]| == ps {
      DecryptAllAt(d, raws, i);
    }
  }

  function DecryptImage(suite: seq<byte> -> Cipher, data: seq<byte>, key: seq<byte>): (r: Result<seq<byte>, Error>)
    ensures r.Ok? ==> |r.value| == |data| >= PLAIN_HEADER
  {
    if |key| != KEY_AND_SALT then Err(KeyLength(|key|))
    else if |data| < PLAIN_HEADER then Err(TooSmall(|data|))
    else
      var ps :- PageSizeOf(data);
      PageSizeIsValid(data);
      if |data| % ps != 0 then Err(NotMultiple(|data|, ps))
      else
        var pages :- DecryptAll(Decryptor(suite(key), ps), SplitPages(data, ps));
        DecryptAllSized(Decryptor(suite(key), ps), SplitPages(data, ps), ps);
        FlattenLength(pages, ps);
        WholePages(|data|, ps);
        Ok(Flatten(pages))
  }

  method DecryptSqlcipherV4(suite: seq<byte> -> Cipher, data: seq<byte>, key: seq<byte>) returns (r: Result<seq<byte>, Error>)
    ensures r == DecryptImage(suite, data, key)
  {
    if |key| != KEY_AND_SALT {
      return Err(KeyLength(|key|));
    }
    if |data| < PLAIN_HEADER {
      return Err(TooSmall(|data|));
    }
    var ps :- PageSizeOf(data);
    PageSizeIsValid(data);
    if |data| % ps != 0 {
      return Err(NotMultiple(|data|, ps));
    }
    var out := new byte[|data|](_ => 0);
    var e := DecryptPages(suite(key), Decryptor(suite(key), ps), ps, data, out);
    if e.Some? {
      return Err(e.value);
    }
    return Ok(out[..]);
  }

  /** The page loop of DecryptSQLCipherV4. */
  method DecryptPages(c: Cipher, ghost d: PageCipher, ps: nat, data: seq<byte>, out: array<byte>) returns (e: Option<Error>)
    requires ps > PLAIN_HEADER && |data| % ps == 0 && out.Length == |data| && d == Decryptor(c, ps)
    modifies out
    ensures var r := DecryptAll(d, SplitPages(data, ps));
      if r.Ok? then e == None && out[..] == Flatten(r.value) else e == Some(r.error)
  {
    hide Decryptor, DecryptPage, DecryptBody;
    ghost var raws, done: seq<Page> := SplitPages(data, ps), [];
    var i, start, pageCount := 0, 0, |data| / ps;
    while i < pageCount
      invariant 0 <= i <= pageCount && start == Offset(i, ps) && start <= |data|
      invariant DecryptAll(d, raws[..i]) == Ok(done)
      invariant out[..start] == Flatten(done)
    {
      PageBounds(|data|, ps, i);
      var page := data[start..start + ps];
      assert page == raws[i];
      assert raws[..i + 1][..i] == raws[..i];
      ghost var before := out[..start];
      e := DecryptPageAt(c, d, i + 1, ps, page, out, start);
      if e.Some? {
        DecryptAllPrefix(d, raws, i + 1);
        return;
      }
      ghost var plain := d(i + 1, page).value;
      Splice(before, plain, out[start + ps..]);
      FlattenSnoc(done, plain);
      done := done + [plain];
      i, start := i + 1, start + ps;
    }
    WholePages(|data|, ps);
    assert raws[..i] == raws && out[..start] == out[..];
    e := None;
  }

  lemma {:induction false} DecryptAllPrefix(d: PageCipher, raws: seq<Page>, i: nat)
    requires i <= |raws|
    ensures DecryptAll(d, raws[..i]).Err? ==> DecryptAll(d, raws) == DecryptAll(d, raws[..i])
    decreases |raws|
  {
    if i < |raws| {
      var init := raws[..|raws| - 1];
      assert init[..i] == raws[..i];
      DecryptAllPrefix(d, init, i);
    } else {
      assert raws[..i] == raws;
    }
  }
}
