/**
 Replaying a SQLite write-ahead log (section 4 of the SQLite Database File Format document)
 over a decrypted SQLCipher v4 image.
 */
module Wal {
  import opened Bytes
  import opened WalChecksum
  import opened Pages
  import opened Sqlcipher
  import opened Wrappers

  const WAL_HEADER: nat := 32
  const FRAME_HEADER: nat := 24
  const MAGIC_LE: nat := 0x377f_0682
  const MAGIC_BE: nat := 0x377f_0683

  datatype Header = Header(bigEndian: bool, pageSize: nat, salt: seq<byte>, sum: Sum)

  /** A frame that passed the checks: `commit` is 0 or the page count its transaction commits. */
  datatype Frame = Frame(pageNo: u32, commit: u32, page: Page)

  datatype Write = Write(pageNo: u32, page: Page)

  /** A committed transaction: its page writes in order and the page count it leaves. */
  datatype Txn = Txn(writes: seq<Write>, pages: u32)

  function ParseHeader(wal: seq<byte>): (h: Option<Header>)
    ensures h.Some? ==> ValidPageSize(h.value.pageSize) && |wal| >= WAL_HEADER
  {
    if |wal| < WAL_HEADER then None
    else
      var magic, ps := Be32(wal[..4]), Be32(wal[8..12]);
      if magic != MAGIC_LE && magic != MAGIC_BE then None
      else if !ValidPageSize(ps) then None
      else
        var sum := Checksum(magic == MAGIC_BE, wal[..24], Sum(0, 0));
        if sum != Sum(Be32(wal[24..28]), Be32(wal[28..32])) then None
        else Some(Header(magic == MAGIC_BE, ps, wal[16..24], sum))
  }

  function FrameSize(h: Header): (n: nat)
    ensures n >= FRAME_HEADER
  {
    FRAME_HEADER + h.pageSize
  }

  /** The cumulative sum after a frame: its first 8 header bytes, then its page. */
  function FrameSum(h: Header, raw: seq<byte>, sum: Sum): Sum
    requires |raw| == FrameSize(h)
  {
    Checksum(h.bigEndian, raw[FRAME_HEADER..], Checksum(h.bigEndian, raw[..8], sum))
  }

  predicate FrameOk(h: Header, raw: seq<byte>, sum: Sum)
    requires |raw| == FrameSize(h)
  {
    && Be32(raw[..4]) != 0
    && raw[8..16] == h.salt
    && FrameSum(h, raw, sum) == Sum(Be32(raw[16..20]), Be32(raw[20..24]))
  }

  function FrameOf(h: Header, raw: seq<byte>): Frame
    requires |raw| == FrameSize(h)
  {
    Frame(Be32(raw[..4]), Be32(raw[4..8]), raw[FRAME_HEADER..])
  }

  /** The valid frames at the start of `body`: the scan stops at the first frame that fails a check. */
  function Frames(h: Header, body: seq<byte>, sum: Sum): (fs: seq<Frame>)
    ensures forall i :: 0 <= i < |fs| ==> |fs[i].page| == h.pageSize && fs[i].pageNo != 0
    decreases |body|
  {
    if |body| < FrameSize(h) || !FrameOk(h, body[..FrameSize(h)], sum) then []
    else
      var raw := body[..FrameSize(h)];
      [FrameOf(h, raw)] + Frames(h, body[FrameSize(h)..], FrameSum(h, raw, sum))
  }

  /** The frames of a log whose header is accepted; none otherwise. */
  function LogFrames(wal: seq<byte>): seq<Frame> {
    match ParseHeader(wal)
    case None => []
    case Some(h) => Frames(h, wal[WAL_HEADER..], h.sum)
  }

  /** Groups frames into committed transactions; `pending` are frames already waiting for a commit. */
  function Transactions(frames: seq<Frame>, pending: seq<Write>): seq<Txn> {
    if frames == [] then []
    else
      var f := frames[0];
      var writes := pending + [Write(f.pageNo, f.page)];
      if f.commit == 0 then Transactions(frames[1..], writes)
      else [Txn(writes, f.commit)] + Transactions(frames[1..], [])
  }

  function LogTransactions(wal: seq<byte>): seq<Txn> {
    Transactions(LogFrames(wal), [])
  }

  function AllWrites(txns: seq<Txn>): seq<Write> {
    if txns == [] then [] else AllWrites(txns[..|txns| - 1]) + txns[|txns| - 1].writes
  }

  /** The page count the last transaction commits. */
  function LastPages(txns: seq<Txn>): u32
    requires txns != []
  {
    txns[|txns| - 1].pages
  }

  ghost predicate WritesSized(writes: seq<Write>, ps: nat) {
    forall i :: 0 <= i < |writes| ==> |writes[i].page| == ps && writes[i].pageNo != 0
  }

  ghost predicate TxnsSized(txns: seq<Txn>, ps: nat) {
    forall i :: 0 <= i < |txns| ==> WritesSized(txns[i].writes, ps) && txns[i].pages != 0
  }

  lemma {:induction false} TransactionsSized(frames: seq<Frame>, pending: seq<Write>, ps: nat)
    requires forall i :: 0 <= i < |frames| ==> |frames[i].page| == ps && frames[i].pageNo != 0
    requires WritesSized(pending, ps)
    ensures TxnsSized(Transactions(frames, pending), ps)
  {
    if frames != [] {
      var f := frames[0];
      TransactionsSized(frames[1..], if f.commit == 0 then pending + [Write(f.pageNo, f.page)] else [], ps);
    }
  }

  lemma {:induction false} CommitsPositive(frames: seq<Frame>, pending: seq<Write>)
    ensures forall i :: 0 <= i < |Transactions(frames, pending)| ==> Transactions(frames, pending)[i].pages != 0
  {
    if frames != [] {
      var f := frames[0];
      CommitsPositive(frames[1..], if f.commit == 0 then pending + [Write(f.pageNo, f.page)] else []);
    }
  }

  lemma {:induction false} AllWritesSized(txns: seq<Txn>, ps: nat)
    requires TxnsSized(txns, ps)
    ensures WritesSized(AllWrites(txns), ps)
  {
    if txns != [] {
      AllWritesSized(txns[..|txns| - 1], ps);
    }
  }

  lemma LogTransactionsSized(wal: seq<byte>)
    ensures ParseHeader(wal).Some? ==> TxnsSized(LogTransactions(wal), ParseHeader(wal).value.pageSize)
  {
    if ParseHeader(wal).Some? {
      TransactionsSized(LogFrames(wal), [], ParseHeader(wal).value.pageSize);
    }
  }

  /** `data` cut or zero-extended to `len` bytes. */
  function Padded(data: seq<byte>, len: nat): (r: seq<byte>)
    ensures |r| == len
  {
    if |data| >= len then data[..len] else data + Zeros(len - |data|)
  }

  /** The image of `n` pages that replay starts from: `plain`, cut or zero-extended. */
  function InitialPages(plain: seq<byte>, ps: nat, n: nat): (pages: seq<Page>)
    requires ps > 0
    ensures |pages| == n && Sized(pages, ps)
    ensures Flatten(pages) == Padded(plain, Offset(n, ps))
  {
    OffsetDiv(n, ps);
    FlattenSplit(Padded(plain, Offset(n, ps)), ps);
    SplitPages(Padded(plain, Offset(n, ps)), ps)
  }

  /** Decrypts the writes into the image in order, skipping pages beyond its end. */
  function ApplyWrites(d: PageCipher, pages: seq<Page>, writes: seq<Write>): (r: Result<seq<Page>, Error>)
    ensures r.Ok? ==> |r.value| == |pages|
    decreases writes
  {
    if writes == [] then Ok(pages)
    else
      var w := writes[0];
      if w.pageNo == 0 || w.pageNo > |pages| then ApplyWrites(d, pages, writes[1..])
      else
        var page :- d(w.pageNo, w.page);
        ApplyWrites(d, pages[w.pageNo - 1 := page], writes[1..])
  }

  /** An image of `dbPages` pages built from `plain` and the committed writes. */
  function Overlay(d: PageCipher, plain: seq<byte>, ps: nat, writes: seq<Write>, dbPages: nat): Result<seq<byte>, Error>
    requires ps > 0
  {
    var max := |plain| / ps + |writes| + 1;
    if dbPages > max then Err(TooManyPages(dbPages, max))
    else
      var pages :- ApplyWrites(d, InitialPages(plain, ps, dbPages), writes);
      Ok(Flatten(pages))
  }

  /** What a log with these committed transactions does to a decrypted image. */
  function ReplayTxns(suite: seq<byte> -> Cipher, plain: seq<byte>, ps: nat, txns: seq<Txn>, key: seq<byte>): Result<seq<byte>, Error>
    requires ps >= PLAIN_HEADER && PageSizeReadable(plain)
  {
    if txns == [] then Ok(plain)
    else
      var dbSize :- PageSizeOf(plain);
      if dbSize != ps then Err(WalPageSize(ps, dbSize))
      else if |key| != KEY_AND_SALT then Err(KeyLength(|key|))
      else
        Overlay(Decryptor(suite(key), ps), plain, ps, AllWrites(txns), LastPages(txns))
  }

  function Replay(suite: seq<byte> -> Cipher, plain: seq<byte>, wal: seq<byte>, key: seq<byte>): Result<seq<byte>, Error>
    requires PageSizeReadable(plain)
  {
    match ParseHeader(wal)
    case None => Ok(plain)
    case Some(h) => ReplayTxns(suite, plain, h.pageSize, LogTransactions(wal), key)
  }

  /** A frame as the scan records it: its page stays in the log. */
  datatype FrameRef = FrameRef(pageNo: u32, offset: nat)

  predicate RefsInside(refs: seq<FrameRef>, wal: seq<byte>, ps: nat) {
    forall i :: 0 <= i < |refs| ==> refs[i].offset + ps <= |wal|
  }

  ghost function Deref(refs: seq<FrameRef>, wal: seq<byte>, ps: nat): (ws: seq<Write>)
    requires RefsInside(refs, wal, ps)
    ensures |ws| == |refs|
  {
    seq(|refs|, i requires 0 <= i < |refs| => Write(refs[i].pageNo, wal[refs[i].offset..refs[i].offset + ps]))
  }

  lemma AllWritesSnoc(txns: seq<Txn>, t: Txn)
    ensures AllWrites(txns + [t]) == AllWrites(txns) + t.writes
  {
    assert (txns + [t])[..|txns|] == txns;
  }

  /** Reads one frame and checks its page number, salt and cumulative checksum. */
  method CheckFrame(h: Header, frame: seq<byte>, sum: Sum)
    returns (ok: bool, next: Sum, pageNo: u32, commitPages: u32, ghost f: Frame)
    requires |frame| == FrameSize(h)
    ensures f == FrameOf(h, frame) && pageNo == f.pageNo && commitPages == f.commit
    ensures ok == FrameOk(h, frame, sum)
    ensures ok ==> next == FrameSum(h, frame, sum)
  {
    f := FrameOf(h, frame);
    pageNo, commitPages := Be32(frame[..4]), Be32(frame[4..8]);
    ok, next := false, sum;
    if pageNo == 0 || frame[8..16] != h.salt {
      return;
    }
    var s1, s2 := SqliteWalChecksum(h.bigEndian, frame[..8], sum.s1, sum.s2);
    s1, s2 := SqliteWalChecksum(h.bigEndian, frame[FRAME_HEADER..], s1, s2);
    if s1 != Be32(frame[16..20]) || s2 != Be32(frame[20..24]) {
      return;
    }
    ok, next := true, Sum(s1, s2);
  }

  lemma DerefSnoc(refs: seq<FrameRef>, r: FrameRef, wal: seq<byte>, ps: nat)
    requires RefsInside(refs + [r], wal, ps)
    ensures RefsInside(refs, wal, ps) && r.offset + ps <= |wal|
    ensures Deref(refs + [r], wal, ps) == Deref(refs, wal, ps) + [Write(r.pageNo, wal[r.offset..r.offset + ps])]
  {
    assert (refs + [r])[|refs|] == r;
    assert forall i :: 0 <= i < |refs| ==> (refs + [r])[i] == refs[i];
  }

  lemma DerefConcat(a: seq<FrameRef>, b: seq<FrameRef>, wal: seq<byte>, ps: nat)
    requires RefsInside(a, wal, ps) && RefsInside(b, wal, ps)
    ensures RefsInside(a + b, wal, ps)
    ensures Deref(a + b, wal, ps) == Deref(a, wal, ps) + Deref(b, wal, ps)
  {
  }

  lemma FramesStep(h: Header, body: seq<byte>, sum: Sum)
    requires |body| >= FrameSize(h)
    ensures var raw := body[..FrameSize(h)];
      Frames(h, body, sum) ==
        if FrameOk(h, raw, sum) then [FrameOf(h, raw)] + Frames(h, body[FrameSize(h)..], FrameSum(h, raw, sum)) else []
  {
  }

  /** One accepted frame moves from the unread log to the pending writes, or completes a transaction. */
  lemma TransactionsStep(f: Frame, rest: seq<Frame>, pending: seq<Write>)
    ensures var writes := pending + [Write(f.pageNo, f.page)];
      Transactions([f] + rest, pending) ==
        if f.commit == 0 then Transactions(rest, writes) else [Txn(writes, f.commit)] + Transactions(rest, [])
  {
    assert ([f] + rest)[1..] == rest;
  }

  /** What the frame loop knows at `off`: `done` transactions are collected, `waiting` writes are pending. */
  ghost predicate Scanned(wal: seq<byte>, h: Header, off: nat, sum: Sum, committed: seq<FrameRef>,
                          pending: seq<FrameRef>, all: seq<Txn>, done: seq<Txn>, waiting: seq<Write>)
  {
    && off <= |wal|
    && RefsInside(committed, wal, h.pageSize) && RefsInside(pending, wal, h.pageSize)
    && Deref(committed, wal, h.pageSize) == AllWrites(done) && Deref(pending, wal, h.pageSize) == waiting
    && all == done + Transactions(Frames(h, wal[off..], sum), waiting)
  }

  lemma ScanPending(wal: seq<byte>, off: nat, f: Frame, pending: seq<FrameRef>, waiting: seq<Write>)
    requires off + FRAME_HEADER + |f.page| <= |wal|
    requires wal[off + FRAME_HEADER..off + FRAME_HEADER + |f.page|] == f.page
    requires RefsInside(pending, wal, |f.page|) && Deref(pending, wal, |f.page|) == waiting
    ensures var pending' := pending + [FrameRef(f.pageNo, off + FRAME_HEADER)];
      && RefsInside(pending', wal, |f.page|)
      && Deref(pending', wal, |f.page|) == waiting + [Write(f.pageNo, f.page)]
  {
    DerefSnoc(pending, FrameRef(f.pageNo, off + FRAME_HEADER), wal, |f.page|);
  }

  /** A frame that fails its checks ends the log. */
  lemma ScanRejects(wal: seq<byte>, h: Header, off: nat, sum: Sum, committed: seq<FrameRef>,
                  pending: seq<FrameRef>, all: seq<Txn>, done: seq<Txn>, waiting: seq<Write>)
    requires Scanned(wal, h, off, sum, committed, pending, all, done, waiting)
    requires off + FrameSize(h) <= |wal| && !FrameOk(h, wal[off..off + FrameSize(h)], sum)
    ensures all == done
  {
    assert wal[off..][..FrameSize(h)] == wal[off..off + FrameSize(h)];
    FramesStep(h, wal[off..], sum);
  }

  /** A frame that passes joins the pending writes. */
  lemma ScanAccepts(wal: seq<byte>, h: Header, off: nat, sum: Sum, committed: seq<FrameRef>,
                  pending: seq<FrameRef>, all: seq<Txn>, done: seq<Txn>, waiting: seq<Write>)
    requires Scanned(wal, h, off, sum, committed, pending, all, done, waiting)
    requires off + FrameSize(h) <= |wal| && FrameOk(h, wal[off..off + FrameSize(h)], sum)
    ensures var frame := wal[off..off + FrameSize(h)];
      var f := FrameOf(h, frame);
      var pending', waiting' := pending + [FrameRef(f.pageNo, off + FRAME_HEADER)], waiting + [Write(f.pageNo, f.page)];
      var rest := Frames(h, wal[off + FrameSize(h)..], FrameSum(h, frame, sum));
      && RefsInside(pending', wal, h.pageSize) && Deref(pending', wal, h.pageSize) == waiting'
      && all == done + if f.commit == 0 then Transactions(rest, waiting') else [Txn(waiting', f.commit)] + Transactions(rest, [])
  {
    hide Frames, Transactions, FrameOk, FrameSum;
    var ps, body, frame := h.pageSize, wal[off..], wal[off..off + FrameSize(h)];
    assert body[..FrameSize(h)] == frame && body[FrameSize(h)..] == wal[off + FrameSize(h)..];
    FramesStep(h, body, sum);
    var f := FrameOf(h, frame);
    TransactionsStep(f, Frames(h, wal[off + FrameSize(h)..], FrameSum(h, frame, sum)), waiting);
    assert wal[off + FRAME_HEADER..off + FRAME_HEADER + ps] == f.page;
    ScanPending(wal, off, f, pending, waiting);
  }

  lemma ScanCommit(wal: seq<byte>, ps: nat, committed: seq<FrameRef>, pending: seq<FrameRef>, done: seq<Txn>, t: Txn, rest: seq<Txn>)
    requires RefsInside(committed, wal, ps) && RefsInside(pending, wal, ps)
    requires Deref(committed, wal, ps) == AllWrites(done) && Deref(pending, wal, ps) == t.writes
    ensures RefsInside(committed + pending, wal, ps)
    ensures Deref(committed + pending, wal, ps) == AllWrites(done + [t])
    ensures done + ([t] + rest) == done + [t] + rest
  {
    AllWritesSnoc(done, t);
    DerefConcat(committed, pending, wal, ps);
  }

  lemma ScanEnd(wal: seq<byte>, h: Header, off: nat, sum: Sum, committed: seq<FrameRef>,
                pending: seq<FrameRef>, all: seq<Txn>, done: seq<Txn>, waiting: seq<Write>)
    requires Scanned(wal, h, off, sum, committed, pending, all, done, waiting)
    requires off + FrameSize(h) > |wal|
    ensures all == done
  {
    assert Frames(h, wal[off..], sum) == [];
  }

  /** One iteration of the frame loop up to its commit test: read, check and queue one frame. */
  method ScanFrame(wal: seq<byte>, h: Header, off: nat, sum: Sum, committed: seq<FrameRef>, pending: seq<FrameRef>,
                   ghost all: seq<Txn>, ghost done: seq<Txn>, ghost waiting: seq<Write>)
    returns (ok: bool, next: Sum, queued: seq<FrameRef>, commitPages: u32, ghost writes: seq<Write>)
    requires Scanned(wal, h, off, sum, committed, pending, all, done, waiting)
    requires off + FrameSize(h) <= |wal|
    ensures !ok ==> all == done
    ensures ok && commitPages == 0 ==>
      Scanned(wal, h, off + FrameSize(h), next, committed, queued, all, done, writes)
    ensures ok && commitPages != 0 ==>
      queued != [] &&
      Scanned(wal, h, off + FrameSize(h), next, committed + queued, [], all, done + [Txn(writes, commitPages)], [])
  {
    var frame := wal[off..off + FrameSize(h)];
    var pageNo;
    ghost var f;
    ok, next, pageNo, commitPages, f := CheckFrame(h, frame, sum);
    queued, writes := pending, waiting;
    if !ok {
      ScanRejects(wal, h, off, sum, committed, pending, all, done, waiting);
      return;
    }
    ScanAccepts(wal, h, off, sum, committed, pending, all, done, waiting);
    queued := pending + [FrameRef(pageNo, off + FRAME_HEADER)];
    writes := waiting + [Write(f.pageNo, f.page)];
    if commitPages != 0 {
      ScanCommit(wal, h.pageSize, committed, queued, done, Txn(writes, commitPages),
        Transactions(Frames(h, wal[off + FrameSize(h)..], next), []));
    }
  }

  /** The frame loop: collects the committed frames and the page count of the last commit. */
  method ScanFrames(wal: seq<byte>, h: Header, ghost all: seq<Txn>) returns (committed: seq<FrameRef>, dbPages: u32)
    requires |wal| >= WAL_HEADER && all == Transactions(Frames(h, wal[WAL_HEADER..], h.sum), [])
    ensures RefsInside(committed, wal, h.pageSize)
    ensures Deref(committed, wal, h.pageSize) == AllWrites(all)
    ensures committed == [] <==> all == []
    ensures all != [] ==> dbPages == LastPages(all)
  {
    var frameSize := FrameSize(h);
    var pending: seq<FrameRef> := [];
    committed, dbPages := [], 0;
    var sum, off := h.sum, WAL_HEADER;
    ghost var done: seq<Txn>, waiting: seq<Write> := [], [];
    while off + frameSize <= |wal|
      invariant Scanned(wal, h, off, sum, committed, pending, all, done, waiting)
      invariant (committed == [] <==> done == []) && (done != [] ==> dbPages == LastPages(done))
    {
      var ok, next, queued, commitPages, writes := ScanFrame(wal, h, off, sum, committed, pending, all, done, waiting);
      if !ok {
        return;
      }
      pending, waiting := queued, writes;
      if commitPages != 0 {
        committed := committed + pending;
        pending := [];
        dbPages := commitPages;
        done, waiting := done + [Txn(waiting, commitPages)], [];
      }
      off, sum := off + frameSize, next;
    }
    ScanEnd(wal, h, off, sum, committed, pending, all, done, waiting);
  }

  method ApplySqlcipherV4Wal(suite: seq<byte> -> Cipher, plain: seq<byte>, wal: seq<byte>, key: seq<byte>)
    returns (r: Result<seq<byte>, Error>)
    requires PageSizeReadable(plain)
    ensures r == Replay(suite, plain, wal, key)
  {
    var header := ParseHeader(wal);
    if header.None? {
      return Ok(plain);
    }
    var h := header.value;
    var ps := h.pageSize;
    var committed, dbPages := ScanFrames(wal, h, LogTransactions(wal));
    LogTransactionsSized(wal);
    if |committed| == 0 {
      return Ok(plain);
    }
    var dbSize :- PageSizeOf(plain);
    if dbSize != ps {
      return Err(WalPageSize(ps, dbSize));
    }
    if |key| != KEY_AND_SALT {
      return Err(KeyLength(|key|));
    }
    AllWritesSized(LogTransactions(wal), ps);
    r := BuildImage(suite(key), Decryptor(suite(key), ps), plain, ps, wal, committed, dbPages);
  }

  /** Bounds the page count, then allocates the image and overlays the committed frames. */
  method BuildImage(c: Cipher, ghost d: PageCipher, plain: seq<byte>, ps: nat, wal: seq<byte>, committed: seq<FrameRef>, dbPages: nat)
    returns (r: Result<seq<byte>, Error>)
    requires ps >= PLAIN_HEADER && d == Decryptor(c, ps)
    requires RefsInside(committed, wal, ps) && WritesSized(Deref(committed, wal, ps), ps)
    ensures r == Overlay(d, plain, ps, Deref(committed, wal, ps), dbPages)
  {
    var max := |plain| / ps + |committed| + 1;
    if dbPages > max {
      return Err(TooManyPages(dbPages, max));
    }
    OffsetIsProduct(dbPages, ps);
    var out := NewImage(plain, dbPages * ps);
    var e := OverlayFrames(c, d, ps, out, InitialPages(plain, ps, dbPages), wal, committed, dbPages);
    if e.Some? {
      return Err(e.value);
    }
    return Ok(out[..]);
  }

  function StartOf(pageNo: nat, ps: nat): (start: nat)
    requires pageNo > 0
    ensures start == Offset(pageNo - 1, ps)
  {
    OffsetIsProduct(pageNo - 1, ps);
    (pageNo - 1) * ps
  }

  /** The image buffer: a copy of `plain`, cut or zero-extended to whole pages. */
  method NewImage(plain: seq<byte>, size: nat) returns (out: array<byte>)
    ensures fresh(out) && out[..] == Padded(plain, size)
  {
    out := new byte[size](i => 0);
    var n := if |plain| < size then |plain| else size;
    Put(out, 0, plain[..n]);
    assert out[..] == Padded(plain, size);
  }

  /** Decrypts one committed page over the image. */
  method OverlayPage(c: Cipher, ghost d: PageCipher, ps: nat, out: array<byte>, ghost pages: seq<Page>, pageNo: nat, page: Page)
    returns (e: Option<Error>)
    requires ps >= PLAIN_HEADER && d == Decryptor(c, ps)
    requires Sized(pages, ps) && |page| == ps && 0 < pageNo <= |pages|
    requires out[..] == Flatten(pages)
    modifies out
    ensures var r := d(pageNo, page);
      if r.Ok? then e == None && |r.value| == ps && out[..] == Flatten(pages[pageNo - 1 := r.value]) else e == Some(r.error)
  {
    FlattenUpdate(pages, ps, pageNo - 1, page);
    e := DecryptPageAt(c, d, pageNo, ps, page, out, StartOf(pageNo, ps));
    if e.None? {
      FlattenUpdate(pages, ps, pageNo - 1, d(pageNo, page).value);
    }
  }

  lemma ApplyWritesStep(d: PageCipher, pages: seq<Page>, writes: seq<Write>, i: nat)
    requires i < |writes|
    ensures ApplyWrites(d, pages, writes[i..]) ==
      if writes[i].pageNo == 0 || writes[i].pageNo > |pages| then ApplyWrites(d, pages, writes[i + 1..])
      else
        var page := d(writes[i].pageNo, writes[i].page);
        if page.Err? then Err(page.error) else ApplyWrites(d, pages[writes[i].pageNo - 1 := page.value], writes[i + 1..])
  {
    hide ApplyWrites;
    var rest := writes[i..];
    assert rest[0] == writes[i] && rest[1..] == writes[i + 1..];
    ApplyFirst(d, pages, rest);
  }

  lemma ApplyFirst(d: PageCipher, pages: seq<Page>, writes: seq<Write>)
    requires writes != []
    ensures var w, rest := writes[0], writes[1..];
      ApplyWrites(d, pages, writes) ==
        if w.pageNo == 0 || w.pageNo > |pages| then ApplyWrites(d, pages, rest)
        else
          var page := d(w.pageNo, w.page);
          if page.Err? then Err(page.error) else ApplyWrites(d, pages[w.pageNo - 1 := page.value], rest)
  {
  }

  /** One iteration of the overlay loop. */
  method OverlayFrame(c: Cipher, ghost d: PageCipher, ps: nat, out: array<byte>, ghost pages: seq<Page>, wal: seq<byte>,
                      frame: FrameRef, dbPages: nat, ghost writes: seq<Write>, ghost i: nat)
    returns (e: Option<Error>, ghost next: seq<Page>)
    requires ps >= PLAIN_HEADER && d == Decryptor(c, ps) && i < |writes|
    requires frame.offset + ps <= |wal| && writes[i] == Write(frame.pageNo, wal[frame.offset..frame.offset + ps])
    requires frame.pageNo != 0 && Sized(pages, ps) && |pages| == dbPages && out[..] == Flatten(pages)
    modifies out
    ensures e.Some? ==> ApplyWrites(d, pages, writes[i..]) == Err(e.value)
    ensures e.None? ==> Sized(next, ps) && |next| == dbPages && out[..] == Flatten(next)
    ensures e.None? ==> ApplyWrites(d, next, writes[i + 1..]) == ApplyWrites(d, pages, writes[i..])
  {
    ApplyWritesStep(d, pages, writes, i);
    e, next := None, pages;
    if frame.pageNo <= dbPages {
      var page := wal[frame.offset..frame.offset + ps];
      e := OverlayPage(c, d, ps, out, pages, frame.pageNo, page);
      if e.None? {
        next := pages[frame.pageNo - 1 := d(frame.pageNo, page).value];
      }
    }
  }

  /** The overlay loop, starting from an image buffer that holds `first`. */
  method OverlayFrames(c: Cipher, ghost d: PageCipher, ps: nat, out: array<byte>, ghost first: seq<Page>,
                       wal: seq<byte>, committed: seq<FrameRef>, dbPages: nat)
    returns (e: Option<Error>)
    requires ps >= PLAIN_HEADER && d == Decryptor(c, ps)
    requires RefsInside(committed, wal, ps) && Sized(first, ps) && |first| == dbPages
    requires WritesSized(Deref(committed, wal, ps), ps)
    requires out[..] == Flatten(first)
    modifies out
    ensures var r := ApplyWrites(d, first, Deref(committed, wal, ps));
      if r.Ok? then e == None && out[..] == Flatten(r.value) else e == Some(r.error)
  {
    ghost var writes, pages := Deref(committed, wal, ps), first;
    var i := 0;
    while i < |committed|
      invariant 0 <= i <= |committed|
      invariant Sized(pages, ps) && |pages| == dbPages && out[..] == Flatten(pages)
      invariant ApplyWrites(d, pages, writes[i..]) == ApplyWrites(d, first, writes)
    {
      e, pages := OverlayFrame(c, d, ps, out, pages, wal, committed[i], dbPages, writes, i);
      if e.Some? {
        return;
      }
      i := i + 1;
    }
    e := None;
  }
}
