/**
 Write-ahead logs as SQLite writes them, byte by byte (sections 4.1 and 4.2 of the SQLite Database File Format document),
 and what scanning one finds.
 */
module WalFormat {
  import opened Bytes
  import opened Pages
  import opened Sqlcipher
  import opened Wal
  import opened WalChecksum
  import opened Wrappers

  /** Four bytes, the most significant first. */
  function Big(u: u32): (b: seq<byte>)
    ensures |b| == 4
  {
    [u / 0x100_0000, u / 0x1_0000 % 0x100, u / 0x100 % 0x100, u % 0x100]
  }

  /** The number that four bytes spell, in either order. */
  function Spelled(bigEndian: bool, b: seq<byte>): (u: int)
    requires |b| == 4
    ensures 0 <= u < 0x1_0000_0000
  {
    var d: seq<int> := b;
    if bigEndian then 0x100_0000 * d[0] + 0x1_0000 * d[1] + 0x100 * d[2] + d[3]
    else d[0] + 0x100 * d[1] + 0x1_0000 * d[2] + 0x100_0000 * d[3]
  }

  /** The two running sums after whole blocks of two words. */
  function Sums(bigEndian: bool, data: seq<byte>, s: (u32, u32)): (u32, u32)
    decreases |data|
  {
    if |data| < 8 then s
    else
      var a := (s.0 + Spelled(bigEndian, data[..4]) + s.1) % 0x1_0000_0000;
      Sums(bigEndian, data[8..], (a, (s.1 + Spelled(bigEndian, data[4..8]) + a) % 0x1_0000_0000))
  }

  /** A log: the byte order of its sums, its header fields, its frames, and bytes after them that are no frame. */
  datatype Log = Log(bigEndian: bool, version: seq<byte>, pageSize: u32, checkpoint: seq<byte>, salt: seq<byte>,
                     frames: seq<Frame>, tail: seq<byte>)

  function HeaderFields(log: Log): seq<byte> {
    [0x37, 0x7f, 0x06, if log.bigEndian then 0x83 else 0x82] + log.version + Big(log.pageSize) + log.checkpoint + log.salt
  }

  function Header32(log: Log): seq<byte> {
    var s := Sums(log.bigEndian, HeaderFields(log), (0, 0));
    HeaderFields(log) + Big(s.0) + Big(s.1)
  }

  /** The sums after a frame: its page number and commit size, then its page. */
  function FrameSums(bigEndian: bool, f: Frame, s: (u32, u32)): (u32, u32) {
    Sums(bigEndian, f.page, Sums(bigEndian, Big(f.pageNo) + Big(f.commit), s))
  }

  function PutFrame(bigEndian: bool, salt: seq<byte>, f: Frame, s: (u32, u32)): seq<byte> {
    var t := FrameSums(bigEndian, f, s);
    Big(f.pageNo) + Big(f.commit) + salt + Big(t.0) + Big(t.1) + f.page
  }

  function PutFrames(bigEndian: bool, salt: seq<byte>, fs: seq<Frame>, s: (u32, u32)): seq<byte>
    decreases |fs|
  {
    if fs == [] then []
    else PutFrame(bigEndian, salt, fs[0], s) + PutFrames(bigEndian, salt, fs[1..], FrameSums(bigEndian, fs[0], s))
  }

  function SumsAfter(bigEndian: bool, fs: seq<Frame>, s: (u32, u32)): (u32, u32)
    decreases |fs|
  {
    if fs == [] then s else SumsAfter(bigEndian, fs[1..], FrameSums(bigEndian, fs[0], s))
  }

  /** Bytes that are not the next frame: too few, page number zero, another salt, or other sums. */
  predicate NoFrame(bigEndian: bool, salt: seq<byte>, ps: nat, s: (u32, u32), tail: seq<byte>) {
    || |tail| < 24 + ps
    || tail[..4] == [0, 0, 0, 0]
    || tail[8..16] != salt
    || var t := Sums(bigEndian, tail[24..24 + ps], Sums(bigEndian, tail[..8], s)); tail[16..24] != Big(t.0) + Big(t.1)
  }

  predicate LegalPageSize(ps: nat) {
    ps in {512, 1024, 2048, 4096, 8192, 16384, 32768, 65536}
  }

  ghost predicate WellFormed(log: Log) {
    && |log.version| == 4 && |log.checkpoint| == 4 && |log.salt| == 8 && LegalPageSize(log.pageSize)
    && (forall i :: 0 <= i < |log.frames| ==> |log.frames[i].page| == log.pageSize && log.frames[i].pageNo != 0)
    && NoFrame(log.bigEndian, log.salt, log.pageSize, SumsAfter(log.bigEndian, log.frames, FirstSums(log)), log.tail)
  }

  function FirstSums(log: Log): (u32, u32) {
    Sums(log.bigEndian, HeaderFields(log), (0, 0))
  }

  function PutLog(log: Log): seq<byte> {
    Header32(log) + PutFrames(log.bigEndian, log.salt, log.frames, FirstSums(log)) + log.tail
  }

  // Words and sums.

  lemma BigSpells(u: u32)
    ensures Be32(Big(u)) == u
  {
    var q := u / 0x100;
    var r := q / 0x100;
    assert u / 0x1_0000 == r && u / 0x100_0000 == r / 0x100;
  }

  lemma BigOf(b: seq<byte>)
    requires |b| == 4
    ensures Big(Be32(b)) == b
  {
    BigSpells(Be32(b));
    WordInjective(true, Big(Be32(b)), b);
  }

  lemma SpelledIsWord(bigEndian: bool, b: seq<byte>)
    requires |b| == 4
    ensures Word(bigEndian, b) == Spelled(bigEndian, b)
  {
    WordsSpelled(b);
  }

  lemma AddsUp(a: u32, w: u32, b: u32)
    ensures Add32(a, Add32(w, b)) == (a + w + b) % TWO32
  {
    var q := (w + b) / TWO32;
    assert a + w + b == a + (w + b) % TWO32 + q * TWO32;
  }

  function Pair(s: Sum): (u32, u32) {
    (s.s1, s.s2)
  }

  /** Two words added to two sums. */
  function Advanced(s: (u32, u32), lo: u32, hi: u32): (u32, u32) {
    var a := (s.0 + lo + s.1) % TWO32;
    (a, (s.1 + hi + a) % TWO32)
  }

  lemma SumsOfBlock(bigEndian: bool, block: seq<byte>, s: (u32, u32))
    requires |block| == 8
    ensures Sums(bigEndian, block, s) == Advanced(s, Spelled(bigEndian, block[..4]), Spelled(bigEndian, block[4..8]))
  {
    hide Spelled;
    SumsShort(bigEndian, block[8..], Advanced(s, Spelled(bigEndian, block[..4]), Spelled(bigEndian, block[4..8])));
  }

  lemma StepAdvances(bigEndian: bool, block: seq<byte>, s: Sum)
    requires |block| == 8
    ensures Pair(Step(bigEndian, block, s)) == Advanced(Pair(s), Word(bigEndian, block[..4]), Word(bigEndian, block[4..8]))
  {
    hide Word, Add32;
    AddsUp(s.s1, Word(bigEndian, block[..4]), s.s2);
    AddsUp(s.s2, Word(bigEndian, block[4..8]), Step(bigEndian, block, s).s1);
  }

  /** One step of the checksum, by its numbers. */
  lemma StepSums(bigEndian: bool, block: seq<byte>, s: Sum)
    requires |block| == 8
    ensures Pair(Step(bigEndian, block, s)) == Sums(bigEndian, block, Pair(s))
  {
    hide Word, Spelled, Sums, Step, Advanced;
    SpelledIsWord(bigEndian, block[..4]);
    SpelledIsWord(bigEndian, block[4..8]);
    StepAdvances(bigEndian, block, s);
    SumsOfBlock(bigEndian, block, Pair(s));
  }

  lemma SumsShort(bigEndian: bool, data: seq<byte>, s: (u32, u32))
    requires |data| < 8
    ensures Sums(bigEndian, data, s) == s
  {
  }

  lemma SumsStep(bigEndian: bool, data: seq<byte>, s: (u32, u32))
    requires |data| >= 8
    ensures Sums(bigEndian, data, s) == Sums(bigEndian, data[8..], Sums(bigEndian, data[..8], s))
  {
    hide Spelled;
    var block := data[..8];
    assert block[..4] == data[..4] && block[4..8] == data[4..8];
    SumsOfBlock(bigEndian, block, s);
  }

  /** The checksum is the running sums. */
  lemma {:induction false} ChecksumIsSums(bigEndian: bool, data: seq<byte>, s: Sum)
    ensures Pair(Checksum(bigEndian, data, s)) == Sums(bigEndian, data, Pair(s))
    decreases |data|
  {
    hide Step;
    if |data| >= 8 {
      StepSums(bigEndian, data[..8], s);
      SumsStep(bigEndian, data, Pair(s));
      ChecksumIsSums(bigEndian, data[8..], Step(bigEndian, data[..8], s));
    }
  }

  function Doubled(k: nat): nat {
    if k == 0 then 1 else 2 * Doubled(k - 1)
  }

  lemma {:induction false} PowerIsDoubled(n: nat) returns (k: nat)
    requires IsPowerOfTwo(n)
    ensures n == Doubled(k)
  {
    k := 0;
    if n != 1 {
      k := PowerIsDoubled(n / 2);
      k := k + 1;
    }
  }

  lemma {:induction false} DoubledIsPower(k: nat)
    ensures IsPowerOfTwo(Doubled(k)) && Doubled(k) > 0
  {
    if k > 0 {
      DoubledIsPower(k - 1);
    }
  }

  lemma {:induction false} DoubledGrows(j: nat, k: nat)
    requires j <= k
    ensures Doubled(j) <= Doubled(k)
  {
    if j < k {
      DoubledGrows(j, k - 1);
      DoubledIsPower(k - 1);
    }
  }

  lemma DoubledValues()
    ensures Doubled(9) == 512 && Doubled(10) == 1024 && Doubled(11) == 2048 && Doubled(12) == 4096 && Doubled(13) == 8192
    ensures Doubled(14) == 16384 && Doubled(15) == 32768 && Doubled(16) == 65536
  {
    assert Doubled(3) == 8 && Doubled(6) == 64;
    assert Doubled(9) == 8 * Doubled(6);
    assert Doubled(12) == 8 * Doubled(9);
    assert Doubled(15) == 8 * Doubled(12);
  }

  /** A page size is legal exactly when it is one of the eight powers of two. */
  lemma LegalIsValid(ps: nat)
    ensures ValidPageSize(ps) <==> LegalPageSize(ps)
  {
    hide IsPowerOfTwo, Doubled;
    DoubledValues();
    if ValidPageSize(ps) {
      var k := PowerIsDoubled(ps);
      if k < 9 {
        DoubledGrows(k + 1, 9);
        DoubledStep(k);
      } else if k > 16 {
        DoubledGrows(17, k);
        DoubledStep(16);
      }
    }
    for k := 9 to 17
      invariant forall j :: 9 <= j < k ==> IsPowerOfTwo(Doubled(j))
    {
      DoubledIsPower(k);
    }
    assert IsPowerOfTwo(Doubled(9)) && IsPowerOfTwo(Doubled(10)) && IsPowerOfTwo(Doubled(11)) && IsPowerOfTwo(Doubled(12));
    assert IsPowerOfTwo(Doubled(13)) && IsPowerOfTwo(Doubled(14)) && IsPowerOfTwo(Doubled(15)) && IsPowerOfTwo(Doubled(16));
  }

  lemma DoubledStep(k: nat)
    ensures Doubled(k + 1) == 2 * Doubled(k) && Doubled(k) > 0
  {
    DoubledIsPower(k);
  }

  // Frames.

  lemma FrameParts(bigEndian: bool, salt: seq<byte>, f: Frame, s: (u32, u32))
    requires |salt| == 8
    ensures var raw, t := PutFrame(bigEndian, salt, f, s), FrameSums(bigEndian, f, s);
      && |raw| == 24 + |f.page| && raw[..4] == Big(f.pageNo) && raw[4..8] == Big(f.commit) && raw[8..16] == salt
      && raw[16..20] == Big(t.0) && raw[20..24] == Big(t.1) && raw[24..] == f.page && raw[..8] == Big(f.pageNo) + Big(f.commit)
  {
    hide Big, FrameSums;
  }

  lemma FrameSumIs(h: Header, raw: seq<byte>, sum: Sum)
    requires |raw| == FrameSize(h)
    ensures Pair(FrameSum(h, raw, sum)) == Sums(h.bigEndian, raw[24..], Sums(h.bigEndian, raw[..8], Pair(sum)))
  {
    hide Checksum, Sums;
    ChecksumIsSums(h.bigEndian, raw[..8], sum);
    ChecksumIsSums(h.bigEndian, raw[24..], Checksum(h.bigEndian, raw[..8], sum));
  }

  /** A printed frame is accepted, and read as what was printed. */
  lemma FramePrinted(h: Header, f: Frame, sum: Sum)
    requires |f.page| == h.pageSize && f.pageNo != 0 && |h.salt| == 8
    ensures var raw := PutFrame(h.bigEndian, h.salt, f, Pair(sum));
      && |raw| == FrameSize(h) && FrameOk(h, raw, sum) && FrameOf(h, raw) == f
      && Pair(FrameSum(h, raw, sum)) == FrameSums(h.bigEndian, f, Pair(sum))
  {
    hide Big, PutFrame, FrameSum, Be32;
    var raw, t := PutFrame(h.bigEndian, h.salt, f, Pair(sum)), FrameSums(h.bigEndian, f, Pair(sum));
    FrameParts(h.bigEndian, h.salt, f, Pair(sum));
    FrameSumIs(h, raw, sum);
    BigSpells(f.pageNo);
    BigSpells(f.commit);
    BigSpells(t.0);
    BigSpells(t.1);
  }

  /** An accepted frame is the print of what it is read as. */
  lemma FrameFromText(h: Header, raw: seq<byte>, sum: Sum)
    requires |raw| == FrameSize(h) && FrameOk(h, raw, sum)
    ensures raw == PutFrame(h.bigEndian, h.salt, FrameOf(h, raw), Pair(sum))
    ensures Pair(FrameSum(h, raw, sum)) == FrameSums(h.bigEndian, FrameOf(h, raw), Pair(sum))
  {
    hide Big, FrameSum, Be32, Sums;
    var f := FrameOf(h, raw);
    FrameSumIs(h, raw, sum);
    BigOf(raw[..4]);
    BigOf(raw[4..8]);
    BigOf(raw[16..20]);
    BigOf(raw[20..24]);
    assert raw[..8] == raw[..4] + raw[4..8];
    assert raw == raw[..4] + raw[4..8] + raw[8..16] + raw[16..20] + raw[20..24] + raw[24..];
  }

  lemma TwoWords(b: seq<byte>, u: u32, v: u32)
    requires |b| == 8
    ensures b == Big(u) + Big(v) <==> Be32(b[..4]) == u && Be32(b[4..]) == v
  {
    hide Big, Be32;
    BigSpells(u);
    BigSpells(v);
    BigOf(b[..4]);
    BigOf(b[4..]);
    assert b == b[..4] + b[4..];
    assert (Big(u) + Big(v))[..4] == Big(u) && (Big(u) + Big(v))[4..] == Big(v);
  }

  lemma ZeroWord(b: seq<byte>)
    requires |b| == 4
    ensures b == [0, 0, 0, 0] <==> Be32(b) == 0
  {
    WordsSpelled(b);
  }

  /** What ends the scan. */
  lemma ScanEnds(h: Header, body: seq<byte>, sum: Sum)
    ensures NoFrame(h.bigEndian, h.salt, h.pageSize, Pair(sum), body) <==>
      |body| < FrameSize(h) || !FrameOk(h, body[..FrameSize(h)], sum)
  {
    hide Big, Be32, Sums, FrameSum;
    if |body| >= FrameSize(h) {
      var raw := body[..FrameSize(h)];
      assert raw[..4] == body[..4] && raw[8..16] == body[8..16] && raw[..8] == body[..8] && raw[24..] == body[24..24 + h.pageSize];
      assert raw[16..24] == body[16..24] && raw[16..24][..4] == raw[16..20] && raw[16..24][4..] == raw[20..24];
      FrameSumIs(h, raw, sum);
      var t := Pair(FrameSum(h, raw, sum));
      TwoWords(body[16..24], t.0, t.1);
      ZeroWord(body[..4]);
    }
  }

  /** Scanning printed frames finds them, whatever follows that is no frame. */
  lemma {:induction false} FramesPrinted(h: Header, fs: seq<Frame>, sum: Sum, tail: seq<byte>)
    requires |h.salt| == 8 && forall i :: 0 <= i < |fs| ==> |fs[i].page| == h.pageSize && fs[i].pageNo != 0
    requires NoFrame(h.bigEndian, h.salt, h.pageSize, SumsAfter(h.bigEndian, fs, Pair(sum)), tail)
    ensures Frames(h, PutFrames(h.bigEndian, h.salt, fs, Pair(sum)) + tail, sum) == fs
    decreases |fs|
  {
    hide NoFrame, PutFrame, FrameOk, FrameOf, FrameSum, FrameSums;
    var body := PutFrames(h.bigEndian, h.salt, fs, Pair(sum)) + tail;
    if fs == [] {
      assert body == tail;
      ScanEnds(h, tail, sum);
    } else {
      var raw, rest := PutFrame(h.bigEndian, h.salt, fs[0], Pair(sum)), fs[1..];
      FramePrinted(h, fs[0], sum);
      var next := FrameSum(h, raw, sum);
      assert body == raw + (PutFrames(h.bigEndian, h.salt, rest, Pair(next)) + tail);
      assert body[..FrameSize(h)] == raw && body[FrameSize(h)..] == PutFrames(h.bigEndian, h.salt, rest, Pair(next)) + tail;
      FramesPrinted(h, rest, next, tail);
      FramesStep(h, body, sum);
      assert fs == [fs[0]] + rest;
    }
  }

  /** What a scan reads is the print of the frames it finds, up to bytes that are no frame. */
  lemma {:induction false} FramesFromText(h: Header, body: seq<byte>, sum: Sum) returns (tail: seq<byte>)
    ensures var fs := Frames(h, body, sum);
      && body == PutFrames(h.bigEndian, h.salt, fs, Pair(sum)) + tail
      && NoFrame(h.bigEndian, h.salt, h.pageSize, SumsAfter(h.bigEndian, fs, Pair(sum)), tail)
    decreases |body|
  {
    hide NoFrame, PutFrame, FrameOk, FrameOf, FrameSum, FrameSums;
    ScanEnds(h, body, sum);
    tail := body;
    if |body| >= FrameSize(h) {
      FramesStep(h, body, sum);
      var raw := body[..FrameSize(h)];
      if FrameOk(h, raw, sum) {
        FrameFromText(h, raw, sum);
        tail := FramesFromText(h, body[FrameSize(h)..], FrameSum(h, raw, sum));
        var fs := Frames(h, body, sum);
        assert fs[1..] == Frames(h, body[FrameSize(h)..], FrameSum(h, raw, sum));
        assert body == raw + body[FrameSize(h)..];
      }
    }
  }

  // Headers.

  ghost predicate Shaped(log: Log) {
    |log.version| == 4 && |log.checkpoint| == 4 && |log.salt| == 8 && LegalPageSize(log.pageSize)
  }

  lemma HeaderParts(log: Log, rest: seq<byte>)
    requires Shaped(log)
    ensures var wal, s := Header32(log) + rest, FirstSums(log);
      && |Header32(log)| == 32 && wal[32..] == rest
      && wal[..4] == [0x37, 0x7f, 0x06, if log.bigEndian then 0x83 else 0x82] && wal[8..12] == Big(log.pageSize)
      && wal[16..24] == log.salt && wal[..24] == HeaderFields(log) && wal[24..28] == Big(s.0) && wal[28..32] == Big(s.1)
  {
    hide Big, Sums;
  }

  function Parsed(log: Log): Header {
    Header(log.bigEndian, log.pageSize, log.salt, Sum(FirstSums(log).0, FirstSums(log).1))
  }

  lemma MagicWord(b: seq<byte>)
    requires |b| == 4
    ensures b == [0x37, 0x7f, 0x06, 0x82] <==> Be32(b) == MAGIC_LE
    ensures b == [0x37, 0x7f, 0x06, 0x83] <==> Be32(b) == MAGIC_BE
  {
    WordsSpelled(b);
  }

  /** A printed header is accepted. */
  lemma HeaderPrinted(log: Log, rest: seq<byte>)
    requires Shaped(log)
    ensures ParseHeader(Header32(log) + rest) == Some(Parsed(log))
  {
    hide Big, Sums, Be32, Header32, Checksum, HeaderFields, ValidPageSize, LegalPageSize;
    var wal := Header32(log) + rest;
    HeaderParts(log, rest);
    LegalIsValid(log.pageSize);
    MagicWord(wal[..4]);
    BigSpells(log.pageSize);
    BigSpells(FirstSums(log).0);
    BigSpells(FirstSums(log).1);
    ChecksumIsSums(log.bigEndian, wal[..24], Sum(0, 0));
  }

  /** The log that a byte string is, if its header is accepted. */
  ghost function LogOf(wal: seq<byte>, frames: seq<Frame>, tail: seq<byte>): Log
    requires |wal| >= 32
  {
    Log(Be32(wal[..4]) == 0x377f_0683, wal[4..8], Be32(wal[8..12]), wal[12..16], wal[16..24], frames, tail)
  }

  /** An accepted header is printed. */
  lemma HeaderFromText(wal: seq<byte>, frames: seq<Frame>, tail: seq<byte>)
    requires ParseHeader(wal).Some?
    ensures |wal| >= 32 && Shaped(LogOf(wal, frames, tail)) && wal[..32] == Header32(LogOf(wal, frames, tail))
    ensures ParseHeader(wal) == Some(Parsed(LogOf(wal, frames, tail)))
  {
    hide Big, Sums, Be32, Checksum, ValidPageSize, LegalPageSize;
    var log := LogOf(wal, frames, tail);
    LegalIsValid(log.pageSize);
    MagicWord(wal[..4]);
    BigOf(wal[8..12]);
    BigOf(wal[24..28]);
    BigOf(wal[28..32]);
    assert wal[..24] == wal[..4] + wal[4..8] + wal[8..12] + wal[12..16] + wal[16..24];
    assert HeaderFields(log) == wal[..24];
    ChecksumIsSums(log.bigEndian, wal[..24], Sum(0, 0));
    assert wal[..32] == wal[..24] + wal[24..28] + wal[28..32];
  }

  // Whole logs.

  /** Scanning a printed log finds its header and its frames. */
  lemma LogPrinted(log: Log)
    requires WellFormed(log)
    ensures ParseHeader(PutLog(log)) == Some(Parsed(log)) && LogFrames(PutLog(log)) == log.frames
  {
    hide NoFrame, Header32, ParseHeader, PutFrames, Frames, LegalPageSize;
    var rest := PutFrames(log.bigEndian, log.salt, log.frames, FirstSums(log)) + log.tail;
    assert PutLog(log) == Header32(log) + rest;
    HeaderPrinted(log, rest);
    HeaderParts(log, rest);
    FramesPrinted(Parsed(log), log.frames, Parsed(log).sum, log.tail);
  }

  /** A log whose header is accepted is printed, with the frames that scanning it finds. */
  lemma LogFromText(wal: seq<byte>) returns (log: Log)
    requires ParseHeader(wal).Some?
    ensures WellFormed(log) && PutLog(log) == wal && log.frames == LogFrames(wal)
  {
    hide NoFrame, Header32, ParseHeader, PutFrames, Frames, LegalPageSize;
    HeaderFromText(wal, LogFrames(wal), []);
    var h := ParseHeader(wal).value;
    var tail := FramesFromText(h, wal[32..], h.sum);
    HeaderFromText(wal, LogFrames(wal), tail);
    log := LogOf(wal, LogFrames(wal), tail);
    FramesSized(h, wal[32..], h.sum);
    assert wal == wal[..32] + wal[32..];
  }

  lemma FramesSized(h: Header, body: seq<byte>, sum: Sum)
    ensures forall i :: 0 <= i < |Frames(h, body, sum)| ==>
      |Frames(h, body, sum)[i].page| == h.pageSize && Frames(h, body, sum)[i].pageNo != 0
  {
  }

  // Transactions.

  /** A transaction's frames: only its last carries the page count it commits. */
  function TxnFrames(t: Txn): seq<Frame> {
    seq(|t.writes|, i requires 0 <= i < |t.writes| =>
      Frame(t.writes[i].pageNo, if i == |t.writes| - 1 then t.pages else 0, t.writes[i].page))
  }

  function AllFrames(txns: seq<Txn>): seq<Frame> {
    if txns == [] then [] else TxnFrames(txns[0]) + AllFrames(txns[1..])
  }

  /** The frames of writes that wait for a commit. */
  function Waiting(writes: seq<Write>): seq<Frame> {
    seq(|writes|, i requires 0 <= i < |writes| => Frame(writes[i].pageNo, 0, writes[i].page))
  }

  ghost predicate Committed(txns: seq<Txn>) {
    forall i :: 0 <= i < |txns| ==> txns[i].writes != [] && txns[i].pages != 0
  }

  lemma {:induction false} WaitingCompletesNothing(writes: seq<Write>, pending: seq<Write>)
    ensures Transactions(Waiting(writes), pending) == []
    decreases |writes|
  {
    if writes != [] {
      assert Waiting(writes)[1..] == Waiting(writes[1..]);
      WaitingCompletesNothing(writes[1..], pending + [writes[0]]);
    }
  }

  /** The rest of a transaction's frames complete it. */
  lemma {:induction false} TxnCompletes(done: seq<Write>, t: Txn, rest: seq<Frame>)
    requires t.writes != [] && t.pages != 0
    ensures Transactions(TxnFrames(t) + rest, done) == [Txn(done + t.writes, t.pages)] + Transactions(rest, [])
    decreases |t.writes|
  {
    var w, fs := t.writes[0], TxnFrames(t);
    assert fs == [fs[0]] + fs[1..];
    if |t.writes| == 1 {
      assert fs + rest == [fs[0]] + rest && t.writes == [w];
      TransactionsStep(fs[0], rest, done);
    } else {
      var u := Txn(t.writes[1..], t.pages);
      assert fs[1..] == TxnFrames(u);
      assert fs + rest == [fs[0]] + (TxnFrames(u) + rest);
      TransactionsStep(fs[0], TxnFrames(u) + rest, done);
      TxnCompletes(done + [w], u, rest);
      assert done + [w] + u.writes == done + t.writes;
    }
  }

  /** The frames of transactions, and of writes that wait, group into those transactions. */
  lemma {:induction false} FramesGroup(txns: seq<Txn>, writes: seq<Write>)
    requires Committed(txns)
    ensures Transactions(AllFrames(txns) + Waiting(writes), []) == txns
    decreases |txns|
  {
    if txns == [] {
      assert AllFrames(txns) + Waiting(writes) == Waiting(writes);
      WaitingCompletesNothing(writes, []);
    } else {
      var t, rest := txns[0], AllFrames(txns[1..]) + Waiting(writes);
      assert AllFrames(txns) + Waiting(writes) == TxnFrames(t) + rest;
      TxnCompletes([], t, rest);
      FramesGroup(txns[1..], writes);
      assert [] + t.writes == t.writes && txns == [t] + txns[1..];
    }
  }

  lemma OneWaits(pending: seq<Write>, f: Frame)
    ensures f.commit == 0 ==> Waiting(pending + [Write(f.pageNo, f.page)]) == Waiting(pending) + [f]
    ensures TxnFrames(Txn(pending + [Write(f.pageNo, f.page)], f.commit)) == Waiting(pending) + [f]
  {
  }

  lemma FirstFrames(t: Txn, rest: seq<Txn>)
    ensures AllFrames([t] + rest) == TxnFrames(t) + AllFrames(rest)
  {
    assert ([t] + rest)[1..] == rest;
  }

  lemma NothingWaits(frames: seq<Frame>)
    ensures Waiting([]) + frames == frames
  {
  }

  /** A frame that commits nothing waits with the others. */
  lemma WaitsOn(pending: seq<Write>, f: Frame, tail: seq<Frame>, grouped: seq<Frame>)
    requires f.commit == 0 && Waiting(pending + [Write(f.pageNo, f.page)]) + tail == grouped
    ensures Waiting(pending) + ([f] + tail) == grouped
  {
    OneWaits(pending, f);
    assert Waiting(pending) + ([f] + tail) == Waiting(pending) + [f] + tail;
  }

  /** A frame that commits completes a transaction. */
  lemma Completes(pending: seq<Write>, f: Frame, tail: seq<Frame>, rest: seq<Txn>, writes: seq<Write>)
    requires Waiting([]) + tail == AllFrames(rest) + Waiting(writes)
    ensures var t := Txn(pending + [Write(f.pageNo, f.page)], f.commit);
      Waiting(pending) + ([f] + tail) == AllFrames([t] + rest) + Waiting(writes)
  {
    hide Waiting, TxnFrames, AllFrames;
    var t := Txn(pending + [Write(f.pageNo, f.page)], f.commit);
    OneWaits(pending, f);
    NothingWaits(tail);
    FirstFrames(t, rest);
    assert Waiting(pending) + ([f] + tail) == TxnFrames(t) + tail;
    assert TxnFrames(t) + AllFrames(rest) + Waiting(writes) == TxnFrames(t) + (AllFrames(rest) + Waiting(writes));
  }

  /** Any frames are those of the transactions they complete, and of writes that wait. */
  lemma {:induction false} GroupedFrames(frames: seq<Frame>, pending: seq<Write>) returns (writes: seq<Write>)
    ensures Committed(Transactions(frames, pending))
    ensures Waiting(pending) + frames == AllFrames(Transactions(frames, pending)) + Waiting(writes)
    decreases |frames|
  {
    hide Waiting, AllFrames, Transactions;
    if frames == [] {
      writes := pending;
      NoFrames(pending);
    } else {
      var f, tail := frames[0], frames[1..];
      var next := pending + [Write(f.pageNo, f.page)];
      assert frames == [f] + tail;
      TransactionsStep(f, tail, pending);
      if f.commit == 0 {
        writes := GroupedFrames(tail, next);
        WaitsOn(pending, f, tail, AllFrames(Transactions(tail, next)) + Waiting(writes));
      } else {
        writes := GroupedFrames(tail, []);
        Completes(pending, f, tail, Transactions(tail, []), writes);
      }
    }
  }

  lemma NoFrames(pending: seq<Write>)
    ensures Transactions([], pending) == [] && Waiting(pending) + [] == AllFrames([]) + Waiting(pending)
  {
  }

  /** `wal` is the print of these transactions, of writes that wait for a commit, and of bytes that are no frame. */
  ghost predicate Prints(wal: seq<byte>, log: Log, txns: seq<Txn>, writes: seq<Write>) {
    WellFormed(log) && wal == PutLog(log) && log.frames == AllFrames(txns) + Waiting(writes) && Committed(txns)
  }

  /** A printed log holds exactly the transactions that were printed, whatever follows them. */
  lemma PrintedTransactions(wal: seq<byte>, log: Log, txns: seq<Txn>, writes: seq<Write>)
    requires Prints(wal, log, txns, writes)
    ensures ParseHeader(wal) == Some(Parsed(log)) && LogTransactions(wal) == txns
  {
    hide WellFormed, ParseHeader, LogFrames, AllFrames, Waiting;
    LogPrinted(log);
    FramesGroup(txns, writes);
  }

  /** A byte string is accepted as a log of some transactions exactly when it is such a print. */
  lemma AcceptedLogIsPrinted(wal: seq<byte>, txns: seq<Txn>)
    ensures ParseHeader(wal).Some? && LogTransactions(wal) == txns <==> exists log, writes :: Prints(wal, log, txns, writes)
  {
    hide WellFormed, ParseHeader, LogFrames, AllFrames, Waiting, PutLog;
    if log, writes :| Prints(wal, log, txns, writes) {
      PrintedTransactions(wal, log, txns, writes);
    }
    if ParseHeader(wal).Some? && LogTransactions(wal) == txns {
      var log := LogFromText(wal);
      var writes := GroupedFrames(log.frames, []);
      NothingWaits(log.frames);
      assert Prints(wal, log, txns, writes);
    }
  }

  /**
   Replaying a printed log does to the image what its transactions do. Any other byte string leaves the image as it is.
   */
  lemma PrintedReplay(suite: seq<byte> -> Cipher, plain: seq<byte>, wal: seq<byte>, key: seq<byte>, log: Log, txns: seq<Txn>,
                      writes: seq<Write>)
    requires PageSizeReadable(plain)
    ensures Prints(wal, log, txns, writes) ==>
      LegalPageSize(log.pageSize) && Replay(suite, plain, wal, key) == ReplayTxns(suite, plain, log.pageSize, txns, key)
    ensures (forall l: Log, ts, ws :: !Prints(wal, l, ts, ws)) ==> Replay(suite, plain, wal, key) == Ok(plain)
  {
    hide ParseHeader, LogTransactions, PutLog, AllFrames, Waiting, ReplayTxns, NoFrame;
    if Prints(wal, log, txns, writes) {
      PrintedTransactions(wal, log, txns, writes);
    }
    if ParseHeader(wal).Some? {
      AcceptedLogIsPrinted(wal, LogTransactions(wal));
    }
  }
}
