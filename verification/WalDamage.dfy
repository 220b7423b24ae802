/** What a cut or damaged log still replays to. */
module WalDamage {
  import opened Bytes
  import opened WalChecksum
  import opened Pages
  import opened Sqlcipher
  import opened Wal
  import opened Wrappers

  // A log cut at an arbitrary byte.

  /** A cut body keeps exactly the frames that still fit. */
  lemma {:induction false} FramesCut(h: Header, body: seq<byte>, m: nat, sum: Sum) returns (j: nat)
    requires m <= |body|
    ensures j <= |Frames(h, body, sum)| && Frames(h, body[..m], sum) == Frames(h, body, sum)[..j]
    ensures Offset(j, FrameSize(h)) <= m
    ensures j == |Frames(h, body, sum)| || m < Offset(j + 1, FrameSize(h))
    decreases m
  {
    hide Frames, FrameSize, FrameOk, FrameSum, FrameOf;
    var size := FrameSize(h);
    if m < size {
      j := 0;
      NoRoomForFrame(h, body[..m], sum);
    } else {
      var cut, raw := body[..m], body[..size];
      assert cut[..size] == raw && cut[size..] == body[size..][..m - size];
      FramesStep(h, body, sum);
      FramesStep(h, cut, sum);
      if FrameOk(h, raw, sum) {
        var k := FramesCut(h, body[size..], m - size, FrameSum(h, raw, sum));
        j := k + 1;
        ShiftOffset(k, size);
        ShiftOffset(k + 1, size);
        var rest := Frames(h, body[size..], FrameSum(h, raw, sum));
        assert ([FrameOf(h, raw)] + rest)[..j] == [FrameOf(h, raw)] + rest[..k];
      } else {
        j := 0;
      }
    }
  }

  lemma NoRoomForFrame(h: Header, body: seq<byte>, sum: Sum)
    requires |body| < FrameSize(h)
    ensures Frames(h, body, sum) == []
  {
  }

  lemma ShiftOffset(k: nat, size: nat)
    ensures Offset(k + 1, size) == size + Offset(k, size)
  {
  }

  /** Fewer frames complete fewer transactions, and the completed ones are unchanged. */
  lemma {:induction false} TransactionsPrefix(frames: seq<Frame>, j: nat, pending: seq<Write>) returns (k: nat)
    requires j <= |frames|
    ensures k <= |Transactions(frames, pending)|
    ensures Transactions(frames[..j], pending) == Transactions(frames, pending)[..k]
    decreases j
  {
    if j == 0 {
      k := 0;
    } else {
      var f := frames[0];
      var writes := pending + [Write(f.pageNo, f.page)];
      assert frames[..j][0] == f && frames[..j][1..] == frames[1..][..j - 1];
      if f.commit == 0 {
        k := TransactionsPrefix(frames[1..], j - 1, writes);
      } else {
        var r := TransactionsPrefix(frames[1..], j - 1, []);
        k := r + 1;
        var rest := Transactions(frames[1..], []);
        assert ([Txn(writes, f.commit)] + rest)[..k] == [Txn(writes, f.commit)] + rest[..r];
      }
    }
  }

  lemma HeaderCut(wal: seq<byte>, n: nat)
    requires WAL_HEADER <= n <= |wal|
    ensures ParseHeader(wal[..n]) == ParseHeader(wal)
  {
    var cut := wal[..n];
    assert cut[..4] == wal[..4] && cut[8..12] == wal[8..12] && cut[..24] == wal[..24];
    assert cut[24..28] == wal[24..28] && cut[28..32] == wal[28..32] && cut[16..24] == wal[16..24];
  }

  /** Cutting the log at any byte leaves some prefix of its committed transactions. */
  lemma CutTransactions(wal: seq<byte>, n: nat) returns (k: nat)
    requires n <= |wal|
    ensures k <= |LogTransactions(wal)| && LogTransactions(wal[..n]) == LogTransactions(wal)[..k]
    ensures ParseHeader(wal[..n]).Some? ==> ParseHeader(wal[..n]) == ParseHeader(wal)
  {
    if n < WAL_HEADER {
      k := 0;
      assert LogTransactions(wal[..n]) == [];
    } else {
      HeaderCut(wal, n);
      if ParseHeader(wal).None? {
        k := 0;
      } else {
        var h := ParseHeader(wal).value;
        assert wal[..n][WAL_HEADER..] == wal[WAL_HEADER..][..n - WAL_HEADER];
        var j := FramesCut(h, wal[WAL_HEADER..], n - WAL_HEADER, h.sum);
        k := TransactionsPrefix(LogFrames(wal), j, []);
      }
    }
  }

  /**
   Cutting the log at any byte replays to the state at some commit boundary: exactly what the
   first `k` committed transactions give, including any error.
   */
  lemma CutReplaysToCommitBoundary(suite: seq<byte> -> Cipher, plain: seq<byte>, wal: seq<byte>, n: nat, key: seq<byte>) returns (k: nat)
    requires PageSizeReadable(plain) && n <= |wal| && ParseHeader(wal).Some?
    ensures k <= |LogTransactions(wal)|
    ensures Replay(suite, plain, wal[..n], key) ==
      ReplayTxns(suite, plain, ParseHeader(wal).value.pageSize, LogTransactions(wal)[..k], key)
  {
    k := CutTransactions(wal, n);
    if ParseHeader(wal[..n]).None? {
      assert LogTransactions(wal[..n]) == [];
      assert LogTransactions(wal)[..k] == [];
    }
  }

  // A log with one damaged block.

  function StoredSum(raw: seq<byte>): Sum
    requires |raw| >= FRAME_HEADER
  {
    Sum(Be32(raw[16..20]), Be32(raw[20..24]))
  }

  /** Damage to the page number and commit size changes the computed sum, not the stored one. */
  lemma DamagedNumbers(h: Header, raw: seq<byte>, bad: seq<byte>, sum: Sum)
    requires |raw| == FrameSize(h) && OneBlockDiffers(raw, bad, 0)
    ensures FrameSum(h, raw, sum) != FrameSum(h, bad, sum) && StoredSum(raw) == StoredSum(bad)
  {
    BlockDiffers(raw, bad, 0);
    assert raw[FRAME_HEADER..] == raw[8..][16..] && bad[FRAME_HEADER..] == bad[8..][16..];
    assert raw[16..20] == raw[8..][8..12] && bad[16..20] == bad[8..][8..12];
    assert raw[20..24] == raw[8..][12..16] && bad[20..24] == bad[8..][12..16];
    var a, b := raw[..8], bad[..8];
    assert a == raw[0..8] && b == bad[0..8];
    BlockChangeDetected(h.bigEndian, a, b, 0, sum);
    if FrameSum(h, raw, sum) == FrameSum(h, bad, sum) {
      ChecksumInjectiveInSum(h.bigEndian, raw[FRAME_HEADER..], Checksum(h.bigEndian, a, sum), Checksum(h.bigEndian, b, sum));
    }
  }

  /** Damage to the stored sum changes the stored sum, not the computed one. */
  lemma DamagedStoredSum(h: Header, raw: seq<byte>, bad: seq<byte>, sum: Sum)
    requires |raw| == FrameSize(h) && OneBlockDiffers(raw, bad, 2)
    ensures FrameSum(h, raw, sum) == FrameSum(h, bad, sum) && StoredSum(raw) != StoredSum(bad)
  {
    BlockDiffers(raw, bad, 2);
    assert raw[..8] == raw[..16][..8] && bad[..8] == bad[..16][..8];
    assert raw[16..24] == raw[16..20] + raw[20..24] && bad[16..24] == bad[16..20] + bad[20..24];
    if StoredSum(raw) == StoredSum(bad) {
      WordInjective(true, raw[16..20], bad[16..20]);
      WordInjective(true, raw[20..24], bad[20..24]);
    }
  }

  /** Damage to the page changes the computed sum, not the stored one. */
  lemma DamagedPage(h: Header, raw: seq<byte>, bad: seq<byte>, k: nat, sum: Sum)
    requires |raw| == FrameSize(h) && OneBlockDiffers(raw, bad, k) && k > 2
    ensures FrameSum(h, raw, sum) != FrameSum(h, bad, sum) && StoredSum(raw) == StoredSum(bad)
  {
    var i, d := 8 * k, 8 * (k - 3);
    var a, b, head := raw[FRAME_HEADER..], bad[FRAME_HEADER..], raw[..i];
    assert raw[..8] == head[..8] == bad[..8];
    assert raw[16..20] == head[16..20] == bad[16..20];
    assert raw[20..24] == head[20..24] == bad[20..24];
    BlockDiffers(raw, bad, k);
    assert a[d..d + 8] == raw[i..i + 8] && b[d..d + 8] == bad[i..i + 8];
    assert a[..d] == head[FRAME_HEADER..] == b[..d];
    assert a[d + 8..] == raw[i + 8..] && b[d + 8..] == bad[i + 8..];
    BlockChangeDetected(h.bigEndian, a, b, k - 3, Checksum(h.bigEndian, raw[..8], sum));
  }

  /** A frame with one damaged aligned 8-byte block fails its checks. */
  lemma DamagedFrameRejected(h: Header, raw: seq<byte>, bad: seq<byte>, k: nat, sum: Sum)
    requires |raw| == FrameSize(h) && FrameOk(h, raw, sum) && OneBlockDiffers(raw, bad, k)
    ensures !FrameOk(h, bad, sum)
  {
    if k == 0 {
      DamagedNumbers(h, raw, bad, sum);
    } else if k == 1 {
      BlockDiffers(raw, bad, 1);
    } else if k == 2 {
      DamagedStoredSum(h, raw, bad, sum);
    } else {
      DamagedPage(h, raw, bad, k, sum);
    }
  }

  /** Frame `j` of `body` lies at this offset. */
  ghost predicate FrameDamaged(h: Header, body: seq<byte>, bad: seq<byte>, j: nat, k: nat) {
    var at, size := Offset(j, FrameSize(h)), FrameSize(h);
    && |body| == |bad| && at + size <= |body|
    && body[..at] == bad[..at] && body[at + size..] == bad[at + size..]
    && OneBlockDiffers(body[at..at + size], bad[at..at + size], k)
  }

  lemma DamageAfterFirst(h: Header, body: seq<byte>, bad: seq<byte>, j: nat, k: nat)
    requires j > 0 && FrameDamaged(h, body, bad, j, k)
    ensures |body| >= FrameSize(h) && |bad| >= FrameSize(h) && body[..FrameSize(h)] == bad[..FrameSize(h)]
    ensures FrameDamaged(h, body[FrameSize(h)..], bad[FrameSize(h)..], j - 1, k)
  {
    hide OneBlockDiffers;
    var size := FrameSize(h);
    var at := Offset(j - 1, size);
    var a, b := body[size..], bad[size..];
    assert Offset(j, size) == at + size;
    assert body[..size] == body[..at + size][..size] && bad[..size] == bad[..at + size][..size];
    assert a[..at] == body[..at + size][size..] && b[..at] == bad[..at + size][size..];
    assert a[at..at + size] == body[at + size..at + size + size] && b[at..at + size] == bad[at + size..at + size + size];
    assert a[at + size..] == body[at + size + size..] && b[at + size..] == bad[at + size + size..];
  }

  lemma DamageInFirstFrame(h: Header, body: seq<byte>, bad: seq<byte>, k: nat, sum: Sum)
    requires Frames(h, body, sum) != [] && FrameDamaged(h, body, bad, 0, k)
    ensures Frames(h, bad, sum) == []
  {
    hide FrameOk, FrameSum, FrameOf, OneBlockDiffers;
    var size := FrameSize(h);
    FramesStep(h, body, sum);
    assert body[0..size] == body[..size] && bad[0..size] == bad[..size];
    DamagedFrameRejected(h, body[..size], bad[..size], k, sum);
    FramesStep(h, bad, sum);
  }

  /** Damage inside one aligned block of frame `j` leaves exactly the `j` frames before it. */
  lemma {:induction false} DamageCutsFrames(h: Header, body: seq<byte>, bad: seq<byte>, j: nat, k: nat, sum: Sum)
    requires j < |Frames(h, body, sum)| && FrameDamaged(h, body, bad, j, k)
    ensures Frames(h, bad, sum) == Frames(h, body, sum)[..j]
    decreases j
  {
    hide FrameDamaged, FrameOk, FrameSum, FrameOf, Frames, FrameSize;
    var size := FrameSize(h);
    if j == 0 {
      DamageInFirstFrame(h, body, bad, k, sum);
    } else {
      DamageAfterFirst(h, body, bad, j, k);
      FramesStep(h, body, sum);
      DamageCutsFrames(h, body[size..], bad[size..], j - 1, k, FrameSum(h, body[..size], sum));
      SharedFirstFrame(h, body, bad, j, sum);
    }
  }

  lemma SharedFirstFrame(h: Header, body: seq<byte>, bad: seq<byte>, j: nat, sum: Sum)
    requires |body| >= FrameSize(h) && |bad| >= FrameSize(h) && body[..FrameSize(h)] == bad[..FrameSize(h)]
    requires FrameOk(h, body[..FrameSize(h)], sum)
    requires var next := FrameSum(h, body[..FrameSize(h)], sum);
      && 0 < j <= |Frames(h, body[FrameSize(h)..], next)| + 1
      && Frames(h, bad[FrameSize(h)..], next) == Frames(h, body[FrameSize(h)..], next)[..j - 1]
    ensures j <= |Frames(h, body, sum)| && Frames(h, bad, sum) == Frames(h, body, sum)[..j]
  {
    FramesStep(h, body, sum);
    FramesStep(h, bad, sum);
    var f, rest := FrameOf(h, body[..FrameSize(h)]), Frames(h, body[FrameSize(h)..], FrameSum(h, body[..FrameSize(h)], sum));
    assert ([f] + rest)[..j] == [f] + rest[..j - 1];
  }

  /**
   Any corruption confined to one aligned 8-byte block of an accepted frame makes the scan accept
   exactly the frames before it; replay then gives the state at an earlier commit boundary.
   */
  lemma DamagedLogKeepsEarlierFrames(wal: seq<byte>, bad: seq<byte>, j: nat, k: nat) returns (t: nat)
    requires ParseHeader(wal).Some? && |bad| == |wal| && bad[..WAL_HEADER] == wal[..WAL_HEADER]
    requires j < |LogFrames(wal)| && FrameDamaged(ParseHeader(wal).value, wal[WAL_HEADER..], bad[WAL_HEADER..], j, k)
    ensures ParseHeader(bad) == ParseHeader(wal)
    ensures LogFrames(bad) == LogFrames(wal)[..j]
    ensures t <= |LogTransactions(wal)| && LogTransactions(bad) == LogTransactions(wal)[..t]
  {
    HeaderCut(wal, WAL_HEADER);
    HeaderCut(bad, WAL_HEADER);
    var h := ParseHeader(wal).value;
    DamageCutsFrames(h, wal[WAL_HEADER..], bad[WAL_HEADER..], j, k, h.sum);
    t := TransactionsPrefix(LogFrames(wal), j, []);
  }
}
