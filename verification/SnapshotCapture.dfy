/**
 Capturing a database file and its log while a live writer keeps appending, checkpointing and
 resetting. The writer is a state machine; the reader's file accesses happen at increasing instants
 of an arbitrary run of it.
 */
module SnapshotCapture {
  import opened Bytes
  import opened Pages
  import opened Sqlcipher
  import opened Wal
  import opened WalRefinement
  import opened WalMeaning
  import opened Wrappers

  const ATTEMPTS: nat := 5
  const MAX_PAGES: nat := 0xffff_fffe

  /** A file size is a signed 64-bit number. */
  const MAX_LOG: nat := 0x7fff_ffff_ffff_ffff

  function BytesOf(wal: Option<seq<byte>>): seq<byte> {
    if wal.Some? then wal.value else []
  }

  /** Both files, their modification times, and (history) the main file at the last log reset. */
  datatype World = World(main: seq<Page>, mainTime: nat, wal: Option<seq<byte>>, walTime: nat, base: seq<Page>)
  {
    function WalBytes(): seq<byte> {
      BytesOf(wal)
    }

    function Txns(): seq<Txn> {
      LogTransactions(WalBytes())
    }
  }

  /** What stays fixed while a database is open: its page cipher, page size and lock page. */
  datatype Db = Db(d: PageCipher, ps: nat, lock: nat)

  // The writer.

  /** What SQLite guarantees of the committed transactions over the main file the log started from. */
  ghost predicate TxnRules(db: Db, base: seq<Page>, txns: seq<Txn>) {
    var writes := AllWrites(txns);
    && GrowsFully(|base|, txns, db.lock) && LockUnused(base, txns, db.lock, db.ps)
    && base != [] && Sized(base, db.ps) && WritesSized(writes, db.ps)
    && (forall i :: 0 <= i < |base| ==> db.d(i + 1, base[i]).Ok?)
    && (forall k :: 0 <= k < |writes| ==> db.d(writes[k].pageNo, writes[k].page).Ok?)
    && Declares(base[0], db.ps)
    && (forall k :: 0 <= k < |writes| && writes[k].pageNo == 1 ==> Declares(writes[k].page, db.ps))
  }

  ghost predicate LogRules(db: Db, w: World) {
    && TxnRules(db, w.base, w.Txns()) && |w.WalBytes()| <= MAX_LOG
    && (ParseHeader(w.WalBytes()).Some? ==> ParseHeader(w.WalBytes()).value.pageSize == db.ps)
  }

  /** Page `i` is as the last reset left it, or some committed version of it, or the empty lock page. */
  ghost predicate PageAllowed(db: Db, base: seq<Page>, writes: seq<Write>, i: nat, page: Page) {
    || (i < |base| && page == base[i])
    || (exists k :: 0 <= k < |writes| && writes[k].pageNo == i + 1 && writes[k].page == page)
    || (i + 1 == db.lock && page == Zeros(db.ps))
  }

  /** Every page of the committed image that a file of `size` pages lacks is in the log, except the lock page. */
  ghost predicate Covers(db: Db, size: nat, baseSize: nat, txns: seq<Txn>) {
    forall p :: size < p <= SizeAfter(baseSize, txns) && p != db.lock ==> LastWrite(AllWrites(txns), p).Some?
  }

  ghost predicate MainAllowed(db: Db, main: seq<Page>, base: seq<Page>, txns: seq<Txn>) {
    && 0 < |main| <= MAX_PAGES
    && (txns == [] ==> main == base)
    && Covers(db, |main|, |base|, txns)
    && forall i :: 0 <= i < |main| ==> PageAllowed(db, base, AllWrites(txns), i, main[i])
  }

  ghost predicate Inv(db: Db, w: World) {
    LogRules(db, w) && MainAllowed(db, w.main, w.base, w.Txns())
  }

  /** The log changes without losing a committed transaction: frames appended, torn or rewritten past the last commit. */
  ghost predicate Append(db: Db, w: World, w': World) {
    && w'.main == w.main && w'.base == w.base
    && w.Txns() <= w'.Txns() && LogRules(db, w')
  }

  ghost predicate SameLog(w: World, w': World) {
    w'.wal == w.wal && w'.walTime == w.walTime && w'.base == w.base
  }

  /** Writing page `p` of a main file, possibly just past its end. */
  ghost predicate MainWrite(db: Db, main: seq<Page>, main': seq<Page>, w: Write) {
    var n := if w.pageNo > |main| then w.pageNo else |main|;
    && 0 < w.pageNo && n <= MAX_PAGES
    && (n <= |main| + 1 || (n == |main| + 2 && |main| + 1 == db.lock))
    && main' == Resize(main, n, db.ps)[w.pageNo - 1 := w.page]
  }

  /** A checkpoint copies one committed page version to the main file, extending it in page order. */
  ghost predicate CheckpointPage(db: Db, w: World, w': World, k: nat) {
    SameLog(w, w') && k < |AllWrites(w.Txns())| && MainWrite(db, w.main, w'.main, AllWrites(w.Txns())[k])
  }

  /** A checkpoint cuts the main file to the committed page count. */
  ghost predicate TruncateMain(w: World, w': World) {
    && SameLog(w, w') && w.Txns() != []
    && LastPages(w.Txns()) <= |w.main| && w'.main == w.main[..LastPages(w.Txns())]
  }

  /** The log is restarted or removed, which SQLite does only once the main file holds the whole committed state. */
  ghost predicate Reset(db: Db, w: World, w': World) {
    && w.main == RunTxns(w.base, w.Txns(), db.ps)
    && w'.main == w.main && w'.base == w.main
    && w'.Txns() == [] && LogRules(db, w')
  }

  /** Any step may or may not move the main file's modification time: checkpoint writes can go unnoticed. */
  ghost predicate Step(db: Db, w: World, w': World) {
    || Append(db, w, w')
    || (exists k :: CheckpointPage(db, w, w', k))
    || TruncateMain(w, w')
    || Reset(db, w, w')
    || (SameLog(w, w') && w'.main == w.main)
  }

  type Run = nat -> World

  ghost predicate IsRun(db: Db, run: Run) {
    Inv(db, run(0)) && forall t: nat :: Step(db, run(t), run(t + 1))
  }

  lemma {:induction false} AllWritesExtend(a: seq<Txn>, b: seq<Txn>)
    requires a <= b
    ensures AllWrites(a) <= AllWrites(b)
  {
    if |a| < |b| {
      assert b == b[..|b| - 1] + [b[|b| - 1]];
      AllWritesExtend(a, b[..|b| - 1]);
    } else {
      assert a == b;
    }
  }

  /** More committed transactions only allow more page versions. */
  lemma PageAllowedExtends(db: Db, base: seq<Page>, a: seq<Write>, b: seq<Write>, i: nat, page: Page)
    requires a <= b && PageAllowed(db, base, a, i, page)
    ensures PageAllowed(db, base, b, i, page)
  {
    if exists k :: 0 <= k < |a| && a[k].pageNo == i + 1 && a[k].page == page {
      var k :| 0 <= k < |a| && a[k].pageNo == i + 1 && a[k].page == page;
      assert b[k] == a[k];
    }
  }

  lemma LastWriteExtends(a: seq<Write>, b: seq<Write>, p: nat)
    requires a <= b && LastWrite(a, p).Some?
    ensures LastWrite(b, p).Some?
  {
    assert b == a + b[|a|..];
    LastWriteConcat(a, b[|a|..], p);
  }

  /** A page beyond the size some transactions left is written by the later ones that added it. */
  lemma {:induction false} AddedLater(size: nat, a: seq<Txn>, b: seq<Txn>, lock: nat, p: nat)
    requires a <= b && GrowsFully(size, b, lock) && p != lock
    requires SizeAfter(size, a) < p <= SizeAfter(size, b)
    ensures LastWrite(AllWrites(b), p).Some?
  {
    if |a| < |b| {
      var k := |b| - 1;
      LastWriteConcat(AllWrites(b[..k]), b[k].writes, p);
      if p <= SizeAfter(size, b[..k]) {
        AddedLater(size, a, b[..k], lock, p);
      }
    }
  }

  lemma AppendAllowed(db: Db, main: seq<Page>, base: seq<Page>, a: seq<Txn>, b: seq<Txn>)
    requires MainAllowed(db, main, base, a) && a <= b && TxnRules(db, base, b)
    ensures MainAllowed(db, main, base, b)
  {
    AllWritesExtend(a, b);
    forall i | 0 <= i < |main| ensures PageAllowed(db, base, AllWrites(b), i, main[i]) {
      PageAllowedExtends(db, base, AllWrites(a), AllWrites(b), i, main[i]);
    }
    forall p | |main| < p <= SizeAfter(|base|, b) && p != db.lock ensures LastWrite(AllWrites(b), p).Some? {
      if p <= SizeAfter(|base|, a) {
        LastWriteExtends(AllWrites(a), AllWrites(b), p);
      } else {
        AddedLater(|base|, a, b, db.lock, p);
      }
    }
  }

  lemma CheckpointAllowed(db: Db, main: seq<Page>, main': seq<Page>, base: seq<Page>, txns: seq<Txn>, k: nat)
    requires MainAllowed(db, main, base, txns) && k < |AllWrites(txns)| && MainWrite(db, main, main', AllWrites(txns)[k])
    ensures MainAllowed(db, main', base, txns)
  {
    var writes := AllWrites(txns);
    assert txns != [];
    forall i | 0 <= i < |main'| ensures PageAllowed(db, base, writes, i, main'[i]) {
      if i == writes[k].pageNo - 1 {
        assert writes[k].pageNo == i + 1 && writes[k].page == main'[i];
      } else if i < |main| {
        assert PageAllowed(db, base, writes, i, main[i]);
      }
    }
  }

  lemma TruncateAllowed(db: Db, main: seq<Page>, base: seq<Page>, txns: seq<Txn>)
    requires MainAllowed(db, main, base, txns) && txns != [] && 0 < LastPages(txns) <= |main|
    ensures MainAllowed(db, main[..LastPages(txns)], base, txns)
  {
    forall i | 0 <= i < LastPages(txns) ensures PageAllowed(db, base, AllWrites(txns), i, main[i]) {
    }
  }

  /** Every writer step keeps the invariant. */
  lemma StepKeeps(db: Db, w: World, w': World)
    requires Inv(db, w) && Step(db, w, w')
    ensures Inv(db, w')
  {
    if Append(db, w, w') {
      AppendAllowed(db, w.main, w.base, w.Txns(), w'.Txns());
    } else if exists k :: CheckpointPage(db, w, w', k) {
      var k :| CheckpointPage(db, w, w', k);
      CheckpointAllowed(db, w.main, w'.main, w.base, w.Txns(), k);
    } else if TruncateMain(w, w') {
      CommitsPositive(LogFrames(w.WalBytes()), []);
      TruncateAllowed(db, w.main, w.base, w.Txns());
    }
  }

  lemma RunStep(db: Db, run: Run, t: nat)
    requires IsRun(db, run)
    ensures Step(db, run(t), run(t + 1))
  {
  }

  lemma {:induction false} RunInv(db: Db, run: Run, t: nat)
    requires IsRun(db, run)
    ensures Inv(db, run(t))
  {
    if t > 0 {
      RunInv(db, run, t - 1);
      RunStep(db, run, t - 1);
      StepKeeps(db, run(t - 1), run(t));
    }
  }

  // The reader.

  /** What one stat of the log shows: its size, modification time and header. */
  datatype WalPrint = NoWal | WalPrint(size: nat, time: nat, header: seq<byte>)

  function PrintOf(w: World): WalPrint {
    match w.wal
    case None => NoWal
    case Some(bytes) => WalPrint(|bytes|, w.walTime, if |bytes| < WAL_HEADER then bytes else bytes[..WAL_HEADER])
  }

  /** One version of both files. The main file is always a whole number of pages; its size is counted in pages. */
  datatype FileState = FileState(mainSize: nat, mainTime: nat, wal: WalPrint)

  /** What the reader's k-th file access sees. */
  type View = nat -> World

  ghost predicate Bounded(view: View) {
    forall k: nat :: |view(k).main| <= MAX_PAGES && |view(k).WalBytes()| <= MAX_LOG
  }

  /** statSQLiteFiles: the main file is looked at first, then the log. */
  function StatFiles(view: View, k: nat): FileState {
    FileState(|view(k).main|, view(k).mainTime, PrintOf(view(k + 1)))
  }

  /** sqliteFileState.describes: the log that was read has the size and the header this state shows, or neither has one. */
  predicate Describes(s: FileState, wal: Option<seq<byte>>) {
    match wal
    case None => s.wal.NoWal?
    case Some(bytes) =>
      s.wal.WalPrint? && |bytes| == s.wal.size && s.wal.header == if |bytes| < WAL_HEADER then bytes else bytes[..WAL_HEADER]
  }

  /** The rest of the log from byte `i`, read one byte per access until a read meets its end. */
  function ReadLog(view: View, k: nat, i: nat): (bytes: seq<byte>)
    requires Bounded(view) && i <= MAX_LOG
    decreases MAX_LOG - i
  {
    if i < |view(k).WalBytes()| then [view(k).WalBytes()[i]] + ReadLog(view, k + 1, i + 1) else []
  }

  /** The whole log: it exists or not when it is opened, at access `k`, and is read from then on. */
  function OpenLog(view: View, k: nat): Option<seq<byte>>
    requires Bounded(view)
  {
    if view(k).wal.Some? then Some(ReadLog(view, k + 1, 0)) else None
  }

  /** The rest of the main file from page `i`, read one page per access until a read meets its end. */
  function ReadPages(view: View, k: nat, i: nat): (pages: seq<Page>)
    requires Bounded(view) && i <= MAX_PAGES
    decreases MAX_PAGES - i
  {
    if i < |view(k).main| then [view(k).main[i]] + ReadPages(view, k + 1, i + 1) else []
  }

  datatype Capture = Capture(main: seq<Page>, wal: seq<byte>)

  /** The access that opens the main file in an attempt. */
  function MainStart(view: View, k: nat): nat
    requires Bounded(view)
  {
    k + 3 + |BytesOf(OpenLog(view, k + 2))| + 1
  }

  /** The access that follows an attempt's main-file read. */
  ghost function AfterMain(view: View, k: nat): nat
    requires Bounded(view)
  {
    MainStart(view, k) + |ReadPages(view, MainStart(view, k), 0)| + 1
  }

  /** One attempt, starting with access `k`, is accepted: the files looked the same before and after. */
  ghost predicate Accepted(view: View, k: nat)
    requires Bounded(view)
  {
    var end := AfterMain(view, k);
    && StatFiles(view, k) == StatFiles(view, end)
    && Describes(StatFiles(view, end), OpenLog(view, k + 2))
    && |ReadPages(view, MainStart(view, k), 0)| == StatFiles(view, end).mainSize
  }

  ghost function Captured(view: View, k: nat): Capture
    requires Bounded(view)
  {
    Capture(ReadPages(view, MainStart(view, k), 0), BytesOf(OpenLog(view, k + 2)))
  }

  /** The first accepted attempt among at most `attempts`, given by its first access. */
  ghost function FirstAccepted(view: View, k: nat, attempts: nat): (at: Option<nat>)
    requires Bounded(view)
    ensures at.Some? ==> Accepted(view, at.value)
    decreases attempts
  {
    if attempts == 0 then None
    else if Accepted(view, k) then Some(k)
    else FirstAccepted(view, AfterMain(view, k) + 2, attempts - 1)
  }

  ghost function Snapshot(view: View, attempts: nat): Option<Capture>
    requires Bounded(view)
  {
    var at := FirstAccepted(view, 0, attempts);
    if at.Some? then Some(Captured(view, at.value)) else None
  }

  method TryCapture(view: View, k: nat) returns (capture: Capture, ok: bool, next: nat)
    requires Bounded(view)
    ensures ok == Accepted(view, k) && capture == Captured(view, k) && next == AfterMain(view, k) + 2
  {
    hide ReadLog, ReadPages, Describes, StatFiles, OpenLog, PrintOf;
    var before := StatFiles(view, k);
    var wal := OpenLog(view, k + 2);
    var start := k + 3 + |BytesOf(wal)| + 1;
    var main := ReadPages(view, start, 0);
    var end := start + |main| + 1;
    var after := StatFiles(view, end);
    capture := Capture(main, BytesOf(wal));
    ok := before == after && Describes(after, wal) && |main| == after.mainSize;
    next := end + 2;
  }

  /** What two looks at a log compare: that it is there, its size and time, and its first 32 bytes. */
  ghost predicate LooksSame(a: World, b: World) {
    match (a.wal, b.wal)
    case (None, None) => true
    case (Some(x), Some(y)) => |x| == |y| && a.walTime == b.walTime && forall i :: 0 <= i < 32 && i < |x| ==> x[i] == y[i]
    case _ => false
  }

  /** The log that was read is as long as the one that is there, and begins with the same 32 bytes. */
  ghost predicate LooksRead(wal: Option<seq<byte>>, w: World) {
    match (wal, w.wal)
    case (None, None) => true
    case (Some(x), Some(y)) => |x| == |y| && forall i :: 0 <= i < 32 && i < |x| ==> x[i] == y[i]
    case _ => false
  }

  /** An attempt is accepted when nothing that it compares has changed and the main file was read to its size. */
  lemma AcceptedMeans(view: View, k: nat)
    requires Bounded(view)
    ensures var end := AfterMain(view, k);
      Accepted(view, k) <==>
        && |view(end).main| == |view(k).main| == |ReadPages(view, MainStart(view, k), 0)|
        && view(end).mainTime == view(k).mainTime
        && LooksSame(view(k + 1), view(end + 1)) && LooksRead(OpenLog(view, k + 2), view(end + 1))
  {
    hide ReadLog, ReadPages, OpenLog;
    var end := AfterMain(view, k);
    HeadersAgree(view(k + 1).WalBytes(), view(end + 1).WalBytes());
    HeadersAgree(BytesOf(OpenLog(view, k + 2)), view(end + 1).WalBytes());
  }

  lemma HeadersAgree(x: seq<byte>, y: seq<byte>)
    ensures |x| == |y| ==> ((if |x| < WAL_HEADER then x else x[..WAL_HEADER]) == (if |y| < WAL_HEADER then y else y[..WAL_HEADER])
      <==> forall i :: 0 <= i < 32 && i < |x| ==> x[i] == y[i])
  {
    if |x| == |y| && |x| >= WAL_HEADER {
      assert (forall i :: 0 <= i < 32 ==> x[i] == y[i]) <==> (forall i :: 0 <= i < 32 ==> x[..32][i] == y[..32][i]);
    }
  }

  /** The access with which attempt `i` starts. */
  ghost function AttemptStart(view: View, i: nat): nat
    requires Bounded(view)
  {
    if i == 0 then 0 else AfterMain(view, AttemptStart(view, i - 1)) + 2
  }

  /** Attempt `i` is the first accepted one. */
  ghost predicate FirstAt(view: View, i: nat)
    requires Bounded(view)
  {
    Accepted(view, AttemptStart(view, i)) && forall j: nat :: j < i ==> !Accepted(view, AttemptStart(view, j))
  }

  lemma {:induction false} FirstOfAttempts(view: View, i: nat, attempts: nat)
    requires Bounded(view) && forall j: nat :: j < i ==> !Accepted(view, AttemptStart(view, j))
    ensures var at := FirstAccepted(view, AttemptStart(view, i), attempts);
      && (at.Some? ==> exists n: nat :: n < i + attempts && FirstAt(view, n) && at.value == AttemptStart(view, n))
      && (at.None? ==> forall n: nat :: n < i + attempts ==> !Accepted(view, AttemptStart(view, n)))
    decreases attempts
  {
    hide Accepted, AfterMain;
    if attempts > 0 && !Accepted(view, AttemptStart(view, i)) {
      FirstOfAttempts(view, i + 1, attempts - 1);
    } else if attempts > 0 {
      assert FirstAt(view, i);
    }
  }

  /** The capture of the first accepted attempt out of five, or nothing when all five are refused. */
  method ReadSqliteSnapshot(view: View) returns (r: Option<Capture>)
    requires Bounded(view)
    ensures r == Snapshot(view, ATTEMPTS)
    ensures r.Some? ==> exists i: nat :: i < 5 && FirstAt(view, i) && r.value == Captured(view, AttemptStart(view, i))
    ensures r.None? ==> forall i: nat :: i < 5 ==> !Accepted(view, AttemptStart(view, i))
  {
    hide Accepted, AfterMain, AttemptStart, Captured;
    FirstOfAttempts(view, 0, ATTEMPTS);
    assert AttemptStart(view, 0) == 0 by {
      AttemptsBegin(view);
    }
    r := RetryCapture(view, ATTEMPTS);
  }

  lemma AttemptsBegin(view: View)
    requires Bounded(view)
    ensures AttemptStart(view, 0) == 0
  {
  }

  method RetryCapture(view: View, attempts: nat) returns (r: Option<Capture>)
    requires Bounded(view)
    ensures r == Snapshot(view, attempts)
  {
    var k := 0;
    for attempt := 0 to attempts
      invariant FirstAccepted(view, 0, attempts) == FirstAccepted(view, k, attempts - attempt)
    {
      var capture, ok, next := TryCapture(view, k);
      if ok {
        return Some(capture);
      }
      k := next;
    }
    return None;
  }

  // Accepted captures are committed states.

  /** Every change of the log changes what a stat of it shows, and no earlier sight ever returns. */
  ghost predicate LogChangesVisible(run: Run) {
    forall i: nat, t: nat, j: nat ::
      i <= t <= j && PrintOf(run(i)) == PrintOf(run(j)) ==> run(t).wal == run(i).wal
  }

  lemma StepSameBase(db: Db, w: World, w': World)
    requires Inv(db, w) && Step(db, w, w') && w'.wal == w.wal
    ensures w'.base == w.base
  {
    if Reset(db, w, w') {
      assert w.Txns() == [];
    }
  }

  ghost predicate LogStays(run: Run, i: nat, j: nat, wal: Option<seq<byte>>) {
    forall t: nat :: i <= t <= j ==> run(t).wal == wal
  }

  lemma StayedSteps(run: Run, i: nat, j: nat, wal: Option<seq<byte>>)
    requires i < j && LogStays(run, i, j, wal)
    ensures LogStays(run, i, j - 1, wal) && run(j - 1).wal == wal && run(j).wal == wal
  {
  }

  /** While the log stays the same, so does the image it started from. */
  lemma {:induction false} SameLogSameBase(db: Db, run: Run, i: nat, j: nat, wal: Option<seq<byte>>)
    requires IsRun(db, run) && i <= j && LogStays(run, i, j, wal)
    ensures run(j).base == run(i).base
  {
    hide Inv, Step, IsRun, LogStays;
    if i < j {
      StayedSteps(run, i, j, wal);
      SameLogSameBase(db, run, i, j - 1, wal);
      RunInv(db, run, j - 1);
      RunStep(db, run, j - 1);
      StepSameBase(db, run(j - 1), run(j));
    }
  }

  /** A mixture of page versions that the log overlays completely. */
  ghost predicate MixAllowed(db: Db, pages: seq<Page>, base: seq<Page>, txns: seq<Txn>) {
    && pages != [] && (txns == [] ==> pages == base)
    && Covers(db, |pages|, |base|, txns)
    && forall i :: 0 <= i < |pages| ==> PageAllowed(db, base, AllWrites(txns), i, pages[i])
  }

  lemma {:induction false} ReadPageSource(view: View, k: nat, i: nat, p: nat)
    requires Bounded(view) && i <= MAX_PAGES && p < |ReadPages(view, k, i)|
    ensures i + p < |view(k + p).main| && ReadPages(view, k, i)[p] == view(k + p).main[i + p]
    decreases p
  {
    if p > 0 {
      ReadPageSource(view, k + 1, i + 1, p - 1);
    }
  }

  lemma {:induction false} ReadPagesEnd(view: View, k: nat, i: nat)
    requires Bounded(view) && i <= MAX_PAGES
    ensures |view(k + |ReadPages(view, k, i)|).main| <= i + |ReadPages(view, k, i)|
    decreases MAX_PAGES - i
  {
    if i < |view(k).main| {
      ReadPagesEnd(view, k + 1, i + 1);
    }
  }

  lemma ReadPageMix(db: Db, view: View, k: nat, base: seq<Page>, txns: seq<Txn>, p: nat)
    requires Bounded(view) && p < |ReadPages(view, k, 0)| && MainAllowed(db, view(k + p).main, base, txns)
    ensures PageAllowed(db, base, AllWrites(txns), p, ReadPages(view, k, 0)[p])
    ensures txns == [] ==> p < |base| && ReadPages(view, k, 0)[p] == base[p]
  {
    ReadPageSource(view, k, 0, p);
  }

  /** Pages read while the log stays the same form such a mixture, whatever checkpoints did meanwhile. */
  lemma ReadPagesMix(db: Db, view: View, k: nat, base: seq<Page>, txns: seq<Txn>)
    requires Bounded(view)
    requires forall n :: k <= n <= k + |ReadPages(view, k, 0)| ==> MainAllowed(db, view(n).main, base, txns)
    ensures MixAllowed(db, ReadPages(view, k, 0), base, txns)
  {
    var pages := ReadPages(view, k, 0);
    ReadPagesEnd(view, k, 0);
    var end := k + |pages|;
    assert MainAllowed(db, view(end).main, base, txns);
    forall p | 0 <= p < |pages|
      ensures PageAllowed(db, base, AllWrites(txns), p, pages[p]) && (txns == [] ==> p < |base| && pages[p] == base[p])
    {
      assert MainAllowed(db, view(k + p).main, base, txns);
      ReadPageMix(db, view, k, base, txns, p);
    }
    if txns == [] {
      assert |pages| <= |base| by {
        assert MainAllowed(db, view(k + (|pages| - 1)).main, base, txns);
        ReadPageMix(db, view, k, base, txns, |pages| - 1);
      }
      assert pages == base;
    }
  }

  /** Overlaying the log on any such mixture gives the committed state. */
  lemma MixOverlays(db: Db, pages: seq<Page>, base: seq<Page>, txns: seq<Txn>)
    requires TxnRules(db, base, txns) && MixAllowed(db, pages, base, txns) && txns != []
    ensures OnePass(pages, AllWrites(txns), LastPages(txns), db.ps) == RunTxns(base, txns, db.ps)
  {
    var writes, n := AllWrites(txns), LastPages(txns);
    OnePassRefinesTransactions(base, txns, db.lock, db.ps);
    forall i | 0 <= i < n
      ensures OnePass(pages, writes, n, db.ps)[i] == OnePass(base, writes, n, db.ps)[i]
    {
      MixOverlaysPage(db, pages, base, txns, i);
    }
    assert OnePass(pages, writes, n, db.ps) == OnePass(base, writes, n, db.ps);
  }

  lemma MixOverlaysPage(db: Db, pages: seq<Page>, base: seq<Page>, txns: seq<Txn>, i: nat)
    requires TxnRules(db, base, txns) && MixAllowed(db, pages, base, txns) && txns != [] && i < LastPages(txns)
    ensures OnePass(pages, AllWrites(txns), LastPages(txns), db.ps)[i] == OnePass(base, AllWrites(txns), LastPages(txns), db.ps)[i]
  {
    var writes, n := AllWrites(txns), LastPages(txns);
    WriteAllAt(Resize(pages, n, db.ps), writes, i);
    WriteAllAt(Resize(base, n, db.ps), writes, i);
    if LastWrite(writes, i + 1).None? {
      if i < |pages| {
        assert PageAllowed(db, base, writes, i, pages[i]);
        NotWritten(writes, i + 1);
      }
      if i >= |base| {
        UnwrittenIsLock(|base|, txns, db.lock, i + 1);
      }
    }
  }

  lemma NotWritten(writes: seq<Write>, p: nat)
    requires LastWrite(writes, p).None?
    ensures forall k :: 0 <= k < |writes| ==> writes[k].pageNo != p
  {
    forall k | 0 <= k < |writes| ensures writes[k].pageNo != p {
      LastWriteHit(writes, k);
    }
  }

  /** Every page of such a mixture is sized and authenticates, and the first declares the page size. */
  lemma MixAuthentic(db: Db, pages: seq<Page>, base: seq<Page>, txns: seq<Txn>)
    requires TxnRules(db, base, txns) && MixAllowed(db, pages, base, txns)
    requires db.d(db.lock, Zeros(db.ps)) == Ok(Zeros(db.ps)) && db.lock > 1
    ensures Sized(pages, db.ps) && DecryptAll(db.d, pages).Ok? && Declares(pages[0], db.ps)
  {
    var writes := AllWrites(txns);
    forall i | 0 <= i < |pages| ensures |pages[i]| == db.ps && db.d(i + 1, pages[i]).Ok? {
      assert PageAllowed(db, base, writes, i, pages[i]);
    }
    DecryptAllSucceeds(db.d, pages);
    assert PageAllowed(db, base, writes, 0, pages[0]);
  }

  ghost predicate StateOpens(suite: seq<byte> -> Cipher, key: seq<byte>, ps: nat, main: seq<byte>, wal: seq<byte>, state: seq<Page>)
    requires ps >= PLAIN_HEADER
  {
    var d := Decryptor(suite(key), ps);
    DecryptAll(d, state).Ok? && OpenDecrypted(suite, main, wal, key) == Ok(Flatten(DecryptAll(d, state).value))
  }

  /** Opening such a mixture with its log gives the decrypted committed state. */
  lemma MixOpens(suite: seq<byte> -> Cipher, key: seq<byte>, ps: nat, pages: seq<Page>, base: seq<Page>, wal: seq<byte>)
    requires |key| == KEY_AND_SALT && ValidPageSize(ps)
    requires ParseHeader(wal).Some? ==> ParseHeader(wal).value.pageSize == ps
    requires var db := Db(Decryptor(suite(key), ps), ps, LockPage(ps));
      TxnRules(db, base, LogTransactions(wal)) && MixAllowed(db, pages, base, LogTransactions(wal))
    ensures StateOpens(suite, key, ps, Flatten(pages), wal, RunTxns(base, LogTransactions(wal), ps))
  {
    var db := Db(Decryptor(suite(key), ps), ps, LockPage(ps));
    LockPageZero(suite(key), ps);
    MixAuthentic(db, pages, base, LogTransactions(wal));
    RawDeclares(ps, pages);
    DecryptedDeclares(suite(key), ps, pages);
    DecryptAllSized(db.d, pages, ps);
    var plain := Flatten(DecryptAll(db.d, pages).value);
    assert DecryptImage(suite, Flatten(pages), key) == Ok(plain);
    MixReplays(suite, key, db, pages, base, LogTransactions(wal));
    if ParseHeader(wal).None? {
      assert LogTransactions(wal) == [];
    }
  }

  lemma MixReplays(suite: seq<byte> -> Cipher, key: seq<byte>, db: Db, pages: seq<Page>, base: seq<Page>, txns: seq<Txn>)
    requires |key| == KEY_AND_SALT && db.ps >= PLAIN_HEADER && db.d == Decryptor(suite(key), db.ps)
    requires TxnRules(db, base, txns) && MixAllowed(db, pages, base, txns)
    requires DecryptAll(db.d, pages).Ok? && Sized(DecryptAll(db.d, pages).value, db.ps)
    requires db.d(db.lock, Zeros(db.ps)) == Ok(Zeros(db.ps))
    requires var plain := Flatten(DecryptAll(db.d, pages).value); PageSizeReadable(plain) && PageSizeOf(plain) == Ok(db.ps)
    ensures var plain, state := Flatten(DecryptAll(db.d, pages).value), RunTxns(base, txns, db.ps);
      DecryptAll(db.d, state).Ok? && ReplayTxns(suite, plain, db.ps, txns, key) == Ok(Flatten(DecryptAll(db.d, state).value))
  {
    if txns != [] {
      MixOverlays(db, pages, base, txns);
      OverlayMeansOnePass(db.d, db.ps, pages, DecryptAll(db.d, pages).value, AllWrites(txns), LastPages(txns), db.lock);
    }
  }

  /** A view of a run: the accesses happen at increasing instants. */
  ghost predicate Watches(view: View, run: Run, sched: nat -> nat) {
    && (forall j: nat, k: nat :: j <= k ==> sched(j) <= sched(k))
    && (forall k: nat :: view(k) == run(sched(k)))
  }

  lemma WatchingIsBounded(db: Db, run: Run, sched: nat -> nat, view: View)
    requires IsRun(db, run) && Watches(view, run, sched)
    ensures Bounded(view)
  {
    forall k: nat ensures |view(k).main| <= MAX_PAGES && |view(k).WalBytes()| <= MAX_LOG {
      RunInv(db, run, sched(k));
    }
  }

  /** During an accepted attempt the log never changed, so all reads saw pages of one log's lifetime. */
  lemma AcceptedSawOneLog(db: Db, run: Run, sched: nat -> nat, view: View, k: nat, n: nat)
    requires IsRun(db, run) && LogChangesVisible(run) && Watches(view, run, sched) && Bounded(view)
    requires Accepted(view, k) && k + 1 <= n <= AfterMain(view, k) + 1
    ensures view(n).wal == view(k + 1).wal && view(n).base == view(k + 1).base && Inv(db, view(n))
  {
    var i, j, end := sched(k + 1), sched(n), sched(AfterMain(view, k) + 1);
    assert PrintOf(run(i)) == PrintOf(run(end));
    assert i <= j <= end;
    forall t: nat | i <= t <= j ensures run(t).wal == run(i).wal {
    }
    SameLogSameBase(db, run, i, j, run(i).wal);
    RunInv(db, run, j);
  }

  /** A log that stays the same while it is read is read as it is. */
  lemma {:induction false} QuietLog(view: View, k: nat, i: nat, bytes: seq<byte>)
    requires Bounded(view) && i <= |bytes| <= MAX_LOG && forall n :: k <= n <= k + |bytes| - i ==> view(n).WalBytes() == bytes
    ensures ReadLog(view, k, i) == bytes[i..]
    decreases |bytes| - i
  {
    assert view(k).WalBytes() == bytes;
    if i < |bytes| {
      QuietLog(view, k + 1, i + 1, bytes);
    }
  }

  /** Likewise when it is only known to stay the same for as long as it was read. */
  lemma {:induction false} LogReadSource(view: View, k: nat, i: nat, bytes: seq<byte>)
    requires Bounded(view) && i <= |bytes| <= MAX_LOG
    requires forall n :: k <= n <= k + |ReadLog(view, k, i)| ==> view(n).WalBytes() == bytes
    ensures ReadLog(view, k, i) == bytes[i..]
    decreases |bytes| - i
  {
    assert view(k).WalBytes() == bytes;
    if i < |bytes| {
      LogReadSource(view, k + 1, i + 1, bytes);
    }
  }

  /** An accepted attempt read the log that was there all the while. */
  lemma AcceptedLog(db: Db, run: Run, sched: nat -> nat, view: View, k: nat)
    requires IsRun(db, run) && LogChangesVisible(run) && Watches(view, run, sched) && Bounded(view) && Accepted(view, k)
    ensures OpenLog(view, k + 2) == view(k + 2).wal
  {
    hide Accepted, IsRun, Inv, LogChangesVisible, Watches, ReadLog, ReadPages;
    AcceptedSawOneLog(db, run, sched, view, k, k + 2);
    if view(k + 2).wal.Some? {
      var bytes := view(k + 2).WalBytes();
      forall n | k + 3 <= n <= k + 3 + |ReadLog(view, k + 3, 0)| ensures view(n).WalBytes() == bytes {
        AcceptedSawOneLog(db, run, sched, view, k, n);
      }
      LogReadSource(view, k + 3, 0, bytes);
    }
  }

  /**
   Every accepted capture opens to exactly the last state committed in the captured log, even if
   checkpoint writes to the main file went unnoticed while it was read.
   */
  lemma AcceptedCaptureIsCommitted(suite: seq<byte> -> Cipher, key: seq<byte>, ps: nat, run: Run, sched: nat -> nat, view: View, k: nat)
    requires |key| == KEY_AND_SALT && ValidPageSize(ps)
    requires IsRun(Db(Decryptor(suite(key), ps), ps, LockPage(ps)), run)
    requires LogChangesVisible(run) && Watches(view, run, sched) && Bounded(view) && Accepted(view, k)
    ensures var w := view(k + 2);
      && Captured(view, k).wal == w.WalBytes()
      && StateOpens(suite, key, ps, Flatten(Captured(view, k).main), Captured(view, k).wal, RunTxns(w.base, w.Txns(), ps))
  {
    var db := Db(Decryptor(suite(key), ps), ps, LockPage(ps));
    var w, start := view(k + 2), MainStart(view, k);
    var pages := ReadPages(view, start, 0);
    AcceptedLog(db, run, sched, view, k);
    AcceptedSawOneLog(db, run, sched, view, k, k + 2);
    forall n | start <= n <= start + |pages| ensures MainAllowed(db, view(n).main, w.base, w.Txns()) {
      AcceptedSawOneLog(db, run, sched, view, k, n);
    }
    ReadPagesMix(db, view, start, w.base, w.Txns());
    MixOpens(suite, key, ps, pages, w.base, w.WalBytes());
  }

  /**
   The whole reader: whatever it returns, over any run and any instants, is a committed state, the one at the
   instant when the accepted attempt read the log.
   */
  lemma SnapshotIsCommitted(suite: seq<byte> -> Cipher, key: seq<byte>, ps: nat, run: Run, sched: nat -> nat, view: View, attempts: nat)
    returns (at: nat)
    requires |key| == KEY_AND_SALT && ValidPageSize(ps)
    requires IsRun(Db(Decryptor(suite(key), ps), ps, LockPage(ps)), run)
    requires LogChangesVisible(run) && Watches(view, run, sched) && Bounded(view)
    requires Snapshot(view, attempts).Some?
    ensures sched(0) <= at == sched(FirstAccepted(view, 0, attempts).value + 2)
    ensures var capture, w := Snapshot(view, attempts).value, run(at);
      && capture.wal == w.WalBytes()
      && StateOpens(suite, key, ps, Flatten(capture.main), capture.wal, RunTxns(w.base, w.Txns(), ps))
  {
    hide Inv, Step, Captured, Accepted, StateOpens, LogChangesVisible;
    var k := FirstAccepted(view, 0, attempts).value;
    AcceptedCaptureIsCommitted(suite, key, ps, run, sched, view, k);
    at := sched(k + 2);
  }

  /** An undisturbed attempt is accepted: the test is not needlessly strict. */
  lemma QuietAttemptAccepted(view: View, k: nat)
    requires Bounded(view)
    requires forall n :: k <= n <= k + |view(k).WalBytes()| + |view(k).main| + 6 ==> view(n) == view(k)
    ensures Accepted(view, k)
  {
    var w := view(k);
    assert |w.main| <= MAX_PAGES && |w.WalBytes()| <= MAX_LOG;
    if w.wal.Some? {
      QuietLog(view, k + 3, 0, w.WalBytes());
    }
    assert OpenLog(view, k + 2) == w.wal;
    QuietRead(view, MainStart(view, k), 0, w);
  }

  lemma {:induction false} QuietRead(view: View, k: nat, i: nat, w: World)
    requires Bounded(view) && i <= |w.main| <= MAX_PAGES && forall n :: k <= n <= k + |w.main| - i ==> view(n) == w
    ensures ReadPages(view, k, i) == w.main[i..]
    decreases |w.main| - i
  {
    assert view(k) == w;
    if i < |w.main| {
      QuietRead(view, k + 1, i + 1, w);
    }
  }
}
