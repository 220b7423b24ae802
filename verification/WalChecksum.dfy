/**
 The cumulative checksum of SQLite's write-ahead log (section 4.2 of the SQLite
 Database File Format document): two 32-bit sums folded over 8-byte blocks.
 */
module WalChecksum {
  import opened Bytes

  datatype Sum = Sum(s1: u32, s2: u32)

  /** uint32 addition. */
  function Add32(x: u32, y: u32): u32 {
    (x + y) % TWO32
  }

  function Step(bigEndian: bool, block: seq<byte>, s: Sum): Sum
    requires |block| == 8
  {
    var s1 := Add32(s.s1, Add32(Word(bigEndian, block[..4]), s.s2));
    var s2 := Add32(s.s2, Add32(Word(bigEndian, block[4..8]), s1));
    Sum(s1, s2)
  }

  /** Folds `f` over the whole 8-byte blocks of `data`; a trailing partial block is ignored. */
  function FoldBlocks<S>(f: (seq<byte>, S) -> S, data: seq<byte>, s: S): S
    decreases |data|
  {
    if |data| < 8 then s else FoldBlocks(f, data[8..], f(data[..8], s))
  }

  function Stepper(bigEndian: bool): (seq<byte>, Sum) -> Sum {
    (block, s) => if |block| == 8 then Step(bigEndian, block, s) else s
  }

  function Checksum(bigEndian: bool, data: seq<byte>, s: Sum): Sum {
    FoldBlocks(Stepper(bigEndian), data, s)
  }

  method SqliteWalChecksum(bigEndian: bool, data: seq<byte>, s1In: u32, s2In: u32) returns (s1: u32, s2: u32)
    ensures Sum(s1, s2) == Checksum(bigEndian, data, Sum(s1In, s2In))
  {
    s1, s2 := s1In, s2In;
    ghost var f := Stepper(bigEndian);
    var i := 0;
    while i + 8 <= |data|
      invariant 0 <= i <= |data|
      invariant FoldBlocks(f, data[i..], Sum(s1, s2)) == FoldBlocks(f, data, Sum(s1In, s2In))
    {
      ghost var block, before := data[i..][..8], Sum(s1, s2);
      assert block[..4] == data[i..i + 4] && block[4..8] == data[i + 4..i + 8];
      assert data[i..][8..] == data[i + 8..];
      s1 := Add32(s1, Add32(Word(bigEndian, data[i..i + 4]), s2));
      s2 := Add32(s2, Add32(Word(bigEndian, data[i + 4..i + 8]), s1));
      assert Sum(s1, s2) == f(block, before);
      i := i + 8;
    }
  }

  /** Folds over consecutive chunks compose when the first is a whole number of blocks. */
  lemma {:induction false} FoldComposes<S>(f: (seq<byte>, S) -> S, a: seq<byte>, b: seq<byte>, s: S)
    requires |a| % 8 == 0
    ensures FoldBlocks(f, a + b, s) == FoldBlocks(f, b, FoldBlocks(f, a, s))
    decreases |a|
  {
    if a == [] {
      assert a + b == b;
    } else {
      assert (a + b)[..8] == a[..8] && (a + b)[8..] == a[8..] + b;
      FoldComposes(f, a[8..], b, f(a[..8], s));
    }
  }

  lemma ChecksumComposes(bigEndian: bool, a: seq<byte>, b: seq<byte>, s: Sum)
    requires |a| % 8 == 0
    ensures Checksum(bigEndian, a + b, s) == Checksum(bigEndian, b, Checksum(bigEndian, a, s))
  {
    FoldComposes(Stepper(bigEndian), a, b, s);
  }

  lemma AddCancels(x: u32, y: u32, c: u32)
    requires Add32(x, c) == Add32(y, c)
    ensures x == y
  {
    var qx, qy := (x + c) / TWO32, (y + c) / TWO32;
    assert x - y == TWO32 * (qx - qy);
  }

  lemma AddCommutes(x: u32, y: u32)
    ensures Add32(x, y) == Add32(y, x)
  {
  }

  /** uint32 subtraction, and the fact that it undoes addition. */
  function Sub32(x: u32, y: u32): u32 {
    (x - y) % TWO32
  }

  lemma SubThenAdd(x: u32, y: u32)
    ensures Add32(Sub32(x, y), y) == x
  {
  }

  /** The sums from which a block leads to `r`. */
  function Unstep(bigEndian: bool, block: seq<byte>, r: Sum): Sum
    requires |block| == 8
  {
    var s2 := Sub32(r.s2, Add32(Word(bigEndian, block[4..8]), r.s1));
    Sum(Sub32(r.s1, Add32(Word(bigEndian, block[..4]), s2)), s2)
  }

  /** Each step is a bijection on the pair of sums: every pair is reached from exactly one pair. */
  lemma StepBijective(bigEndian: bool, block: seq<byte>, s: Sum, r: Sum)
    requires |block| == 8
    ensures Step(bigEndian, block, s) == r <==> s == Unstep(bigEndian, block, r)
  {
    var lo, hi := Word(bigEndian, block[..4]), Word(bigEndian, block[4..8]);
    var u := Unstep(bigEndian, block, r);
    SubThenAdd(r.s1, Add32(lo, u.s2));
    SubThenAdd(r.s2, Add32(hi, r.s1));
    assert Step(bigEndian, block, u) == r;
    if Step(bigEndian, block, s) == r {
      AddCancels(s.s2, u.s2, Add32(hi, r.s1));
      AddCancels(s.s1, u.s1, Add32(lo, s.s2));
    }
  }

  /** For fixed sums, different blocks give different sums. */
  lemma StepInjectiveInBlock(bigEndian: bool, a: seq<byte>, b: seq<byte>, s: Sum)
    requires |a| == |b| == 8
    requires Step(bigEndian, a, s) == Step(bigEndian, b, s)
    ensures a == b
  {
    var r1 := Step(bigEndian, a, s).s1;
    var la, lb, ha, hb := Word(bigEndian, a[..4]), Word(bigEndian, b[..4]), Word(bigEndian, a[4..8]), Word(bigEndian, b[4..8]);
    AddCommutes(s.s1, Add32(la, s.s2));
    AddCommutes(s.s1, Add32(lb, s.s2));
    AddCancels(Add32(la, s.s2), Add32(lb, s.s2), s.s1);
    AddCancels(la, lb, s.s2);
    AddCommutes(s.s2, Add32(ha, r1));
    AddCommutes(s.s2, Add32(hb, r1));
    AddCancels(Add32(ha, r1), Add32(hb, r1), s.s2);
    AddCancels(ha, hb, r1);
    WordInjective(bigEndian, a[..4], b[..4]);
    WordInjective(bigEndian, a[4..8], b[4..8]);
    assert a == a[..4] + a[4..8] && b == b[..4] + b[4..8];
  }

  lemma {:induction false} FoldInjective<S(!new)>(f: (seq<byte>, S) -> S, data: seq<byte>, s: S, t: S)
    requires forall block, x, y :: |block| == 8 && f(block, x) == f(block, y) ==> x == y
    requires FoldBlocks(f, data, s) == FoldBlocks(f, data, t)
    ensures s == t
    decreases |data|
  {
    if |data| >= 8 {
      FoldInjective(f, data[8..], f(data[..8], s), f(data[..8], t));
    }
  }

  lemma ChecksumInjectiveInSum(bigEndian: bool, data: seq<byte>, s: Sum, t: Sum)
    requires Checksum(bigEndian, data, s) == Checksum(bigEndian, data, t)
    ensures s == t
  {
    var f := Stepper(bigEndian);
    forall block, x, y | |block| == 8 && f(block, x) == f(block, y) ensures x == y {
      StepBijective(bigEndian, block, x, f(block, x));
      StepBijective(bigEndian, block, y, f(block, x));
    }
    FoldInjective(f, data, s, t);
  }

  /** `b` is `a` with some bytes of the aligned block at `8 * k` changed, and nothing else. */
  ghost predicate OneBlockDiffers(a: seq<byte>, b: seq<byte>, k: nat)
  {
    && |a| == |b| && 8 * k + 8 <= |a| && a != b
    && a[..8 * k] == b[..8 * k] && a[8 * k + 8..] == b[8 * k + 8..]
  }

  lemma BlockDiffers(a: seq<byte>, b: seq<byte>, k: nat)
    requires OneBlockDiffers(a, b, k)
    ensures a[8 * k..8 * k + 8] != b[8 * k..8 * k + 8]
  {
    var i := 8 * k;
    assert a == a[..i] + a[i..i + 8] + a[i + 8..] && b == b[..i] + b[i..i + 8] + b[i + 8..];
  }

  lemma {:induction false} FoldSplit<S>(f: (seq<byte>, S) -> S, a: seq<byte>, k: nat, s: S)
    requires 8 * k + 8 <= |a|
    ensures FoldBlocks(f, a, s) == FoldBlocks(f, a[8 * k + 8..], f(a[8 * k..8 * k + 8], FoldBlocks(f, a[..8 * k], s)))
  {
    var i := 8 * k;
    assert a == a[..i] + a[i..] && a[i..][..8] == a[i..i + 8] && a[i..][8..] == a[i + 8..];
    FoldComposes(f, a[..i], a[i..], s);
  }

  /** A change confined to one aligned block always changes the checksum. */
  lemma BlockChangeDetected(bigEndian: bool, a: seq<byte>, b: seq<byte>, k: nat, s: Sum)
    requires OneBlockDiffers(a, b, k)
    ensures Checksum(bigEndian, a, s) != Checksum(bigEndian, b, s)
  {
    var f, i := Stepper(bigEndian), 8 * k;
    FoldSplit(f, a, k, s);
    FoldSplit(f, b, k, s);
    var x, y, mid := a[i..i + 8], b[i..i + 8], FoldBlocks(f, a[..i], s);
    BlockDiffers(a, b, k);
    if Checksum(bigEndian, a, s) == Checksum(bigEndian, b, s) {
      ChecksumInjectiveInSum(bigEndian, a[i + 8..], f(x, mid), f(y, mid));
      StepInjectiveInBlock(bigEndian, x, y, mid);
    }
  }
}
