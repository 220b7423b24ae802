/** Bytes and fixed-width words, as Go's encoding/binary reads them. */
module Bytes {

  type byte = x: int | 0 <= x < 256
  type u32 = x: int | 0 <= x < 0x1_0000_0000

  const TWO32: int := 0x1_0000_0000

  function Be32(b: seq<byte>): u32
    requires |b| == 4
  {
    Horner(b[0], b[1], b[2], b[3])
  }

  function Le32(b: seq<byte>): u32
    requires |b| == 4
  {
    Horner(b[3], b[2], b[1], b[0])
  }

  function Horner(a: int, b: int, c: int, d: int): (r: int)
    ensures 0 <= a < 256 && 0 <= b < 256 && 0 <= c < 256 && 0 <= d < 256 ==> 0 <= r < TWO32
  {
    ((a * 256 + b) * 256 + c) * 256 + d
  }

  /** What four bytes spell, in either order. */
  lemma WordsSpelled(b: seq<byte>)
    requires |b| == 4
    ensures var d: seq<int> := b;
      && Be32(b) == 0x100_0000 * d[0] + 0x1_0000 * d[1] + 0x100 * d[2] + d[3]
      && Le32(b) == d[0] + 0x100 * d[1] + 0x1_0000 * d[2] + 0x100_0000 * d[3]
  {
  }

  lemma LastDigit(x: int, y: int, d: int, e: int)
    requires 0 <= d < 256 && 0 <= e < 256 && x * 256 + d == y * 256 + e
    ensures x == y && d == e
  {
  }

  function Word(bigEndian: bool, b: seq<byte>): u32
    requires |b| == 4
  {
    if bigEndian then Be32(b) else Le32(b)
  }

  /** Equal words come from equal bytes, in either byte order. */
  lemma WordInjective(bigEndian: bool, a: seq<byte>, b: seq<byte>)
    requires |a| == |b| == 4
    requires Word(bigEndian, a) == Word(bigEndian, b)
    ensures a == b
  {
    var x: seq<int> := if bigEndian then a else [a[3], a[2], a[1], a[0]];
    var y: seq<int> := if bigEndian then b else [b[3], b[2], b[1], b[0]];
    LastDigit((x[0] * 256 + x[1]) * 256 + x[2], (y[0] * 256 + y[1]) * 256 + y[2], x[3], y[3]);
    LastDigit(x[0] * 256 + x[1], y[0] * 256 + y[1], x[2], y[2]);
    LastDigit(x[0], y[0], x[1], y[1]);
  }

  function Zeros(n: nat): (z: seq<byte>)
    ensures |z| == n
    ensures forall k :: 0 <= k < n ==> z[k] == 0
  {
    seq(n, _ => 0)
  }

  // Little-endian words of the Postbox format, and their printed forms.

  type u64 = x: int | 0 <= x < 0x1_0000_0000_0000_0000
  type i32 = x: int | -0x8000_0000 <= x < 0x8000_0000
  type i64 = x: int | -0x8000_0000_0000_0000 <= x < 0x8000_0000_0000_0000

  const TWO64: int := 0x1_0000_0000_0000_0000

  function Digits32(u: u32): (b: seq<byte>)
    ensures |b| == 4
  {
    [u % 0x100, u / 0x100 % 0x100, u / 0x1_0000 % 0x100, u / 0x100_0000]
  }

  lemma DigitsSpell(u: u32)
    ensures Le32(Digits32(u)) == u
  {
    var q := u / 0x100;
    var r := q / 0x100;
    assert u / 0x1_0000 == r && u / 0x100_0000 == r / 0x100;
  }

  /** The four bytes that spell `u`; `Put32IsDigits` says which. */
  ghost function Put32(u: u32): (b: seq<byte>)
    ensures |b| == 4 && Le32(b) == u
  {
    DigitsSpell(u);
    var b: seq<byte> :| |b| == 4 && Le32(b) == u;
    b
  }

  lemma Put32IsDigits(u: u32)
    ensures Put32(u) == Digits32(u)
  {
    DigitsSpell(u);
    WordInjective(false, Put32(u), Digits32(u));
  }

  lemma Put32Le32(b: seq<byte>)
    requires |b| == 4
    ensures Put32(Le32(b)) == b
  {
    WordInjective(false, Put32(Le32(b)), b);
  }

  function Le64(b: seq<byte>): u64
    requires |b| == 8
  {
    Le32(b[..4]) + TWO32 * Le32(b[4..])
  }

  ghost function Put64(u: u64): (b: seq<byte>)
    ensures |b| == 8 && Le64(b) == u
  {
    var lo, hi := Put32(u % TWO32), Put32(u / TWO32);
    assert (lo + hi)[..4] == lo && (lo + hi)[4..] == hi;
    var b: seq<byte> :| |b| == 8 && Le64(b) == u;
    b
  }

  lemma SplitWords(lo: u32, hi: u32)
    ensures (lo + TWO32 * hi) % TWO32 == lo && (lo + TWO32 * hi) / TWO32 == hi
  {
  }

  lemma Le64Injective(a: seq<byte>, b: seq<byte>)
    requires |a| == |b| == 8 && Le64(a) == Le64(b)
    ensures a == b
  {
    SplitWords(Le32(a[..4]), Le32(a[4..]));
    SplitWords(Le32(b[..4]), Le32(b[4..]));
    WordInjective(false, a[..4], b[..4]);
    WordInjective(false, a[4..], b[4..]);
    assert a == a[..4] + a[4..] && b == b[..4] + b[4..];
  }

  lemma Put64Le64(b: seq<byte>)
    requires |b| == 8
    ensures Put64(Le64(b)) == b
  {
    Le64Injective(Put64(Le64(b)), b);
  }

  /** Two's complement. */
  function Signed32(u: u32): i32 {
    if u < 0x8000_0000 then u else u - TWO32
  }

  function Unsigned32(i: i32): u32 {
    if i >= 0 then i else i + TWO32
  }

  function Signed64(u: u64): i64 {
    if u < 0x8000_0000_0000_0000 then u else u - TWO64
  }

  function Unsigned64(i: i64): u64 {
    if i >= 0 then i else i + TWO64
  }

  function Int32At(b: seq<byte>): i32
    requires |b| == 4
  {
    Signed32(Le32(b))
  }

  ghost function PutInt32(i: i32): (b: seq<byte>)
    ensures |b| == 4
  {
    Put32(Unsigned32(i))
  }

  function Int64At(b: seq<byte>): i64
    requires |b| == 8
  {
    Signed64(Le64(b))
  }

  ghost function PutInt64(i: i64): (b: seq<byte>)
    ensures |b| == 8
  {
    Put64(Unsigned64(i))
  }

  lemma Int32RoundTrip(i: i32, b: seq<byte>)
    requires |b| == 4
    ensures Int32At(PutInt32(i)) == i && PutInt32(Int32At(b)) == b
  {
    Put32Le32(b);
  }

  lemma Int64RoundTrip(i: i64, b: seq<byte>)
    requires |b| == 8
    ensures Int64At(PutInt64(i)) == i && PutInt64(Int64At(b)) == b
  {
    Put64Le64(b);
  }
}
