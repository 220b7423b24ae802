/** The Postbox format with its numbers written out: which bytes stand for which tree. */
module PostboxFormat {
  import opened Bytes
  import opened ByteReading
  import opened PostboxCanonical
  import opened PostboxTree
  import opened Wrappers

  /** `n` bytes that spell `u`, the least significant first. */
  function Little(u: nat, n: nat): (b: seq<byte>)
    ensures |b| == n
  {
    if n == 0 then [] else [u % 256] + Little(u / 256, n - 1)
  }

  /** Two's complement in four and in eight bytes. */
  function Wire32(i: i32): seq<byte> {
    Little(if i < 0 then i + 0x1_0000_0000 else i, 4)
  }

  function Wire64(i: i64): seq<byte> {
    Little(if i < 0 then i + 0x1_0000_0000_0000_0000 else i, 8)
  }

  /** A length of four bytes before a text. */
  function WireText(t: seq<byte>): seq<byte> {
    Little(|t|, 4) + t
  }

  function WireTexts(xs: seq<seq<byte>>): seq<byte> {
    if xs == [] then [] else WireText(xs[0]) + WireTexts(xs[1..])
  }

  function WireI32s(xs: seq<i32>): seq<byte> {
    if xs == [] then [] else Wire32(xs[0]) + WireI32s(xs[1..])
  }

  function WireI64s(xs: seq<i64>): seq<byte> {
    if xs == [] then [] else Wire64(xs[0]) + WireI64s(xs[1..])
  }

  /** The type byte and the bytes of a value: fourteen types, from 0 to 13. */
  function WireValue(v: Tree): (r: seq<byte>)
    ensures r != []
    decreases v
  {
    match v
    case Int32(i) => [0] + Wire32(i)
    case Int64(l) => [1] + Wire64(l)
    case Bool(raw) => [2, raw]
    case Double(bits) => [3] + Little(bits, 8)
    case Str(text) => [4] + WireText(text)
    case Obj(o) => [5] + WireObject(o)
    case Int32s(xs) => [6] + Little(|xs|, 4) + WireI32s(xs)
    case Int64s(xs) => [7] + Little(|xs|, 4) + WireI64s(xs)
    case Objs(os) => [8] + Little(|os|, 4) + WireObjects(os)
    case Pairs(ps) => [9] + Little(|ps|, 4) + WirePairs(ps)
    case Blob(bytes) => [10] + WireText(bytes)
    case Nil => [11]
    case Strs(xs) => [12] + Little(|xs|, 4) + WireTexts(xs)
    case Blobs(xs) => [13] + Little(|xs|, 4) + WireTexts(xs)
  }

  /** A type hash, the length of the entries, and the entries. */
  function WireObject(o: Object): seq<byte>
    decreases o
  {
    Wire32(o.typeHash) + WireText(WireEntries(o.entries))
  }

  function WireObjects(os: seq<Object>): seq<byte>
    decreases os
  {
    if os == [] then [] else WireObject(os[0]) + WireObjects(os[1..])
  }

  function WirePair(p: Pair): seq<byte>
    decreases p
  {
    WireObject(p.left) + WireObject(p.right)
  }

  function WirePairs(ps: seq<Pair>): seq<byte>
    decreases ps
  {
    if ps == [] then [] else WirePair(ps[0]) + WirePairs(ps[1..])
  }

  /** For each entry a length of one byte, its key, and its value. */
  function WireEntries(es: seq<Entry>): seq<byte>
    decreases es
  {
    if es == [] then [] else Little(|es[0].key|, 1) + es[0].key + WireValue(es[0].value) + WireEntries(es[1..])
  }

  /** `data` is the wire form of these entries, within 64 levels and 2^20 items. */
  ghost predicate Wired(data: seq<byte>, es: seq<Entry>) {
    && data == WireEntries(es) && PrintableEntries(es)
    && EntryDepth(es) <= 64 && EntryItems(es) <= 0x10_0000
  }

  // The printed form is that.

  lemma LittleStep(u: nat, n: nat)
    ensures Little(u, n + 1) == [u % 256] + Little(u / 256, n) && Little(u, 0) == []
  {
  }

  lemma LittleFour(u: u32)
    ensures Little(u, 4) == Digits32(u) == Put32(u)
  {
    var a := u / 256;
    var b := a / 256;
    var c := b / 256;
    assert b == u / 0x1_0000 && c == u / 0x100_0000;
    LittleStep(u, 3);
    LittleStep(a, 2);
    LittleStep(b, 1);
    LittleStep(c, 0);
    Put32IsDigits(u);
    hide Little;
    assert Little(u, 4) == [u % 256, a % 256, b % 256, c % 256];
  }

  /** Eight bytes are two words. */
  lemma LittleEight(u: u64)
    ensures Little(u, 8) == Put64(u)
  {
    var lo, hi := u % TWO32, u / TWO32;
    LittleFour(lo);
    LittleFour(hi);
    EightIsFourAndFour(u);
    var b := Little(u, 8);
    assert b[..4] == Put32(lo) && b[4..] == Put32(hi);
    Le64Injective(b, Put64(u));
  }

  lemma FirstFour(u: nat, n: nat)
    ensures Little(u, n + 4) ==
      [u % 256, u / 256 % 256, u / 256 / 256 % 256, u / 256 / 256 / 256 % 256] + Little(u / 256 / 256 / 256 / 256, n)
  {
    assert Little(u, n + 4) == [u % 256] + Little(u / 256, n + 3);
    assert Little(u / 256, n + 3) == [u / 256 % 256] + Little(u / 256 / 256, n + 2);
    assert Little(u / 256 / 256, n + 2) == [u / 256 / 256 % 256] + Little(u / 256 / 256 / 256, n + 1);
    assert Little(u / 256 / 256 / 256, n + 1) == [u / 256 / 256 / 256 % 256] + Little(u / 256 / 256 / 256 / 256, n);
  }

  lemma EightIsFourAndFour(u: u64)
    ensures Little(u, 8) == Little(u % TWO32, 4) + Little(u / TWO32, 4)
  {
    Quotients(u);
    FirstFour(u, 4);
    FirstFour(u % TWO32, 0);
  }

  /** Digits of the lower word. */
  lemma Quotients(u: u64)
    ensures var v := u % TWO32;
      && u / 256 / 256 / 256 / 256 == u / TWO32 && v % 256 == u % 256 && v / 256 % 256 == u / 256 % 256
      && v / 256 / 256 % 256 == u / 256 / 256 % 256 && v / 256 / 256 / 256 % 256 == u / 256 / 256 / 256 % 256
  {
    var v, q := u % TWO32, u / TWO32;
    var a, b, c := u / 256, u / 256 / 256, u / 256 / 256 / 256;
    assert u == v + q * 0x1_0000_0000;
    assert v / 256 == a - q * 0x100_0000 && v / 256 / 256 == b - q * 0x1_0000 && v / 256 / 256 / 256 == c - q * 0x100;
  }

  lemma Wire32IsPut(i: i32)
    ensures Wire32(i) == PutInt32(i)
  {
    LittleFour(Unsigned32(i));
  }

  lemma Wire64IsPut(i: i64)
    ensures Wire64(i) == PutInt64(i)
  {
    LittleEight(Unsigned64(i));
  }

  lemma SizeIsPut(n: nat)
    requires n < 0x8000_0000
    ensures Little(n, 4) == PutSize(n)
  {
    LittleFour(n);
  }

  lemma {:induction false} TextsArePut(xs: seq<seq<byte>>)
    requires Texts(xs)
    ensures WireTexts(xs) == PutAllTexts(xs)
  {
    hide Little, PutSize;
    if xs != [] {
      SizeIsPut(|xs[0]|);
      TextsArePut(xs[1..]);
    }
  }

  lemma {:induction false} I32sArePut(xs: seq<i32>)
    ensures WireI32s(xs) == PutI32s(xs)
  {
    hide Wire32, PutInt32;
    if xs != [] {
      Wire32IsPut(xs[0]);
      I32sArePut(xs[1..]);
    }
  }

  lemma {:induction false} I64sArePut(xs: seq<i64>)
    ensures WireI64s(xs) == PutI64s(xs)
  {
    hide Wire64, PutInt64;
    if xs != [] {
      Wire64IsPut(xs[0]);
      I64sArePut(xs[1..]);
    }
  }

  /** A flat value, one of numbers or texts. */
  lemma FlatIsPut(v: Tree)
    requires Printable(v) && !v.Obj? && !v.Objs? && !v.Pairs?
    ensures WireValue(v) == [Tag(v)] + PutValue(v)
  {
    hide Little, Wire32, Wire64, PutInt32, PutInt64, Put64, PutSize, WireI32s, WireI64s, WireTexts, PutI32s, PutI64s, PutAllTexts;
    match v
    case Int32(i) => Wire32IsPut(i);
    case Int64(l) => Wire64IsPut(l);
    case Bool(raw) =>
    case Double(bits) => LittleEight(bits);
    case Str(text) => SizeIsPut(|text|);
    case Int32s(xs) =>
      SizeIsPut(|xs|);
      I32sArePut(xs);
    case Int64s(xs) =>
      SizeIsPut(|xs|);
      I64sArePut(xs);
    case Blob(bytes) => SizeIsPut(|bytes|);
    case Nil =>
    case Strs(xs) =>
      SizeIsPut(|xs|);
      TextsArePut(xs);
    case Blobs(xs) =>
      SizeIsPut(|xs|);
      TextsArePut(xs);
  }

  lemma {:induction false} ValueIsPut(v: Tree)
    requires Printable(v)
    ensures WireValue(v) == [Tag(v)] + PutValue(v)
    decreases v
  {
    hide Little, PutSize, WireObject, PutObject, WireObjects, PutObjects, WirePairs, PutPairs;
    match v
    case Obj(o) => ObjectIsPut(o);
    case Objs(os) =>
      SizeIsPut(|os|);
      ObjectsArePut(os);
    case Pairs(ps) =>
      SizeIsPut(|ps|);
      PairsArePut(ps);
    case _ => FlatIsPut(v);
  }

  lemma {:induction false} ObjectIsPut(o: Object)
    requires PrintableObject(o)
    ensures WireObject(o) == PutObject(o)
    decreases o
  {
    hide Little, PutSize, Wire32, PutInt32, WireEntries, PutEntries;
    Wire32IsPut(o.typeHash);
    EntriesArePut(o.entries);
    SizeIsPut(|PutEntries(o.entries)|);
  }

  lemma {:induction false} ObjectsArePut(os: seq<Object>)
    requires PrintableObjects(os)
    ensures WireObjects(os) == PutObjects(os)
    decreases os
  {
    hide WireObject, PutObject;
    if os != [] {
      ObjectIsPut(os[0]);
      ObjectsArePut(os[1..]);
    }
  }

  lemma {:induction false} PairIsPut(p: Pair)
    requires PrintablePair(p)
    ensures WirePair(p) == PutPair(p)
    decreases p
  {
    hide WireObject, PutObject;
    ObjectIsPut(p.left);
    ObjectIsPut(p.right);
  }

  lemma {:induction false} PairsArePut(ps: seq<Pair>)
    requires PrintablePairs(ps)
    ensures WirePairs(ps) == PutPairs(ps)
    decreases ps
  {
    hide WirePair, PutPair;
    if ps != [] {
      PairIsPut(ps[0]);
      PairsArePut(ps[1..]);
    }
  }

  lemma KeyIsPut(key: seq<byte>)
    requires |key| <= 255
    ensures Little(|key|, 1) + key == PutKey(key)
  {
    assert Little(|key|, 1) == [|key|] + [];
  }

  lemma {:induction false} EntriesArePut(es: seq<Entry>)
    requires PrintableEntries(es)
    ensures WireEntries(es) == PutEntries(es)
    decreases es
  {
    hide Little, PutKey, WireValue, PutValue, Tag;
    if es != [] {
      var key, v := es[0].key, es[0].value;
      KeyIsPut(key);
      ValueIsPut(v);
      EntriesArePut(es[1..]);
      assert PutKey(key) + ([Tag(v)] + PutValue(v)) + PutEntries(es[1..]) ==
        PutKey(key) + ([Tag(v)] + (PutValue(v) + PutEntries(es[1..])));
    }
  }

  /** The accepted byte strings are exactly the wire forms of trees within both limits. */
  lemma AcceptedIsWired(data: seq<byte>, es: seq<Entry>)
    ensures Parse(data) == Ok(es) <==> Wired(data, es)
  {
    hide WireEntries, PutEntries, Parse, PrintableEntries;
    AcceptedExactly(data, es);
    if PrintableEntries(es) {
      EntriesArePut(es);
    }
  }
}
