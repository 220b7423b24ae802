/** Every accepted input is the printed form of the tree it decodes to, which is within the limits. */
module PostboxCanonical {
  import opened Bytes
  import opened ByteReading
  import opened PostboxRoundTrip
  import opened PostboxTree
  import opened Wrappers

  // Flat fields.

  lemma SizedFromText(data: seq<byte>, off: nat)
    requires off <= |data| && TakeBytes(data, off).Ok?
    ensures var (x, next) := TakeBytes(data, off).value;
      |x| < 0x8000_0000 && next == off + 4 + |x| && Printed(data, off, PutSize(|x|) + x)
  {
    BytesFromText(data, off);
    var x := TakeBytes(data, off).value.0;
    BytesReadBack(data, off, x);
    assert PutBytes(x) == PutSize(|x|) + x;
  }

  lemma KeyFromText(data: seq<byte>, off: nat)
    requires off <= |data| && TakeShortString(data, off).Ok?
    ensures var (key, next) := TakeShortString(data, off).value;
      |key| <= 255 && next == off + |PutKey(key)| == off + 1 + |key| && Printed(data, off, PutKey(key))
  {
    var key := TakeShortString(data, off).value.0;
    ShortReadsBack(data, off, key);
    assert PutShort(key) == PutKey(key);
  }

  lemma CountedFromText(data: seq<byte>, off: nat, items: nat, minBytes: nat)
    requires off <= |data| && minBytes > 0 && Counted(data, off, items, minBytes).Ok?
    ensures var (n, next, left) := Counted(data, off, items, minBytes).value;
      && n < 0x8000_0000 && n <= items && left == items - n && next == off + 4 <= |data|
      && Printed(data, off, PutSize(n))
  {
    CountFromText(data, off, minBytes);
  }

  lemma {:induction false} AllTextsFromText(data: seq<byte>, off: nat, n: nat, acc: seq<seq<byte>>) returns (xs: seq<seq<byte>>)
    requires off <= |data| && TakeTexts(data, off, n, acc).Ok?
    ensures |xs| == n && Texts(xs) && TakeTexts(data, off, n, acc) == Ok((acc + xs, off + |PutAllTexts(xs)|))
    ensures Printed(data, off, PutAllTexts(xs))
    decreases n
  {
    hide TakeBytes, PutSize;
    xs := [];
    if n == 0 {
      assert acc + xs == acc;
    } else {
      SizedFromText(data, off);
      var x := TakeBytes(data, off).value.0;
      var rest := AllTextsFromText(data, off + 4 + |x|, n - 1, acc + [x]);
      xs := [x] + rest;
      assert xs[1..] == rest && acc + [x] + rest == acc + xs;
      PrintedSplit(data, off, PutSize(|x|) + x, PutAllTexts(rest));
    }
  }

  /** What the bytes between `off` and `next` spell. */
  ghost predicate Spells(data: seq<byte>, off: nat, next: nat, text: seq<byte>) {
    Printed(data, off, text) && next == off + |text|
  }

  lemma SpellsBoth(data: seq<byte>, off: nat, mid: nat, next: nat, a: seq<byte>, b: seq<byte>)
    requires Spells(data, off, mid, a) && Spells(data, mid, next, b)
    ensures Spells(data, off, next, a + b)
  {
    PrintedSplit(data, off, a, b);
  }

  /** The cost of a decoded part: depth within the limit, items taken from the budget. */
  predicate Took(depth: nat, items: nat, left: nat, needDepth: nat, needItems: nat) {
    depth + needDepth <= MAX_DEPTH && items == left + needItems
  }

  ghost predicate ValueSpelled(tag: byte, data: seq<byte>, o: nat, depth: nat, items: nat, v: Tree, next: nat, left: nat) {
    && Tag(v) == tag && Printable(v) && Spells(data, o, next, PutValue(v))
    && Took(depth, items, left, Depth(v), Items(v))
  }

  lemma FlatFromText(tag: byte, data: seq<byte>, o: nat, depth: nat, items: nat)
    requires o <= |data| && depth <= MAX_DEPTH && ParseTagged(tag, data, o, depth, items).Ok?
    requires tag in {0, 1, 2, 3, 4, 10, 11}
    ensures var (v, next, left) := ParseTagged(tag, data, o, depth, items).value;
      ValueSpelled(tag, data, o, depth, items, v, next, left)
  {
    hide TakeI32, TakeI64, TakeByte, TakeF64, TakeBytes;
    if tag == 0 {
      I32ReadsBack(data, o, TakeI32(data, o).value.0);
    } else if tag == 1 {
      I64ReadsBack(data, o, TakeI64(data, o).value.0);
    } else if tag == 2 {
      ByteReadsBack(data, o, TakeByte(data, o).value.0);
    } else if tag == 3 {
      F64ReadsBack(data, o, TakeF64(data, o).value.0);
    } else if tag == 4 || tag == 10 {
      SizedFromText(data, o);
    }
  }

  lemma NumbersFromText(tag: byte, data: seq<byte>, o: nat, depth: nat, items: nat)
    requires o <= |data| && depth <= MAX_DEPTH && ParseTagged(tag, data, o, depth, items).Ok?
    requires tag == 6 || tag == 7
    ensures var (v, next, left) := ParseTagged(tag, data, o, depth, items).value;
      ValueSpelled(tag, data, o, depth, items, v, next, left)
  {
    hide TakeI32s, TakeI64s, Counted, PutI32s, PutI64s, PutSize;
    if tag == 6 {
      CountedFromText(data, o, items, 4);
      var n := Counted(data, o, items, 4).value.0;
      var xs := I32sFromText(data, o + 4, n, []);
      assert [] + xs == xs;
      PrintedSplit(data, o, PutSize(n), PutI32s(xs));
    } else {
      CountedFromText(data, o, items, 8);
      var n := Counted(data, o, items, 8).value.0;
      var xs := I64sFromText(data, o + 4, n, []);
      assert [] + xs == xs;
      PrintedSplit(data, o, PutSize(n), PutI64s(xs));
    }
  }

  lemma TextsFromText(tag: byte, data: seq<byte>, o: nat, depth: nat, items: nat)
    requires o <= |data| && depth <= MAX_DEPTH && ParseTagged(tag, data, o, depth, items).Ok?
    requires tag == 12 || tag == 13
    ensures var (v, next, left) := ParseTagged(tag, data, o, depth, items).value;
      ValueSpelled(tag, data, o, depth, items, v, next, left)
  {
    hide TakeTexts, Counted, PutAllTexts, PutSize, Texts;
    CountedFromText(data, o, items, 4);
    var n := Counted(data, o, items, 4).value.0;
    var xs := AllTextsFromText(data, o + 4, n, []);
    assert [] + xs == xs;
    PrintedSplit(data, o, PutSize(n), PutAllTexts(xs));
  }

  // Nested fields.

  lemma {:induction false} ValueFromText(tag: byte, data: seq<byte>, o: nat, depth: nat, items: nat)
    requires o <= |data| && depth <= MAX_DEPTH && ParseTagged(tag, data, o, depth, items).Ok?
    ensures var (v, next, left) := ParseTagged(tag, data, o, depth, items).value;
      ValueSpelled(tag, data, o, depth, items, v, next, left)
    decreases |data| - o, 2
  {
    if tag == 5 {
      ObjectValueFromText(data, o, depth, items);
    } else if tag == 6 || tag == 7 {
      NumbersFromText(tag, data, o, depth, items);
    } else if tag == 8 {
      ObjectArrayFromText(data, o, depth, items);
    } else if tag == 9 {
      PairArrayFromText(data, o, depth, items);
    } else if tag == 12 || tag == 13 {
      TextsFromText(tag, data, o, depth, items);
    } else {
      FlatFromText(tag, data, o, depth, items);
    }
  }

  lemma {:induction false} ObjectValueFromText(data: seq<byte>, o: nat, depth: nat, items: nat)
    requires o <= |data| && depth <= MAX_DEPTH && ParseTagged(5, data, o, depth, items).Ok?
    ensures var (v, next, left) := ParseTagged(5, data, o, depth, items).value;
      ValueSpelled(5, data, o, depth, items, v, next, left)
    decreases |data| - o, 1
  {
    hide ParseObject, PutObject, PrintableObject, EntryItems, EntryDepth;
    ObjectFromText(data, o, depth, items);
  }

  lemma {:induction false} ObjectArrayFromText(data: seq<byte>, o: nat, depth: nat, items: nat)
    requires o <= |data| && depth <= MAX_DEPTH && ParseTagged(8, data, o, depth, items).Ok?
    ensures var (v, next, left) := ParseTagged(8, data, o, depth, items).value;
      ValueSpelled(8, data, o, depth, items, v, next, left)
    decreases |data| - o, 1
  {
    hide Counted, ParseObjects, PutObjects, PrintableObjects, ObjectItems, ObjectDepth, PutSize, Printed;
    CountedFromText(data, o, items, 8);
    var (n, start, left) := Counted(data, o, items, 8).value;
    var os := ObjectsFromText(data, start, depth, left, n, []);
    assert [] + os == os;
    var next := ParseObjects(data, start, depth, left, n, []).value.1;
    SpellsBoth(data, o, start, next, PutSize(n), PutObjects(os));
  }

  lemma {:induction false} PairArrayFromText(data: seq<byte>, o: nat, depth: nat, items: nat)
    requires o <= |data| && depth <= MAX_DEPTH && ParseTagged(9, data, o, depth, items).Ok?
    ensures var (v, next, left) := ParseTagged(9, data, o, depth, items).value;
      ValueSpelled(9, data, o, depth, items, v, next, left)
    decreases |data| - o, 1
  {
    hide Counted, ParsePairs, PutPairs, PrintablePairs, PairItems, PairDepth, PutSize, Printed;
    CountedFromText(data, o, items, 16);
    var (n, start, left) := Counted(data, o, items, 16).value;
    var ps := PairsFromText(data, start, depth, left, n, []);
    assert [] + ps == ps;
    var next := ParsePairs(data, start, depth, left, n, []).value.1;
    SpellsBoth(data, o, start, next, PutSize(n), PutPairs(ps));
  }

  lemma {:induction false} ObjectFromText(data: seq<byte>, off: nat, depth: nat, items: nat)
    requires off <= |data| && depth <= MAX_DEPTH && ParseObject(data, off, depth, items).Ok?
    ensures var (o, next, left) := ParseObject(data, off, depth, items).value;
      && PrintableObject(o) && Spells(data, off, next, PutObject(o))
      && Took(depth, items, left, 1 + EntryDepth(o.entries), EntryItems(o.entries))
    decreases |data| - off, 0
  {
    hide TakeI32, TakeBytes, ParseEntries, PutEntries, PrintableEntries, EntryDepth, EntryItems, PutSize, Printed;
    var (typeHash, o) := TakeI32(data, off).value;
    I32ReadsBack(data, off, typeHash);
    SizedFromText(data, o);
    var (payload, next) := TakeBytes(data, o).value;
    var es := EntriesFromText(payload, 0, depth + 1, items, []);
    WholeText(payload, PutEntries(es));
    assert [] + es == es;
    SpellsBoth(data, off, o, next, PutInt32(typeHash), PutSize(|payload|) + payload);
  }

  lemma WholeText(data: seq<byte>, text: seq<byte>)
    requires Spells(data, 0, |data|, text)
    ensures data == text
  {
  }

  lemma {:induction false} ObjectsFromText(data: seq<byte>, off: nat, depth: nat, items: nat, n: nat, acc: seq<Object>)
    returns (os: seq<Object>)
    requires off <= |data| && depth <= MAX_DEPTH && ParseObjects(data, off, depth, items, n, acc).Ok?
    ensures var (res, next, left) := ParseObjects(data, off, depth, items, n, acc).value;
      && res == acc + os && |os| == n && PrintableObjects(os) && Spells(data, off, next, PutObjects(os))
      && Took(depth, items, left, ObjectDepth(os), ObjectItems(os))
    decreases |data| - off, 1, n
  {
    hide ParseObject, PutObject, PrintableObject, EntryDepth, EntryItems, Printed;
    os := [];
    if n == 0 {
      assert acc + os == acc;
      NothingPrinted(data, off);
    } else {
      ObjectFromText(data, off, depth, items);
      var (o, mid, left) := ParseObject(data, off, depth, items).value;
      var rest := ObjectsFromText(data, mid, depth, left, n - 1, acc + [o]);
      os := [o] + rest;
      assert os[1..] == rest && acc + [o] + rest == acc + os;
      SpellsBoth(data, off, mid, ParseObjects(data, mid, depth, left, n - 1, acc + [o]).value.1, PutObject(o), PutObjects(rest));
    }
  }

  lemma NothingPrinted(data: seq<byte>, off: nat)
    requires off <= |data|
    ensures Printed(data, off, [])
  {
  }

  lemma {:induction false} PairFromText(data: seq<byte>, off: nat, depth: nat, items: nat)
    requires off <= |data| && depth <= MAX_DEPTH && ParsePair(data, off, depth, items).Ok?
    ensures var (p, next, left) := ParsePair(data, off, depth, items).value;
      && PrintablePair(p) && Spells(data, off, next, PutPair(p))
      && Took(depth, items, left, OnePairDepth(p), OnePairItems(p))
    decreases |data| - off, 1, 0
  {
    hide ParseObject, PutObject, PrintableObject, EntryDepth, EntryItems, Printed;
    ObjectFromText(data, off, depth, items);
    var (l, mid, rest) := ParseObject(data, off, depth, items).value;
    ObjectFromText(data, mid, depth, rest);
    var (r, next, left) := ParseObject(data, mid, depth, rest).value;
    SpellsBoth(data, off, mid, next, PutObject(l), PutObject(r));
  }

  lemma {:induction false} PairsFromText(data: seq<byte>, off: nat, depth: nat, items: nat, n: nat, acc: seq<Pair>)
    returns (ps: seq<Pair>)
    requires off <= |data| && depth <= MAX_DEPTH && ParsePairs(data, off, depth, items, n, acc).Ok?
    ensures var (res, next, left) := ParsePairs(data, off, depth, items, n, acc).value;
      && res == acc + ps && |ps| == n && PrintablePairs(ps) && Spells(data, off, next, PutPairs(ps))
      && Took(depth, items, left, PairDepth(ps), PairItems(ps))
    decreases |data| - off, 2, n
  {
    hide ParsePair, PutPair, PrintablePair, OnePairDepth, OnePairItems, Printed;
    ps := [];
    if n == 0 {
      assert acc + ps == acc;
      NothingPrinted(data, off);
    } else {
      PairFromText(data, off, depth, items);
      var (p, mid, left) := ParsePair(data, off, depth, items).value;
      var rest := PairsFromText(data, mid, depth, left, n - 1, acc + [p]);
      ps := [p] + rest;
      assert ps[1..] == rest && acc + [p] + rest == acc + ps;
      SpellsBoth(data, off, mid, ParsePairs(data, mid, depth, left, n - 1, acc + [p]).value.1, PutPair(p), PutPairs(rest));
    }
  }

  lemma SpellsEntry(data: seq<byte>, off: nat, next: nat, e: Entry, rest: seq<byte>)
    requires |e.key| <= 255 && Spells(data, off, off + 1 + |e.key|, PutKey(e.key))
    requires Printed(data, off + 1 + |e.key|, [Tag(e.value)])
    requires Printed(data, off + 2 + |e.key|, PutValue(e.value))
    requires Spells(data, off + 2 + |e.key| + |PutValue(e.value)|, next, rest)
    ensures Spells(data, off, next, PutKey(e.key) + ([Tag(e.value)] + (PutValue(e.value) + rest)))
  {
    hide Printed, PutValue, Tag;
    var o := off + 1 + |e.key|;
    SpellsBoth(data, o + 1, o + 1 + |PutValue(e.value)|, next, PutValue(e.value), rest);
    SpellsBoth(data, o, o + 1, next, [Tag(e.value)], PutValue(e.value) + rest);
    SpellsBoth(data, off, o, next, PutKey(e.key), [Tag(e.value)] + (PutValue(e.value) + rest));
  }

  lemma {:induction false} EntriesFromText(data: seq<byte>, off: nat, depth: nat, items: nat, acc: seq<Entry>)
    returns (es: seq<Entry>)
    requires off <= |data| && depth <= MAX_DEPTH && ParseEntries(data, off, depth, items, acc).Ok?
    ensures var (res, left) := ParseEntries(data, off, depth, items, acc).value;
      && res == acc + es && PrintableEntries(es) && Spells(data, off, |data|, PutEntries(es))
      && Took(depth, items, left, EntryDepth(es), EntryItems(es))
    decreases |data| - off, 3
  {
    hide Printed, ParseTagged, PutValue, PutKey, Printable, Depth, Items, TakeShortString, TakeByte, Tag;
    es := [];
    if off == |data| {
      assert acc + es == acc;
      NothingPrinted(data, off);
    } else {
      KeyFromText(data, off);
      var (key, o) := TakeShortString(data, off).value;
      var (tag, start) := TakeByte(data, o).value;
      ByteReadsBack(data, o, tag);
      ValueFromText(tag, data, start, depth, items - 1);
      var (v, after, left) := ParseTagged(tag, data, start, depth, items - 1).value;
      var e := Entry(key, v);
      var rest := EntriesFromText(data, after, depth, left, acc + [e]);
      es := [e] + rest;
      assert es[1..] == rest && acc + [e] + rest == acc + es;
      SpellsEntry(data, off, |data|, e, PutEntries(rest));
    }
  }

  /**
   An accepted input is the printed form of its tree. The tree is within both limits, so at most 2^20
   items were claimed over all nesting levels and no object was nested deeper than 64.
   */
  lemma AcceptedIsPrinted(data: seq<byte>)
    requires Parse(data).Ok?
    ensures var es := Parse(data).value;
      && PrintableEntries(es) && data == PutEntries(es)
      && EntryDepth(es) <= MAX_DEPTH && EntryItems(es) <= MAX_ITEMS
  {
    var es := EntriesFromText(data, 0, 0, MAX_ITEMS, []);
    assert [] + es == es;
    WholeText(data, PutEntries(es));
  }

  /** The accepted inputs are exactly the printed trees within the limits. */
  lemma AcceptedExactly(data: seq<byte>, es: seq<Entry>)
    ensures Parse(data) == Ok(es) <==>
      && PrintableEntries(es) && data == PutEntries(es)
      && EntryDepth(es) <= MAX_DEPTH && EntryItems(es) <= MAX_ITEMS
  {
    if Parse(data) == Ok(es) {
      AcceptedIsPrinted(data);
    }
    if PrintableEntries(es) {
      DecodeInvertsPrint(es);
    }
  }
}
