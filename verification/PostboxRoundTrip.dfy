/** Decoding inverts printing, exactly within the resource limits. */
module PostboxRoundTrip {
  import opened Bytes
  import opened ByteReading
  import opened PostboxTree
  import opened Wrappers

  /** What is needed is within what is left of the nesting and item limits. */
  predicate Fits(depth: nat, items: nat, needDepth: nat, needItems: nat) {
    needItems <= items && depth + needDepth <= MAX_DEPTH
  }

  ghost predicate Within(data: seq<byte>, off: nat, text: seq<byte>, depth: nat, items: nat) {
    off <= |data| && Printed(data, off, text) && depth <= MAX_DEPTH && items <= MAX_ITEMS
  }

  // Flat fields.

  lemma SizedReadsBack(data: seq<byte>, off: nat, x: seq<byte>)
    requires off <= |data| && |x| < 0x8000_0000 && Printed(data, off, PutSize(|x|) + x)
    ensures TakeBytes(data, off) == Ok((x, off + 4 + |x|))
  {
    assert PutBytes(x) == PutSize(|x|) + x;
    BytesReadBack(data, off, x);
  }

  lemma KeyReadsBack(data: seq<byte>, off: nat, key: seq<byte>)
    requires off <= |data| && |key| <= 255 && Printed(data, off, PutKey(key))
    ensures TakeShortString(data, off) == Ok((key, off + 1 + |key|))
  {
    assert PutShort(key) == PutKey(key);
    ShortReadsBack(data, off, key);
  }

  lemma QuotientAtLeast(a: nat, n: nat, m: nat)
    requires m > 0 && m * n <= a
    ensures n <= a / m
  {
    if n > a / m {
      assert m * n >= m * (a / m + 1) by {
        ProductMonotone(m, a / m + 1, n);
      }
    }
  }

  lemma ProductMonotone(m: nat, a: nat, b: nat)
    requires a <= b
    ensures m * a <= m * b
  {
  }

  /** A printed array: its count is claimed when it fits the budget, and refused otherwise. */
  lemma CountedReadsBack(data: seq<byte>, off: nat, n: nat, rest: seq<byte>, minBytes: nat, items: nat)
    requires off <= |data| && n < 0x8000_0000 && minBytes > 0 && |rest| >= minBytes * n && items <= MAX_ITEMS
    requires Printed(data, off, PutSize(n) + rest)
    ensures Printed(data, off + 4, rest)
    ensures n <= items ==> Counted(data, off, items, minBytes) == Ok((n, off + 4, items - n))
    ensures n > items ==> Counted(data, off, items, minBytes).Err?
  {
    PrintedSplit(data, off, PutSize(n), rest);
    QuotientAtLeast(|data| - off - 4, n, minBytes);
    CountReadsBack(data, off, n, minBytes);
  }

  lemma {:induction false} AllTextsReadBack(data: seq<byte>, off: nat, xs: seq<seq<byte>>, acc: seq<seq<byte>>)
    requires off <= |data| && Texts(xs) && Printed(data, off, PutAllTexts(xs))
    ensures TakeTexts(data, off, |xs|, acc) == Ok((acc + xs, off + |PutAllTexts(xs)|))
    decreases |xs|
  {
    if xs == [] {
      assert acc + xs == acc;
    } else {
      PrintedSplit(data, off, PutSize(|xs[0]|) + xs[0], PutAllTexts(xs[1..]));
      SizedReadsBack(data, off, xs[0]);
      AllTextsReadBack(data, off + 4 + |xs[0]|, xs[1..], acc + [xs[0]]);
      assert acc + [xs[0]] + xs[1..] == acc + xs;
    }
  }

  lemma {:induction false} AllTextsLength(xs: seq<seq<byte>>)
    ensures |PutAllTexts(xs)| >= 4 * |xs|
  {
    if xs != [] {
      AllTextsLength(xs[1..]);
    }
  }

  lemma FlatValueReadsBack(v: Tree, data: seq<byte>, off: nat, depth: nat, items: nat)
    requires Within(data, off, PutValue(v), depth, items) && Printable(v)
    requires v.Int32? || v.Int64? || v.Bool? || v.Double? || v.Str? || v.Blob? || v.Nil?
    ensures ParseTagged(Tag(v), data, off, depth, items) == Ok((v, off + |PutValue(v)|, items))
  {
    match v
    case Int32(i) => I32ReadsBack(data, off, i);
    case Int64(l) => I64ReadsBack(data, off, l);
    case Bool(raw) => ByteReadsBack(data, off, raw);
    case Double(bits) => F64ReadsBack(data, off, bits);
    case Str(text) => SizedReadsBack(data, off, text);
    case Blob(bytes) => SizedReadsBack(data, off, bytes);
    case Nil =>
  }

  lemma TextArrayReadsBack(xs: seq<seq<byte>>, data: seq<byte>, off: nat, items: nat)
    requires Within(data, off, PutSize(|xs|) + PutAllTexts(xs), 0, items) && |xs| < 0x8000_0000 && Texts(xs)
    ensures |xs| > items ==> Counted(data, off, items, 4).Err?
    ensures |xs| <= items ==>
      && Counted(data, off, items, 4) == Ok((|xs|, off + 4, items - |xs|)) && off + 4 <= |data|
      && TakeTexts(data, off + 4, |xs|, []) == Ok((xs, off + 4 + |PutAllTexts(xs)|))
  {
    hide Printed, PutAllTexts, PutSize, Counted, TakeTexts, Texts;
    AllTextsLength(xs);
    CountedReadsBack(data, off, |xs|, PutAllTexts(xs), 4, items);
    AllTextsReadBack(data, off + 4, xs, []);
    assert [] + xs == xs;
  }

  lemma NumberArrayReadsBack(v: Tree, data: seq<byte>, off: nat, depth: nat, items: nat)
    requires Within(data, off, PutValue(v), depth, items) && Printable(v)
    requires v.Int32s? || v.Int64s?
    ensures var r := ParseTagged(Tag(v), data, off, depth, items);
      if Items(v) <= items then r == Ok((v, off + |PutValue(v)|, items - Items(v))) else r.Err?
  {
    hide Printed, PutI32s, PutI64s, TakeI32s, TakeI64s, Counted, PutSize;
    match v
    case Int32s(xs) =>
      CountedReadsBack(data, off, |xs|, PutI32s(xs), 4, items);
      I32sReadBack(data, off + 4, xs, []);
      assert [] + xs == xs;
    case Int64s(xs) =>
      CountedReadsBack(data, off, |xs|, PutI64s(xs), 8, items);
      I64sReadBack(data, off + 4, xs, []);
      assert [] + xs == xs;
  }

  lemma FlatArrayReadsBack(v: Tree, data: seq<byte>, off: nat, depth: nat, items: nat)
    requires Within(data, off, PutValue(v), depth, items) && Printable(v)
    requires v.Int32s? || v.Int64s? || v.Strs? || v.Blobs?
    ensures var r := ParseTagged(Tag(v), data, off, depth, items);
      if Items(v) <= items then r == Ok((v, off + |PutValue(v)|, items - Items(v))) else r.Err?
  {
    hide Printed, PutAllTexts, TakeTexts, Counted, PutSize, Texts, PutI32s, PutI64s, TakeI32s, TakeI64s;
    match v
    case Strs(xs) => TextArrayReadsBack(xs, data, off, items);
    case Blobs(xs) => TextArrayReadsBack(xs, data, off, items);
    case _ => NumberArrayReadsBack(v, data, off, depth, items);
  }

  // Nested fields that fit.

  lemma {:induction false} ValueReadsBack(v: Tree, data: seq<byte>, off: nat, depth: nat, items: nat)
    requires Within(data, off, PutValue(v), depth, items) && Printable(v) && Fits(depth, items, Depth(v), Items(v))
    ensures ParseTagged(Tag(v), data, off, depth, items) == Ok((v, off + |PutValue(v)|, items - Items(v)))
    decreases v, 1
  {
    hide Printed, ParseObject, ParseObjects, ParsePairs, PutObject, PutObjects, PutPairs, PrintableObjects,
      PrintablePairs, PrintableObject, EntryDepth, EntryItems, ObjectItems, ObjectDepth, PairItems, PairDepth,
      Counted, TakeBytes, PutSize;
    match v
    case Obj(o) => ObjectReadsBack(o, data, off, depth, items);
    case Objs(os) =>
      CountedReadsBack(data, off, |os|, PutObjects(os), 8, items);
      ObjectsReadBack(os, data, off + 4, depth, items - |os|, []);
      assert [] + os == os;
    case Pairs(ps) =>
      CountedReadsBack(data, off, |ps|, PutPairs(ps), 16, items);
      PairsReadBack(ps, data, off + 4, depth, items - |ps|, []);
      assert [] + ps == ps;
    case Int32s(_) => FlatArrayReadsBack(v, data, off, depth, items);
    case Int64s(_) => FlatArrayReadsBack(v, data, off, depth, items);
    case Strs(_) => FlatArrayReadsBack(v, data, off, depth, items);
    case Blobs(_) => FlatArrayReadsBack(v, data, off, depth, items);
    case _ => FlatValueReadsBack(v, data, off, depth, items);
  }

  lemma ObjectHead(o: Object, data: seq<byte>, off: nat)
    requires off <= |data| && Printed(data, off, PutObject(o)) && PrintableObject(o)
    ensures off + 4 <= |data| && TakeI32(data, off) == Ok((o.typeHash, off + 4))
    ensures TakeBytes(data, off + 4) == Ok((PutEntries(o.entries), off + |PutObject(o)|))
    ensures Printed(PutEntries(o.entries), 0, PutEntries(o.entries))
  {
    var payload := PutEntries(o.entries);
    PrintedSplit(data, off, PutInt32(o.typeHash), PutSize(|payload|) + payload);
    I32ReadsBack(data, off, o.typeHash);
    SizedReadsBack(data, off + 4, payload);
  }

  lemma {:induction false} ObjectReadsBack(o: Object, data: seq<byte>, off: nat, depth: nat, items: nat)
    requires Within(data, off, PutObject(o), depth, items) && PrintableObject(o)
    requires Fits(depth, items, 1 + EntryDepth(o.entries), EntryItems(o.entries))
    ensures ParseObject(data, off, depth, items) == Ok((o, off + |PutObject(o)|, items - EntryItems(o.entries)))
    decreases o, 0
  {
    hide Printed, ParseEntries, PutEntries, PrintableEntries, EntryDepth, EntryItems, TakeI32, TakeBytes;
    ObjectHead(o, data, off);
    EntriesReadBack(o.entries, PutEntries(o.entries), 0, depth + 1, items, []);
    assert [] + o.entries == o.entries;
  }

  lemma {:induction false} ObjectsReadBack(os: seq<Object>, data: seq<byte>, off: nat, depth: nat, items: nat, acc: seq<Object>)
    requires Within(data, off, PutObjects(os), depth, items) && PrintableObjects(os)
    requires Fits(depth, items, ObjectDepth(os), ObjectItems(os))
    ensures ParseObjects(data, off, depth, items, |os|, acc) == Ok((acc + os, off + |PutObjects(os)|, items - ObjectItems(os)))
    decreases os, 0
  {
    hide Printed, ParseObject, PutObject, PrintableObject, EntryDepth, EntryItems;
    if os == [] {
      assert acc + os == acc;
    } else {
      var o, rest := os[0], os[1..];
      PrintedSplit(data, off, PutObject(o), PutObjects(rest));
      ObjectReadsBack(o, data, off, depth, items);
      ObjectsReadBack(rest, data, off + |PutObject(o)|, depth, items - EntryItems(o.entries), acc + [o]);
      assert acc + [o] + rest == acc + os;
    }
  }

  lemma {:induction false} PairReadsBack(p: Pair, data: seq<byte>, off: nat, depth: nat, items: nat)
    requires Within(data, off, PutPair(p), depth, items) && PrintablePair(p)
    requires Fits(depth, items, OnePairDepth(p), OnePairItems(p))
    ensures ParsePair(data, off, depth, items) == Ok((p, off + |PutPair(p)|, items - OnePairItems(p)))
    decreases p, 0
  {
    hide Printed, ParseObject, PutObject, PrintableObject, EntryDepth, EntryItems;
    PrintedSplit(data, off, PutObject(p.left), PutObject(p.right));
    ObjectReadsBack(p.left, data, off, depth, items);
    ObjectReadsBack(p.right, data, off + |PutObject(p.left)|, depth, items - EntryItems(p.left.entries));
  }

  lemma {:induction false} PairsReadBack(ps: seq<Pair>, data: seq<byte>, off: nat, depth: nat, items: nat, acc: seq<Pair>)
    requires Within(data, off, PutPairs(ps), depth, items) && PrintablePairs(ps)
    requires Fits(depth, items, PairDepth(ps), PairItems(ps))
    ensures ParsePairs(data, off, depth, items, |ps|, acc) == Ok((acc + ps, off + |PutPairs(ps)|, items - PairItems(ps)))
    decreases ps, 0
  {
    hide Printed, ParsePair, PutPair, PrintablePair, OnePairDepth, OnePairItems, EntryItems;
    if ps == [] {
      assert acc + ps == acc;
    } else {
      var p, rest := ps[0], ps[1..];
      PrintedSplit(data, off, PutPair(p), PutPairs(rest));
      PairReadsBack(p, data, off, depth, items);
      PairsReadBack(rest, data, off + |PutPair(p)|, depth, items - OnePairItems(p), acc + [p]);
      assert acc + [p] + rest == acc + ps;
    }
  }

  lemma EntrySplit(e: Entry, rest: seq<byte>, data: seq<byte>, off: nat)
    requires off <= |data| && |e.key| <= 255
    requires Printed(data, off, PutKey(e.key) + ([Tag(e.value)] + (PutValue(e.value) + rest)))
    ensures var o := off + 2 + |e.key|;
      && o + |PutValue(e.value)| <= |data| && |PutKey(e.key)| == 1 + |e.key|
      && TakeShortString(data, off) == Ok((e.key, o - 1))
      && TakeByte(data, o - 1) == Ok((Tag(e.value), o))
      && Printed(data, o, PutValue(e.value)) && Printed(data, o + |PutValue(e.value)|, rest)
  {
    PrintedSplit(data, off, PutKey(e.key), [Tag(e.value)] + (PutValue(e.value) + rest));
    KeyReadsBack(data, off, e.key);
    PrintedSplit(data, off + 1 + |e.key|, [Tag(e.value)], PutValue(e.value) + rest);
    ByteReadsBack(data, off + 1 + |e.key|, Tag(e.value));
    PrintedSplit(data, off + 2 + |e.key|, PutValue(e.value), rest);
  }

  lemma {:induction false} EntriesReadBack(es: seq<Entry>, data: seq<byte>, off: nat, depth: nat, items: nat, acc: seq<Entry>)
    requires Within(data, off, PutEntries(es), depth, items) && off + |PutEntries(es)| == |data| && PrintableEntries(es)
    requires Fits(depth, items, EntryDepth(es), EntryItems(es))
    ensures ParseEntries(data, off, depth, items, acc) == Ok((acc + es, items - EntryItems(es)))
    decreases es, 0
  {
    hide Printed, ParseTagged, PutValue, PutKey, Printable, Depth, Items, TakeShortString, TakeByte, Tag;
    if es == [] {
      assert acc + es == acc;
    } else {
      var e, rest := es[0], es[1..];
      EntrySplit(e, PutEntries(rest), data, off);
      ValueReadsBack(e.value, data, off + 2 + |e.key|, depth, items - 1);
      EntriesReadBack(rest, data, off + 2 + |e.key| + |PutValue(e.value)|, depth, items - 1 - Items(e.value), acc + [e]);
      assert e == Entry(e.key, e.value) && acc + [e] + rest == acc + es;
    }
  }

  // Nested fields that exceed a limit.

  lemma {:induction false} ValueRefused(v: Tree, data: seq<byte>, off: nat, depth: nat, items: nat)
    requires Within(data, off, PutValue(v), depth, items) && Printable(v) && !Fits(depth, items, Depth(v), Items(v))
    ensures ParseTagged(Tag(v), data, off, depth, items).Err?
    decreases v, 1
  {
    hide Printed, ParseObject, ParseObjects, ParsePairs, PutObject, PutObjects, PutPairs, PrintableObjects,
      PrintablePairs, PrintableObject, EntryDepth, EntryItems, ObjectItems, ObjectDepth, PairItems, PairDepth,
      Counted, TakeBytes, PutSize;
    match v
    case Obj(o) => ObjectRefused(o, data, off, depth, items);
    case Objs(os) =>
      CountedReadsBack(data, off, |os|, PutObjects(os), 8, items);
      if |os| <= items {
        ObjectsRefused(os, data, off + 4, depth, items - |os|, []);
      }
    case Pairs(ps) =>
      CountedReadsBack(data, off, |ps|, PutPairs(ps), 16, items);
      if |ps| <= items {
        PairsRefused(ps, data, off + 4, depth, items - |ps|, []);
      }
    case _ => FlatArrayReadsBack(v, data, off, depth, items);
  }

  lemma {:induction false} ObjectRefused(o: Object, data: seq<byte>, off: nat, depth: nat, items: nat)
    requires Within(data, off, PutObject(o), depth, items) && PrintableObject(o)
    requires !Fits(depth, items, 1 + EntryDepth(o.entries), EntryItems(o.entries))
    ensures ParseObject(data, off, depth, items).Err?
    decreases o, 0
  {
    hide Printed, ParseEntries, PutEntries, PrintableEntries, EntryDepth, EntryItems, TakeI32, TakeBytes;
    if depth < MAX_DEPTH {
      ObjectHead(o, data, off);
      EntriesRefused(o.entries, PutEntries(o.entries), 0, depth + 1, items, []);
    }
  }

  lemma {:induction false} ObjectsRefused(os: seq<Object>, data: seq<byte>, off: nat, depth: nat, items: nat, acc: seq<Object>)
    requires Within(data, off, PutObjects(os), depth, items) && PrintableObjects(os)
    requires !Fits(depth, items, ObjectDepth(os), ObjectItems(os))
    ensures ParseObjects(data, off, depth, items, |os|, acc).Err?
    decreases os, 0
  {
    hide Printed, ParseObject, PutObject, PrintableObject, EntryDepth, EntryItems;
    var o, rest := os[0], os[1..];
    PrintedSplit(data, off, PutObject(o), PutObjects(rest));
    if Fits(depth, items, 1 + EntryDepth(o.entries), EntryItems(o.entries)) {
      ObjectReadsBack(o, data, off, depth, items);
      ObjectsRefused(rest, data, off + |PutObject(o)|, depth, items - EntryItems(o.entries), acc + [o]);
    } else {
      ObjectRefused(o, data, off, depth, items);
    }
  }

  lemma {:induction false} PairRefused(p: Pair, data: seq<byte>, off: nat, depth: nat, items: nat)
    requires Within(data, off, PutPair(p), depth, items) && PrintablePair(p)
    requires !Fits(depth, items, OnePairDepth(p), OnePairItems(p))
    ensures ParsePair(data, off, depth, items).Err?
    decreases p, 0
  {
    hide Printed, ParseObject, PutObject, PrintableObject, EntryDepth, EntryItems;
    PrintedSplit(data, off, PutObject(p.left), PutObject(p.right));
    if Fits(depth, items, 1 + EntryDepth(p.left.entries), EntryItems(p.left.entries)) {
      ObjectReadsBack(p.left, data, off, depth, items);
      ObjectRefused(p.right, data, off + |PutObject(p.left)|, depth, items - EntryItems(p.left.entries));
    } else {
      ObjectRefused(p.left, data, off, depth, items);
    }
  }

  lemma {:induction false} PairsRefused(ps: seq<Pair>, data: seq<byte>, off: nat, depth: nat, items: nat, acc: seq<Pair>)
    requires Within(data, off, PutPairs(ps), depth, items) && PrintablePairs(ps)
    requires !Fits(depth, items, PairDepth(ps), PairItems(ps))
    ensures ParsePairs(data, off, depth, items, |ps|, acc).Err?
    decreases ps, 0
  {
    hide Printed, ParsePair, PutPair, PrintablePair, OnePairDepth, OnePairItems, EntryItems;
    var p, rest := ps[0], ps[1..];
    PrintedSplit(data, off, PutPair(p), PutPairs(rest));
    if Fits(depth, items, OnePairDepth(p), OnePairItems(p)) {
      PairReadsBack(p, data, off, depth, items);
      PairsRefused(rest, data, off + |PutPair(p)|, depth, items - OnePairItems(p), acc + [p]);
    } else {
      PairRefused(p, data, off, depth, items);
    }
  }

  lemma {:induction false} EntriesRefused(es: seq<Entry>, data: seq<byte>, off: nat, depth: nat, items: nat, acc: seq<Entry>)
    requires Within(data, off, PutEntries(es), depth, items) && off + |PutEntries(es)| == |data| && PrintableEntries(es)
    requires !Fits(depth, items, EntryDepth(es), EntryItems(es))
    ensures ParseEntries(data, off, depth, items, acc).Err?
    decreases es, 0
  {
    hide Printed, ParseTagged, PutValue, PutKey, Printable, Depth, Items, TakeShortString, TakeByte, Tag;
    var e, rest := es[0], es[1..];
    EntrySplit(e, PutEntries(rest), data, off);
    if items >= 1 {
      var o := off + 2 + |e.key|;
      if Fits(depth, items - 1, Depth(e.value), Items(e.value)) {
        ValueReadsBack(e.value, data, o, depth, items - 1);
        EntriesRefused(rest, data, o + |PutValue(e.value)|, depth, items - 1 - Items(e.value), acc + [Entry(e.key, e.value)]);
      } else {
        ValueRefused(e.value, data, o, depth, items - 1);
      }
    }
  }

  /**
   Decoding a printed entry tree returns the same tree, over all fourteen value types and any nesting,
   exactly when it nests at most 64 objects deep and holds at most 2^20 items; any other is rejected.
   */
  lemma DecodeInvertsPrint(es: seq<Entry>)
    requires PrintableEntries(es)
    ensures var r := Parse(PutEntries(es));
      if EntryDepth(es) <= MAX_DEPTH && EntryItems(es) <= MAX_ITEMS then r == Ok(es) else r.Err?
  {
    if Fits(0, MAX_ITEMS, EntryDepth(es), EntryItems(es)) {
      EntriesReadBack(es, PutEntries(es), 0, 0, MAX_ITEMS, []);
      assert [] + es == es;
    } else {
      EntriesRefused(es, PutEntries(es), 0, 0, MAX_ITEMS, []);
    }
  }
}
