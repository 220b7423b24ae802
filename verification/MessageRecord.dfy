/** Postbox message records: the printed record, its reader, and why records are self-delimiting. */
module MessageRecord {
  import opened Bytes
  import opened ByteReading
  import opened PostboxTree
  import opened PostboxRoundTrip
  import opened PostboxCanonical
  import opened PostboxDecoder
  import opened Wrappers

  // Optional fixed fields.

  datatype Kind = AnI32 | AU32 | AnI64 | ABytes

  datatype Item =
    | ItemI32(i: i32)
    | ItemU32(u: u32)
    | ItemI64(l: i64)
    | ItemBytes(bytes: seq<byte>)

  function KindOf(x: Item): Kind {
    match x
    case ItemI32(_) => AnI32
    case ItemU32(_) => AU32
    case ItemI64(_) => AnI64
    case ItemBytes(_) => ABytes
  }

  ghost function PutItem(x: Item): seq<byte> {
    match x
    case ItemI32(i) => PutInt32(i)
    case ItemU32(u) => Put32(u)
    case ItemI64(l) => PutInt64(l)
    case ItemBytes(b) => PutSize(|b|) + b
  }

  function TakeItem(kind: Kind, data: seq<byte>, off: nat): (r: Parsed<Item>)
    requires off <= |data|
    ensures r.Ok? ==> off <= r.value.1 <= |data| && KindOf(r.value.0) == kind
  {
    match kind
    case AnI32 => var (x, next) :- TakeI32(data, off); Ok((ItemI32(x), next))
    case AU32 => var (x, next) :- TakeU32(data, off); Ok((ItemU32(x), next))
    case AnI64 => var (x, next) :- TakeI64(data, off); Ok((ItemI64(x), next))
    case ABytes => var (x, next) :- TakeBytes(data, off); Ok((ItemBytes(x), next))
  }

  predicate ItemFits(x: Item) {
    x.ItemBytes? ==> |x.bytes| < 0x8000_0000
  }

  lemma ItemReadsBack(x: Item, data: seq<byte>, off: nat)
    requires off <= |data|
    ensures ItemFits(x) && Printed(data, off, PutItem(x)) <==> TakeItem(KindOf(x), data, off) == Ok((x, off + |PutItem(x)|))
  {
    hide TakeI32, TakeU32, TakeI64, TakeBytes, Printed;
    match x
    case ItemI32(i) => I32ReadsBack(data, off, i);
    case ItemU32(u) => U32ReadsBack(data, off, u);
    case ItemI64(l) => I64ReadsBack(data, off, l);
    case ItemBytes(b) => BlobReadsBack(data, off, b);
  }

  lemma BlobReadsBack(data: seq<byte>, off: nat, b: seq<byte>)
    requires off <= |data|
    ensures |b| < 0x8000_0000 && Printed(data, off, PutSize(|b|) + b) <==> TakeBytes(data, off) == Ok((b, off + 4 + |b|))
  {
    hide TakeBytes, Printed;
    if |b| < 0x8000_0000 && Printed(data, off, PutSize(|b|) + b) {
      SizedReadsBack(data, off, b);
    }
    if TakeBytes(data, off).Ok? {
      SizedFromText(data, off);
    }
  }

  lemma ItemEnd(kind: Kind, data: seq<byte>, off: nat)
    requires off <= |data| && TakeItem(kind, data, off).Ok?
    ensures var (x, next) := TakeItem(kind, data, off).value;
      next == off + |PutItem(x)| && ItemFits(x) && Printed(data, off, PutItem(x))
  {
    hide TakeI32, TakeU32, TakeI64, TakeBytes, Printed;
    if kind == ABytes {
      SizedFromText(data, off);
    }
    ItemReadsBack(TakeItem(kind, data, off).value.0, data, off);
  }

  function KindsOf(xs: seq<Item>): (ks: seq<Kind>) {
    if xs == [] then [] else [KindOf(xs[0])] + KindsOf(xs[1..])
  }

  predicate ItemsFit(xs: seq<Item>) {
    xs == [] || (ItemFits(xs[0]) && ItemsFit(xs[1..]))
  }

  ghost function PutItems(xs: seq<Item>): seq<byte> {
    if xs == [] then [] else PutItem(xs[0]) + PutItems(xs[1..])
  }

  function TakeItems(kinds: seq<Kind>, data: seq<byte>, off: nat): (r: Parsed<seq<Item>>)
    requires off <= |data|
    ensures r.Ok? ==> off <= r.value.1 <= |data|
  {
    if kinds == [] then Ok(([], off))
    else
      var (x, next) :- TakeItem(kinds[0], data, off);
      var (xs, end) :- TakeItems(kinds[1..], data, next);
      Ok(([x] + xs, end))
  }

  lemma {:induction false} ItemsReadBack(xs: seq<Item>, data: seq<byte>, off: nat)
    requires off <= |data| && ItemsFit(xs) && Printed(data, off, PutItems(xs))
    ensures TakeItems(KindsOf(xs), data, off) == Ok((xs, off + |PutItems(xs)|))
  {
    hide TakeItem, PutItem, ItemFits, Printed;
    if xs != [] {
      PrintedSplit(data, off, PutItem(xs[0]), PutItems(xs[1..]));
      ItemReadsBack(xs[0], data, off);
      ItemsReadBack(xs[1..], data, off + |PutItem(xs[0])|);
      assert KindsOf(xs)[1..] == KindsOf(xs[1..]) && [xs[0]] + xs[1..] == xs;
    }
  }

  lemma {:induction false} ItemsFromText(kinds: seq<Kind>, data: seq<byte>, off: nat)
    requires off <= |data| && TakeItems(kinds, data, off).Ok?
    ensures var (xs, next) := TakeItems(kinds, data, off).value;
      KindsOf(xs) == kinds && ItemsFit(xs) && Spells(data, off, next, PutItems(xs))
  {
    hide TakeItem, PutItem, ItemFits, Printed;
    if kinds == [] {
      NothingPrinted(data, off);
    } else {
      ItemEnd(kinds[0], data, off);
      var (x, mid) := TakeItem(kinds[0], data, off).value;
      ItemsFromText(kinds[1..], data, mid);
      var (rest, next) := TakeItems(kinds[1..], data, mid).value;
      var xs := [x] + rest;
      assert xs[1..] == rest && [kinds[0]] + kinds[1..] == kinds;
      SpellsBoth(data, off, mid, next, PutItem(x), PutItems(rest));
    }
  }

  predicate Bit(flags: byte, weight: nat)
    requires weight > 0
  {
    flags / weight % 2 == 1
  }

  function When(b: bool, kind: Kind): seq<Kind> {
    if b then [kind] else []
  }

  /** The optional header fields, in order; the last one is the 8-byte thread id. */
  function ExtraKinds(dataFlags: byte): (ks: seq<Kind>) {
    When(Bit(dataFlags, 1), AnI64) + (When(Bit(dataFlags, 2), AU32) + (When(Bit(dataFlags, 4), AnI64)
    + (When(Bit(dataFlags, 8), AU32) + (When(Bit(dataFlags, 16), AU32) + When(Bit(dataFlags, 32), AnI64)))))
  }

  function ForwardKinds(flags: byte): (ks: seq<Kind>) {
    if flags == 0 then []
    else
      [AnI64] + ([AnI32] + (When(Bit(flags, 2), AnI64) + (When(Bit(flags, 4), AnI64) + (When(Bit(flags, 4), AnI32)
      + (When(Bit(flags, 4), AnI32) + ForwardNotes(flags))))))
  }

  /** The strings and flags that close forward info. */
  function ForwardNotes(flags: byte): (ks: seq<Kind>) {
    When(Bit(flags, 8), ABytes) + (When(Bit(flags, 16), ABytes) + When(Bit(flags, 32), AnI32))
  }

  function AuthorKinds(flag: byte): (ks: seq<Kind>) {
    When(flag == 1, AnI64)
  }

  // Records.

  datatype MediaRef = MediaRef(namespace: i32, id: i64)

  /** Fields guarded by a flag byte: the byte, then the fields it announces. */
  datatype Flagged = Flagged(flags: byte, items: seq<Item>)

  /** The part of a record before its text. */
  datatype Head = Head(stableId: u32, stableVersion: u32, extras: Flagged, flags: u32, tags: u32, forward: Flagged, author: Flagged)

  datatype Record = Record(head: Head, text: seq<byte>, attributes: seq<seq<byte>>, media: seq<seq<byte>>, refs: seq<MediaRef>)

  ghost function PutFlagged(f: Flagged): (r: seq<byte>) {
    [f.flags] + PutItems(f.items)
  }

  predicate FlaggedFits(f: Flagged, kindsOf: byte -> seq<Kind>) {
    KindsOf(f.items) == kindsOf(f.flags) && ItemsFit(f.items)
  }

  function TakeFlagged(kindsOf: byte -> seq<Kind>, data: seq<byte>, off: nat): (r: Parsed<Flagged>)
    requires off <= |data|
    ensures r.Ok? ==> off < r.value.1 <= |data|
  {
    var (flags, next) :- TakeByte(data, off);
    var (items, end) :- TakeItems(kindsOf(flags), data, next);
    Ok((Flagged(flags, items), end))
  }

  lemma FlaggedReadsBack(f: Flagged, kindsOf: byte -> seq<Kind>, data: seq<byte>, off: nat)
    requires off <= |data| && FlaggedFits(f, kindsOf) && Printed(data, off, PutFlagged(f))
    ensures TakeFlagged(kindsOf, data, off) == Ok((f, off + |PutFlagged(f)|))
  {
    hide TakeByte, TakeItems, KindsOf, ItemsFit, Printed;
    PrintedSplit(data, off, [f.flags], PutItems(f.items));
    ByteReadsBack(data, off, f.flags);
    ItemsReadBack(f.items, data, off + 1);
  }

  lemma FlaggedFromText(kindsOf: byte -> seq<Kind>, data: seq<byte>, off: nat)
    requires off <= |data| && TakeFlagged(kindsOf, data, off).Ok?
    ensures var (f, next) := TakeFlagged(kindsOf, data, off).value;
      FlaggedFits(f, kindsOf) && Spells(data, off, next, PutFlagged(f))
  {
    hide TakeByte, TakeItems, KindsOf, ItemsFit, Printed, PutItems;
    var (flags, mid) := TakeByte(data, off).value;
    ByteReadsBack(data, off, flags);
    ItemsFromText(kindsOf(flags), data, mid);
    var (f, next) := TakeFlagged(kindsOf, data, off).value;
    SpellsBoth(data, off, mid, next, [flags], PutItems(f.items));
  }

  // Arrays of a record.

  /** A count, then that many byte strings. */
  function TakeBlobs(data: seq<byte>, off: nat): (r: Parsed<seq<seq<byte>>>)
    requires off <= |data|
    ensures r.Ok? ==> off < r.value.1 <= |data|
  {
    var (n, next) :- TakeCount(data, off, 4);
    TakeTexts(data, next, n, [])
  }

  ghost function PutBlobs(xs: seq<seq<byte>>): seq<byte> {
    PutSize(|xs|) + PutAllTexts(xs)
  }

  ghost predicate BlobsFit(xs: seq<seq<byte>>) {
    |xs| <= MAX_ITEMS && Texts(xs)
  }

  /** A count within the limit reads back when its elements follow. */
  lemma CountedArray(data: seq<byte>, off: nat, n: nat, rest: seq<byte>, minBytes: nat)
    requires off <= |data| && n <= MAX_ITEMS && minBytes > 0 && |rest| >= minBytes * n
    requires Printed(data, off, PutSize(n) + rest)
    ensures Printed(data, off + 4, rest) && TakeCount(data, off, minBytes) == Ok((n, off + 4))
  {
    CountedReadsBack(data, off, n, rest, minBytes, MAX_ITEMS);
  }

  lemma BlobsReadBack(xs: seq<seq<byte>>, data: seq<byte>, off: nat)
    requires off <= |data| && BlobsFit(xs) && Printed(data, off, PutBlobs(xs))
    ensures TakeBlobs(data, off) == Ok((xs, off + |PutBlobs(xs)|))
  {
    hide PutSize, PutAllTexts, TakeTexts, TakeCount, Texts, Printed;
    AllTextsLength(xs);
    CountedArray(data, off, |xs|, PutAllTexts(xs), 4);
    AllTextsReadBack(data, off + 4, xs, []);
    assert [] + xs == xs;
  }

  lemma BlobsFromText(data: seq<byte>, off: nat)
    requires off <= |data| && TakeBlobs(data, off).Ok?
    ensures var (xs, next) := TakeBlobs(data, off).value; BlobsFit(xs) && Spells(data, off, next, PutBlobs(xs))
  {
    hide PutSize, PutAllTexts, TakeTexts, TakeCount, Texts, Printed;
    CountSpelled(data, off, 4);
    var (n, mid) := TakeCount(data, off, 4).value;
    var xs := AllTextsFromText(data, mid, n, []);
    assert [] + xs == xs;
    SpellsBoth(data, off, mid, mid + |PutAllTexts(xs)|, PutSize(n), PutAllTexts(xs));
  }

  lemma CountSpelled(data: seq<byte>, off: nat, minBytes: nat)
    requires off <= |data| && minBytes > 0 && TakeCount(data, off, minBytes).Ok?
    ensures var (n, next) := TakeCount(data, off, minBytes).value; Spells(data, off, next, PutSize(n)) && next == off + 4
  {
    CountFromText(data, off, minBytes);
  }

  /** Embedded media: each one is decoded as soon as it is read. */
  function TakeMediaItems(data: seq<byte>, off: nat, n: nat, acc: seq<seq<byte>>): (r: Parsed<seq<seq<byte>>>)
    requires off <= |data|
    ensures r.Ok? ==> off <= r.value.1 <= |data|
    decreases n
  {
    if n == 0 then Ok((acc, off))
    else
      var (raw, next) :- TakeBytes(data, off);
      var _ :- DecodedRoot(raw);
      TakeMediaItems(data, next, n - 1, acc + [raw])
  }

  predicate Decodable(raws: seq<seq<byte>>) {
    raws == [] || (DecodedRoot(raws[0]).Ok? && Decodable(raws[1..]))
  }

  function TakeMedia(data: seq<byte>, off: nat): (r: Parsed<seq<seq<byte>>>)
    requires off <= |data|
    ensures r.Ok? ==> off < r.value.1 <= |data|
  {
    var (n, next) :- TakeCount(data, off, 4);
    TakeMediaItems(data, next, n, [])
  }

  /** Reading media is reading byte strings that all decode. */
  lemma {:induction false} MediaItemsAreTexts(data: seq<byte>, off: nat, n: nat, acc: seq<seq<byte>>, raws: seq<seq<byte>>, next: nat)
    requires off <= |data| && |raws| == n
    ensures TakeMediaItems(data, off, n, acc) == Ok((acc + raws, next)) <==>
      TakeTexts(data, off, n, acc) == Ok((acc + raws, next)) && Decodable(raws)
    decreases n
  {
    hide TakeBytes, DecodedRoot;
    if n > 0 && TakeBytes(data, off).Ok? {
      var (raw, mid) := TakeBytes(data, off).value;
      TextsKeepAccumulator(data, mid, n - 1, acc + [raw]);
      MediaKeepsAccumulator(data, mid, n - 1, acc + [raw]);
      if raw == raws[0] {
        assert acc + [raw] + raws[1..] == acc + raws;
        MediaItemsAreTexts(data, mid, n - 1, acc + [raw], raws[1..], next);
      } else {
        assert (acc + raws)[|acc|] == raws[0];
      }
    }
  }

  lemma {:induction false} TextsKeepAccumulator(data: seq<byte>, off: nat, n: nat, acc: seq<seq<byte>>)
    requires off <= |data|
    ensures TakeTexts(data, off, n, acc).Ok? ==> acc <= TakeTexts(data, off, n, acc).value.0
    decreases n
  {
    hide TakeBytes;
    if n > 0 && TakeBytes(data, off).Ok? {
      var (raw, mid) := TakeBytes(data, off).value;
      TextsKeepAccumulator(data, mid, n - 1, acc + [raw]);
    }
  }

  lemma {:induction false} MediaKeepsAccumulator(data: seq<byte>, off: nat, n: nat, acc: seq<seq<byte>>)
    requires off <= |data|
    ensures TakeMediaItems(data, off, n, acc).Ok? ==>
      acc <= TakeMediaItems(data, off, n, acc).value.0 && |TakeMediaItems(data, off, n, acc).value.0| == |acc| + n
    decreases n
  {
    hide TakeBytes, DecodedRoot;
    if n > 0 && TakeBytes(data, off).Ok? {
      var (raw, mid) := TakeBytes(data, off).value;
      MediaKeepsAccumulator(data, mid, n - 1, acc + [raw]);
    }
  }

  lemma MediaReadsBack(raws: seq<seq<byte>>, data: seq<byte>, off: nat)
    requires off <= |data| && BlobsFit(raws) && Decodable(raws) && Printed(data, off, PutBlobs(raws))
    ensures TakeMedia(data, off) == Ok((raws, off + |PutBlobs(raws)|))
  {
    hide PutSize, PutAllTexts, TakeTexts, TakeMediaItems, TakeCount, Texts, Decodable, Printed;
    AllTextsLength(raws);
    CountedArray(data, off, |raws|, PutAllTexts(raws), 4);
    AllTextsReadBack(data, off + 4, raws, []);
    assert [] + raws == raws;
    MediaItemsAreTexts(data, off + 4, |raws|, [], raws, off + |PutBlobs(raws)|);
  }

  lemma MediaFromText(data: seq<byte>, off: nat)
    requires off <= |data| && TakeMedia(data, off).Ok?
    ensures var (raws, next) := TakeMedia(data, off).value;
      BlobsFit(raws) && Decodable(raws) && Spells(data, off, next, PutBlobs(raws))
  {
    hide PutSize, PutAllTexts, TakeTexts, TakeMediaItems, TakeCount, Texts, Decodable, Printed;
    CountSpelled(data, off, 4);
    var (n, mid) := TakeCount(data, off, 4).value;
    MediaKeepsAccumulator(data, mid, n, []);
    var (raws, next) := TakeMediaItems(data, mid, n, []).value;
    assert [] + raws == raws;
    MediaItemsAreTexts(data, mid, n, [], raws, next);
    var xs := AllTextsFromText(data, mid, n, []);
    assert [] + xs == xs;
    SpellsBoth(data, off, mid, next, PutSize(n), PutAllTexts(xs));
  }

  function TakeRefItems(data: seq<byte>, off: nat, n: nat, acc: seq<MediaRef>): (r: Parsed<seq<MediaRef>>)
    requires off <= |data|
    ensures r.Ok? ==> off <= r.value.1 <= |data|
    decreases n
  {
    if n == 0 then Ok((acc, off))
    else
      var (namespace, mid) :- TakeI32(data, off);
      var (id, next) :- TakeI64(data, mid);
      TakeRefItems(data, next, n - 1, acc + [MediaRef(namespace, id)])
  }

  function TakeRefs(data: seq<byte>, off: nat): (r: Parsed<seq<MediaRef>>)
    requires off <= |data|
    ensures r.Ok? ==> off < r.value.1 <= |data|
  {
    var (n, next) :- TakeCount(data, off, 12);
    TakeRefItems(data, next, n, [])
  }

  ghost function PutRef(x: MediaRef): (r: seq<byte>)
    ensures |r| == 12
  {
    PutInt32(x.namespace) + PutInt64(x.id)
  }

  ghost function PutRefItems(xs: seq<MediaRef>): (r: seq<byte>)
    ensures |r| == 12 * |xs|
  {
    if xs == [] then [] else PutRef(xs[0]) + PutRefItems(xs[1..])
  }

  ghost function PutRefs(xs: seq<MediaRef>): seq<byte> {
    PutSize(|xs|) + PutRefItems(xs)
  }

  lemma RefReadsBack(x: MediaRef, data: seq<byte>, off: nat)
    requires off <= |data|
    ensures Printed(data, off, PutRef(x)) <==>
      TakeI32(data, off) == Ok((x.namespace, off + 4)) && off + 4 <= |data| && TakeI64(data, off + 4) == Ok((x.id, off + 12))
  {
    hide TakeI32, TakeI64, Printed;
    PrintedSplit(data, off, PutInt32(x.namespace), PutInt64(x.id));
    I32ReadsBack(data, off, x.namespace);
    if off + 4 <= |data| {
      I64ReadsBack(data, off + 4, x.id);
    }
  }

  lemma {:induction false} RefItemsReadBack(xs: seq<MediaRef>, data: seq<byte>, off: nat, acc: seq<MediaRef>)
    requires off <= |data| && Printed(data, off, PutRefItems(xs))
    ensures TakeRefItems(data, off, |xs|, acc) == Ok((acc + xs, off + |PutRefItems(xs)|))
    decreases |xs|
  {
    hide TakeI32, TakeI64, Printed, PutRef;
    if xs == [] {
      assert acc + xs == acc;
    } else {
      PrintedSplit(data, off, PutRef(xs[0]), PutRefItems(xs[1..]));
      RefReadsBack(xs[0], data, off);
      RefItemsReadBack(xs[1..], data, off + 12, acc + [xs[0]]);
      assert acc + [xs[0]] + xs[1..] == acc + xs && xs[0] == MediaRef(xs[0].namespace, xs[0].id);
    }
  }

  lemma {:induction false} RefItemsFromText(data: seq<byte>, off: nat, n: nat, acc: seq<MediaRef>) returns (xs: seq<MediaRef>)
    requires off <= |data| && TakeRefItems(data, off, n, acc).Ok?
    ensures |xs| == n && TakeRefItems(data, off, n, acc) == Ok((acc + xs, off + |PutRefItems(xs)|))
    ensures Printed(data, off, PutRefItems(xs))
    decreases n
  {
    hide TakeI32, TakeI64, Printed, PutRef;
    xs := [];
    if n == 0 {
      assert acc + xs == acc;
      NothingPrinted(data, off);
    } else {
      var (namespace, mid) := TakeI32(data, off).value;
      var (id, next) := TakeI64(data, mid).value;
      var x := MediaRef(namespace, id);
      RefReadsBack(x, data, off);
      var rest := RefItemsFromText(data, next, n - 1, acc + [x]);
      xs := [x] + rest;
      assert xs[1..] == rest && acc + [x] + rest == acc + xs;
      PrintedSplit(data, off, PutRef(x), PutRefItems(rest));
    }
  }

  lemma RefsReadBack(xs: seq<MediaRef>, data: seq<byte>, off: nat)
    requires off <= |data| && |xs| <= MAX_ITEMS && Printed(data, off, PutRefs(xs))
    ensures TakeRefs(data, off) == Ok((xs, off + |PutRefs(xs)|))
  {
    hide PutSize, PutRefItems, TakeRefItems, TakeCount, Printed;
    CountedArray(data, off, |xs|, PutRefItems(xs), 12);
    RefItemsReadBack(xs, data, off + 4, []);
    assert [] + xs == xs;
  }

  lemma RefsFromText(data: seq<byte>, off: nat)
    requires off <= |data| && TakeRefs(data, off).Ok?
    ensures var (xs, next) := TakeRefs(data, off).value; |xs| <= MAX_ITEMS && Spells(data, off, next, PutRefs(xs))
  {
    hide PutSize, PutRefItems, TakeRefItems, TakeCount, Printed;
    CountSpelled(data, off, 12);
    var (n, mid) := TakeCount(data, off, 12).value;
    var xs := RefItemsFromText(data, mid, n, []);
    assert [] + xs == xs;
    SpellsBoth(data, off, mid, mid + |PutRefItems(xs)|, PutSize(n), PutRefItems(xs));
  }

  // Whole records.

  ghost function PutHead(h: Head): seq<byte> {
    Put32(h.stableId) + (Put32(h.stableVersion) + (PutFlagged(h.extras) + (Put32(h.flags) + (Put32(h.tags)
    + (PutFlagged(h.forward) + PutFlagged(h.author))))))
  }

  predicate HeadFits(h: Head) {
    FlaggedFits(h.extras, ExtraKinds) && FlaggedFits(h.forward, ForwardKinds) && FlaggedFits(h.author, AuthorKinds)
  }

  function TakeHead(data: seq<byte>, off: nat): (r: Parsed<Head>)
    requires off <= |data|
    ensures r.Ok? ==> off < r.value.1 <= |data|
  {
    var (stableId, o1) :- TakeU32(data, off);
    var (stableVersion, o2) :- TakeU32(data, o1);
    var (extras, o3) :- TakeFlagged(ExtraKinds, data, o2);
    var (flags, o4) :- TakeU32(data, o3);
    var (tags, o5) :- TakeU32(data, o4);
    var (forward, o6) :- TakeFlagged(ForwardKinds, data, o5);
    var (author, o7) :- TakeFlagged(AuthorKinds, data, o6);
    Ok((Head(stableId, stableVersion, extras, flags, tags, forward, author), o7))
  }

  ghost function PutRecord(r: Record): seq<byte> {
    PutHead(r.head) + (PutSize(|r.text|) + r.text + (PutBlobs(r.attributes) + (PutBlobs(r.media) + PutRefs(r.refs))))
  }

  ghost predicate RecordFits(r: Record) {
    && HeadFits(r.head) && |r.text| < 0x8000_0000
    && BlobsFit(r.attributes) && BlobsFit(r.media) && Decodable(r.media) && |r.refs| <= MAX_ITEMS
  }

  function TakeRecord(data: seq<byte>, off: nat): (r: Parsed<Record>)
    requires off <= |data|
    ensures r.Ok? ==> off < r.value.1 <= |data|
  {
    var (head, o1) :- TakeHead(data, off);
    var (text, o2) :- TakeBytes(data, o1);
    var (attributes, o3) :- TakeBlobs(data, o2);
    var (media, o4) :- TakeMedia(data, o3);
    var (refs, o5) :- TakeRefs(data, o4);
    Ok((Record(head, text, attributes, media, refs), o5))
  }

  lemma HeadReadsBack(h: Head, data: seq<byte>, off: nat)
    requires off <= |data| && HeadFits(h) && Printed(data, off, PutHead(h))
    ensures TakeHead(data, off) == Ok((h, off + |PutHead(h)|))
  {
    hide Printed, TakeU32, TakeFlagged, PutFlagged, FlaggedFits;
    var author := PutFlagged(h.author);
    var forward := PutFlagged(h.forward) + author;
    var tags := Put32(h.tags) + forward;
    var flags := Put32(h.flags) + tags;
    var extras := PutFlagged(h.extras) + flags;
    var version := Put32(h.stableVersion) + extras;
    PrintedSplit(data, off, Put32(h.stableId), version);
    U32ReadsBack(data, off, h.stableId);
    PrintedSplit(data, off + 4, Put32(h.stableVersion), extras);
    U32ReadsBack(data, off + 4, h.stableVersion);
    PrintedSplit(data, off + 8, PutFlagged(h.extras), flags);
    FlaggedReadsBack(h.extras, ExtraKinds, data, off + 8);
    var o3 := off + 8 + |PutFlagged(h.extras)|;
    PrintedSplit(data, o3, Put32(h.flags), tags);
    U32ReadsBack(data, o3, h.flags);
    PrintedSplit(data, o3 + 4, Put32(h.tags), forward);
    U32ReadsBack(data, o3 + 4, h.tags);
    PrintedSplit(data, o3 + 8, PutFlagged(h.forward), author);
    FlaggedReadsBack(h.forward, ForwardKinds, data, o3 + 8);
    FlaggedReadsBack(h.author, AuthorKinds, data, o3 + 8 + |PutFlagged(h.forward)|);
  }

  lemma U32FromText(data: seq<byte>, off: nat)
    requires off <= |data| && TakeU32(data, off).Ok?
    ensures var (x, next) := TakeU32(data, off).value; Spells(data, off, next, Put32(x))
  {
    U32ReadsBack(data, off, TakeU32(data, off).value.0);
  }

  lemma HeadFromText(data: seq<byte>, off: nat)
    requires off <= |data| && TakeHead(data, off).Ok?
    ensures var (h, next) := TakeHead(data, off).value; HeadFits(h) && Spells(data, off, next, PutHead(h))
  {
    hide Spells, TakeU32, TakeFlagged, PutFlagged, FlaggedFits, ExtraKinds, ForwardKinds, AuthorKinds;
    U32FromText(data, off);
    var o1 := TakeU32(data, off).value.1;
    U32FromText(data, o1);
    var o2 := TakeU32(data, o1).value.1;
    FlaggedFromText(ExtraKinds, data, o2);
    var o3 := TakeFlagged(ExtraKinds, data, o2).value.1;
    U32FromText(data, o3);
    var o4 := TakeU32(data, o3).value.1;
    U32FromText(data, o4);
    var o5 := TakeU32(data, o4).value.1;
    FlaggedFromText(ForwardKinds, data, o5);
    var o6 := TakeFlagged(ForwardKinds, data, o5).value.1;
    FlaggedFromText(AuthorKinds, data, o6);
    var (h, o7) := TakeHead(data, off).value;
    var forward := PutFlagged(h.forward) + PutFlagged(h.author);
    SpellsBoth(data, o5, o6, o7, PutFlagged(h.forward), PutFlagged(h.author));
    SpellsBoth(data, o4, o5, o7, Put32(h.tags), forward);
    SpellsBoth(data, o3, o4, o7, Put32(h.flags), Put32(h.tags) + forward);
    SpellsBoth(data, o2, o3, o7, PutFlagged(h.extras), Put32(h.flags) + (Put32(h.tags) + forward));
    var extras := PutFlagged(h.extras) + (Put32(h.flags) + (Put32(h.tags) + forward));
    SpellsBoth(data, o1, o2, o7, Put32(h.stableVersion), extras);
    SpellsBoth(data, off, o1, o7, Put32(h.stableId), Put32(h.stableVersion) + extras);
  }

  /** A printed record reads back, whatever follows it. */
  lemma RecordReadsBack(r: Record, data: seq<byte>, off: nat)
    requires off <= |data| && RecordFits(r) && Printed(data, off, PutRecord(r))
    ensures TakeRecord(data, off) == Ok((r, off + |PutRecord(r)|))
  {
    hide Printed, HeadFits, PutHead, TakeHead, PutSize, TakeBytes, PutBlobs, BlobsFit, TakeBlobs, Decodable, TakeMedia, PutRefs,
      TakeRefs;
    var text := PutSize(|r.text|) + r.text;
    var media := PutBlobs(r.media) + PutRefs(r.refs);
    PrintedSplit(data, off, PutHead(r.head), text + (PutBlobs(r.attributes) + media));
    HeadReadsBack(r.head, data, off);
    var o1 := off + |PutHead(r.head)|;
    PrintedSplit(data, o1, text, PutBlobs(r.attributes) + media);
    SizedReadsBack(data, o1, r.text);
    var o2 := o1 + |text|;
    PrintedSplit(data, o2, PutBlobs(r.attributes), media);
    BlobsReadBack(r.attributes, data, o2);
    var o3 := o2 + |PutBlobs(r.attributes)|;
    PrintedSplit(data, o3, PutBlobs(r.media), PutRefs(r.refs));
    MediaReadsBack(r.media, data, o3);
    RefsReadBack(r.refs, data, o3 + |PutBlobs(r.media)|);
  }

  /** Whatever reads as a record begins with that record's printed form. */
  lemma RecordFromText(data: seq<byte>, off: nat)
    requires off <= |data| && TakeRecord(data, off).Ok?
    ensures var (r, next) := TakeRecord(data, off).value; RecordFits(r) && Spells(data, off, next, PutRecord(r))
  {
    hide Spells, HeadFits, PutHead, TakeHead, PutSize, TakeBytes, PutBlobs, BlobsFit, TakeBlobs, Decodable, TakeMedia, PutRefs,
      TakeRefs;
    HeadFromText(data, off);
    var o1 := TakeHead(data, off).value.1;
    TextFromText(data, o1);
    var (text, o2) := TakeBytes(data, o1).value;
    BlobsFromText(data, o2);
    var (attributes, o3) := TakeBlobs(data, o2).value;
    MediaFromText(data, o3);
    var (media, o4) := TakeMedia(data, o3).value;
    RefsFromText(data, o4);
    var (r, o5) := TakeRecord(data, off).value;
    SpellsBoth(data, o3, o4, o5, PutBlobs(media), PutRefs(r.refs));
    var rest := PutBlobs(media) + PutRefs(r.refs);
    SpellsBoth(data, o2, o3, o5, PutBlobs(attributes), rest);
    SpellsBoth(data, o1, o2, o5, PutSize(|text|) + text, PutBlobs(attributes) + rest);
    SpellsBoth(data, off, o1, o5, PutHead(r.head), PutSize(|text|) + text + (PutBlobs(attributes) + rest));
  }

  lemma TextFromText(data: seq<byte>, off: nat)
    requires off <= |data| && TakeBytes(data, off).Ok?
    ensures var (x, next) := TakeBytes(data, off).value; |x| < 0x8000_0000 && Spells(data, off, next, PutSize(|x|) + x)
  {
    SizedFromText(data, off);
  }

  // Messages.

  datatype Message = Message(
    flags: u32, tags: u32, author: Option<i64>, text: seq<byte>, mediaCount: nat, media: seq<map<Key, Value>>, refs: seq<MediaRef>)

  function AuthorOf(f: Flagged): Option<i64> {
    if |f.items| == 1 && f.items[0].ItemI64? then Some(f.items[0].l) else None
  }

  /** The media that hold a root object, decoded. */
  function Roots(raws: seq<seq<byte>>): seq<map<Key, Value>> {
    if raws == [] then []
    else
      Roots(raws[..|raws| - 1]) +
      match DecodedRoot(raws[|raws| - 1])
      case Ok(Some(m)) => [m]
      case _ => []
  }

  function MessageOf(r: Record): Message {
    Message(r.head.flags, r.head.tags, AuthorOf(r.head.author), r.text, |r.media|, Roots(r.media), r.refs)
  }

  const VERSION: byte := 0

  /** A record of another version is skipped, not rejected. */
  function TakeMessage(data: seq<byte>): Result<Option<Message>, Error> {
    var (version, off) :- TakeByte(data, 0);
    if version != VERSION then Ok(None)
    else
      var (r, _) :- TakeRecord(data, off);
      Ok(Some(MessageOf(r)))
  }

  ghost function PutMessage(r: Record): seq<byte> {
    [VERSION] + PutRecord(r)
  }

  /**
   Reading a printed record gives the same message whatever bytes follow, for every combination of optional
   fields; every proper prefix of the printed record is rejected.
   */
  lemma MessageSelfDelimiting(r: Record, tail: seq<byte>, n: nat)
    requires RecordFits(r) && n < |PutMessage(r)|
    ensures TakeMessage(PutMessage(r) + tail) == Ok(Some(MessageOf(r)))
    ensures TakeMessage(PutMessage(r)[..n]).Err?
  {
    hide PutRecord, TakeRecord, RecordFits, MessageOf;
    var text := PutRecord(r);
    var whole, cut := PutMessage(r) + tail, PutMessage(r)[..n];
    assert Printed(whole, 1, text);
    RecordReadsBack(r, whole, 1);
    if n > 0 {
      assert cut[0] == VERSION;
      if TakeRecord(cut, 1).Ok? {
        RecordFromText(cut, 1);
        var r', next := TakeRecord(cut, 1).value.0, TakeRecord(cut, 1).value.1;
        PrintedOnward(cut, whole, 1, PutRecord(r'));
        RecordReadsBack(r', whole, 1);
        assert false;
      }
    }
  }

  lemma PrintedOnward(data: seq<byte>, longer: seq<byte>, off: nat, text: seq<byte>)
    requires data <= longer && Printed(data, off, text)
    ensures Printed(longer, off, text)
  {
  }

  // The reader as it runs.

  function EndOf<T>(r: Parsed<T>): Result<nat, Error> {
    if r.Ok? then Ok(r.value.1) else Err(r.error)
  }

  /** Reading fields only to step over them. */
  function SkipItems(kinds: seq<Kind>, data: seq<byte>, off: nat): (r: Result<nat, Error>)
    requires off <= |data|
    ensures r == EndOf(TakeItems(kinds, data, off))
  {
    if kinds == [] then Ok(off)
    else
      var (_, next) :- TakeItem(kinds[0], data, off);
      SkipItems(kinds[1..], data, next)
  }

  lemma SkipWhen(b: bool, kind: Kind, rest: seq<Kind>, data: seq<byte>, off: nat)
    requires off <= |data|
    ensures SkipItems(When(b, kind) + rest, data, off) ==
      var item := TakeItem(kind, data, off);
      if !b then SkipItems(rest, data, off) else if item.Ok? then SkipItems(rest, data, item.value.1) else Err(item.error)
  {
    hide TakeItem, TakeItems;
    if b {
      assert ([kind] + rest)[1..] == rest;
    } else {
      assert [] + rest == rest;
    }
  }

  /** The cursor after stepping over fields, or the error met. */
  ghost predicate Skipped(reader: ByteReader, r: Result<(), Error>, spec: Result<nat, Error>)
    reads reader
  {
    match spec
    case Ok(next) => r == Ok(()) && reader.off == next
    case Err(e) => r == Err(e)
  }

  /** Steps over one field when its flag is set. */
  method SkipField(reader: ByteReader, present: bool, kind: Kind, ghost rest: seq<Kind>) returns (r: Result<(), Error>)
    requires reader.Valid()
    modifies reader
    ensures reader.Valid()
    ensures var spec := SkipItems(When(present, kind) + rest, reader.data, old(reader.off));
      if r.Ok? then spec == SkipItems(rest, reader.data, reader.off) else spec == Err(r.error)
  {
    hide TakeI32, TakeU32, TakeI64, TakeBytes;
    SkipWhen(present, kind, rest, reader.data, reader.off);
    if present {
      match kind
      case AnI32 => var _ :- reader.Int32();
      case AU32 => var _ :- reader.Uint32();
      case AnI64 => var _ :- reader.Int64();
      case ABytes => var _ :- reader.ReadBytes();
    }
    return Ok(());
  }

  method SkipExtras(reader: ByteReader, f: byte) returns (r: Result<(), Error>)
    requires reader.Valid()
    modifies reader
    ensures reader.Valid()
    ensures Skipped(reader, r, SkipItems(ExtraKinds(f), reader.data, old(reader.off)))
  {
    hide SkipItems, TakeItems, EndOf, Bit, When;
    ghost var k5 := When(Bit(f, 32), AnI64);
    ghost var k4 := When(Bit(f, 16), AU32) + k5;
    ghost var k3 := When(Bit(f, 8), AU32) + k4;
    ghost var k2 := When(Bit(f, 4), AnI64) + k3;
    ghost var k1 := When(Bit(f, 2), AU32) + k2;
    var _ :- SkipField(reader, Bit(f, 1), AnI64, k1);
    var _ :- SkipField(reader, Bit(f, 2), AU32, k2);
    var _ :- SkipField(reader, Bit(f, 4), AnI64, k3);
    var _ :- SkipField(reader, Bit(f, 8), AU32, k4);
    var _ :- SkipField(reader, Bit(f, 16), AU32, k5);
    assert k5 + [] == k5;
    var _ :- SkipField(reader, Bit(f, 32), AnI64, []);
    NothingToSkip(reader.data, reader.off);
    return Ok(());
  }

  lemma NothingToSkip(data: seq<byte>, off: nat)
    requires off <= |data|
    ensures SkipItems([], data, off) == Ok(off)
  {
  }

  method ReadForwardInfo(reader: ByteReader) returns (r: Result<(), Error>)
    requires reader.Valid()
    modifies reader
    ensures reader.Valid()
    ensures Skipped(reader, r, EndOf(TakeFlagged(ForwardKinds, reader.data, old(reader.off))))
  {
    hide SkipItems, TakeItems, Bit, When, TakeByte, ForwardNotes;
    var f :- reader.Uint8();
    if f == 0 {
      NothingToSkip(reader.data, reader.off);
      return Ok(());
    }
    ghost var k6 := ForwardNotes(f);
    ghost var k5 := When(Bit(f, 4), AnI32) + k6;
    ghost var k4 := When(Bit(f, 4), AnI32) + k5;
    ghost var k3 := When(Bit(f, 4), AnI64) + k4;
    ghost var k2 := When(Bit(f, 2), AnI64) + k3;
    WhenTrue(AnI64);
    WhenTrue(AnI32);
    var _ :- SkipField(reader, true, AnI64, [AnI32] + k2);
    var _ :- SkipField(reader, true, AnI32, k2);
    var _ :- SkipField(reader, Bit(f, 2), AnI64, k3);
    var _ :- SkipField(reader, Bit(f, 4), AnI64, k4);
    var _ :- SkipField(reader, Bit(f, 4), AnI32, k5);
    var _ :- SkipField(reader, Bit(f, 4), AnI32, k6);
    r := SkipNotes(reader, f);
  }

  method SkipNotes(reader: ByteReader, f: byte) returns (r: Result<(), Error>)
    requires reader.Valid()
    modifies reader
    ensures reader.Valid()
    ensures Skipped(reader, r, SkipItems(ForwardNotes(f), reader.data, old(reader.off)))
  {
    hide SkipItems, Bit, When;
    ghost var k2 := When(Bit(f, 32), AnI32);
    ghost var k1 := When(Bit(f, 16), ABytes) + k2;
    var _ :- SkipField(reader, Bit(f, 8), ABytes, k1);
    var _ :- SkipField(reader, Bit(f, 16), ABytes, k2);
    assert k2 + [] == k2;
    var _ :- SkipField(reader, Bit(f, 32), AnI32, []);
    NothingToSkip(reader.data, reader.off);
    return Ok(());
  }

  lemma WhenTrue(kind: Kind)
    ensures When(true, kind) == [kind]
  {
  }

  method ReadAuthor(reader: ByteReader) returns (r: Result<Option<i64>, Error>)
    requires reader.Valid()
    modifies reader
    ensures reader.Valid()
    ensures match TakeFlagged(AuthorKinds, reader.data, old(reader.off))
      case Ok((f, next)) => r == Ok(AuthorOf(f)) && reader.off == next
      case Err(e) => r == Err(e)
  {
    hide TakeByte, TakeI64;
    var flag :- reader.Uint8();
    if flag == 1 {
      OneItem(AnI64, reader.data, reader.off);
      var id :- reader.Int64();
      return Ok(Some(id));
    }
    return Ok(None);
  }

  lemma OneItem(kind: Kind, data: seq<byte>, off: nat)
    requires off <= |data|
    ensures TakeItems([kind], data, off) ==
      match TakeItem(kind, data, off) case Ok((x, next)) => Ok(([x], next)) case Err(e) => Err(e)
  {
    assert [kind][1..] == [];
    var item := TakeItem(kind, data, off);
    if item.Ok? {
      assert [item.value.0] + [] == [item.value.0];
    }
  }

  /** What ReadMessage keeps of the part before the text. */
  method ReadHead(reader: ByteReader) returns (r: Result<(u32, u32, Option<i64>), Error>)
    requires reader.Valid()
    modifies reader
    ensures reader.Valid()
    ensures match TakeHead(reader.data, old(reader.off))
      case Ok((h, next)) => r == Ok((h.flags, h.tags, AuthorOf(h.author))) && reader.off == next
      case Err(e) => r == Err(e)
  {
    hide TakeU32, TakeByte, TakeItems, ExtraKinds, ForwardKinds, AuthorKinds, AuthorOf;
    var _ :- reader.Uint32();
    var _ :- reader.Uint32();
    var dataFlags :- reader.Uint8();
    var _ :- SkipExtras(reader, dataFlags);
    var flags :- reader.Uint32();
    var tags :- reader.Uint32();
    var _ :- ReadForwardInfo(reader);
    var author :- ReadAuthor(reader);
    return Ok((flags, tags, author));
  }

  method SkipAttributes(reader: ByteReader) returns (r: Result<(), Error>)
    requires reader.Valid()
    modifies reader
    ensures reader.Valid()
    ensures Skipped(reader, r, EndOf(TakeBlobs(reader.data, old(reader.off))))
  {
    hide TakeBytes, TakeCount;
    var n :- reader.Count(4);
    var i := 0;
    ghost var start := reader.off;
    ghost var xs: seq<seq<byte>> := [];
    while i < n
      invariant 0 <= i <= n && reader.Valid()
      invariant TakeTexts(reader.data, start, n, []) == TakeTexts(reader.data, reader.off, n - i, xs)
    {
      ghost var off := reader.off;
      var x :- reader.ReadBytes();
      xs, i := xs + [x], i + 1;
    }
    return Ok(());
  }

  /** Returns the number of embedded media and the decoded ones. */
  method ReadMedia(reader: ByteReader) returns (r: Result<(nat, seq<map<Key, Value>>), Error>)
    requires reader.Valid()
    modifies reader
    ensures reader.Valid()
    ensures match TakeMedia(reader.data, old(reader.off))
      case Ok((raws, next)) => r == Ok((|raws|, Roots(raws))) && reader.off == next
      case Err(e) => r == Err(e)
  {
    hide TakeBytes, TakeCount, DecodedRoot;
    var n :- reader.Count(4);
    var media: seq<map<Key, Value>> := [];
    ghost var start := reader.off;
    ghost var raws: seq<seq<byte>> := [];
    var i := 0;
    while i < n
      invariant 0 <= i <= n && reader.Valid() && |raws| == i && media == Roots(raws)
      invariant TakeMediaItems(reader.data, start, n, []) == TakeMediaItems(reader.data, reader.off, n - i, raws)
    {
      var raw :- reader.ReadBytes();
      var decoded :- DecodeObject(raw);
      assert (raws + [raw])[..|raws|] == raws;
      if decoded.Some? {
        media := media + [decoded.value];
      }
      raws, i := raws + [raw], i + 1;
    }
    return Ok((n, media));
  }

  method ReadRefs(reader: ByteReader) returns (r: Result<seq<MediaRef>, Error>)
    requires reader.Valid()
    modifies reader
    ensures reader.Valid() && Agrees(r, reader.off, TakeRefs(reader.data, old(reader.off)))
  {
    hide TakeI32, TakeI64, TakeCount;
    var n :- reader.Count(12);
    var refs: seq<MediaRef> := [];
    ghost var start := reader.off;
    var i := 0;
    while i < n
      invariant 0 <= i <= n && reader.Valid()
      invariant TakeRefItems(reader.data, start, n, []) == TakeRefItems(reader.data, reader.off, n - i, refs)
    {
      var namespace :- reader.Int32();
      var id :- reader.Int64();
      refs, i := refs + [MediaRef(namespace, id)], i + 1;
    }
    return Ok(refs);
  }

  method ReadMessage(value: seq<byte>) returns (r: Result<Option<Message>, Error>)
    ensures r == TakeMessage(value)
  {
    hide TakeByte, TakeHead, TakeBytes, TakeBlobs, TakeMedia, TakeRefs, AuthorOf, Roots;
    var reader := new ByteReader(value);
    var version :- reader.Uint8();
    if version != VERSION {
      return Ok(None);
    }
    var head :- ReadHead(reader);
    var text :- reader.ReadBytes();
    var _ :- SkipAttributes(reader);
    var media :- ReadMedia(reader);
    var refs :- ReadRefs(reader);
    return Ok(Some(Message(head.0, head.1, head.2, text, media.0, media.1, refs)));
  }
}
