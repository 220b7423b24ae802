/** Message records with their numbers written out, and what reading one gives. */
module MessageFormat {
  import opened Bytes
  import opened ByteReading
  import opened MessageRecord
  import opened PostboxCanonical
  import opened PostboxDecoder
  import opened PostboxFormat
  import opened PostboxRoundTrip
  import opened PostboxTree
  import opened Wrappers

  /**
   What a record holds, in order: id and version, optional fields, flags, tags, forward info (a flag byte, numbers, texts and a closing
   number), the author, the text, and three lists. Only what a reader uses is told apart; the rest is bytes.
   */
  datatype Wire = Wire(id: seq<byte>, version: seq<byte>, dataFlags: byte, extras: seq<byte>, flags: u32, tags: u32, forward: byte,
                       numbers: seq<byte>, notes: seq<seq<byte>>, closing: seq<byte>, authorFlag: byte, author: Option<i64>,
                       text: seq<byte>, attributes: seq<seq<byte>>, media: seq<seq<byte>>, refs: seq<MediaRef>)

  /** Widths of the optional fields, by the bits of a flag byte. */
  function ExtrasWidth(f: byte): nat {
    8 * (f % 2) + 4 * (f / 2 % 2) + 8 * (f / 4 % 2) + 4 * (f / 8 % 2) + 4 * (f / 16 % 2) + 8 * (f / 32 % 2)
  }

  predicate ForwardFits(w: Wire) {
    if w.forward == 0 then w.numbers == [] && w.notes == [] && w.closing == []
    else
      && |w.numbers| == 12 + 8 * (w.forward / 2 % 2) + 16 * (w.forward / 4 % 2)
      && |w.notes| == w.forward / 8 % 2 + w.forward / 16 % 2 && |w.closing| == 4 * (w.forward / 32 % 2)
  }

  /** A list of byte strings with a count within the limit. */
  ghost predicate ListFits(xs: seq<seq<byte>>) {
    |xs| <= 0x10_0000 && forall i :: 0 <= i < |xs| ==> |xs[i]| < 0x8000_0000
  }

  ghost predicate WireFits(w: Wire) {
    && |w.id| == 4 && |w.version| == 4 && |w.extras| == ExtrasWidth(w.dataFlags) && ForwardFits(w) && ListFits(w.notes)
    && (w.author.Some? <==> w.authorFlag == 1)
    && |w.text| < 0x8000_0000 && ListFits(w.attributes) && ListFits(w.media) && |w.refs| <= 0x10_0000
    && AllWired(w.media)
  }

  /** Byte strings that are wire forms. */
  ghost predicate AllWired(raws: seq<seq<byte>>) {
    forall i :: 0 <= i < |raws| ==> IsWired(raws[i])
  }

  ghost predicate IsWired(raw: seq<byte>) {
    exists es :: Wired(raw, es)
  }

  function WireRefs(xs: seq<MediaRef>): seq<byte> {
    if xs == [] then [] else Wire32(xs[0].namespace) + Wire64(xs[0].id) + WireRefs(xs[1..])
  }

  function WireList(xs: seq<seq<byte>>): seq<byte> {
    Little(|xs|, 4) + WireTexts(xs)
  }

  function PutHeader(w: Wire): seq<byte> {
    w.id + (w.version + (([w.dataFlags] + w.extras) + (Little(w.flags, 4) + (Little(w.tags, 4)
    + (([w.forward] + (w.numbers + (WireTexts(w.notes) + w.closing)))
    + ([w.authorFlag] + if w.author.Some? then Wire64(w.author.value) else []))))))
  }

  function PutWire(w: Wire): seq<byte> {
    [0] + (PutHeader(w) + (WireText(w.text) + (WireList(w.attributes) + (WireList(w.media)
    + (Little(|w.refs|, 4) + WireRefs(w.refs))))))
  }

  /** The roots of embedded media, in order; media without one are left out. */
  ghost predicate MediaSay(raws: seq<seq<byte>>, ms: seq<map<Key, Value>>)
    decreases |raws|
  {
    if raws == [] then ms == []
    else
      exists es :: Wired(raws[|raws| - 1], es) &&
        if ms != [] && RootSays(es, Some(ms[|ms| - 1])) then MediaSay(raws[..|raws| - 1], ms[..|ms| - 1])
        else RootSays(es, None) && MediaSay(raws[..|raws| - 1], ms)
  }

  /** What a reader gets of a record. */
  ghost predicate MessageSays(w: Wire, m: Message) {
    && m.flags == w.flags && m.tags == w.tags && m.author == w.author && m.text == w.text
    && m.mediaCount == |w.media| && m.refs == w.refs && MediaSay(w.media, m.media)
  }

  // Fields of fixed width.

  function Width(k: Kind): nat {
    match k
    case AnI32 => 4
    case AU32 => 4
    case AnI64 => 8
    case ABytes => 0
  }

  function Widths(ks: seq<Kind>): nat {
    if ks == [] then 0 else Width(ks[0]) + Widths(ks[1..])
  }

  predicate Fixed(ks: seq<Kind>) {
    forall k :: k in ks ==> k != ABytes
  }

  /** Bytes of the right width are some field. */
  lemma OneItem(k: Kind, b: seq<byte>) returns (x: Item)
    requires k != ABytes && |b| == Width(k)
    ensures KindOf(x) == k && PutItem(x) == b && ItemFits(x)
  {
    match k
    case AnI32 =>
      x := ItemI32(Int32At(b));
      Int32RoundTrip(0, b);
    case AU32 =>
      x := ItemU32(Le32(b));
      Put32Le32(b);
    case AnI64 =>
      x := ItemI64(Int64At(b));
      Int64RoundTrip(0, b);
  }

  lemma {:induction false} SomeItems(ks: seq<Kind>, b: seq<byte>) returns (xs: seq<Item>)
    requires Fixed(ks) && |b| == Widths(ks)
    ensures KindsOf(xs) == ks && PutItems(xs) == b && ItemsFit(xs)
  {
    hide PutItem, ItemFits, KindOf;
    xs := [];
    if ks != [] {
      var n := Width(ks[0]);
      assert ks[0] in ks && forall k :: k in ks[1..] ==> k in ks;
      var x := OneItem(ks[0], b[..n]);
      var rest := SomeItems(ks[1..], b[n..]);
      xs := [x] + rest;
      assert xs[1..] == rest && ks == [ks[0]] + ks[1..] && b == b[..n] + b[n..];
    }
  }

  lemma {:induction false} WidthsJoin(a: seq<Kind>, b: seq<Kind>)
    ensures Widths(a + b) == Widths(a) + Widths(b)
  {
    if a == [] {
      assert a + b == b;
    } else {
      assert (a + b)[1..] == a[1..] + b;
      WidthsJoin(a[1..], b);
    }
  }

  /** A field adds its width when its bit is set. */
  lemma WidthWhen(f: byte, weight: nat, k: Kind, rest: seq<Kind>)
    requires weight > 0
    ensures Widths(When(Bit(f, weight), k) + rest) == Width(k) * (f / weight % 2) + Widths(rest)
  {
    WidthsJoin(When(Bit(f, weight), k), rest);
    assert Widths([k]) == Width(k);
  }

  /** The optional header fields are as wide as their bits say. */
  lemma ExtrasAreWide(f: byte)
    ensures Widths(ExtraKinds(f)) == ExtrasWidth(f) && Fixed(ExtraKinds(f))
  {
    hide Widths, Width, Bit, Fixed, When;
    var k5 := When(Bit(f, 32), AnI64);
    var k4 := When(Bit(f, 16), AU32) + k5;
    var k3 := When(Bit(f, 8), AU32) + k4;
    var k2 := When(Bit(f, 4), AnI64) + k3;
    var k1 := When(Bit(f, 2), AU32) + k2;
    WidthWhen(f, 1, AnI64, k1);
    WidthWhen(f, 2, AU32, k2);
    WidthWhen(f, 4, AnI64, k3);
    WidthWhen(f, 8, AU32, k4);
    WidthWhen(f, 16, AU32, k5);
    WidthWhen(f, 32, AnI64, []);
    assert k5 + [] == k5;
    Widths8();
    ExtrasFixed(f);
  }

  lemma ExtrasFixed(f: byte)
    ensures Fixed(ExtraKinds(f))
  {
    hide Bit;
  }

  lemma Widths8()
    ensures Width(AnI64) == 8 && Width(AnI32) == 4 && Width(AU32) == 4 && Widths([]) == 0
  {
  }

  // Fields in between.

  lemma {:induction false} KindsJoin(a: seq<Item>, b: seq<Item>)
    ensures KindsOf(a + b) == KindsOf(a) + KindsOf(b)
    ensures ItemsFit(a + b) <==> ItemsFit(a) && ItemsFit(b)
  {
    hide KindOf, ItemFits;
    if a == [] {
      assert a + b == b;
    } else {
      assert (a + b)[1..] == a[1..] + b && (a + b)[0] == a[0];
      KindsJoin(a[1..], b);
    }
  }

  lemma {:induction false} ItemsJoin(a: seq<Item>, b: seq<Item>)
    ensures PutItems(a + b) == PutItems(a) + PutItems(b)
  {
    hide PutItem;
    if a == [] {
      assert a + b == b;
    } else {
      var first := PutItem(a[0]);
      assert (a + b)[1..] == a[1..] + b && (a + b)[0] == a[0];
      ItemsJoin(a[1..], b);
      assert first + (PutItems(a[1..]) + PutItems(b)) == first + PutItems(a[1..]) + PutItems(b);
    }
  }

  function TextKinds(n: nat): seq<Kind> {
    if n == 0 then [] else [ABytes] + TextKinds(n - 1)
  }

  /** Texts are fields of their own width. */
  lemma {:induction false} TextItems(xs: seq<seq<byte>>) returns (items: seq<Item>)
    requires forall i :: 0 <= i < |xs| ==> |xs[i]| < 0x8000_0000
    ensures KindsOf(items) == TextKinds(|xs|) && PutItems(items) == WireTexts(xs) && ItemsFit(items)
  {
    hide Little, PutSize;
    items := [];
    if xs != [] {
      var rest := TextItems(xs[1..]);
      SizeIsPut(|xs[0]|);
      items := [ItemBytes(xs[0])] + rest;
      assert items[1..] == rest;
    }
  }

  /** The numbers of forward info. */
  function ForwardNumbers(f: byte): seq<Kind> {
    [AnI64] + ([AnI32] + (When(Bit(f, 2), AnI64) + (When(Bit(f, 4), AnI64) + (When(Bit(f, 4), AnI32) + When(Bit(f, 4), AnI32)))))
  }

  lemma Regroup(a: seq<Kind>, b: seq<Kind>, n: seq<Kind>)
    ensures a + (b + n) == (a + b) + n
  {
  }

  lemma ForwardParts(f: byte)
    requires f != 0
    ensures ForwardKinds(f) == ForwardNumbers(f) + (TextKinds(f / 8 % 2 + f / 16 % 2) + When(Bit(f, 32), AnI32))
    ensures Fixed(ForwardNumbers(f)) && Fixed(When(Bit(f, 32), AnI32))
  {
    hide Bit, When, ForwardNotes, TextKinds, Fixed;
    NoteKinds(f);
    NumbersFixed(f);
    var notes, k5 := ForwardNotes(f), When(Bit(f, 4), AnI32);
    var k4 := When(Bit(f, 4), AnI32) + k5;
    var k3 := When(Bit(f, 4), AnI64) + k4;
    var k2 := When(Bit(f, 2), AnI64) + k3;
    Regroup(When(Bit(f, 4), AnI32), k5, notes);
    Regroup(When(Bit(f, 4), AnI64), k4, notes);
    Regroup(When(Bit(f, 2), AnI64), k3, notes);
    Regroup([AnI32], k2, notes);
    Regroup([AnI64], [AnI32] + k2, notes);
  }

  lemma NumbersFixed(f: byte)
    ensures Fixed(ForwardNumbers(f)) && Fixed(When(Bit(f, 32), AnI32))
  {
    hide Bit;
  }

  lemma NoteKinds(f: byte)
    ensures ForwardNotes(f) == TextKinds(f / 8 % 2 + f / 16 % 2) + When(Bit(f, 32), AnI32)
  {
    assert TextKinds(1) == [ABytes] && TextKinds(2) == [ABytes, ABytes];
  }

  lemma NumbersAreWide(f: byte)
    ensures Widths(ForwardNumbers(f)) == 12 + 8 * (f / 2 % 2) + 16 * (f / 4 % 2)
    ensures Widths(When(Bit(f, 32), AnI32)) == 4 * (f / 32 % 2)
  {
    hide Widths, Width, Bit, When;
    var k5 := When(Bit(f, 4), AnI32);
    var k4 := When(Bit(f, 4), AnI32) + k5;
    var k3 := When(Bit(f, 4), AnI64) + k4;
    var k2 := When(Bit(f, 2), AnI64) + k3;
    WidthWhen(f, 2, AnI64, k3);
    WidthWhen(f, 4, AnI64, k4);
    WidthWhen(f, 4, AnI32, k5);
    WidthWhen(f, 4, AnI32, []);
    WidthWhen(f, 32, AnI32, []);
    assert k5 + [] == k5 && When(Bit(f, 32), AnI32) + [] == When(Bit(f, 32), AnI32);
    Widths8();
    FirstWidth(AnI32, k2);
    FirstWidth(AnI64, [AnI32] + k2);
  }

  lemma FirstWidth(k: Kind, rest: seq<Kind>)
    ensures Widths([k] + rest) == Width(k) + Widths(rest)
  {
    assert ([k] + rest)[1..] == rest;
  }

  /** Forward info of any bytes of the right widths. */
  lemma ForwardItems(w: Wire) returns (items: seq<Item>)
    requires ForwardFits(w) && ListFits(w.notes)
    ensures FlaggedFits(Flagged(w.forward, items), ForwardKinds)
    ensures PutItems(items) == w.numbers + (WireTexts(w.notes) + w.closing)
  {
    hide Widths, KindsOf, PutItems, ItemsFit, When, Bit, TextKinds, Fixed, ForwardNumbers, ForwardKinds;
    var f := w.forward;
    items := [];
    if f == 0 {
      NoForward();
    } else {
      ForwardParts(f);
      NumbersAreWide(f);
      var numbers := SomeItems(ForwardNumbers(f), w.numbers);
      var notes := TextItems(w.notes);
      var closing := SomeItems(When(Bit(f, 32), AnI32), w.closing);
      KindsJoin(notes, closing);
      KindsJoin(numbers, notes + closing);
      ItemsJoin(notes, closing);
      ItemsJoin(numbers, notes + closing);
      items := numbers + (notes + closing);
    }
  }

  lemma NoForward()
    ensures KindsOf([]) == [] == ForwardKinds(0) && PutItems([]) == [] && ItemsFit([]) && WireTexts([]) == []
  {
  }

  lemma AuthorItems(w: Wire) returns (items: seq<Item>)
    requires w.author.Some? <==> w.authorFlag == 1
    ensures FlaggedFits(Flagged(w.authorFlag, items), AuthorKinds) && AuthorOf(Flagged(w.authorFlag, items)) == w.author
    ensures PutItems(items) == if w.author.Some? then Wire64(w.author.value) else []
  {
    hide Wire64, PutInt64;
    items := [];
    assert AuthorKinds(w.authorFlag) == if w.authorFlag == 1 then [AnI64] else [];
    if w.author.Some? {
      Wire64IsPut(w.author.value);
      items := [ItemI64(w.author.value)];
      assert items[1..] == [] && KindsOf(items) == [AnI64] && ItemsFit(items);
      assert AuthorOf(Flagged(w.authorFlag, items)) == Some(w.author.value);
    } else {
      assert AuthorOf(Flagged(w.authorFlag, items)) == None;
    }
  }

  lemma ExtraItems(w: Wire) returns (items: seq<Item>)
    requires |w.extras| == ExtrasWidth(w.dataFlags)
    ensures FlaggedFits(Flagged(w.dataFlags, items), ExtraKinds) && PutItems(items) == w.extras
  {
    hide ExtraKinds, ExtrasWidth, Widths, Fixed, KindsOf, PutItems, ItemsFit;
    ExtrasAreWide(w.dataFlags);
    items := SomeItems(ExtraKinds(w.dataFlags), w.extras);
  }

  // Whole records.

  lemma {:induction false} ListIsTexts(xs: seq<seq<byte>>)
    requires forall i :: 0 <= i < |xs| ==> |xs[i]| < 0x8000_0000
    ensures Texts(xs)
  {
    if xs != [] {
      ListIsTexts(xs[1..]);
    }
  }

  lemma BlobsArePut(xs: seq<seq<byte>>)
    requires ListFits(xs)
    ensures BlobsFit(xs) && WireList(xs) == PutBlobs(xs)
  {
    hide Little, PutSize;
    ListIsTexts(xs);
    SizeIsPut(|xs|);
    TextsArePut(xs);
  }

  lemma {:induction false} RefsArePut(xs: seq<MediaRef>)
    ensures WireRefs(xs) == PutRefItems(xs)
  {
    hide Wire32, Wire64, PutInt32, PutInt64;
    if xs != [] {
      Wire32IsPut(xs[0].namespace);
      Wire64IsPut(xs[0].id);
      RefsArePut(xs[1..]);
    }
  }

  lemma {:induction false} MediaDecode(raws: seq<seq<byte>>)
    requires AllWired(raws)
    ensures Decodable(raws)
  {
    hide Wired, Parse;
    if raws != [] {
      assert IsWired(raws[0]);
      var es :| Wired(raws[0], es);
      AcceptedIsWired(raws[0], es);
      forall i | 0 <= i < |raws[1..]| ensures IsWired(raws[1..][i]) {
        assert raws[1..][i] == raws[i + 1];
      }
      MediaDecode(raws[1..]);
    }
  }

  lemma {:induction false} RootsSay(raws: seq<seq<byte>>)
    requires AllWired(raws)
    ensures MediaSay(raws, Roots(raws))
    decreases |raws|
  {
    hide Wired, Parse, RootSays;
    if raws != [] {
      var init, last := raws[..|raws| - 1], raws[|raws| - 1];
      RootsSay(init);
      assert IsWired(last);
      var es :| Wired(last, es);
      AcceptedIsWired(last, es);
      RootInSays(es);
      LastRoot(raws, es);
    }
  }

  lemma LastRoot(raws: seq<seq<byte>>, es: seq<Entry>)
    requires raws != [] && Wired(raws[|raws| - 1], es) && Parse(raws[|raws| - 1]) == Ok(es) && RootSays(es, RootIn(es))
    requires MediaSay(raws[..|raws| - 1], Roots(raws[..|raws| - 1]))
    ensures MediaSay(raws, Roots(raws))
  {
    hide Wired, Parse, RootSays, MediaSay, RootIn;
    var before, ms := Roots(raws[..|raws| - 1]), Roots(raws);
    assert DecodedRoot(raws[|raws| - 1]) == Ok(RootIn(es));
    if RootIn(es).Some? {
      assert ms == before + [RootIn(es).value];
      assert ms[..|ms| - 1] == before && Some(ms[|ms| - 1]) == RootIn(es);
    } else {
      assert ms == before;
      NoRootSays(es, ms);
    }
    MediaSaysLast(raws, es, ms);
  }

  lemma MediaSaysLast(raws: seq<seq<byte>>, es: seq<Entry>, ms: seq<map<Key, Value>>)
    requires raws != [] && Wired(raws[|raws| - 1], es)
    requires if ms != [] && RootSays(es, Some(ms[|ms| - 1])) then MediaSay(raws[..|raws| - 1], ms[..|ms| - 1])
      else RootSays(es, None) && MediaSay(raws[..|raws| - 1], ms)
    ensures MediaSay(raws, ms)
  {
    hide Wired, RootSays;
  }

  /** Entries without a root say no root. */
  lemma NoRootSays(es: seq<Entry>, ms: seq<map<Key, Value>>)
    requires RootSays(es, None)
    ensures ms != [] ==> !RootSays(es, Some(ms[|ms| - 1]))
  {
    hide SaysObject;
  }

  lemma HeadBytes(w: Wire, h: Head)
    requires Put32(h.stableId) == w.id && Put32(h.stableVersion) == w.version && h.flags == w.flags && h.tags == w.tags
    requires h.extras.flags == w.dataFlags && PutItems(h.extras.items) == w.extras
    requires h.forward.flags == w.forward && PutItems(h.forward.items) == w.numbers + (WireTexts(w.notes) + w.closing)
    requires h.author.flags == w.authorFlag
    requires PutItems(h.author.items) == if w.author.Some? then Wire64(w.author.value) else []
    ensures PutHead(h) == PutHeader(w)
  {
    hide PutItems, Little, WireTexts, Put32, Wire64;
    LittleFour(w.flags);
    LittleFour(w.tags);
  }

  /** The record that some bytes are. */
  lemma RecordOfWire(w: Wire) returns (r: Record)
    requires WireFits(w)
    ensures RecordFits(r) && PutMessage(r) == PutWire(w) && MessageSays(w, MessageOf(r))
  {
    hide ExtrasWidth, ForwardFits, FlaggedFits, PutItems, Little, WireTexts, WireList, WireRefs, PutBlobs, PutSize, Put32,
      Wire64, Decodable, AuthorOf, Roots, MediaSay, AllWired, BlobsFit, PutRefItems, ListFits, PutHead, PutHeader;
    var extras := ExtraItems(w);
    var forward := ForwardItems(w);
    var author := AuthorItems(w);
    Put32Le32(w.id);
    Put32Le32(w.version);
    BlobsArePut(w.attributes);
    BlobsArePut(w.media);
    RefsArePut(w.refs);
    SizeIsPut(|w.text|);
    SizeIsPut(|w.refs|);
    MediaDecode(w.media);
    RootsSay(w.media);
    var h := Head(Le32(w.id), Le32(w.version), Flagged(w.dataFlags, extras), w.flags, w.tags, Flagged(w.forward, forward),
                  Flagged(w.authorFlag, author));
    HeadBytes(w, h);
    r := Record(h, w.text, w.attributes, w.media, w.refs);
  }

  /** Reading a record gives what it holds, whatever bytes follow. */
  lemma WireReads(w: Wire, tail: seq<byte>) returns (m: Message)
    requires WireFits(w)
    ensures TakeMessage(PutWire(w) + tail) == Ok(Some(m)) && MessageSays(w, m)
  {
    hide WireFits, PutWire, RecordFits, PutMessage, MessageOf, MessageSays, TakeMessage;
    var r := RecordOfWire(w);
    MessageLength(r);
    MessageSelfDelimiting(r, tail, 0);
    m := MessageOf(r);
  }

  lemma MessageLength(r: Record)
    ensures |PutMessage(r)| > 0
  {
    hide PutRecord;
  }

  // Whatever is read as a record is one.

  lemma {:induction false} ItemsAreWide(xs: seq<Item>)
    requires Fixed(KindsOf(xs))
    ensures |PutItems(xs)| == Widths(KindsOf(xs))
  {
    if xs != [] {
      var ks := KindsOf(xs);
      assert ks[0] == KindOf(xs[0]) && ks[1..] == KindsOf(xs[1..]);
      assert ks[0] in ks && forall k :: k in ks[1..] ==> k in ks;
      ItemsAreWide(xs[1..]);
    }
  }

  lemma {:induction false} KindsLength(xs: seq<Item>)
    ensures |KindsOf(xs)| == |xs|
  {
    if xs != [] {
      KindsLength(xs[1..]);
    }
  }

  lemma SplitItems(xs: seq<Item>, a: seq<Kind>, b: seq<Kind>) returns (x: seq<Item>, y: seq<Item>)
    requires KindsOf(xs) == a + b && ItemsFit(xs)
    ensures KindsOf(x) == a && KindsOf(y) == b && ItemsFit(x) && ItemsFit(y) && PutItems(xs) == PutItems(x) + PutItems(y)
  {
    hide KindsOf, ItemsFit, PutItems;
    KindsLength(xs);
    x, y := xs[..|a|], xs[|a|..];
    assert xs == x + y;
    KindsLength(x);
    KindsJoin(x, y);
    ItemsJoin(x, y);
    SamePrefix(KindsOf(x), KindsOf(y), a, b);
  }

  lemma SamePrefix(x: seq<Kind>, y: seq<Kind>, a: seq<Kind>, b: seq<Kind>)
    requires x + y == a + b && |x| == |a|
    ensures x == a && y == b
  {
    assert x == (x + y)[..|a|] && y == (x + y)[|a|..];
  }

  lemma {:induction false} TextsOfItems(items: seq<Item>, n: nat) returns (xs: seq<seq<byte>>)
    requires KindsOf(items) == TextKinds(n) && ItemsFit(items)
    ensures |xs| == n && (forall i :: 0 <= i < |xs| ==> |xs[i]| < 0x8000_0000) && PutItems(items) == WireTexts(xs)
  {
    hide Little, PutSize;
    xs := [];
    KindsLength(items);
    if n > 0 {
      assert KindsOf(items)[0] == ABytes && KindsOf(items)[1..] == KindsOf(items[1..]) && TextKinds(n)[1..] == TextKinds(n - 1);
      var rest := TextsOfItems(items[1..], n - 1);
      SizeIsPut(|items[0].bytes|);
      xs := [items[0].bytes] + rest;
      assert xs[1..] == rest;
    }
  }

  lemma ForwardOfItems(f: byte, items: seq<Item>) returns (numbers: seq<byte>, notes: seq<seq<byte>>, closing: seq<byte>)
    requires KindsOf(items) == ForwardKinds(f) && ItemsFit(items)
    ensures PutItems(items) == numbers + (WireTexts(notes) + closing) && ListFits(notes)
    ensures if f == 0 then numbers == [] && notes == [] && closing == []
      else
        && |numbers| == 12 + 8 * (f / 2 % 2) + 16 * (f / 4 % 2)
        && |notes| == f / 8 % 2 + f / 16 % 2 && |closing| == 4 * (f / 32 % 2)
  {
    hide Widths, KindsOf, PutItems, ItemsFit, When, Bit, TextKinds, Fixed, ForwardNumbers, ForwardKinds;
    numbers, notes, closing := [], [], [];
    if f == 0 {
      KindsLength(items);
      NoForward();
    } else {
      ForwardParts(f);
      NumbersAreWide(f);
      var closes := When(Bit(f, 32), AnI32);
      var x, rest := SplitItems(items, ForwardNumbers(f), TextKinds(f / 8 % 2 + f / 16 % 2) + closes);
      var y, z := SplitItems(rest, TextKinds(f / 8 % 2 + f / 16 % 2), closes);
      ItemsAreWide(x);
      ItemsAreWide(z);
      notes := TextsOfItems(y, f / 8 % 2 + f / 16 % 2);
      numbers, closing := PutItems(x), PutItems(z);
    }
  }

  lemma AuthorOfItems(f: Flagged) returns (author: Option<i64>)
    requires FlaggedFits(f, AuthorKinds)
    ensures author == AuthorOf(f) && (author.Some? <==> f.flags == 1)
    ensures PutItems(f.items) == if author.Some? then Wire64(author.value) else []
  {
    hide Wire64, PutInt64;
    author := AuthorOf(f);
    KindsLength(f.items);
    assert AuthorKinds(f.flags) == if f.flags == 1 then [AnI64] else [];
    if f.flags == 1 {
      assert KindsOf(f.items)[0] == AnI64 && f.items[1..] == [];
      Wire64IsPut(f.items[0].l);
      assert PutItems(f.items) == PutItem(f.items[0]) + [];
    }
  }

  lemma {:induction false} TextsAreSmall(xs: seq<seq<byte>>)
    requires Texts(xs)
    ensures forall i :: 0 <= i < |xs| ==> |xs[i]| < 0x8000_0000
  {
    if xs != [] {
      TextsAreSmall(xs[1..]);
      assert forall i :: 0 < i < |xs| ==> xs[i] == xs[1..][i - 1];
    }
  }

  lemma {:induction false} DecodableWired(raws: seq<seq<byte>>)
    requires Decodable(raws)
    ensures AllWired(raws)
  {
    hide Wired, Parse;
    if raws != [] {
      DecodableWired(raws[1..]);
      DecodedSays(raws[0]);
      assert IsWired(raws[0]);
      forall i | 0 <= i < |raws| ensures IsWired(raws[i]) {
        if i > 0 {
          assert IsWired(raws[1..][i - 1]);
        }
      }
    }
  }

  /** The bytes that a record is. */
  lemma WireOfRecord(r: Record) returns (w: Wire)
    requires RecordFits(r)
    ensures WireFits(w) && PutMessage(r) == PutWire(w) && MessageSays(w, MessageOf(r))
  {
    hide ExtrasWidth, KindsOf, ItemsFit, ExtraKinds, ForwardKinds, AuthorKinds, PutItems, Little, WireTexts, WireList, WireRefs, PutBlobs,
      PutSize, Put32, Wire64, Decodable, AuthorOf, Roots, MediaSay, AllWired, Texts, PutRefItems, PutHead, PutHeader, Fixed, Widths;
    var h := r.head;
    ExtrasAreWide(h.extras.flags);
    ItemsAreWide(h.extras.items);
    var numbers, notes, closing := ForwardOfItems(h.forward.flags, h.forward.items);
    var author := AuthorOfItems(h.author);
    TextsAreSmall(r.attributes);
    TextsAreSmall(r.media);
    DecodableWired(r.media);
    w := Wire(Put32(h.stableId), Put32(h.stableVersion), h.extras.flags, PutItems(h.extras.items), h.flags, h.tags, h.forward.flags,
              numbers, notes, closing, h.author.flags, author, r.text, r.attributes, r.media, r.refs);
    BlobsArePut(w.attributes);
    BlobsArePut(w.media);
    RefsArePut(w.refs);
    SizeIsPut(|w.text|);
    SizeIsPut(|w.refs|);
    RootsSay(w.media);
    HeadBytes(w, h);
  }

  /** A record is read exactly from its wire form, with whatever follows, and as that says. */
  lemma ReadsExactly(data: seq<byte>)
    ensures var m := TakeMessage(data);
      (m.Ok? && m.value.Some?) <==> exists w, tail :: WireFits(w) && data == PutWire(w) + tail
    ensures forall w, tail :: WireFits(w) && data == PutWire(w) + tail ==>
      TakeMessage(data).Ok? && TakeMessage(data).value.Some? && MessageSays(w, TakeMessage(data).value.value)
    ensures TakeMessage(data) == Ok(None) <==> data != [] && data[0] != 0
  {
    hide WireFits, PutWire, RecordFits, PutRecord, TakeRecord, MessageOf, MessageSays;
    forall w, tail | WireFits(w) && data == PutWire(w) + tail
      ensures TakeMessage(data).Ok? && TakeMessage(data).value.Some? && MessageSays(w, TakeMessage(data).value.value)
    {
      var m := WireReads(w, tail);
    }
    if TakeMessage(data).Ok? && TakeMessage(data).value.Some? {
      RecordFromText(data, 1);
      var (r, next) := TakeRecord(data, 1).value;
      var w := WireOfRecord(r);
      var text := PutRecord(r);
      var tail := data[next..];
      assert data == ([0] + text) + tail;
      assert WireFits(w) && data == PutWire(w) + tail;
    }
  }
}
