/** Postbox keyed objects: their trees, printed form, and the decoder as a function. */
module PostboxTree {
  import opened Bytes
  import opened ByteReading
  import opened Wrappers

  const MAX_DEPTH: nat := 64

  /** A value with its wire type; the fourteen types are numbered by `Tag`. */
  datatype Tree =
    | Int32(i: i32)
    | Int64(l: i64)
    | Bool(raw: byte)
    | Double(bits: u64)
    | Str(text: seq<byte>)
    | Obj(obj: Object)
    | Int32s(ints: seq<i32>)
    | Int64s(longs: seq<i64>)
    | Objs(objects: seq<Object>)
    | Pairs(pairs: seq<Pair>)
    | Blob(bytes: seq<byte>)
    | Nil
    | Strs(texts: seq<seq<byte>>)
    | Blobs(blobs: seq<seq<byte>>)

  datatype Object = Object(typeHash: i32, entries: seq<Entry>)
  datatype Pair = Pair(left: Object, right: Object)
  datatype Entry = Entry(key: seq<byte>, value: Tree)

  function Tag(v: Tree): byte {
    match v
    case Int32(_) => 0
    case Int64(_) => 1
    case Bool(_) => 2
    case Double(_) => 3
    case Str(_) => 4
    case Obj(_) => 5
    case Int32s(_) => 6
    case Int64s(_) => 7
    case Objs(_) => 8
    case Pairs(_) => 9
    case Blob(_) => 10
    case Nil => 11
    case Strs(_) => 12
    case Blobs(_) => 13
  }

  // The printed form.

  /** A length or count field, when it fits one. */
  ghost function PutSize(n: nat): (r: seq<byte>)
    ensures |r| == 4
  {
    PutInt32(if n < 0x8000_0000 then n else 0)
  }

  ghost predicate Texts(xs: seq<seq<byte>>) {
    xs == [] || (|xs[0]| < 0x8000_0000 && Texts(xs[1..]))
  }

  /** Lengths, counts and keys fit their fields. */
  ghost predicate Printable(v: Tree)
    decreases v
  {
    match v
    case Str(text) => |text| < 0x8000_0000
    case Obj(o) => PrintableObject(o)
    case Int32s(xs) => |xs| < 0x8000_0000
    case Int64s(xs) => |xs| < 0x8000_0000
    case Objs(os) => |os| < 0x8000_0000 && PrintableObjects(os)
    case Pairs(ps) => |ps| < 0x8000_0000 && PrintablePairs(ps)
    case Blob(bytes) => |bytes| < 0x8000_0000
    case Strs(xs) => |xs| < 0x8000_0000 && Texts(xs)
    case Blobs(xs) => |xs| < 0x8000_0000 && Texts(xs)
    case _ => true
  }

  ghost predicate PrintableObject(o: Object)
    decreases o
  {
    |PutEntries(o.entries)| < 0x8000_0000 && PrintableEntries(o.entries)
  }

  ghost predicate PrintablePair(p: Pair)
    decreases p
  {
    PrintableObject(p.left) && PrintableObject(p.right)
  }

  ghost predicate PrintableEntries(es: seq<Entry>)
    decreases es
  {
    es == [] || (|es[0].key| <= 255 && Printable(es[0].value) && PrintableEntries(es[1..]))
  }

  ghost predicate PrintableObjects(os: seq<Object>)
    decreases os
  {
    os == [] || (PrintableObject(os[0]) && PrintableObjects(os[1..]))
  }

  ghost predicate PrintablePairs(ps: seq<Pair>)
    decreases ps
  {
    ps == [] || (PrintablePair(ps[0]) && PrintablePairs(ps[1..]))
  }

  ghost function PutAllTexts(xs: seq<seq<byte>>): (r: seq<byte>) {
    if xs == [] then [] else PutSize(|xs[0]|) + xs[0] + PutAllTexts(xs[1..])
  }

  ghost function PutValue(v: Tree): seq<byte>
    decreases v
  {
    match v
    case Int32(i) => PutInt32(i)
    case Int64(l) => PutInt64(l)
    case Bool(raw) => [raw]
    case Double(bits) => Put64(bits)
    case Str(text) => PutSize(|text|) + text
    case Obj(o) => PutObject(o)
    case Int32s(xs) => PutSize(|xs|) + PutI32s(xs)
    case Int64s(xs) => PutSize(|xs|) + PutI64s(xs)
    case Objs(os) => PutSize(|os|) + PutObjects(os)
    case Pairs(ps) => PutSize(|ps|) + PutPairs(ps)
    case Blob(bytes) => PutSize(|bytes|) + bytes
    case Nil => []
    case Strs(xs) => PutSize(|xs|) + PutAllTexts(xs)
    case Blobs(xs) => PutSize(|xs|) + PutAllTexts(xs)
  }

  ghost function PutObject(o: Object): (r: seq<byte>)
    ensures |r| >= 8
    decreases o
  {
    var payload := PutEntries(o.entries);
    PutInt32(o.typeHash) + (PutSize(|payload|) + payload)
  }

  ghost function PutObjects(os: seq<Object>): (r: seq<byte>)
    ensures |r| >= 8 * |os|
    decreases os
  {
    if os == [] then [] else PutObject(os[0]) + PutObjects(os[1..])
  }

  ghost function PutPairs(ps: seq<Pair>): (r: seq<byte>)
    ensures |r| >= 16 * |ps|
    decreases ps
  {
    if ps == [] then [] else PutPair(ps[0]) + PutPairs(ps[1..])
  }

  ghost function PutPair(p: Pair): (r: seq<byte>)
    ensures |r| >= 16
    decreases p
  {
    PutObject(p.left) + PutObject(p.right)
  }

  ghost function PutKey(key: seq<byte>): seq<byte> {
    [if |key| <= 255 then |key| else 0] + key
  }

  ghost function PutEntries(es: seq<Entry>): seq<byte>
    decreases es
  {
    if es == [] then []
    else PutKey(es[0].key) + ([Tag(es[0].value)] + (PutValue(es[0].value) + PutEntries(es[1..])))
  }

  // What a tree costs.

  /** Items claimed from the shared budget: one per entry and one per array slot, at every level. */
  function Items(v: Tree): nat
    decreases v
  {
    match v
    case Obj(o) => EntryItems(o.entries)
    case Int32s(xs) => |xs|
    case Int64s(xs) => |xs|
    case Objs(os) => |os| + ObjectItems(os)
    case Pairs(ps) => |ps| + PairItems(ps)
    case Strs(xs) => |xs|
    case Blobs(xs) => |xs|
    case _ => 0
  }

  function ObjectItems(os: seq<Object>): nat
    decreases os
  {
    if os == [] then 0 else EntryItems(os[0].entries) + ObjectItems(os[1..])
  }

  function PairItems(ps: seq<Pair>): nat
    decreases ps
  {
    if ps == [] then 0 else OnePairItems(ps[0]) + PairItems(ps[1..])
  }

  function OnePairItems(p: Pair): nat
    decreases p
  {
    EntryItems(p.left.entries) + EntryItems(p.right.entries)
  }

  function EntryItems(es: seq<Entry>): nat
    decreases es
  {
    if es == [] then 0 else 1 + Items(es[0].value) + EntryItems(es[1..])
  }

  function Max(a: nat, b: nat): nat {
    if a > b then a else b
  }

  /** How many objects are nested inside one another. */
  function Depth(v: Tree): nat
    decreases v
  {
    match v
    case Obj(o) => 1 + EntryDepth(o.entries)
    case Objs(os) => ObjectDepth(os)
    case Pairs(ps) => PairDepth(ps)
    case _ => 0
  }

  function ObjectDepth(os: seq<Object>): nat
    decreases os
  {
    if os == [] then 0 else Max(1 + EntryDepth(os[0].entries), ObjectDepth(os[1..]))
  }

  function PairDepth(ps: seq<Pair>): nat
    decreases ps
  {
    if ps == [] then 0 else Max(OnePairDepth(ps[0]), PairDepth(ps[1..]))
  }

  function OnePairDepth(p: Pair): nat
    decreases p
  {
    1 + Max(EntryDepth(p.left.entries), EntryDepth(p.right.entries))
  }

  function EntryDepth(es: seq<Entry>): nat
    decreases es
  {
    if es == [] then 0 else Max(Depth(es[0].value), EntryDepth(es[1..]))
  }

  // The decoder.

  /** A value, the offset after it, and what is left of the item budget. */
  type Decoded<+T> = Result<(T, nat, nat), Error>

  /** Reads entries up to the end of the data, appended to `acc`. */
  function ParseEntries(data: seq<byte>, off: nat, depth: nat, items: nat, acc: seq<Entry>): (r: Result<(seq<Entry>, nat), Error>)
    requires off <= |data|
    ensures r.Ok? ==> r.value.1 <= items
    decreases |data| - off, 3, 0
  {
    if off == |data| then Ok((acc, items))
    else if items < 1 then Err(ItemLimit)
    else
      var (key, next) :- TakeShortString(data, off);
      var (value, after, left) :- ParseValue(data, next, depth, items - 1);
      ParseEntries(data, after, depth, left, acc + [Entry(key, value)])
  }

  function Counted(data: seq<byte>, off: nat, items: nat, minBytes: nat): (r: Decoded<nat>)
    requires off <= |data| && minBytes > 0
    ensures r.Ok? ==> r.value.1 == off + 4 <= |data| && r.value.0 + r.value.2 == items
  {
    var (n, next) :- TakeCount(data, off, minBytes);
    if n > items then Err(ItemLimit) else Ok((n, next, items - n))
  }

  /** Reads a type byte and a value of that type. */
  function ParseValue(data: seq<byte>, off: nat, depth: nat, items: nat): (r: Decoded<Tree>)
    requires off <= |data|
    ensures r.Ok? ==> off < r.value.1 <= |data| && r.value.2 <= items
    decreases |data| - off, 2, 0
  {
    var (tag, o) :- TakeByte(data, off);
    ParseTagged(tag, data, o, depth, items)
  }

  function ParseTagged(tag: byte, data: seq<byte>, o: nat, depth: nat, items: nat): (r: Decoded<Tree>)
    requires o <= |data|
    ensures r.Ok? ==> o <= r.value.1 <= |data| && r.value.2 <= items
    decreases |data| - o, 2, 1
  {
    if tag == 0 then var (x, next) :- TakeI32(data, o); Ok((Int32(x), next, items))
    else if tag == 1 then var (x, next) :- TakeI64(data, o); Ok((Int64(x), next, items))
    else if tag == 2 then var (x, next) :- TakeByte(data, o); Ok((Bool(x), next, items))
    else if tag == 3 then var (x, next) :- TakeF64(data, o); Ok((Double(x), next, items))
    else if tag == 4 then var (x, next) :- TakeBytes(data, o); Ok((Str(x), next, items))
    else if tag == 5 then var (x, next, left) :- ParseObject(data, o, depth, items); Ok((Obj(x), next, left))
    else if tag == 6 then
      var (n, start, left) :- Counted(data, o, items, 4);
      var (xs, next) :- TakeI32s(data, start, n, []);
      Ok((Int32s(xs), next, left))
    else if tag == 7 then
      var (n, start, left) :- Counted(data, o, items, 8);
      var (xs, next) :- TakeI64s(data, start, n, []);
      Ok((Int64s(xs), next, left))
    else if tag == 8 then
      var (n, start, left) :- Counted(data, o, items, 8);
      var (os, next, rest) :- ParseObjects(data, start, depth, left, n, []);
      Ok((Objs(os), next, rest))
    else if tag == 9 then
      var (n, start, left) :- Counted(data, o, items, 16);
      var (ps, next, rest) :- ParsePairs(data, start, depth, left, n, []);
      Ok((Pairs(ps), next, rest))
    else if tag == 10 then var (x, next) :- TakeBytes(data, o); Ok((Blob(x), next, items))
    else if tag == 11 then Ok((Nil, o, items))
    else if tag == 12 then
      var (n, start, left) :- Counted(data, o, items, 4);
      var (xs, next) :- TakeTexts(data, start, n, []);
      Ok((Strs(xs), next, left))
    else if tag == 13 then
      var (n, start, left) :- Counted(data, o, items, 4);
      var (xs, next) :- TakeTexts(data, start, n, []);
      Ok((Blobs(xs), next, left))
    else Err(UnknownType(tag))
  }

  function ParseObject(data: seq<byte>, off: nat, depth: nat, items: nat): (r: Decoded<Object>)
    requires off <= |data|
    ensures r.Ok? ==> off + 8 <= r.value.1 <= |data| && r.value.2 <= items
    decreases |data| - off, 0, 0
  {
    if depth >= MAX_DEPTH then Err(NestingLimit)
    else
      var (typeHash, o) :- TakeI32(data, off);
      var (payload, next) :- TakeBytes(data, o);
      var (entries, left) :- ParseEntries(payload, 0, depth + 1, items, []);
      Ok((Object(typeHash, entries), next, left))
  }

  function ParseObjects(data: seq<byte>, off: nat, depth: nat, items: nat, n: nat, acc: seq<Object>): (r: Decoded<seq<Object>>)
    requires off <= |data|
    ensures r.Ok? ==> off <= r.value.1 <= |data| && r.value.2 <= items
    decreases |data| - off, 1, n
  {
    if n == 0 then Ok((acc, off, items))
    else
      var (o, next, left) :- ParseObject(data, off, depth, items);
      ParseObjects(data, next, depth, left, n - 1, acc + [o])
  }

  function ParsePairs(data: seq<byte>, off: nat, depth: nat, items: nat, n: nat, acc: seq<Pair>): (r: Decoded<seq<Pair>>)
    requires off <= |data|
    ensures r.Ok? ==> off <= r.value.1 <= |data| && r.value.2 <= items
    decreases |data| - off, 1, n
  {
    if n == 0 then Ok((acc, off, items))
    else
      var (p, next, left) :- ParsePair(data, off, depth, items);
      ParsePairs(data, next, depth, left, n - 1, acc + [p])
  }

  function ParsePair(data: seq<byte>, off: nat, depth: nat, items: nat): (r: Decoded<Pair>)
    requires off <= |data|
    ensures r.Ok? ==> off + 16 <= r.value.1 <= |data| && r.value.2 <= items
    decreases |data| - off, 0, 1
  {
    var (left, mid, remaining) :- ParseObject(data, off, depth, items);
    var (right, next, rest) :- ParseObject(data, mid, depth, remaining);
    Ok((Pair(left, right), next, rest))
  }

  function Parse(data: seq<byte>): Result<seq<Entry>, Error> {
    var (entries, _) :- ParseEntries(data, 0, 0, MAX_ITEMS, []);
    Ok(entries)
  }
}
