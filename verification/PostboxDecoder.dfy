/** The Postbox decoder as it runs: one cursor per payload, one item budget shared by all of them. */
module PostboxDecoder {
  import opened Bytes
  import opened ByteReading
  import opened PostboxFormat
  import opened PostboxTree
  import opened Wrappers

  type Key = seq<byte>

  /** "_", the key of a root object. */
  const ROOT_KEY: Key := [95]

  /** "\0postbox_order" */
  const ORDER_KEY: Key := [0, 112, 111, 115, 116, 98, 111, 120, 95, 111, 114, 100, 101, 114]

  /** "@type" */
  const TYPE_KEY: Key := [64, 116, 121, 112, 101]

  const OBJECT_TYPE: byte := 5

  /** A decoded value as its callers see it; a float64 is kept as its bits. */
  datatype Value =
    | Integer(i: int)
    | Boolean(b: bool)
    | Float(bits: u64)
    | Text(text: seq<byte>)
    | Data(bytes: seq<byte>)
    | Null
    | List(values: seq<Value>)
    | Payload(fields: map<Key, Value>)
    | Order(keys: seq<Key>)

  datatype Field = Field(key: Key, valueType: byte, value: Value)

  // What decoded values say, type by type.

  /** `x` is what a caller gets for `v`. */
  ghost predicate Says(v: Tree, x: Value)
    decreases v
  {
    match v
    case Int32(i) => x == Integer(i)
    case Int64(l) => x == Integer(l)
    case Bool(raw) => x.Boolean? && (x.b <==> raw > 0)
    case Double(bits) => x == Float(bits)
    case Str(text) => x == Text(text)
    case Obj(o) => SaysObject(o, x)
    case Int32s(xs) => x.List? && |x.values| == |xs| && forall i :: 0 <= i < |xs| ==> x.values[i] == Integer(xs[i])
    case Int64s(xs) => x.List? && |x.values| == |xs| && forall i :: 0 <= i < |xs| ==> x.values[i] == Integer(xs[i])
    case Objs(os) => x.List? && |x.values| == |os| && forall i :: 0 <= i < |os| ==> SaysObject(os[i], x.values[i])
    case Pairs(ps) => x.List? && |x.values| == |ps| && forall i :: 0 <= i < |ps| ==> SaysPair(ps[i], x.values[i])
    case Blob(bytes) => x == Data(bytes)
    case Nil => x == Null
    case Strs(xs) => x.List? && |x.values| == |xs| && forall i :: 0 <= i < |xs| ==> x.values[i] == Text(xs[i])
    case Blobs(xs) => x.List? && |x.values| == |xs| && forall i :: 0 <= i < |xs| ==> x.values[i] == Data(xs[i])
  }

  /** A list of the left object and the right one. */
  ghost predicate SaysPair(p: Pair, x: Value)
    decreases p
  {
    x.List? && |x.values| == 2 && SaysObject(p.left, x.values[0]) && SaysObject(p.right, x.values[1])
  }

  /** Entry `i` is the last with its key, and not hidden by a reserved one. */
  ghost predicate Shows(es: seq<Entry>, i: nat)
    requires i < |es|
  {
    && es[i].key !in {[64, 116, 121, 112, 101], [0, 112, 111, 115, 116, 98, 111, 120, 95, 111, 114, 100, 101, 114]}
    && forall j :: i < j < |es| ==> es[j].key != es[i].key
  }

  /** The type hash under "@type", the keys in order under "\0postbox_order", and the last value of every other key. */
  ghost predicate SaysObject(o: Object, x: Value)
    decreases o
  {
    && x.Payload?
    && var typeKey, orderKey := [64, 116, 121, 112, 101], [0, 112, 111, 115, 116, 98, 111, 120, 95, 111, 114, 100, 101, 114];
      var m := x.fields;
      && m.Keys == {typeKey, orderKey} + (set e <- o.entries :: e.key)
      && m[typeKey] == Integer(o.typeHash)
      && m[orderKey].Order? && |m[orderKey].keys| == |o.entries|
      && (forall i :: 0 <= i < |o.entries| ==> m[orderKey].keys[i] == o.entries[i].key)
      && forall i :: 0 <= i < |o.entries| && Shows(o.entries, i) ==> Says(o.entries[i].value, m[o.entries[i].key])
  }

  /** Fields in order, each with its key, the number of its type, and what its value says. */
  ghost predicate FieldsSay(es: seq<Entry>, fs: seq<Field>) {
    |fs| == |es| && forall i :: 0 <= i < |es| ==>
      fs[i].key == es[i].key && fs[i].valueType == WireValue(es[i].value)[0] && Says(es[i].value, fs[i].value)
  }

  // What the decoder computes.

  /** What a tree means to its callers: integers lose their width and a bool its byte. */
  function Meaning(v: Tree): Value
    decreases v
  {
    match v
    case Int32(i) => Integer(i)
    case Int64(l) => Integer(l)
    case Bool(raw) => Boolean(raw != 0)
    case Double(bits) => Float(bits)
    case Str(text) => Text(text)
    case Obj(o) => ObjectMeaning(o)
    case Int32s(xs) => List(Integers(xs))
    case Int64s(xs) => List(Integers(xs))
    case Objs(os) => List(ObjectMeanings(os))
    case Pairs(ps) => List(PairMeanings(ps))
    case Blob(bytes) => Data(bytes)
    case Nil => Null
    case Strs(xs) => List(TextMeanings(xs))
    case Blobs(xs) => List(DataMeanings(xs))
  }

  function Integers(xs: seq<int>): (vs: seq<Value>) {
    if xs == [] then [] else Integers(xs[..|xs| - 1]) + [Integer(xs[|xs| - 1])]
  }

  function TextMeanings(xs: seq<seq<byte>>): (vs: seq<Value>) {
    if xs == [] then [] else TextMeanings(xs[..|xs| - 1]) + [Text(xs[|xs| - 1])]
  }

  function DataMeanings(xs: seq<seq<byte>>): (vs: seq<Value>) {
    if xs == [] then [] else DataMeanings(xs[..|xs| - 1]) + [Data(xs[|xs| - 1])]
  }

  function ObjectMeanings(os: seq<Object>): (vs: seq<Value>)
    decreases os
  {
    if os == [] then [] else ObjectMeanings(os[..|os| - 1]) + [ObjectMeaning(os[|os| - 1])]
  }

  function PairMeanings(ps: seq<Pair>): (vs: seq<Value>)
    decreases ps
  {
    if ps == [] then [] else PairMeanings(ps[..|ps| - 1]) + [PairMeaning(ps[|ps| - 1])]
  }

  function PairMeaning(p: Pair): Value
    decreases p
  {
    List([ObjectMeaning(p.left), ObjectMeaning(p.right)])
  }

  function EntryMeaning(e: Entry): Field
    decreases e
  {
    Field(e.key, Tag(e.value), Meaning(e.value))
  }

  function FieldsOf(es: seq<Entry>): (fs: seq<Field>)
    ensures |fs| == |es|
    decreases es
  {
    if es == [] then [] else FieldsOf(es[..|es| - 1]) + [EntryMeaning(es[|es| - 1])]
  }

  function KeysOf(fs: seq<Field>): (ks: seq<Key>) {
    if fs == [] then [] else KeysOf(fs[..|fs| - 1]) + [fs[|fs| - 1].key]
  }

  /** Later fields replace earlier ones with the same key. */
  function FieldMap(fs: seq<Field>): (m: map<Key, Value>) {
    if fs == [] then map[] else FieldMap(fs[..|fs| - 1])[fs[|fs| - 1].key := fs[|fs| - 1].value]
  }

  /** The payload map: the fields, then the two reserved keys on top of them. */
  function PayloadOf(typeHash: int, fs: seq<Field>): map<Key, Value> {
    FieldMap(fs)[ORDER_KEY := Order(KeysOf(fs))][TYPE_KEY := Integer(typeHash)]
  }

  function ObjectMeaning(o: Object): Value
    decreases o
  {
    Payload(PayloadOf(o.typeHash, FieldsOf(o.entries)))
  }

  // What a payload map keeps of its object.

  lemma {:induction false} FieldMapLast(fs: seq<Field>, i: nat)
    requires i < |fs| && forall j :: i < j < |fs| ==> fs[j].key != fs[i].key
    ensures fs[i].key in FieldMap(fs) && FieldMap(fs)[fs[i].key] == fs[i].value
    decreases |fs|
  {
    if i < |fs| - 1 {
      FieldMapLast(fs[..|fs| - 1], i);
    }
  }

  lemma {:induction false} FieldMapKeys(fs: seq<Field>, k: Key)
    ensures k in FieldMap(fs) <==> exists i :: 0 <= i < |fs| && fs[i].key == k
    decreases |fs|
  {
    if fs != [] {
      var init := fs[..|fs| - 1];
      FieldMapKeys(init, k);
      if k in FieldMap(init) {
        var i :| 0 <= i < |init| && init[i].key == k;
        assert fs[i].key == k;
      }
      if i :| 0 <= i < |fs| && fs[i].key == k && k !in FieldMap(init) {
        assert i < |init| ==> init[i].key == k;
      }
    }
  }

  lemma {:induction false} FieldAt(es: seq<Entry>, i: nat)
    requires i < |es|
    ensures FieldsOf(es)[i] == EntryMeaning(es[i])
    decreases |es|
  {
    if i < |es| - 1 {
      FieldAt(es[..|es| - 1], i);
    }
  }

  lemma {:induction false} KeyAt(fs: seq<Field>)
    ensures |KeysOf(fs)| == |fs|
    ensures forall i :: 0 <= i < |fs| ==> KeysOf(fs)[i] == fs[i].key
    decreases |fs|
  {
    if fs != [] {
      KeyAt(fs[..|fs| - 1]);
    }
  }

  /**
   The payload of an object holds the type hash and the keys in order under the reserved keys, the last value of
   every other key, and nothing else. So distinct, unreserved keys lose nothing.
   */
  lemma PayloadKeepsFields(o: Object, i: nat)
    ensures var m := ObjectMeaning(o).fields;
      && TYPE_KEY in m && m[TYPE_KEY] == Integer(o.typeHash)
      && ORDER_KEY in m && m[ORDER_KEY].Order? && |m[ORDER_KEY].keys| == |o.entries|
      && m.Keys == {TYPE_KEY, ORDER_KEY} + (set e <- o.entries :: e.key)
      && (i < |o.entries| ==> m[ORDER_KEY].keys[i] == o.entries[i].key)
      && (i < |o.entries| && o.entries[i].key !in {TYPE_KEY, ORDER_KEY}
          && (forall j :: i < j < |o.entries| ==> o.entries[j].key != o.entries[i].key)
          ==> m[o.entries[i].key] == Meaning(o.entries[i].value))
  {
    hide Meaning, FieldsOf, FieldMap, KeysOf, Tag;
    var fs := FieldsOf(o.entries);
    forall j | 0 <= j < |fs| ensures fs[j] == EntryMeaning(o.entries[j]) {
      FieldAt(o.entries, j);
    }
    assert TYPE_KEY[0] != ORDER_KEY[0];
    KeyAt(fs);
    var m := ObjectMeaning(o).fields;
    forall k ensures k in m.Keys <==> k in {TYPE_KEY, ORDER_KEY} + (set e <- o.entries :: e.key) {
      FieldMapKeys(fs, k);
      if k in FieldMap(fs) {
        var j :| 0 <= j < |fs| && fs[j].key == k;
        assert o.entries[j].key == k && o.entries[j] in o.entries;
      }
      if e :| e in o.entries && e.key == k {
        var j :| 0 <= j < |o.entries| && o.entries[j] == e;
        assert fs[j].key == k;
      }
    }
    if i < |fs| && forall j :: i < j < |fs| ==> o.entries[j].key != o.entries[i].key {
      FieldMapLast(fs, i);
    }
  }

  // Meanings say what they should.

  lemma {:induction false} IntegersAt(xs: seq<int>)
    ensures |Integers(xs)| == |xs| && forall i :: 0 <= i < |xs| ==> Integers(xs)[i] == Integer(xs[i])
  {
    if xs != [] {
      IntegersAt(xs[..|xs| - 1]);
    }
  }

  lemma {:induction false} TextsAt(xs: seq<seq<byte>>)
    ensures |TextMeanings(xs)| == |xs| && forall i :: 0 <= i < |xs| ==> TextMeanings(xs)[i] == Text(xs[i])
    ensures |DataMeanings(xs)| == |xs| && forall i :: 0 <= i < |xs| ==> DataMeanings(xs)[i] == Data(xs[i])
  {
    if xs != [] {
      TextsAt(xs[..|xs| - 1]);
    }
  }

  lemma {:induction false} ObjectsAt(os: seq<Object>)
    ensures |ObjectMeanings(os)| == |os| && forall i :: 0 <= i < |os| ==> ObjectMeanings(os)[i] == ObjectMeaning(os[i])
    decreases |os|
  {
    hide ObjectMeaning;
    if os != [] {
      ObjectsAt(os[..|os| - 1]);
    }
  }

  lemma {:induction false} PairsAt(ps: seq<Pair>)
    ensures |PairMeanings(ps)| == |ps| && forall i :: 0 <= i < |ps| ==> PairMeanings(ps)[i] == PairMeaning(ps[i])
    decreases |ps|
  {
    hide PairMeaning;
    if ps != [] {
      PairsAt(ps[..|ps| - 1]);
    }
  }

  lemma ObjectFields(o: Object)
    ensures |FieldsOf(o.entries)| == |o.entries|
    ensures forall i :: 0 <= i < |o.entries| ==>
      FieldsOf(o.entries)[i].key == o.entries[i].key && FieldsOf(o.entries)[i].value == Meaning(o.entries[i].value)
  {
    hide Meaning, FieldsOf;
    forall i | 0 <= i < |o.entries| ensures FieldsOf(o.entries)[i] == EntryMeaning(o.entries[i]) {
      FieldAt(o.entries, i);
    }
  }

  lemma {:induction false} MeaningSays(v: Tree)
    ensures Says(v, Meaning(v))
    decreases v, 1
  {
    hide ObjectMeaning, PairMeaning, Integers, TextMeanings, DataMeanings, ObjectMeanings, PairMeanings, SaysObject, SaysPair;
    match v
    case Obj(o) => ObjectSays(o);
    case Int32s(xs) => IntegersAt(xs);
    case Int64s(xs) => IntegersAt(xs);
    case Objs(os) =>
      ObjectsAt(os);
      forall i | 0 <= i < |os| ensures SaysObject(os[i], ObjectMeaning(os[i])) {
        ObjectSays(os[i]);
      }
    case Pairs(ps) =>
      PairsAt(ps);
      forall i | 0 <= i < |ps| ensures SaysPair(ps[i], PairMeaning(ps[i])) {
        PairSays(ps[i]);
      }
    case Strs(xs) => TextsAt(xs);
    case Blobs(xs) => TextsAt(xs);
    case _ =>
  }

  lemma {:induction false} PairSays(p: Pair)
    ensures SaysPair(p, PairMeaning(p))
    decreases p, 0
  {
    hide ObjectMeaning, SaysObject;
    ObjectSays(p.left);
    ObjectSays(p.right);
  }

  lemma {:induction false} ObjectSays(o: Object)
    ensures SaysObject(o, ObjectMeaning(o))
    decreases o, 0
  {
    hide Meaning, ObjectMeaning, Says;
    PayloadKeepsFields(o, 0);
    ObjectIsPayload(o);
    forall i | 0 <= i < |o.entries|
      ensures ObjectMeaning(o).fields[ORDER_KEY].keys[i] == o.entries[i].key
      ensures Shows(o.entries, i) ==> Says(o.entries[i].value, ObjectMeaning(o).fields[o.entries[i].key])
    {
      PayloadKeepsFields(o, i);
      MeaningSays(o.entries[i].value);
    }
  }

  lemma ObjectIsPayload(o: Object)
    ensures ObjectMeaning(o).Payload?
  {
  }

  lemma FirstByteIsTag(v: Tree)
    ensures WireValue(v) != [] && WireValue(v)[0] == Tag(v)
  {
    hide Little, Wire32, Wire64, WireText, WireObject, WireI32s, WireI64s, WireObjects, WirePairs, WireTexts;
  }

  lemma FieldsOfSay(es: seq<Entry>)
    ensures FieldsSay(es, FieldsOf(es))
  {
    hide Meaning, FieldsOf, Says, Tag, WireValue;
    forall i | 0 <= i < |es|
      ensures FieldsOf(es)[i].key == es[i].key && FieldsOf(es)[i].valueType == WireValue(es[i].value)[0]
      ensures Says(es[i].value, FieldsOf(es)[i].value)
    {
      FieldAt(es, i);
      FirstByteIsTag(es[i].value);
      MeaningSays(es[i].value);
    }
  }

  // The decoder.

  /** How many objects enclose a payload. A decoder of any input, accepted or not, has such a depth. */
  type Level = d: nat | d <= MAX_DEPTH

  class Budget {
    var items: nat

    constructor (items: nat)
      ensures this.items == items
    {
      this.items := items;
    }
  }

  class Decoder {
    const reader: ByteReader
    const depth: Level
    const budget: Budget

    constructor (data: seq<byte>, depth: Level, budget: Budget)
      ensures fresh(reader) && reader.data == data && reader.off == 0
      ensures this.depth == depth && this.budget == budget
    {
      this.reader := new ByteReader(data);
      this.depth := depth;
      this.budget := budget;
    }

    /** Where this decoder stands, as a decoding step reports it. */
    ghost predicate At<T>(spec: Decoded<T>)
      reads reader, budget
    {
      spec.Ok? ==> reader.off == spec.value.1 && budget.items == spec.value.2
    }

    method Claim(count: nat) returns (r: Result<(), Error>)
      modifies budget
      ensures if count <= old(budget.items) then r == Ok(()) && budget.items == old(budget.items) - count
              else r == Err(ItemLimit) && budget.items == old(budget.items)
    {
      if count > budget.items {
        return Err(ItemLimit);
      }
      budget.items := budget.items - count;
      return Ok(());
    }

    method Count(minBytes: nat) returns (r: Result<nat, Error>)
      requires reader.Valid() && minBytes > 0
      modifies reader, budget
      ensures reader.Valid() && budget.items <= old(budget.items)
      ensures var spec := Counted(reader.data, old(reader.off), old(budget.items), minBytes);
        At(spec) && r == (if spec.Ok? then Ok(spec.value.0) else Err(spec.error))
    {
      var count :- reader.Count(minBytes);
      var _ :- Claim(count);
      return Ok(count);
    }

    method Integers32(n: nat) returns (r: Result<seq<Value>, Error>)
      requires reader.Valid()
      modifies reader
      ensures reader.Valid()
      ensures var spec := TakeI32s(reader.data, old(reader.off), n, []);
        if spec.Ok? then r == Ok(Integers(spec.value.0)) && reader.off == spec.value.1 else r == Err(spec.error)
    {
      hide TakeI32;
      var values: seq<Value> := [];
      ghost var xs: seq<i32> := [];
      var i := 0;
      while i < n
        invariant 0 <= i <= n && reader.Valid() && values == Integers(xs)
        invariant TakeI32s(reader.data, old(reader.off), n, []) == TakeI32s(reader.data, reader.off, n - i, xs)
      {
        var x :- reader.Int32();
        assert (xs + [x])[..|xs|] == xs;
        values, xs, i := values + [Integer(x)], xs + [x], i + 1;
      }
      return Ok(values);
    }

    method Integers64(n: nat) returns (r: Result<seq<Value>, Error>)
      requires reader.Valid()
      modifies reader
      ensures reader.Valid()
      ensures var spec := TakeI64s(reader.data, old(reader.off), n, []);
        if spec.Ok? then r == Ok(Integers(spec.value.0)) && reader.off == spec.value.1 else r == Err(spec.error)
    {
      hide TakeI64;
      var values: seq<Value> := [];
      ghost var xs: seq<i64> := [];
      var i := 0;
      while i < n
        invariant 0 <= i <= n && reader.Valid() && values == Integers(xs)
        invariant TakeI64s(reader.data, old(reader.off), n, []) == TakeI64s(reader.data, reader.off, n - i, xs)
      {
        var x :- reader.Int64();
        assert (xs + [x])[..|xs|] == xs;
        values, xs, i := values + [Integer(x)], xs + [x], i + 1;
      }
      return Ok(values);
    }

    /** The string array and the bytes array, which differ only in how they hand out each element. */
    method Texts(n: nat, asText: bool) returns (r: Result<seq<Value>, Error>)
      requires reader.Valid()
      modifies reader
      ensures reader.Valid()
      ensures var spec := TakeTexts(reader.data, old(reader.off), n, []);
        if spec.Ok? then
          r == Ok(if asText then TextMeanings(spec.value.0) else DataMeanings(spec.value.0)) && reader.off == spec.value.1
        else r == Err(spec.error)
    {
      hide TakeBytes;
      var values: seq<Value> := [];
      ghost var xs: seq<seq<byte>> := [];
      var i := 0;
      while i < n
        invariant 0 <= i <= n && reader.Valid()
        invariant values == if asText then TextMeanings(xs) else DataMeanings(xs)
        invariant TakeTexts(reader.data, old(reader.off), n, []) == TakeTexts(reader.data, reader.off, n - i, xs)
      {
        var x :- reader.ReadBytes();
        assert (xs + [x])[..|xs|] == xs;
        values, xs, i := values + [if asText then Text(x) else Data(x)], xs + [x], i + 1;
      }
      return Ok(values);
    }

    method Objects(n: nat) returns (r: Result<seq<Value>, Error>)
      requires reader.Valid()
      modifies reader, budget
      ensures reader.Valid() && budget.items <= old(budget.items)
      ensures var spec := ParseObjects(reader.data, old(reader.off), depth, old(budget.items), n, []);
        At(spec) && r == (if spec.Ok? then Ok(ObjectMeanings(spec.value.0)) else Err(spec.error))
      decreases |reader.data| - reader.off, 1
    {
      hide ParseObject, ObjectMeaning;
      var values: seq<Value> := [];
      ghost var os: seq<Object> := [];
      var i := 0;
      while i < n
        invariant 0 <= i <= n && reader.Valid() && reader.off >= old(reader.off)
        invariant budget.items <= old(budget.items) && values == ObjectMeanings(os)
        invariant ParseObjects(reader.data, old(reader.off), depth, old(budget.items), n, []) ==
                  ParseObjects(reader.data, reader.off, depth, budget.items, n - i, os)
      {
        ghost var spec := ParseObject(reader.data, reader.off, depth, budget.items);
        var value :- ReadObject();
        ghost var o := spec.value.0;
        assert (os + [o])[..|os|] == os;
        values, os, i := values + [value], os + [o], i + 1;
      }
      return Ok(values);
    }

    method ObjectPairs(n: nat) returns (r: Result<seq<Value>, Error>)
      requires reader.Valid()
      modifies reader, budget
      ensures reader.Valid() && budget.items <= old(budget.items)
      ensures var spec := ParsePairs(reader.data, old(reader.off), depth, old(budget.items), n, []);
        At(spec) && r == (if spec.Ok? then Ok(PairMeanings(spec.value.0)) else Err(spec.error))
      decreases |reader.data| - reader.off, 1
    {
      hide ParsePair, PairMeaning;
      var values: seq<Value> := [];
      ghost var ps: seq<Pair> := [];
      var i := 0;
      while i < n
        invariant 0 <= i <= n && reader.Valid() && reader.off >= old(reader.off)
        invariant budget.items <= old(budget.items) && values == PairMeanings(ps)
        invariant ParsePairs(reader.data, old(reader.off), depth, old(budget.items), n, []) ==
                  ParsePairs(reader.data, reader.off, depth, budget.items, n - i, ps)
      {
        ghost var spec := ParsePair(reader.data, reader.off, depth, budget.items);
        var value :- ReadPair();
        ghost var p := spec.value.0;
        assert (ps + [p])[..|ps|] == ps;
        values, ps, i := values + [value], ps + [p], i + 1;
      }
      return Ok(values);
    }

    method ReadPair() returns (r: Result<Value, Error>)
      requires reader.Valid()
      modifies reader, budget
      ensures reader.Valid() && budget.items <= old(budget.items)
      ensures var spec := ParsePair(reader.data, old(reader.off), depth, old(budget.items));
        At(spec) && r == (if spec.Ok? then Ok(PairMeaning(spec.value.0)) else Err(spec.error))
      decreases |reader.data| - reader.off, 0, 1
    {
      hide ParseObject, ObjectMeaning;
      var left :- ReadObject();
      var right :- ReadObject();
      return Ok(List([left, right]));
    }

    /** Reads an array of the given type: 6 to 9, 12 or 13. */
    method Array(valueType: byte) returns (r: Result<Value, Error>)
      requires reader.Valid() && valueType in {6, 7, 8, 9, 12, 13}
      modifies reader, budget
      ensures reader.Valid() && budget.items <= old(budget.items)
      ensures var spec := ParseTagged(valueType, reader.data, old(reader.off), depth, old(budget.items));
        At(spec) && r == (if spec.Ok? then Ok(Meaning(spec.value.0)) else Err(spec.error))
      decreases |reader.data| - reader.off, 2
    {
      hide Counted, TakeI32s, TakeI64s, TakeTexts, ParseObjects, ParsePairs, Integers, TextMeanings, DataMeanings,
        ObjectMeanings, PairMeanings;
      var n :- Count(if valueType == 8 || valueType == 7 then 8 else if valueType == 9 then 16 else 4);
      var values: seq<Value>;
      if valueType == 6 {
        values :- Integers32(n);
      } else if valueType == 7 {
        values :- Integers64(n);
      } else if valueType == 8 {
        values :- Objects(n);
      } else if valueType == 9 {
        values :- ObjectPairs(n);
      } else {
        values :- Texts(n, valueType == 12);
      }
      return Ok(List(values));
    }

    method Scalar(valueType: byte) returns (r: Result<Value, Error>)
      requires reader.Valid() && valueType !in {5, 6, 7, 8, 9, 12, 13}
      modifies reader, budget
      ensures reader.Valid() && budget.items == old(budget.items)
      ensures var spec := ParseTagged(valueType, reader.data, old(reader.off), depth, old(budget.items));
        At(spec) && r == (if spec.Ok? then Ok(Meaning(spec.value.0)) else Err(spec.error))
    {
      hide TakeI32, TakeI64, TakeByte, TakeF64, TakeBytes;
      if valueType == 0 {
        var x :- reader.Int32();
        return Ok(Integer(x));
      } else if valueType == 1 {
        var x :- reader.Int64();
        return Ok(Integer(x));
      } else if valueType == 2 {
        var x :- reader.Uint8();
        return Ok(Boolean(x != 0));
      } else if valueType == 3 {
        var x :- reader.Float64();
        return Ok(Float(x));
      } else if valueType == 4 {
        var x :- reader.ReadBytes();
        return Ok(Text(x));
      } else if valueType == 10 {
        var x :- reader.ReadBytes();
        return Ok(Data(x));
      } else if valueType == 11 {
        return Ok(Null);
      } else {
        return Err(UnknownType(valueType));
      }
    }

    method ReadValue() returns (r: Result<(byte, Value), Error>)
      requires reader.Valid()
      modifies reader, budget
      ensures reader.Valid() && budget.items <= old(budget.items)
      ensures var spec := ParseValue(reader.data, old(reader.off), depth, old(budget.items));
        At(spec) && r == (if spec.Ok? then Ok((Tag(spec.value.0), Meaning(spec.value.0))) else Err(spec.error))
      decreases |reader.data| - reader.off, 3
    {
      hide ParseObject, ObjectMeaning;
      var valueType :- reader.Uint8();
      var value: Value;
      TagOfTagged(valueType, reader.data, reader.off, depth, budget.items);
      if valueType == 5 {
        value :- ReadObject();
      } else if valueType in {6, 7, 8, 9, 12, 13} {
        value :- Array(valueType);
      } else {
        value :- Scalar(valueType);
      }
      return Ok((valueType, value));
    }

    method Entries() returns (r: Result<seq<Field>, Error>)
      requires reader.Valid()
      modifies reader, budget
      ensures reader.Valid() && budget.items <= old(budget.items)
      ensures var spec := ParseEntries(reader.data, old(reader.off), depth, old(budget.items), []);
        if spec.Ok? then r == Ok(FieldsOf(spec.value.0)) && budget.items == spec.value.1 else r == Err(spec.error)
      decreases |reader.data| - reader.off, 4
    {
      hide ParseValue, TakeShortString, Meaning, Tag;
      var entries: seq<Field> := [];
      ghost var es: seq<Entry> := [];
      while reader.off < |reader.data|
        invariant reader.Valid() && reader.off >= old(reader.off)
        invariant budget.items <= old(budget.items) && entries == FieldsOf(es)
        invariant ParseEntries(reader.data, old(reader.off), depth, old(budget.items), []) ==
                  ParseEntries(reader.data, reader.off, depth, budget.items, es)
        decreases |reader.data| - reader.off
      {
        var _ :- Claim(1);
        var key :- reader.ShortString();
        ghost var spec := ParseValue(reader.data, reader.off, depth, budget.items);
        var read :- ReadValue();
        ghost var e := Entry(key, spec.value.0);
        assert (es + [e])[..|es|] == es;
        entries, es := entries + [Field(key, read.0, read.1)], es + [e];
      }
      return Ok(entries);
    }

    method ReadObject() returns (r: Result<Value, Error>)
      requires reader.Valid()
      modifies reader, budget
      ensures reader.Valid() && budget.items <= old(budget.items)
      ensures var spec := ParseObject(reader.data, old(reader.off), depth, old(budget.items));
        At(spec) && r == (if spec.Ok? then Ok(ObjectMeaning(spec.value.0)) else Err(spec.error))
      decreases |reader.data| - reader.off, 0, 0
    {
      hide ParseEntries, FieldsOf, TakeI32;
      if depth >= MAX_DEPTH {
        return Err(NestingLimit);
      }
      var typeHash :- reader.Int32();
      var size :- reader.Int32();
      if size < 0 {
        return Err(NegativeLength);
      }
      var data :- reader.Read(size);
      var child := new Decoder(data, depth + 1, budget);
      var entries :- child.Entries();
      var payload := BuildPayload(typeHash, entries);
      return Ok(Payload(payload));
    }
  }

  lemma TagOfTagged(tag: byte, data: seq<byte>, o: nat, depth: nat, items: nat)
    requires o <= |data|
    ensures var spec := ParseTagged(tag, data, o, depth, items);
      && (spec.Ok? ==> Tag(spec.value.0) == tag)
      && (tag == 5 ==>
        match ParseObject(data, o, depth, items)
        case Ok((x, next, left)) => spec == Ok((Obj(x), next, left))
        case Err(e) => spec == Err(e))
  {
    hide TakeI32, TakeI64, TakeByte, TakeF64, TakeBytes, ParseObject, Counted, ParseObjects, ParsePairs, TakeI32s, TakeI64s,
      TakeTexts;
  }

  /** The payload loop of object(): fields in order, then the two reserved keys. */
  method BuildPayload(typeHash: int, entries: seq<Field>) returns (payload: map<Key, Value>)
    ensures payload == PayloadOf(typeHash, entries)
  {
    payload := map[];
    var order: seq<Key> := [];
    for i := 0 to |entries|
      invariant payload == FieldMap(entries[..i]) && order == KeysOf(entries[..i])
    {
      assert entries[..i + 1][..i] == entries[..i];
      payload := payload[entries[i].key := entries[i].value];
      order := order + [entries[i].key];
    }
    assert entries[..|entries|] == entries;
    payload := payload[ORDER_KEY := Order(order)];
    payload := payload[TYPE_KEY := Integer(typeHash)];
  }

  /**
   Decodes any byte string. The shared budget starts at 2^20 and is a natural number throughout, so no input
   claims more over all nesting levels together.
   */
  method DecodeEntries(data: seq<byte>) returns (r: Result<seq<Field>, Error>)
    ensures var spec := Parse(data);
      r == if spec.Ok? then Ok(FieldsOf(spec.value)) else Err(spec.error)
    ensures forall es :: Wired(data, es) ==> r.Ok? && FieldsSay(es, r.value)
    ensures (forall es :: !Wired(data, es)) ==> r.Err?
  {
    hide ParseEntries, FieldsOf, Wired, FieldsSay;
    var budget := new Budget(MAX_ITEMS);
    var d := new Decoder(data, 0, budget);
    r := d.Entries();
    DecodedSays(data);
  }

  lemma DecodedSays(data: seq<byte>)
    ensures forall es :: Wired(data, es) ==> Parse(data) == Ok(es) && FieldsSay(es, FieldsOf(es))
    ensures Parse(data).Ok? ==> Wired(data, Parse(data).value)
  {
    hide Parse, FieldsOf, Wired, FieldsSay;
    forall es | Wired(data, es) ensures Parse(data) == Ok(es) && FieldsSay(es, FieldsOf(es)) {
      AcceptedIsWired(data, es);
      FieldsOfSay(es);
    }
    if Parse(data).Ok? {
      AcceptedIsWired(data, Parse(data).value);
    }
  }

  predicate IsRoot(e: Entry) {
    e.key == ROOT_KEY && e.value.Obj?
  }

  /** The payload of the first entry "_" that holds an object. */
  function RootIn(es: seq<Entry>): (root: Option<map<Key, Value>>) {
    if es == [] then None
    else if IsRoot(es[0]) then Some(ObjectMeaning(es[0].value.obj).fields)
    else RootIn(es[1..])
  }

  lemma {:induction false} RootIsFirst(es: seq<Entry>, i: nat)
    requires i <= |es| && forall j :: 0 <= j < i ==> !IsRoot(es[j])
    ensures i < |es| && IsRoot(es[i]) ==> RootIn(es) == Some(ObjectMeaning(es[i].value.obj).fields)
    ensures i == |es| ==> RootIn(es) == None
  {
    hide ObjectMeaning;
    if i > 0 {
      forall j | 0 <= j < i - 1 ensures !IsRoot(es[1..][j]) {
        assert es[1..][j] == es[j + 1];
      }
      RootIsFirst(es[1..], i - 1);
    }
  }

  function DecodedRoot(data: seq<byte>): (r: Result<Option<map<Key, Value>>, Error>) {
    var es :- Parse(data);
    Ok(RootIn(es))
  }

  ghost predicate HoldsRoot(es: seq<Entry>, i: nat)
    requires i < |es|
  {
    es[i].key == [95] && es[i].value.Obj?
  }

  /** What the first entry "_" that holds an object says, if there is one. */
  ghost predicate RootSays(es: seq<Entry>, r: Option<map<Key, Value>>) {
    && (r.None? ==> forall i :: 0 <= i < |es| ==> !HoldsRoot(es, i))
    && (r.Some? ==> exists i :: 0 <= i < |es| && IsFirstRoot(es, i) && SaysObject(es[i].value.obj, Payload(r.value)))
  }

  ghost predicate IsFirstRoot(es: seq<Entry>, i: nat)
    requires i < |es|
  {
    HoldsRoot(es, i) && forall j :: 0 <= j < i ==> !HoldsRoot(es, j)
  }

  lemma RootInSays(es: seq<Entry>)
    ensures RootSays(es, RootIn(es))
  {
    hide SaysObject, ObjectMeaning, RootIn;
    var i := 0;
    while i < |es| && !IsRoot(es[i])
      invariant i <= |es| && forall j :: 0 <= j < i ==> !IsRoot(es[j])
    {
      i := i + 1;
    }
    RootIsFirst(es, i);
    if i < |es| {
      ObjectIsPayload(es[i].value.obj);
      ObjectSays(es[i].value.obj);
      assert IsFirstRoot(es, i);
    }
  }

  method DecodeObject(data: seq<byte>) returns (r: Result<Option<map<Key, Value>>, Error>)
    ensures r == DecodedRoot(data)
    ensures forall es :: Wired(data, es) ==> r.Ok? && RootSays(es, r.value)
    ensures (forall es :: !Wired(data, es)) ==> r.Err?
  {
    hide Parse, FieldsOf, Meaning, Wired, FieldsSay, RootSays, SaysObject;
    DecodedSays(data);
    forall es ensures RootSays(es, RootIn(es)) {
      RootInSays(es);
    }
    var entries :- DecodeEntries(data);
    ghost var es := Parse(data).value;
    for i := 0 to |entries|
      invariant forall j :: 0 <= j < i ==> !IsRoot(es[j])
    {
      FieldAt(es, i);
      if entries[i].key == ROOT_KEY && entries[i].valueType == OBJECT_TYPE {
        RootMeaning(es[i]);
        RootIsFirst(es, i);
        return Ok(Some(entries[i].value.fields));
      }
    }
    RootIsFirst(es, |es|);
    return Ok(None);
  }

  lemma RootMeaning(e: Entry)
    requires Tag(e.value) == OBJECT_TYPE
    ensures Meaning(e.value).Payload? && e.value.Obj? && Meaning(e.value) == ObjectMeaning(e.value.obj)
  {
  }
}
