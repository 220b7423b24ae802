/** What decoded values keep of the tree they come from, at every level. */
module PostboxMeaning {
  import opened Bytes
  import opened PostboxDecoder
  import opened PostboxTree

  // Trees with the same meaning.

  predicate IsArray(v: Tree) {
    v.Int32s? || v.Int64s? || v.Objs? || v.Pairs? || v.Strs? || v.Blobs?
  }

  function Count(v: Tree): nat
    requires IsArray(v)
  {
    match v
    case Int32s(xs) => |xs|
    case Int64s(xs) => |xs|
    case Objs(os) => |os|
    case Pairs(ps) => |ps|
    case Strs(xs) => |xs|
    case Blobs(xs) => |xs|
  }

  /** The same tree, but for the width of numbers, the byte of a bool and the type of an empty array. */
  ghost predicate Same(v: Tree, w: Tree)
    decreases v, 1
  {
    match v
    case Int32(i) => w == Int32(i) || w == Int64(i)
    case Int64(l) => w == Int64(l) || (w.Int32? && w.i == l)
    case Bool(raw) => w.Bool? && (raw != 0 <==> w.raw != 0)
    case Obj(o) => w.Obj? && SameObject(o, w.obj)
    case Int32s(xs) => SameArray(v, w)
    case Int64s(xs) => SameArray(v, w)
    case Objs(os) => SameArray(v, w)
    case Pairs(ps) => SameArray(v, w)
    case Strs(xs) => SameArray(v, w)
    case Blobs(xs) => SameArray(v, w)
    case _ => w == v
  }

  ghost predicate SameArray(v: Tree, w: Tree)
    requires IsArray(v)
    decreases v, 0
  {
    IsArray(w) && Count(v) == Count(w) && forall i :: 0 <= i < Count(v) ==> SameSlot(v, w, i)
  }

  ghost predicate SameSlot(v: Tree, w: Tree, i: nat)
    requires IsArray(v) && IsArray(w) && i < Count(v) == Count(w)
    decreases v, 0, 0
  {
    match v
    case Int32s(xs) => (w.Int32s? && w.ints[i] == xs[i]) || (w.Int64s? && w.longs[i] == xs[i])
    case Int64s(xs) => (w.Int32s? && w.ints[i] == xs[i]) || (w.Int64s? && w.longs[i] == xs[i])
    case Objs(os) => w.Objs? && SameObject(os[i], w.objects[i])
    case Pairs(ps) => w.Pairs? && SamePair(ps[i], w.pairs[i])
    case Strs(xs) => w.Strs? && w.texts[i] == xs[i]
    case Blobs(xs) => w.Blobs? && w.blobs[i] == xs[i]
  }

  ghost predicate SamePair(p: Pair, q: Pair)
    decreases p
  {
    SameObject(p.left, q.left) && SameObject(p.right, q.right)
  }

  ghost predicate SameObject(o: Object, p: Object)
    decreases o
  {
    && o.typeHash == p.typeHash && |o.entries| == |p.entries|
    && forall i :: 0 <= i < |o.entries| ==> o.entries[i].key == p.entries[i].key && Same(o.entries[i].value, p.entries[i].value)
  }

  // Trees whose objects have distinct keys other than the two reserved ones.

  ghost predicate WellKeyed(v: Tree)
    decreases v
  {
    match v
    case Obj(o) => WellKeyedObject(o)
    case Objs(os) => forall i :: 0 <= i < |os| ==> WellKeyedObject(os[i])
    case Pairs(ps) => forall i :: 0 <= i < |ps| ==> WellKeyedObject(ps[i].left) && WellKeyedObject(ps[i].right)
    case _ => true
  }

  ghost predicate WellKeyedObject(o: Object)
    decreases o
  {
    KeysDistinct(o) && forall i :: 0 <= i < |o.entries| ==> WellKeyed(o.entries[i].value)
  }

  predicate KeysDistinct(o: Object) {
    && (forall i :: 0 <= i < |o.entries| ==> o.entries[i].key !in {TYPE_KEY, ORDER_KEY})
    && (forall i, j :: 0 <= i < j < |o.entries| ==> o.entries[i].key != o.entries[j].key)
  }

  // Meanings of arrays, slot by slot.

  function SlotMeaning(v: Tree, i: nat): Value
    requires IsArray(v) && i < Count(v)
  {
    match v
    case Int32s(xs) => Integer(xs[i])
    case Int64s(xs) => Integer(xs[i])
    case Objs(os) => ObjectMeaning(os[i])
    case Pairs(ps) => PairMeaning(ps[i])
    case Strs(xs) => Text(xs[i])
    case Blobs(xs) => Data(xs[i])
  }

  lemma ArrayMeaning(v: Tree)
    requires IsArray(v)
    ensures Meaning(v).List? && |Meaning(v).values| == Count(v)
    ensures forall i :: 0 <= i < Count(v) ==> Meaning(v).values[i] == SlotMeaning(v, i)
  {
    hide ObjectMeaning, PairMeaning, Integers, TextMeanings, DataMeanings, ObjectMeanings, PairMeanings;
    match v
    case Int32s(xs) => IntegersAt(xs);
    case Int64s(xs) => IntegersAt(xs);
    case Objs(os) => ObjectsAt(os);
    case Pairs(ps) => PairsAt(ps);
    case Strs(xs) => TextsAt(xs);
    case Blobs(xs) => TextsAt(xs);
  }

  // Meanings of objects, entry by entry.

  ghost predicate SameFields(fs: seq<Field>, gs: seq<Field>) {
    |fs| == |gs| && forall i :: 0 <= i < |fs| ==> fs[i].key == gs[i].key && fs[i].value == gs[i].value
  }

  lemma {:induction false} SameFieldMaps(fs: seq<Field>, gs: seq<Field>)
    requires SameFields(fs, gs)
    ensures FieldMap(fs) == FieldMap(gs) && KeysOf(fs) == KeysOf(gs)
  {
    if fs != [] {
      SameFieldMaps(fs[..|fs| - 1], gs[..|gs| - 1]);
    }
  }

  /** Objects with distinct, unreserved keys mean the same exactly when their types, keys and values do. */
  lemma ObjectMeaningExact(o: Object, p: Object)
    requires KeysDistinct(o) && KeysDistinct(p)
    ensures ObjectMeaning(o) == ObjectMeaning(p) <==>
      o.typeHash == p.typeHash && SameFields(FieldsOf(o.entries), FieldsOf(p.entries))
  {
    hide Meaning, FieldsOf, FieldMap, KeysOf;
    var fs, gs := FieldsOf(o.entries), FieldsOf(p.entries);
    if o.typeHash == p.typeHash && SameFields(fs, gs) {
      SameFieldMaps(fs, gs);
    }
    if ObjectMeaning(o) == ObjectMeaning(p) {
      PayloadKeepsFields(o, 0);
      PayloadKeepsFields(p, 0);
      ObjectFields(o);
      ObjectFields(p);
      forall i | 0 <= i < |fs| ensures fs[i].key == gs[i].key && fs[i].value == gs[i].value {
        PayloadKeepsFields(o, i);
        PayloadKeepsFields(p, i);
      }
    }
  }

  // The theorem.

  lemma {:induction false} SameObjectMeaning(o: Object, p: Object)
    requires WellKeyedObject(o) && WellKeyedObject(p)
    ensures ObjectMeaning(o) == ObjectMeaning(p) <==> SameObject(o, p)
    decreases o, 0
  {
    hide Meaning, FieldsOf, ObjectMeaning, Same, WellKeyed;
    ObjectMeaningExact(o, p);
    ObjectFields(o);
    ObjectFields(p);
    if |o.entries| == |p.entries| {
      forall i | 0 <= i < |o.entries|
        ensures Meaning(o.entries[i].value) == Meaning(p.entries[i].value) <==> Same(o.entries[i].value, p.entries[i].value)
      {
        SameMeaning(o.entries[i].value, p.entries[i].value);
      }
    }
  }

  lemma {:induction false} SamePairMeaning(p: Pair, q: Pair)
    requires WellKeyedObject(p.left) && WellKeyedObject(p.right) && WellKeyedObject(q.left) && WellKeyedObject(q.right)
    ensures PairMeaning(p) == PairMeaning(q) <==> SamePair(p, q)
    decreases p, 0
  {
    hide ObjectMeaning, SameObject, WellKeyedObject;
    SameObjectMeaning(p.left, q.left);
    SameObjectMeaning(p.right, q.right);
    var a, b := [ObjectMeaning(p.left), ObjectMeaning(p.right)], [ObjectMeaning(q.left), ObjectMeaning(q.right)];
    assert PairMeaning(p) == List(a) && PairMeaning(q) == List(b);
    assert a[0] == ObjectMeaning(p.left) && a[1] == ObjectMeaning(p.right);
    assert b[0] == ObjectMeaning(q.left) && b[1] == ObjectMeaning(q.right);
  }

  lemma {:induction false} SameSlotMeaning(v: Tree, w: Tree, i: nat)
    requires IsArray(v) && IsArray(w) && i < Count(v) == Count(w) && WellKeyed(v) && WellKeyed(w)
    ensures SlotMeaning(v, i) == SlotMeaning(w, i) <==> SameSlot(v, w, i)
    decreases v, 0
  {
    hide SameObject, SamePair, WellKeyedObject;
    if v.Objs? && w.Objs? {
      SameObjectMeaning(v.objects[i], w.objects[i]);
    } else if v.Pairs? && w.Pairs? {
      SamePairMeaning(v.pairs[i], w.pairs[i]);
    }
  }

  lemma {:induction false} SameArrayMeaning(v: Tree, w: Tree)
    requires IsArray(v) && IsArray(w) && WellKeyed(v) && WellKeyed(w)
    ensures Meaning(v) == Meaning(w) <==> SameArray(v, w)
    decreases v, 1
  {
    hide Meaning, SlotMeaning, SameSlot, WellKeyed;
    ArrayMeaning(v);
    ArrayMeaning(w);
    if Count(v) == Count(w) {
      forall i | 0 <= i < Count(v) ensures SlotMeaning(v, i) == SlotMeaning(w, i) <==> SameSlot(v, w, i) {
        SameSlotMeaning(v, w, i);
      }
      if SameArray(v, w) {
        assert Meaning(v).values == Meaning(w).values;
      }
    }
  }

  /**
   A decoded value determines its tree, at every level, but for the width of numbers, the byte of a bool and the type of
   an empty array, when keys are distinct and not reserved; and it tells no more.
   */
  lemma {:induction false} SameMeaning(v: Tree, w: Tree)
    requires WellKeyed(v) && WellKeyed(w)
    ensures Meaning(v) == Meaning(w) <==> Same(v, w)
    decreases v, 2
  {
    hide PayloadOf, FieldsOf, SameObject, SameArray, WellKeyedObject, Integers, TextMeanings, DataMeanings,
      ObjectMeanings, PairMeanings;
    if IsArray(v) && IsArray(w) {
      SameArrayMeaning(v, w);
    } else if v.Obj? && w.Obj? {
      SameObjectMeaning(v.obj, w.obj);
    } else if IsArray(v) || IsArray(w) {
      OneArray(v, w);
    }
  }

  lemma OneArray(v: Tree, w: Tree)
    requires IsArray(v) != IsArray(w)
    ensures Meaning(v) != Meaning(w) && !Same(v, w)
  {
    hide PayloadOf, FieldsOf, SameObject, Integers, TextMeanings, DataMeanings, ObjectMeanings, PairMeanings;
  }
}
