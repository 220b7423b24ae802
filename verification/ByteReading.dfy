/** The cursor of the Postbox decoder: bounds-checked reads of fixed and length-prefixed fields. */
module ByteReading {
  import opened Bytes
  import opened Wrappers

  const MAX_ITEMS: nat := 0x10_0000

  datatype Error =
    | ShortPayload
    | NegativeLength
    | CountLimit
    | ItemLimit
    | NestingLimit
    | UnknownType(valueType: nat)

  /** A value and the offset after it. */
  type Parsed<+T> = Result<(T, nat), Error>

  function Take(data: seq<byte>, off: nat, n: int): (r: Parsed<seq<byte>>)
    requires off <= |data|
    ensures r.Ok? ==> r.value.1 == off + n <= |data| && |r.value.0| == n
  {
    if n < 0 || |data| - off < n then Err(ShortPayload) else Ok((data[off..off + n], off + n))
  }

  function TakeByte(data: seq<byte>, off: nat): (r: Parsed<byte>)
    requires off <= |data|
    ensures r.Ok? ==> r.value.1 == off + 1 <= |data|
  {
    var (b, next) :- Take(data, off, 1);
    Ok((b[0], next))
  }

  function TakeU32(data: seq<byte>, off: nat): (r: Parsed<u32>)
    requires off <= |data|
    ensures r.Ok? ==> r.value.1 == off + 4 <= |data|
  {
    var (b, next) :- Take(data, off, 4);
    Ok((Le32(b), next))
  }

  function TakeI32(data: seq<byte>, off: nat): (r: Parsed<i32>)
    requires off <= |data|
    ensures r.Ok? ==> r.value.1 == off + 4 <= |data|
  {
    var (b, next) :- Take(data, off, 4);
    Ok((Int32At(b), next))
  }

  function TakeI64(data: seq<byte>, off: nat): (r: Parsed<i64>)
    requires off <= |data|
    ensures r.Ok? ==> r.value.1 == off + 8 <= |data|
  {
    var (b, next) :- Take(data, off, 8);
    Ok((Int64At(b), next))
  }

  /** A float64 is kept as its bits. */
  function TakeF64(data: seq<byte>, off: nat): (r: Parsed<u64>)
    requires off <= |data|
    ensures r.Ok? ==> r.value.1 == off + 8 <= |data|
  {
    var (b, next) :- Take(data, off, 8);
    Ok((Le64(b), next))
  }

  function TakeBytes(data: seq<byte>, off: nat): (r: Parsed<seq<byte>>)
    requires off <= |data|
    ensures r.Ok? ==> off + 4 <= r.value.1 <= |data|
  {
    var (size, next) :- TakeI32(data, off);
    if size < 0 then Err(NegativeLength) else Take(data, next, size)
  }

  function TakeShortString(data: seq<byte>, off: nat): (r: Parsed<seq<byte>>)
    requires off <= |data|
    ensures r.Ok? ==> off < r.value.1 <= |data|
  {
    var (size, next) :- TakeByte(data, off);
    Take(data, next, size)
  }

  /** An element count, rejected when that many elements of `minBytes` cannot follow. */
  function TakeCount(data: seq<byte>, off: nat, minBytes: nat): (r: Parsed<nat>)
    requires off <= |data| && minBytes > 0
    ensures r.Ok? ==> r.value.1 == off + 4 <= |data| && r.value.0 <= MAX_ITEMS
  {
    var (count, next) :- TakeI32(data, off);
    if count < 0 || count > (|data| - next) / minBytes || count > MAX_ITEMS then Err(CountLimit) else Ok((count, next))
  }

  /** `n` fields read one after another, appended to `acc`. */
  function TakeI32s(data: seq<byte>, off: nat, n: nat, acc: seq<i32>): (r: Parsed<seq<i32>>)
    requires off <= |data|
    ensures r.Ok? ==> off <= r.value.1 <= |data|
    decreases n
  {
    if n == 0 then Ok((acc, off))
    else
      var (x, next) :- TakeI32(data, off);
      TakeI32s(data, next, n - 1, acc + [x])
  }

  function TakeI64s(data: seq<byte>, off: nat, n: nat, acc: seq<i64>): (r: Parsed<seq<i64>>)
    requires off <= |data|
    ensures r.Ok? ==> off <= r.value.1 <= |data|
    decreases n
  {
    if n == 0 then Ok((acc, off))
    else
      var (x, next) :- TakeI64(data, off);
      TakeI64s(data, next, n - 1, acc + [x])
  }

  function TakeTexts(data: seq<byte>, off: nat, n: nat, acc: seq<seq<byte>>): (r: Parsed<seq<seq<byte>>>)
    requires off <= |data|
    ensures r.Ok? ==> off <= r.value.1 <= |data|
    decreases n
  {
    if n == 0 then Ok((acc, off))
    else
      var (x, next) :- TakeBytes(data, off);
      TakeTexts(data, next, n - 1, acc + [x])
  }

  // Printed forms.

  /** The bytes at `off` spell `text`. */
  ghost predicate Printed(data: seq<byte>, off: nat, text: seq<byte>) {
    off + |text| <= |data| && forall i :: 0 <= i < |text| ==> data[off + i] == text[i]
  }

  lemma PrintedIsSlice(data: seq<byte>, off: nat, text: seq<byte>)
    ensures Printed(data, off, text) <==> off + |text| <= |data| && data[off..off + |text|] == text
  {
    if off + |text| <= |data| && data[off..off + |text|] == text {
      forall i | 0 <= i < |text| ensures data[off + i] == text[i] {
        assert data[off..off + |text|][i] == data[off + i];
      }
    }
  }

  lemma PrintedSplit(data: seq<byte>, off: nat, a: seq<byte>, b: seq<byte>)
    ensures Printed(data, off, a + b) <==> Printed(data, off, a) && Printed(data, off + |a|, b)
  {
    var ab := a + b;
    if Printed(data, off, ab) {
      forall i | 0 <= i < |a| ensures data[off + i] == a[i] {
        assert ab[i] == a[i];
      }
      forall i | 0 <= i < |b| ensures data[off + |a| + i] == b[i] {
        assert ab[|a| + i] == b[i] && data[off + (|a| + i)] == ab[|a| + i];
      }
    }
    if Printed(data, off, a) && Printed(data, off + |a|, b) {
      forall i | 0 <= i < |ab| ensures data[off + i] == ab[i] {
        if i >= |a| {
          assert ab[i] == b[i - |a|] && data[off + |a| + (i - |a|)] == b[i - |a|];
        }
      }
    }
  }

  type Text = b: seq<byte> | |b| < 0x8000_0000

  ghost function PutBytes(b: Text): (r: seq<byte>)
    ensures |r| == 4 + |b|
  {
    PutInt32(|b|) + b
  }

  lemma TakePrinted(data: seq<byte>, off: nat, text: seq<byte>)
    requires off <= |data|
    ensures Printed(data, off, text) <==> Take(data, off, |text|) == Ok((text, off + |text|))
  {
    PrintedIsSlice(data, off, text);
  }

  /** Every fixed-width read succeeds with `x` exactly where the printed form of `x` stands. */
  lemma ByteReadsBack(data: seq<byte>, off: nat, x: byte)
    requires off <= |data|
    ensures Printed(data, off, [x]) <==> TakeByte(data, off) == Ok((x, off + 1))
  {
    PrintedIsSlice(data, off, [x]);
    if off + 1 <= |data| {
      assert data[off..off + 1] == [data[off]];
    }
  }

  lemma U32ReadsBack(data: seq<byte>, off: nat, x: u32)
    requires off <= |data|
    ensures Printed(data, off, Put32(x)) <==> TakeU32(data, off) == Ok((x, off + 4))
  {
    PrintedIsSlice(data, off, Put32(x));
    if off + 4 <= |data| {
      Put32Le32(data[off..off + 4]);
    }
  }

  lemma I32ReadsBack(data: seq<byte>, off: nat, x: i32)
    requires off <= |data|
    ensures Printed(data, off, PutInt32(x)) <==> TakeI32(data, off) == Ok((x, off + 4))
  {
    PrintedIsSlice(data, off, PutInt32(x));
    Int32RoundTrip(x, PutInt32(x));
    if off + 4 <= |data| {
      Int32RoundTrip(x, data[off..off + 4]);
    }
  }

  lemma I64ReadsBack(data: seq<byte>, off: nat, x: i64)
    requires off <= |data|
    ensures Printed(data, off, PutInt64(x)) <==> TakeI64(data, off) == Ok((x, off + 8))
  {
    PrintedIsSlice(data, off, PutInt64(x));
    Int64RoundTrip(x, PutInt64(x));
    if off + 8 <= |data| {
      Int64RoundTrip(x, data[off..off + 8]);
    }
  }

  lemma F64ReadsBack(data: seq<byte>, off: nat, x: u64)
    requires off <= |data|
    ensures Printed(data, off, Put64(x)) <==> TakeF64(data, off) == Ok((x, off + 8))
  {
    PrintedIsSlice(data, off, Put64(x));
    if off + 8 <= |data| {
      Put64Le64(data[off..off + 8]);
    }
  }

  /** A length-prefixed field reads back, and only from its printed form. */
  lemma BytesReadBack(data: seq<byte>, off: nat, x: Text)
    requires off <= |data|
    ensures Printed(data, off, PutBytes(x)) <==> TakeBytes(data, off) == Ok((x, off + 4 + |x|))
  {
    PrintedSplit(data, off, PutInt32(|x|), x);
    I32ReadsBack(data, off, |x|);
    if off + 4 <= |data| {
      TakePrinted(data, off + 4, x);
    }
    if TakeBytes(data, off) == Ok((x, off + 4 + |x|)) {
      I32ReadsBack(data, off, TakeI32(data, off).value.0);
    }
  }

  lemma BytesFromText(data: seq<byte>, off: nat)
    requires off <= |data| && TakeBytes(data, off).Ok?
    ensures |TakeBytes(data, off).value.0| < 0x8000_0000
    ensures TakeBytes(data, off).value.1 == off + 4 + |TakeBytes(data, off).value.0|
  {
  }

  type Short = b: seq<byte> | |b| <= 255

  ghost function PutShort(b: Short): (r: seq<byte>)
    ensures |r| == 1 + |b|
  {
    [|b|] + b
  }

  lemma ShortReadsBack(data: seq<byte>, off: nat, x: Short)
    requires off <= |data|
    ensures Printed(data, off, PutShort(x)) <==> TakeShortString(data, off) == Ok((x, off + 1 + |x|))
  {
    PrintedSplit(data, off, [|x|], x);
    ByteReadsBack(data, off, |x|);
    if off + 1 <= |data| {
      TakePrinted(data, off + 1, x);
    }
    if TakeShortString(data, off) == Ok((x, off + 1 + |x|)) {
      ByteReadsBack(data, off, TakeByte(data, off).value.0);
    }
  }

  ghost function PutI32s(xs: seq<i32>): (r: seq<byte>)
    ensures |r| == 4 * |xs|
  {
    if xs == [] then [] else PutInt32(xs[0]) + PutI32s(xs[1..])
  }

  ghost function PutI64s(xs: seq<i64>): (r: seq<byte>)
    ensures |r| == 8 * |xs|
  {
    if xs == [] then [] else PutInt64(xs[0]) + PutI64s(xs[1..])
  }

  /** Repeated fields read back, and only from their printed forms. */
  lemma {:induction false} I32sReadBack(data: seq<byte>, off: nat, xs: seq<i32>, acc: seq<i32>)
    requires off <= |data| && Printed(data, off, PutI32s(xs))
    ensures TakeI32s(data, off, |xs|, acc) == Ok((acc + xs, off + 4 * |xs|))
    decreases |xs|
  {
    if xs == [] {
      assert acc + xs == acc;
    } else {
      PrintedSplit(data, off, PutInt32(xs[0]), PutI32s(xs[1..]));
      I32ReadsBack(data, off, xs[0]);
      I32sReadBack(data, off + 4, xs[1..], acc + [xs[0]]);
      assert acc + [xs[0]] + xs[1..] == acc + xs;
    }
  }

  lemma {:induction false} I32sFromText(data: seq<byte>, off: nat, n: nat, acc: seq<i32>) returns (xs: seq<i32>)
    requires off <= |data| && TakeI32s(data, off, n, acc).Ok?
    ensures |xs| == n && TakeI32s(data, off, n, acc) == Ok((acc + xs, off + 4 * n)) && Printed(data, off, PutI32s(xs))
    decreases n
  {
    xs := [];
    if n == 0 {
      assert acc + xs == acc;
    } else {
      var x := TakeI32(data, off).value.0;
      I32ReadsBack(data, off, x);
      var rest := I32sFromText(data, off + 4, n - 1, acc + [x]);
      xs := [x] + rest;
      assert xs[1..] == rest && acc + [x] + rest == acc + xs;
      PrintedSplit(data, off, PutInt32(x), PutI32s(rest));
    }
  }

  lemma {:induction false} I64sReadBack(data: seq<byte>, off: nat, xs: seq<i64>, acc: seq<i64>)
    requires off <= |data| && Printed(data, off, PutI64s(xs))
    ensures TakeI64s(data, off, |xs|, acc) == Ok((acc + xs, off + 8 * |xs|))
    decreases |xs|
  {
    if xs == [] {
      assert acc + xs == acc;
    } else {
      PrintedSplit(data, off, PutInt64(xs[0]), PutI64s(xs[1..]));
      I64ReadsBack(data, off, xs[0]);
      I64sReadBack(data, off + 8, xs[1..], acc + [xs[0]]);
      assert acc + [xs[0]] + xs[1..] == acc + xs;
    }
  }

  lemma {:induction false} I64sFromText(data: seq<byte>, off: nat, n: nat, acc: seq<i64>) returns (xs: seq<i64>)
    requires off <= |data| && TakeI64s(data, off, n, acc).Ok?
    ensures |xs| == n && TakeI64s(data, off, n, acc) == Ok((acc + xs, off + 8 * n)) && Printed(data, off, PutI64s(xs))
    decreases n
  {
    xs := [];
    if n == 0 {
      assert acc + xs == acc;
    } else {
      var x := TakeI64(data, off).value.0;
      I64ReadsBack(data, off, x);
      var rest := I64sFromText(data, off + 8, n - 1, acc + [x]);
      xs := [x] + rest;
      assert xs[1..] == rest && acc + [x] + rest == acc + xs;
      PrintedSplit(data, off, PutInt64(x), PutI64s(rest));
    }
  }

  /** A count reads back when it is at most the limit and that many elements can follow; a larger one is refused. */
  lemma CountReadsBack(data: seq<byte>, off: nat, n: nat, minBytes: nat)
    requires off <= |data| && n < 0x8000_0000 && minBytes > 0 && Printed(data, off, PutInt32(n))
    ensures n <= MAX_ITEMS && n <= (|data| - off - 4) / minBytes ==> TakeCount(data, off, minBytes) == Ok((n, off + 4))
    ensures n > MAX_ITEMS ==> TakeCount(data, off, minBytes).Err?
  {
    I32ReadsBack(data, off, n);
    assert TakeI32(data, off) == Ok((n, off + 4));
  }

  lemma CountFromText(data: seq<byte>, off: nat, minBytes: nat)
    requires off <= |data| && minBytes > 0 && TakeCount(data, off, minBytes).Ok?
    ensures Printed(data, off, PutInt32(TakeCount(data, off, minBytes).value.0))
  {
    I32ReadsBack(data, off, TakeI32(data, off).value.0);
  }

  // The cursor itself.

  /** `r` and the new offset are what `spec` says. After an error the offset stays inside the data. */
  predicate Agrees<T(==)>(r: Result<T, Error>, off: nat, spec: Parsed<T>) {
    match spec
    case Ok((x, next)) => r == Ok(x) && off == next
    case Err(e) => r == Err(e)
  }

  class ByteReader {
    const data: seq<byte>
    var off: nat

    ghost predicate Valid()
      reads this
    {
      off <= |data|
    }

    constructor (data: seq<byte>)
      ensures Valid() && this.data == data && off == 0
    {
      this.data := data;
      off := 0;
    }

    function Remaining(): nat
      requires Valid()
      reads this
    {
      |data| - off
    }

    method Read(n: int) returns (r: Result<seq<byte>, Error>)
      requires Valid()
      modifies this
      ensures Valid() && Agrees(r, off, Take(data, old(off), n))
      ensures r.Err? ==> off == old(off)
    {
      if n < 0 || Remaining() < n {
        return Err(ShortPayload);
      }
      var out := data[off..off + n];
      off := off + n;
      return Ok(out);
    }

    method Uint8() returns (r: Result<byte, Error>)
      requires Valid()
      modifies this
      ensures Valid() && Agrees(r, off, TakeByte(data, old(off)))
    {
      var b :- Read(1);
      return Ok(b[0]);
    }

    method Uint32() returns (r: Result<u32, Error>)
      requires Valid()
      modifies this
      ensures Valid() && Agrees(r, off, TakeU32(data, old(off)))
    {
      var b :- Read(4);
      return Ok(Le32(b));
    }

    method Int32() returns (r: Result<i32, Error>)
      requires Valid()
      modifies this
      ensures Valid() && Agrees(r, off, TakeI32(data, old(off)))
    {
      var b :- Read(4);
      return Ok(Int32At(b));
    }

    method Int64() returns (r: Result<i64, Error>)
      requires Valid()
      modifies this
      ensures Valid() && Agrees(r, off, TakeI64(data, old(off)))
    {
      var b :- Read(8);
      return Ok(Int64At(b));
    }

    method Float64() returns (r: Result<u64, Error>)
      requires Valid()
      modifies this
      ensures Valid() && Agrees(r, off, TakeF64(data, old(off)))
    {
      var b :- Read(8);
      return Ok(Le64(b));
    }

    method ReadBytes() returns (r: Result<seq<byte>, Error>)
      requires Valid()
      modifies this
      ensures Valid() && Agrees(r, off, TakeBytes(data, old(off)))
    {
      var size :- Int32();
      if size < 0 {
        return Err(NegativeLength);
      }
      r := Read(size);
    }

    method ShortString() returns (r: Result<seq<byte>, Error>)
      requires Valid()
      modifies this
      ensures Valid() && Agrees(r, off, TakeShortString(data, old(off)))
    {
      var size :- Uint8();
      r := Read(size);
    }

    method Count(minBytes: nat) returns (r: Result<nat, Error>)
      requires Valid() && minBytes > 0
      modifies this
      ensures Valid() && Agrees(r, off, TakeCount(data, old(off), minBytes))
    {
      var count :- Int32();
      if count < 0 || count > Remaining() / minBytes || count > MAX_ITEMS {
        return Err(CountLimit);
      }
      return Ok(count);
    }
  }
}
