/** Byte images seen as sequences of equally sized pages, and in-place writes to them. */
module Pages {
  import opened Bytes

  type Page = seq<byte>

  ghost predicate Sized(pages: seq<Page>, ps: nat) {
    forall i :: 0 <= i < |pages| ==> |pages[i]| == ps
  }

  /** The byte offset of page index `i`: `i * ps`, defined by repeated addition. */
  function Offset(i: nat, ps: nat): nat {
    if i == 0 then 0 else Offset(i - 1, ps) + ps
  }

  lemma {:induction false} OffsetIsProduct(i: nat, ps: nat)
    ensures Offset(i, ps) == i * ps
  {
    if i > 0 {
      OffsetIsProduct(i - 1, ps);
      assert i * ps == (i - 1) * ps + ps;
    }
  }

  function Flatten(pages: seq<Page>): seq<byte> {
    if pages == [] then [] else Flatten(pages[..|pages| - 1]) + pages[|pages| - 1]
  }

  lemma {:induction false} FlattenLength(pages: seq<Page>, ps: nat)
    requires Sized(pages, ps)
    ensures |Flatten(pages)| == Offset(|pages|, ps)
  {
    if pages != [] {
      FlattenLength(pages[..|pages| - 1], ps);
    }
  }

  lemma {:induction false} FlattenConcat(a: seq<Page>, b: seq<Page>)
    ensures Flatten(a + b) == Flatten(a) + Flatten(b)
  {
    if b == [] {
      assert a + b == a;
    } else {
      var k := |b| - 1;
      assert (a + b)[..|a + b| - 1] == a + b[..k];
      FlattenConcat(a, b[..k]);
    }
  }

  lemma FlattenOne(p: Page)
    ensures Flatten([p]) == p
  {
    assert Flatten([p][..0]) == [];
  }

  lemma FlattenSnoc(pages: seq<Page>, p: Page)
    ensures Flatten(pages + [p]) == Flatten(pages) + p
  {
    FlattenConcat(pages, [p]);
    FlattenOne(p);
  }

  lemma FlattenAround(pages: seq<Page>, i: nat)
    requires i < |pages|
    ensures Flatten(pages) == Flatten(pages[..i]) + pages[i] + Flatten(pages[i + 1..])
  {
    var a, b := pages[..i], pages[i + 1..];
    assert pages == a + [pages[i]] + b;
    FlattenConcat(a + [pages[i]], b);
    FlattenSnoc(a, pages[i]);
  }

  /** Page `i` is the bytes at its offset; replacing it replaces exactly those bytes. */
  lemma FlattenUpdate(pages: seq<Page>, ps: nat, i: nat, p: Page)
    requires Sized(pages, ps) && i < |pages| && |p| == ps
    ensures Offset(i, ps) + ps <= |Flatten(pages)|
    ensures Flatten(pages)[Offset(i, ps)..Offset(i, ps) + ps] == pages[i]
    ensures Flatten(pages[i := p]) == Flatten(pages)[..Offset(i, ps)] + p + Flatten(pages)[Offset(i, ps) + ps..]
  {
    FlattenAround(pages, i);
    FlattenAround(pages[i := p], i);
    var a, b := Flatten(pages[..i]), Flatten(pages[i + 1..]);
    FlattenLength(pages[..i], ps);
    assert |a| == Offset(i, ps);
    assert pages[i := p][..i] == pages[..i] && pages[i := p][i + 1..] == pages[i + 1..];
    Splice(a, pages[i], b);
  }

  lemma Splice(a: seq<byte>, m: seq<byte>, b: seq<byte>)
    ensures (a + m + b)[..|a|] == a && (a + m + b)[|a|..|a| + |m|] == m && (a + m + b)[|a| + |m|..] == b
  {
  }

  lemma MulMonotone(a: int, b: int, c: nat)
    requires a <= b
    ensures a * c <= b * c
  {
  }

  lemma DivUnique(a: int, q: int, r: int, d: nat)
    requires 0 <= r < d && a == q * d + r
    ensures a / d == q && a % d == r
  {
    var e, k := a / d - q, a % d;
    assert e * d == r - k;
    if e >= 1 {
      MulMonotone(1, e, d);
    } else if e <= -1 {
      MulMonotone(e, -1, d);
    }
  }

  /** `n` whole pages fill `Offset(n, ps)` bytes, and page counting inverts that. */
  lemma OffsetDiv(n: nat, ps: nat)
    requires ps > 0
    ensures Offset(n, ps) / ps == n && Offset(n, ps) % ps == 0
  {
    OffsetIsProduct(n, ps);
    DivUnique(n * ps, n, 0, ps);
  }

  lemma {:induction false} OffsetMonotone(i: nat, n: nat, ps: nat)
    requires i <= n
    ensures Offset(i, ps) <= Offset(n, ps)
  {
    if i < n {
      OffsetMonotone(i, n - 1, ps);
    }
  }

  lemma WholePages(len: nat, ps: nat)
    requires ps > 0
    ensures Offset(len / ps, ps) + len % ps == len
  {
    OffsetIsProduct(len / ps, ps);
  }

  lemma PageBounds(len: nat, ps: nat, i: nat)
    requires ps > 0 && i < len / ps
    ensures Offset(i, ps) + ps <= len
  {
    WholePages(len, ps);
    OffsetMonotone(i + 1, len / ps, ps);
  }

  function PageAt(data: seq<byte>, ps: nat, i: nat): (p: Page)
    requires ps > 0 && i < |data| / ps
    ensures |p| == ps
  {
    PageBounds(|data|, ps, i);
    data[Offset(i, ps)..Offset(i, ps) + ps]
  }

  /** The whole pages of `data`, ignoring a trailing partial page. */
  function SplitPages(data: seq<byte>, ps: nat): (pages: seq<Page>)
    requires ps > 0
    ensures |pages| == |data| / ps && Sized(pages, ps)
  {
    seq(|data| / ps, i requires 0 <= i < |data| / ps => PageAt(data, ps, i))
  }

  /** Splitting undoes flattening ... */
  lemma SplitFlatten(pages: seq<Page>, ps: nat)
    requires ps > 0 && Sized(pages, ps)
    ensures SplitPages(Flatten(pages), ps) == pages
  {
    FlattenLength(pages, ps);
    OffsetDiv(|pages|, ps);
    forall i | 0 <= i < |pages| ensures PageAt(Flatten(pages), ps, i) == pages[i] {
      FlattenUpdate(pages, ps, i, pages[i]);
    }
  }

  lemma {:induction false} FlattenSplitPrefix(data: seq<byte>, ps: nat, n: nat)
    requires ps > 0 && n <= |data| / ps
    ensures Offset(n, ps) <= |data| && Flatten(SplitPages(data, ps)[..n]) == data[..Offset(n, ps)]
  {
    if n > 0 {
      FlattenSplitPrefix(data, ps, n - 1);
      PageBounds(|data|, ps, n - 1);
      var pages, k := SplitPages(data, ps), Offset(n - 1, ps);
      assert pages[..n] == pages[..n - 1] + [pages[n - 1]];
      FlattenSnoc(pages[..n - 1], pages[n - 1]);
      assert data[..k] + data[k..k + ps] == data[..k + ps];
    }
  }

  /** ... and flattening undoes splitting when no partial page is dropped. */
  lemma FlattenSplit(data: seq<byte>, ps: nat)
    requires ps > 0 && |data| % ps == 0
    ensures Flatten(SplitPages(data, ps)) == data
  {
    var n := |data| / ps;
    FlattenSplitPrefix(data, ps, n);
    WholePages(|data|, ps);
    assert SplitPages(data, ps)[..n] == SplitPages(data, ps) && data[..Offset(n, ps)] == data;
  }

  /** Overwrites part of a buffer. */
  method Put(dst: array<byte>, start: nat, bytes: seq<byte>)
    requires start + |bytes| <= dst.Length
    modifies dst
    ensures dst[..] == old(dst[..start]) + bytes + old(dst[start + |bytes|..])
  {
    forall k | 0 <= k < |bytes| {
      dst[start + k] := bytes[k];
    }
  }
}
