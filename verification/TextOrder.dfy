/** Byte strings and their lexicographic order. */
module TextOrder {
  import opened Bytes
  import opened Ranking

  type Text = seq<byte>

  predicate LexLess(a: Text, b: Text) {
    b != [] && (a == [] || a[0] < b[0] || (a[0] == b[0] && LexLess(a[1..], b[1..])))
  }

  lemma {:induction false} LexAsymmetric(a: Text, b: Text)
    ensures !(LexLess(a, b) && LexLess(b, a))
  {
    if a != [] && b != [] {
      LexAsymmetric(a[1..], b[1..]);
    }
  }

  lemma {:induction false} LexTotal(a: Text, b: Text)
    requires a != b
    ensures LexLess(a, b) || LexLess(b, a)
  {
    if a != [] && b != [] && a[0] == b[0] {
      assert a == [a[0]] + a[1..] && b == [b[0]] + b[1..];
      LexTotal(a[1..], b[1..]);
    }
  }

  lemma {:induction false} LexTransitive(a: Text, b: Text, c: Text)
    requires LexLess(a, b) && LexLess(b, c)
    ensures LexLess(a, c)
  {
    if a != [] && a[0] == b[0] == c[0] {
      LexTransitive(a[1..], b[1..], c[1..]);
    }
  }

  /** The order is strict and total on any texts. */
  lemma LexOrders(S: set<Text>)
    ensures Orders(LexLess, S)
  {
    hide LexLess;
    forall a | a in S ensures !LexLess(a, a) {
      LexAsymmetric(a, a);
    }
    forall a, b | a in S && b in S && a != b ensures LexLess(a, b) || LexLess(b, a) {
      LexTotal(a, b);
    }
    forall a, b, c | a in S && b in S && c in S && LexLess(a, b) && LexLess(b, c) ensures LexLess(a, c) {
      LexTransitive(a, b, c);
    }
  }

  /** `a` is a proper prefix of `b`, or has the smaller byte where they first differ. */
  predicate Precedes(a: Text, b: Text) {
    exists n :: 0 <= n <= |a| && n < |b| && a[..n] == b[..n] && (n == |a| || a[n] < b[n])
  }

  /** The recursive order is that. */
  lemma {:induction false} LexIsPrecedes(a: Text, b: Text)
    ensures LexLess(a, b) <==> Precedes(a, b)
  {
    if a == [] || b == [] || a[0] != b[0] {
      assert a[..0] == b[..0];
    } else {
      LexIsPrecedes(a[1..], b[1..]);
      if n :| 0 <= n <= |a| && n < |b| && a[..n] == b[..n] && (n == |a| || a[n] < b[n]) {
        assert n > 0 && a[1..][..n - 1] == a[..n][1..] && b[1..][..n - 1] == b[..n][1..];
      }
      if n :| 0 <= n <= |a[1..]| && n < |b[1..]| && a[1..][..n] == b[1..][..n] && (n == |a[1..]| || a[1..][n] < b[1..][n]) {
        assert a[..n + 1] == [a[0]] + a[1..][..n] && b[..n + 1] == [b[0]] + b[1..][..n];
      }
    }
  }

  // White space, as Unicode has it, in UTF-8.

  predicate WideSpace(a: byte, b: byte, c: byte) {
    || (a == 0xE1 && b == 0x9A && c == 0x80)
    || (a == 0xE2 && b == 0x80 && (0x80 <= c <= 0x8A || c in {0xA8, 0xA9, 0xAF}))
    || (a == 0xE2 && b == 0x81 && c == 0x9F)
    || (a == 0xE3 && b == 0x80 && c == 0x80)
  }

  /** One white-space character. */
  predicate IsSpace(t: Text) {
    || (|t| == 1 && (9 <= t[0] <= 13 || t[0] == 32))
    || (|t| == 2 && t[0] == 0xC2 && t[1] in {0x85, 0xA0})
    || (|t| == 3 && WideSpace(t[0], t[1], t[2]))
  }

  /** The length of the white-space character that `t` starts with, if any. */
  function SpaceAtStart(t: Text): (n: nat)
    ensures n <= |t| && (n > 0 ==> IsSpace(t[..n]))
    ensures n == 0 ==> forall k :: 0 < k <= |t| ==> !IsSpace(t[..k])
  {
    if |t| >= 1 && IsSpace(t[..1]) then 1
    else if |t| >= 2 && IsSpace(t[..2]) then 2
    else if |t| >= 3 && IsSpace(t[..3]) then 3
    else 0
  }

  function SpaceAtEnd(t: Text): (n: nat)
    ensures n <= |t| && (n > 0 ==> IsSpace(t[|t| - n..]))
    ensures n == 0 ==> forall k :: 0 <= k < |t| ==> !IsSpace(t[k..])
  {
    if |t| >= 1 && IsSpace(t[|t| - 1..]) then 1
    else if |t| >= 2 && IsSpace(t[|t| - 2..]) then 2
    else if |t| >= 3 && IsSpace(t[|t| - 3..]) then 3
    else 0
  }

  function TrimStart(t: Text): (r: Text)
    ensures SpaceAtStart(r) == 0 && |r| <= |t|
    decreases |t|
  {
    var n := SpaceAtStart(t);
    if n == 0 then t else TrimStart(t[n..])
  }

  function TrimEnd(t: Text): (r: Text)
    ensures SpaceAtEnd(r) == 0 && r <= t
    decreases |t|
  {
    var n := SpaceAtEnd(t);
    if n == 0 then t else TrimEnd(t[..|t| - n])
  }

  /** strings.TrimSpace. */
  function Trim(t: Text): Text {
    TrimEnd(TrimStart(t))
  }

  /** Nothing but white space. */
  predicate IsBlank(t: Text) {
    TrimStart(t) == []
  }

  /** A text that starts with an ASCII character above the space is not blank. */
  lemma BeginsBare(t: Text)
    requires t != [] && 32 < t[0] < 128
    ensures !IsBlank(t)
  {
    assert SpaceAtStart(t) == 0;
  }

  /** What trimming leaves of a text is bare at both ends, and empty exactly for a blank text. */
  lemma TrimBare(t: Text)
    ensures SpaceAtStart(Trim(t)) == 0 && SpaceAtEnd(Trim(t)) == 0
    ensures Trim(t) == [] <==> IsBlank(t)
    ensures Trim(Trim(t)) == Trim(t)
  {
    EndKeepsStart(TrimStart(t));
  }

  /** White-space characters, one after another. */
  ghost predicate Spaces(t: Text)
    decreases |t|
  {
    t == [] || exists n :: 0 < n <= |t| && IsSpace(t[..n]) && Spaces(t[n..])
  }

  lemma {:induction false} SpacesJoin(a: Text, b: Text)
    requires Spaces(a) && Spaces(b)
    ensures Spaces(a + b)
    decreases |a|
  {
    hide IsSpace, Spaces;
    if a == [] {
      assert a + b == b;
    } else {
      var n := FirstSpace(a);
      SpacesJoin(a[n..], b);
      SpaceBefore(a[..n], a[n..] + b);
      Split(a, n);
      Regroup(a[..n], a[n..], b);
    }
  }

  lemma FirstSpace(a: Text) returns (n: nat)
    requires a != [] && Spaces(a)
    ensures 0 < n <= |a| && IsSpace(a[..n]) && Spaces(a[n..])
  {
    hide IsSpace;
    n :| 0 < n <= |a| && IsSpace(a[..n]) && Spaces(a[n..]);
  }

  lemma Split(t: Text, n: nat)
    requires n <= |t|
    ensures t[..n] + t[n..] == t
  {
  }

  lemma Regroup(a: Text, b: Text, c: Text)
    ensures a + (b + c) == (a + b) + c
  {
  }

  /** A white-space character before others. */
  lemma SpaceBefore(t: Text, rest: Text)
    requires IsSpace(t) && Spaces(rest)
    ensures Spaces(t + rest)
  {
    hide IsSpace;
    var all := t + rest;
    assert all[..|t|] == t && all[|t|..] == rest;
    assert |t| > 0 by {
      SpaceNotEmpty(t);
    }
    assert IsSpace(all[..|t|]) && Spaces(all[|t|..]);
  }

  lemma SpaceNotEmpty(t: Text)
    requires IsSpace(t)
    ensures t != []
  {
  }

  lemma {:induction false} StartTrimmed(t: Text) returns (a: Text)
    ensures t == a + TrimStart(t) && Spaces(a)
    decreases |t|
  {
    hide IsSpace, Spaces, TrimStart;
    var n := SpaceAtStart(t);
    a := [];
    if n == 0 {
      NoSpaces();
      TrimStartSkips(t);
      assert [] + t == t;
    } else {
      var rest := StartTrimmed(t[n..]);
      SpaceBefore(t[..n], rest);
      a := t[..n] + rest;
      Split(t, n);
      TrimStartSkips(t);
      Regroup(t[..n], rest, TrimStart(t));
    }
  }

  lemma TrimStartSkips(t: Text)
    ensures TrimStart(t) == if SpaceAtStart(t) == 0 then t else TrimStart(t[SpaceAtStart(t)..])
  {
  }

  lemma NoSpaces()
    ensures Spaces([])
  {
  }

  lemma {:induction false} EndTrimmed(t: Text) returns (b: Text)
    ensures t == TrimEnd(t) + b && Spaces(b)
    decreases |t|
  {
    hide IsSpace, Spaces;
    NoSpaces();
    var n := SpaceAtEnd(t);
    b := [];
    if n > 0 {
      var init, last := t[..|t| - n], t[|t| - n..];
      b := EndTrimmed(init);
      b := LastSpace(init, last, TrimEnd(init), b);
      assert t == init + last;
    }
  }

  lemma LastSpace(init: Text, last: Text, kept: Text, spaces: Text) returns (b: Text)
    requires IsSpace(last) && Spaces(spaces) && init == kept + spaces
    ensures init + last == kept + b && Spaces(b)
  {
    hide IsSpace, Spaces;
    NoSpaces();
    SpaceBefore(last, []);
    assert last + [] == last;
    SpacesJoin(spaces, last);
    b := spaces + last;
  }

  /** Trimming takes white space off both ends and nothing else. */
  lemma TrimTakesSpaces(t: Text) returns (a: Text, b: Text)
    ensures t == a + Trim(t) + b && Spaces(a) && Spaces(b)
  {
    a := StartTrimmed(t);
    b := EndTrimmed(TrimStart(t));
    assert a + (Trim(t) + b) == a + Trim(t) + b;
  }

  /** Trimming the end never uncovers white space at the start, nor eats up a text that starts without it. */
  lemma {:induction false} EndKeepsStart(t: Text)
    requires SpaceAtStart(t) == 0
    ensures SpaceAtStart(TrimEnd(t)) == 0 && (TrimEnd(t) == [] ==> t == [])
    decreases |t|
  {
    hide IsSpace;
    var n := SpaceAtEnd(t);
    if n > 0 {
      assert t[0..] == t[..|t|] == t;
      PrefixBare(t, |t| - n);
      EndKeepsStart(t[..|t| - n]);
    }
  }

  lemma PrefixBare(t: Text, n: nat)
    requires SpaceAtStart(t) == 0 && n <= |t|
    ensures SpaceAtStart(t[..n]) == 0
  {
    hide IsSpace;
    forall k | 0 < k <= n ensures !IsSpace(t[..n][..k]) {
      assert t[..n][..k] == t[..k];
    }
  }
}
