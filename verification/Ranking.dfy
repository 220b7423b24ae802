/** Ranks in a strict total order, and what sorting and truncating a slice keep. */
module Ranking {

  type Order<!T> = (T, T) -> bool

  /** `less` orders the members of `S` strictly and totally. */
  ghost predicate Orders<T(!new)>(less: Order<T>, S: set<T>) {
    && (forall x :: x in S ==> !less(x, x))
    && (forall x, y :: x in S && y in S && x != y ==> less(x, y) || less(y, x))
    && (forall x, y, z :: x in S && y in S && z in S && less(x, y) && less(y, z) ==> less(x, z))
  }

  lemma OrdersSubset<T(!new)>(less: Order<T>, S: set<T>, A: set<T>)
    requires Orders(less, S) && A <= S
    ensures Orders(less, A)
  {
  }

  function Below<T>(less: Order<T>, S: set<T>, x: T): (b: set<T>)
  {
    set y | y in S && less(y, x)
  }

  function Rank<T>(less: Order<T>, S: set<T>, x: T): nat {
    |Below(less, S, x)|
  }

  lemma SubsetSize<T>(a: set<T>, b: set<T>)
    requires a <= b
    ensures |a| <= |b|
    ensures |a| == |b| ==> a == b
  {
    assert b == a + (b - a);
  }

  lemma RankGrows<T(!new)>(less: Order<T>, S: set<T>, x: T, y: T)
    requires Orders(less, S) && x in S && y in S && less(x, y)
    ensures Rank(less, S, x) < Rank(less, S, y)
  {
    var a, b := Below(less, S, x), Below(less, S, y);
    assert x in b && x !in a;
    SubsetSize(a + {x}, b);
  }

  /** Below any member of rank at least `n` lie at least `n` members of rank less than `n`. */
  lemma {:induction false} LowRanksBelow<T(!new)>(less: Order<T>, S: set<T>, x: T, n: nat)
    requires Orders(less, S) && x in S && Rank(less, S, x) >= n
    ensures |set y | y in Below(less, S, x) && Rank(less, S, y) < n| >= n
    decreases Rank(less, S, x)
  {
    var b := Below(less, S, x);
    var low := set y | y in b && Rank(less, S, y) < n;
    if Rank(less, S, x) == n {
      forall y | y in b ensures y in low {
        RankGrows(less, S, y, x);
      }
      assert low == b;
    } else {
      var m := Greatest(less, b);
      var c := Below(less, S, m);
      assert c == b - {m};
      LowRanksBelow(less, S, m, n);
      SubsetSize((set y | y in c && Rank(less, S, y) < n), low);
    }
  }

  lemma {:induction false} Greatest<T(!new)>(less: Order<T>, S: set<T>) returns (m: T)
    requires Orders(less, S) && S != {}
    ensures m in S && forall y :: y in S && y != m ==> less(y, m)
    decreases |S|
  {
    m :| m in S;
    var rest := S - {m};
    if rest != {} {
      var k := Greatest(less, rest);
      if less(m, k) {
        m := k;
      }
    }
  }

  /** Removing the greatest member changes no other rank. */
  lemma RankWithout<T(!new)>(less: Order<T>, S: set<T>, m: T, x: T)
    requires Orders(less, S) && m in S && x in S && x != m && less(x, m)
    ensures Rank(less, S - {m}, x) == Rank(less, S, x)
  {
    assert Below(less, S - {m}, x) == Below(less, S, x);
  }

  /** `n` members have a rank less than `n`, or all have. */
  lemma {:induction false} LowRanks<T(!new)>(less: Order<T>, S: set<T>, n: nat)
    requires Orders(less, S)
    ensures |set x | x in S && Rank(less, S, x) < n| == if n < |S| then n else |S|
    decreases |S|
  {
    hide Rank;
    var low := set x | x in S && Rank(less, S, x) < n;
    if S == {} {
      assert low == {};
    } else {
      var m := Greatest(less, S);
      var rest := S - {m};
      var rankedLow := set x | x in rest && Rank(less, rest, x) < n;
      LowRanks(less, rest, n);
      GreatestRank(less, S, m);
      forall x | x in rest ensures Rank(less, rest, x) == Rank(less, S, x) {
        RankWithout(less, S, m, x);
      }
      assert low == if |S| - 1 < n then rankedLow + {m} else rankedLow;
    }
  }

  lemma GreatestRank<T(!new)>(less: Order<T>, S: set<T>, m: T)
    requires Orders(less, S) && m in S && forall y :: y in S && y != m ==> less(y, m)
    ensures Rank(less, S, m) == |S| - 1
  {
    assert Below(less, S, m) == S - {m};
  }

  // Sorted slices.

  predicate Ascending<T>(less: Order<T>, s: seq<T>) {
    forall i, j :: 0 <= i < j < |s| ==> less(s[i], s[j])
  }

  function Elements<T>(s: seq<T>): set<T> {
    set x | x in s
  }

  lemma {:induction false} AscendingSize<T(!new)>(less: Order<T>, s: seq<T>)
    requires Orders(less, Elements(s)) && Ascending(less, s)
    ensures |Elements(s)| == |s|
  {
    if s != [] {
      var init, last := s[..|s| - 1], s[|s| - 1];
      assert forall i :: 0 <= i < |init| ==> init[i] == s[i];
      assert Elements(s) == Elements(init) + {last};
      assert last !in init;
      OrdersSubset(less, Elements(s), Elements(init));
      AscendingSize(less, init);
    }
  }

  lemma AscendingBelow<T(!new)>(less: Order<T>, s: seq<T>, i: nat)
    requires Orders(less, Elements(s)) && Ascending(less, s) && i < |s|
    ensures Below(less, Elements(s), s[i]) == Elements(s[..i])
  {
    var S := Elements(s);
    forall y | y in Below(less, S, s[i]) ensures y in s[..i] {
      var j :| 0 <= j < |s| && s[j] == y;
      assert s[..i][j] == y;
    }
    forall y | y in s[..i] ensures y in Below(less, S, s[i]) {
      var j :| 0 <= j < i && s[..i][j] == y;
      assert less(s[j], s[i]);
    }
  }

  /** The index of a member of a sorted slice is its rank. */
  lemma AscendingRank<T(!new)>(less: Order<T>, s: seq<T>, i: nat)
    requires Orders(less, Elements(s)) && Ascending(less, s) && i < |s|
    ensures Rank(less, Elements(s), s[i]) == i
  {
    AscendingBelow(less, s, i);
    forall y | y in s[..i] ensures y in s {
    }
    OrdersSubset(less, Elements(s), Elements(s[..i]));
    AscendingSize(less, s[..i]);
  }

  /** A strict order leaves one way to sort. */
  lemma AscendingUnique<T(!new)>(less: Order<T>, s: seq<T>, t: seq<T>)
    requires Orders(less, Elements(s)) && Ascending(less, s) && Ascending(less, t) && Elements(s) == Elements(t)
    ensures s == t
  {
    AscendingSize(less, s);
    AscendingSize(less, t);
    forall i | 0 <= i < |s| ensures s[i] == t[i] {
      assert s[i] in Elements(t);
      var j :| 0 <= j < |t| && t[j] == s[i];
      AscendingRank(less, s, i);
      AscendingRank(less, t, j);
    }
  }

  lemma RankSplit<T(!new)>(less: Order<T>, S: set<T>, x: T)
    requires Orders(less, S) && x in S
    ensures Rank(less, S, x) + Rank(Reverse(less), S, x) == |S| - 1
  {
    var a, b := Below(less, S, x), Below(Reverse(less), S, x);
    assert a !! b && S - {x} == a + b;
  }

  function Reverse<T>(less: Order<T>): Order<T> {
    (x, y) => less(y, x)
  }

  /** The index of a member of a sorted slice, counted from the end, is its rank in the reversed order. */
  lemma RankFromEnd<T(!new)>(less: Order<T>, s: seq<T>, i: nat)
    requires Orders(less, Elements(s)) && Ascending(less, s) && i < |s|
    ensures s[i] in Elements(s) && Rank(Reverse(less), Elements(s), s[i]) == |s| - 1 - i
  {
    hide Rank, Orders, Ascending, Reverse;
    AscendingSize(less, s);
    AscendingRank(less, s, i);
    RankSplit(less, Elements(s), s[i]);
  }

  /** Keeping the last `n` of a sorted slice keeps the members with fewer than `n` above them. */
  lemma LastByRank<T(!new)>(less: Order<T>, s: seq<T>, n: nat, x: T)
    requires Orders(less, Elements(s)) && Ascending(less, s) && n <= |s|
    ensures x in s[|s| - n..] <==> x in s && Rank(Reverse(less), Elements(s), x) < n
  {
    hide Rank, Orders, Ascending, Reverse, Elements;
    var k := |s| - n;
    if x in s {
      var i :| 0 <= i < |s| && s[i] == x;
      RankFromEnd(less, s, i);
      if i >= k {
        assert s[k..][i - k] == x;
      }
    }
    if x in s[k..] {
      var j :| 0 <= j < n && s[k..][j] == x;
      assert s[k + j] == x;
      RankFromEnd(less, s, k + j);
    }
  }

  // The library sort: any order of the same members; a strict order leaves one.

  function Insert<T>(less: Order<T>, x: T, s: seq<T>): (r: seq<T>)
    ensures multiset(r) == multiset(s) + multiset{x}
  {
    if s == [] then [x]
    else if less(x, s[0]) then [x] + s
    else
      assert s == [s[0]] + s[1..];
      [s[0]] + Insert(less, x, s[1..])
  }

  function SortBy<T>(less: Order<T>, s: seq<T>): (r: seq<T>)
    ensures multiset(r) == multiset(s)
  {
    if s == [] then []
    else
      assert s == s[..|s| - 1] + [s[|s| - 1]];
      Insert(less, s[|s| - 1], SortBy(less, s[..|s| - 1]))
  }

  predicate Distinct<T(==)>(s: seq<T>) {
    forall i, j :: 0 <= i < j < |s| ==> s[i] != s[j]
  }

  lemma {:induction false} InsertAscending<T(!new)>(less: Order<T>, x: T, s: seq<T>)
    requires Orders(less, Elements(s) + {x}) && Ascending(less, s) && x !in s
    ensures Ascending(less, Insert(less, x, s))
  {
    if s != [] && !less(x, s[0]) {
      var rest := s[1..];
      assert less(s[0], x);
      OrdersSubset(less, Elements(s) + {x}, Elements(rest) + {x});
      InsertAscending(less, x, rest);
      var r := Insert(less, x, rest);
      forall y | y in r ensures less(s[0], y) {
        assert y in multiset(r);
        assert y == x || y in rest;
      }
    } else if s != [] {
      forall j | 0 <= j < |s| ensures less(x, s[j]) {
        assert s[j] in Elements(s) && s[0] in Elements(s);
      }
    }
  }

  lemma {:induction false} SortAscending<T(!new)>(less: Order<T>, s: seq<T>)
    requires Orders(less, Elements(s)) && Distinct(s)
    ensures Ascending(less, SortBy(less, s)) && Elements(SortBy(less, s)) == Elements(s) && |SortBy(less, s)| == |s|
  {
    hide Insert;
    SortKeeps(less, s);
    if s != [] {
      var init, last := s[..|s| - 1], s[|s| - 1];
      assert Elements(s) == Elements(init) + {last};
      OrdersSubset(less, Elements(s), Elements(init));
      SortAscending(less, init);
      assert last !in init;
      assert last !in Elements(SortBy(less, init));
      InsertAscending(less, last, SortBy(less, init));
    }
  }

  lemma SortKeeps<T(!new)>(less: Order<T>, s: seq<T>)
    ensures Elements(SortBy(less, s)) == Elements(s) && |SortBy(less, s)| == |s|
  {
    var r := SortBy(less, s);
    assert |multiset(r)| == |r| && |multiset(s)| == |s|;
    forall x ensures x in r <==> x in s {
      assert x in r <==> x in multiset(r);
      assert x in s <==> x in multiset(s);
    }
  }

  lemma {:induction false} DistinctOnce<T>(s: seq<T>)
    ensures Distinct(s) <==> forall x :: multiset(s)[x] <= 1
  {
    if s != [] {
      var init, last := s[..|s| - 1], s[|s| - 1];
      assert s == init + [last];
      DistinctOnce(init);
      assert forall i :: 0 <= i < |init| ==> init[i] == s[i];
      if last in init {
        assert multiset(init)[last] >= 1 && multiset(s)[last] >= 2;
        var i :| 0 <= i < |init| && init[i] == last;
        assert s[i] == s[|s| - 1];
      } else {
        assert multiset(init)[last] == 0;
      }
      forall x ensures multiset(s)[x] == multiset(init)[x] + if x == last then 1 else 0 {
      }
    }
  }

  lemma SortDistinct<T>(less: Order<T>, s: seq<T>)
    requires Distinct(s)
    ensures Distinct(SortBy(less, s))
  {
    DistinctOnce(s);
    DistinctOnce(SortBy(less, s));
  }
}
