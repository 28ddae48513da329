/** The order in which jq sorts: strings by code point, lists without repetition, and pairs. */
module StringOrder {

  predicate Before(a: string, b: string)
    decreases |a|
  {
    b != [] && (a == [] || a[0] < b[0] || (a[0] == b[0] && Before(a[1..], b[1..])))
  }

  /** One string comes before another at the first character where they differ, or as its beginning. */
  lemma {:induction false} BeforeIs(a: string, b: string)
    ensures Before(a, b) <==>
              exists n :: 0 <= n <= |a| && n < |b| && a[..n] == b[..n] && (n == |a| || a[n] < b[n])
    decreases |a|
  {
    if a != [] && b != [] && a[0] == b[0] {
      BeforeIs(a[1..], b[1..]);
      assert a == [a[0]] + a[1..] && b == [b[0]] + b[1..];
      if n :| 0 <= n <= |a[1..]| && n < |b[1..]| && a[1..][..n] == b[1..][..n]
              && (n == |a[1..]| || a[1..][n] < b[1..][n]) {
        assert a[..n + 1] == [a[0]] + a[1..][..n] && b[..n + 1] == [b[0]] + b[1..][..n];
      }
      if n :| 0 <= n <= |a| && n < |b| && a[..n] == b[..n] && (n == |a| || a[n] < b[n]) {
        assert n > 0;
        assert a[1..][..n - 1] == a[..n][1..] && b[1..][..n - 1] == b[..n][1..];
      }
    } else if b != [] {
      assert a[..0] == b[..0];
      assert forall n | 0 < n <= |a| && n <= |b| && a[..n] == b[..n] :: a[0] == a[..n][0] == b[..n][0];
    }
  }

  lemma {:induction false} BeforeIsTotal(a: string, b: string)
    ensures Before(a, b) || a == b || Before(b, a)
    decreases |a|
  {
    if a != [] && b != [] && a[0] == b[0] {
      BeforeIsTotal(a[1..], b[1..]);
      assert a == [a[0]] + a[1..] && b == [b[0]] + b[1..];
    }
  }

  lemma {:induction false} BeforeIsStrict(a: string, b: string)
    ensures Before(a, b) ==> a != b && !Before(b, a)
    decreases |a|
  {
    if a != [] && b != [] {
      BeforeIsStrict(a[1..], b[1..]);
    }
  }

  lemma {:induction false} BeforeIsTransitive(a: string, b: string, c: string)
    requires Before(a, b) && Before(b, c)
    ensures Before(a, c)
    decreases |a|
  {
    if a != [] && a[0] == b[0] && b[0] == c[0] {
      BeforeIsTransitive(a[1..], b[1..], c[1..]);
    }
  }

  /** In order and without repetition. */
  predicate Canonical(s: seq<string>)
  {
    forall i, j | 0 <= i < j < |s| :: Before(s[i], s[j])
  }

  function Insert(x: string, s: seq<string>): seq<string>
  {
    if s == [] then [x]
    else if x == s[0] then s
    else if Before(x, s[0]) then [x] + s
    else [s[0]] + Insert(x, s[1..])
  }

  function UniqueSort(s: seq<string>): seq<string>
  {
    if s == [] then [] else Insert(s[0], UniqueSort(s[1..]))
  }

  lemma CanonicalCons(x: string, s: seq<string>)
    requires Canonical(s) && forall y | y in s :: Before(x, y)
    ensures Canonical([x] + s)
  {
    var t := [x] + s;
    forall i, j | 0 <= i < j < |t|
      ensures Before(t[i], t[j])
    {
      assert t[j] == s[j - 1] && t[j] in s;
    }
  }

  lemma {:induction false} InsertKeepsOrder(x: string, s: seq<string>)
    requires Canonical(s)
    ensures Canonical(Insert(x, s)) && forall y :: y in Insert(x, s) <==> y == x || y in s
  {
    if s != [] && x != s[0] {
      BeforeIsTotal(x, s[0]);
      if Before(x, s[0]) {
        forall y | y in s
          ensures Before(x, y)
        {
          if y != s[0] {
            BeforeIsTransitive(x, s[0], y);
          }
        }
        CanonicalCons(x, s);
      } else {
        InsertKeepsOrder(x, s[1..]);
        assert forall y | y in s[1..] :: Before(s[0], y);
        CanonicalCons(s[0], Insert(x, s[1..]));
      }
    }
  }

  lemma {:induction false} UniqueSortIs(s: seq<string>)
    ensures Canonical(UniqueSort(s)) && forall y :: y in UniqueSort(s) <==> y in s
  {
    if s != [] {
      UniqueSortIs(s[1..]);
      InsertKeepsOrder(s[0], UniqueSort(s[1..]));
    }
  }

  /** The first element of a canonical list is the only one that all the others come after. */
  lemma FirstIsLeast(s: seq<string>, t: seq<string>)
    requires Canonical(s) && Canonical(t) && s != [] && t != []
    requires forall y :: y in s <==> y in t
    ensures s[0] == t[0]
  {
    assert s[0] in t && t[0] in s;
    var i :| 0 <= i < |t| && t[i] == s[0];
    var j :| 0 <= j < |s| && s[j] == t[0];
    if i != 0 && j != 0 {
      BeforeIsStrict(t[0], s[0]);
      assert false;
    }
  }

  /** A canonical list is determined by what is in it. */
  lemma {:induction false} CanonicalIsUnique(s: seq<string>, t: seq<string>)
    requires Canonical(s) && Canonical(t) && forall y :: y in s <==> y in t
    ensures s == t
  {
    if s != [] {
      assert s[0] in s;
    }
    if t != [] {
      assert t[0] in t;
    }
    if s != [] && t != [] {
      FirstIsLeast(s, t);
      forall y
        ensures y in s[1..] <==> y in t[1..]
      {
        RestWithoutFirst(s, y);
        RestWithoutFirst(t, y);
      }
      CanonicalIsUnique(s[1..], t[1..]);
      assert s == [s[0]] + s[1..] && t == [t[0]] + t[1..];
    }
  }

  lemma RestWithoutFirst(s: seq<string>, y: string)
    requires Canonical(s) && s != []
    ensures y in s[1..] <==> y in s && y != s[0]
  {
    if y in s[1..] {
      BeforeIsStrict(s[0], y);
    }
  }

  // ----- Sorting pairs

  type Pair = (string, string)

  predicate PairBefore(a: Pair, b: Pair)
  {
    Before(a.0, b.0) || (a.0 == b.0 && Before(a.1, b.1))
  }

  lemma PairOrder(a: Pair, b: Pair, c: Pair)
    ensures PairBefore(a, b) || a == b || PairBefore(b, a)
    ensures PairBefore(a, b) && PairBefore(b, c) ==> PairBefore(a, c)
    ensures PairBefore(a, b) ==> a != b && !PairBefore(b, a)
  {
    BeforeIsTotal(a.0, b.0);
    BeforeIsTotal(a.1, b.1);
    BeforeIsStrict(a.0, b.0);
    BeforeIsStrict(a.1, b.1);
    if Before(a.0, b.0) && Before(b.0, c.0) {
      BeforeIsTransitive(a.0, b.0, c.0);
    }
    if Before(a.1, b.1) && Before(b.1, c.1) {
      BeforeIsTransitive(a.1, b.1, c.1);
    }
  }

  /** No pair comes after a greater one. */
  predicate Ordered(s: seq<Pair>)
  {
    forall i, j | 0 <= i < j < |s| :: !PairBefore(s[j], s[i])
  }

  /** The pairs increase from one to the next. */
  predicate Increasing(s: seq<Pair>)
  {
    forall i, j | 0 <= i < j < |s| :: PairBefore(s[i], s[j])
  }

  predicate NoRepeats<T(==)>(s: seq<T>)
  {
    forall i, j | 0 <= i < j < |s| :: s[i] != s[j]
  }

  function InsertPair(x: Pair, s: seq<Pair>): seq<Pair>
  {
    if s == [] || !PairBefore(s[0], x) then [x] + s else [s[0]] + InsertPair(x, s[1..])
  }

  function SortPairs(s: seq<Pair>): seq<Pair>
  {
    if s == [] then [] else InsertPair(s[0], SortPairs(s[1..]))
  }

  lemma OrderedCons(x: Pair, s: seq<Pair>)
    requires Ordered(s) && forall y | y in s :: !PairBefore(y, x)
    ensures Ordered([x] + s)
  {
    var t := [x] + s;
    assert forall j | 0 < j < |t| :: t[j] == s[j - 1] && t[j] in s;
  }

  lemma {:induction false} InsertPairMembers(x: Pair, s: seq<Pair>)
    ensures multiset(InsertPair(x, s)) == multiset(s) + multiset{x}
    ensures forall y :: y in InsertPair(x, s) <==> y == x || y in s
  {
    if s != [] && PairBefore(s[0], x) {
      InsertPairMembers(x, s[1..]);
      assert s == [s[0]] + s[1..];
    }
  }

  /** What the first pair does not precede, none precedes. */
  lemma BeforeFirst(x: Pair, s: seq<Pair>, y: Pair)
    requires Ordered(s) && s != [] && !PairBefore(s[0], x) && y in s
    ensures !PairBefore(y, x) && (y != x ==> PairBefore(x, y))
  {
    hide PairBefore;
    var j :| 0 <= j < |s| && s[j] == y;
    assert j == 0 || !PairBefore(s[j], s[0]);
    PairOrder(y, x, x);
    PairOrder(s[0], y, x);
  }

  lemma {:induction false} InsertPairOrdered(x: Pair, s: seq<Pair>)
    requires Ordered(s)
    ensures Ordered(InsertPair(x, s))
  {
    hide PairBefore;
    if s == [] || !PairBefore(s[0], x) {
      forall y | y in s
        ensures !PairBefore(y, x)
      {
        BeforeFirst(x, s, y);
      }
      OrderedCons(x, s);
    } else {
      InsertPairOrdered(x, s[1..]);
      InsertPairMembers(x, s[1..]);
      PairOrder(s[0], x, x);
      var inserted := InsertPair(x, s[1..]);
      forall y | y in inserted
        ensures !PairBefore(y, s[0])
      {
        if y in s[1..] {
          var j :| 0 <= j < |s| - 1 && s[1..][j] == y;
          assert !PairBefore(s[j + 1], s[0]);
        }
      }
      OrderedCons(s[0], inserted);
    }
  }

  /** In an ordered list without repetition the pairs increase. */
  lemma OrderedIncreases(s: seq<Pair>)
    requires Ordered(s) && NoRepeats(s)
    ensures Increasing(s)
  {
    hide PairBefore;
    forall i, j | 0 <= i < j < |s|
      ensures PairBefore(s[i], s[j])
    {
      PairOrder(s[i], s[j], s[j]);
    }
  }

  lemma {:induction false} InsertPairFresh(x: Pair, s: seq<Pair>)
    requires NoRepeats(s) && x !in s
    ensures NoRepeats(InsertPair(x, s))
  {
    hide PairBefore;
    if s != [] && PairBefore(s[0], x) {
      HeadDiffers(s);
      InsertPairFresh(x, s[1..]);
      InsertPairMembers(x, s[1..]);
      NoRepeatsCons(s[0], InsertPair(x, s[1..]));
    } else {
      NoRepeatsCons(x, s);
    }
  }

  lemma HeadDiffers(s: seq<Pair>)
    requires s != [] && NoRepeats(s)
    ensures NoRepeats(s[1..]) && s[0] !in s[1..]
  {
    assert forall j | 0 <= j < |s| - 1 :: s[1..][j] == s[j + 1];
  }

  lemma NoRepeatsCons(x: Pair, s: seq<Pair>)
    requires NoRepeats(s) && x !in s
    ensures NoRepeats([x] + s)
  {
    var t := [x] + s;
    assert forall j | 0 < j < |t| :: t[j] == s[j - 1] && t[j] in s;
  }

  lemma {:induction false} SortPairsIs(s: seq<Pair>)
    ensures Ordered(SortPairs(s)) && multiset(SortPairs(s)) == multiset(s)
    ensures forall y :: y in SortPairs(s) <==> y in s
  {
    if s != [] {
      var sorted := SortPairs(s[1..]);
      SortPairsIs(s[1..]);
      InsertPairOrdered(s[0], sorted);
      InsertPairMembers(s[0], sorted);
      assert s == [s[0]] + s[1..];
    }
  }

  lemma {:induction false} SortPairsIncreasing(s: seq<Pair>)
    requires NoRepeats(s)
    ensures Increasing(SortPairs(s))
  {
    SortPairsNoRepeats(s);
    SortPairsIs(s);
    OrderedIncreases(SortPairs(s));
  }

  lemma {:induction false} SortPairsNoRepeats(s: seq<Pair>)
    requires NoRepeats(s)
    ensures NoRepeats(SortPairs(s))
  {
    if s != [] {
      SortPairsIs(s[1..]);
      HeadDiffers(s);
      SortPairsNoRepeats(s[1..]);
      InsertPairFresh(s[0], SortPairs(s[1..]));
    }
  }

  /** No pair of an ordered list comes before its first. */
  lemma FirstPairIsLeast(s: seq<Pair>, y: Pair)
    requires Ordered(s) && y in s
    ensures !PairBefore(y, s[0])
  {
    hide PairBefore;
    PairOrder(y, y, y);
    var j :| 0 <= j < |s| && s[j] == y;
    assert j == 0 || !PairBefore(s[j], s[0]);
  }

  lemma SameFirstPair(s: seq<Pair>, t: seq<Pair>)
    requires Ordered(s) && Ordered(t) && multiset(s) == multiset(t) && s != [] && t != []
    ensures s[0] == t[0]
  {
    hide PairBefore, Ordered;
    assert s[0] in multiset(t) && t[0] in multiset(s);
    FirstPairIsLeast(s, t[0]);
    FirstPairIsLeast(t, s[0]);
    PairOrder(s[0], t[0], t[0]);
  }

  lemma RestOfPairs(s: seq<Pair>)
    requires s != []
    ensures multiset(s[1..]) == multiset(s) - multiset{s[0]}
    ensures Ordered(s) ==> Ordered(s[1..])
  {
    assert s == [s[0]] + s[1..];
  }

  /** An ordered list is determined by its pairs and how often each occurs. */
  lemma {:induction false} OrderedIsUnique(s: seq<Pair>, t: seq<Pair>)
    requires Ordered(s) && Ordered(t) && multiset(s) == multiset(t)
    ensures s == t
  {
    hide PairBefore, Ordered;
    assert |multiset(s)| == |s| && |multiset(t)| == |t|;
    if s != [] {
      SameFirstPair(s, t);
      RestOfPairs(s);
      RestOfPairs(t);
      OrderedIsUnique(s[1..], t[1..]);
      assert s == [s[0]] + s[1..] && t == [t[0]] + t[1..];
    }
  }

  lemma IncreasingIsOrdered(s: seq<Pair>)
    requires Increasing(s)
    ensures Ordered(s) && forall x :: multiset(s)[x] == if x in s then 1 else 0
  {
    hide PairBefore;
    forall i, j | 0 <= i < j < |s|
      ensures !PairBefore(s[j], s[i]) && s[i] != s[j]
    {
      PairOrder(s[i], s[j], s[j]);
    }
    OnceEach(s);
  }

  lemma {:induction false} OnceEach(s: seq<Pair>)
    requires NoRepeats(s)
    ensures forall x :: multiset(s)[x] == if x in s then 1 else 0
  {
    if s != [] {
      HeadDiffers(s);
      OnceEach(s[1..]);
      assert s == [s[0]] + s[1..];
    }
  }

  /** An increasing list is determined by what is in it. */
  lemma IncreasingIsUnique(s: seq<Pair>, t: seq<Pair>)
    requires Increasing(s) && Increasing(t) && forall x :: x in s <==> x in t
    ensures s == t
  {
    hide PairBefore, Increasing;
    IncreasingIsOrdered(s);
    IncreasingIsOrdered(t);
    assert multiset(s) == multiset(t);
    OrderedIsUnique(s, t);
  }
}
