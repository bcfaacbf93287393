/** sim/RegretBigDecimalWrapper.kt: the second generation of the indeterminate-aware
    decimal, reduced to `compare`, `equals` and `hashCode`. Its values are the same
    two cases as in `Decimals`; its `compare` is written here case by case and shown
    to agree with the double-dispatch version. The sort the test suite performs
    with it (`sortWith { a, b -> a.compare(b, nanHigh) }`) is modelled as a stable
    insertion sort. */
module RegretDecimals {
  import D = Decimals

  /** `compare` for the four combinations of present and indeterminate values. */
  function Compare(a: D.Decimal, b: D.Decimal, nanHigh: bool): (r: int)
    ensures r == -1 || r == 0 || r == 1
    ensures a.Present? && b.Present? ==> (r < 0 <==> a.v < b.v) && (r == 0 <==> a.v == b.v)
    ensures a.Indeterminate? && b.Present? ==> (r > 0 <==> nanHigh)
    ensures a.Present? && b.Indeterminate? ==> (r < 0 <==> nanHigh)
    ensures a.Indeterminate? && b.Indeterminate? ==> r == 0
  {
    match (a, b)
    case (Present(x), Present(y)) => D.CompareTo(x, y)
    case (Present(_), Indeterminate) => if nanHigh then -1 else 1
    case (Indeterminate, Present(_)) => if nanHigh then 1 else -1
    case (Indeterminate, Indeterminate) => 0
  }

  /** Both wrapper generations order values identically. */
  lemma AgreesWithBigDecimalWrapper(a: D.Decimal, b: D.Decimal, nanHigh: bool)
    ensures Compare(a, b, nanHigh) == D.Compare(a, b, nanHigh)
  {
  }

  lemma CompareAntisymmetric(a: D.Decimal, b: D.Decimal, nanHigh: bool)
    ensures Compare(a, b, nanHigh) == -Compare(b, a, nanHigh)
  {
  }

  /** `equals`: all indeterminates are equal, present values by their decimal. */
  function Equals(a: D.Decimal, b: D.Decimal): (r: bool)
    ensures r <==> Compare(a, b, true) == 0 && Compare(a, b, false) == 0
  {
    (a.Indeterminate? && b.Indeterminate?) || (a.Present? && b.Present? && a.v == b.v)
  }

  /** `hashCode`: indeterminates hash to 0; `valueHash` stands for `BigDecimal.hashCode`. */
  function HashCode(d: D.Decimal, valueHash: real -> int): (h: int)
    ensures d.Indeterminate? ==> h == 0
    ensures forall e :: Equals(d, e) ==> h == (if e.Present? then valueHash(e.v) else 0)
  {
    if d.Present? then valueHash(d.v) else 0
  }

  ghost predicate Sorted(s: seq<D.Decimal>, nanHigh: bool)
  {
    forall i, j :: 0 <= i < j < |s| ==> Compare(s[i], s[j], nanHigh) <= 0
  }

  lemma CompareTransitive(a: D.Decimal, b: D.Decimal, c: D.Decimal, nanHigh: bool)
    requires Compare(a, b, nanHigh) <= 0 && Compare(b, c, nanHigh) <= 0
    ensures Compare(a, c, nanHigh) <= 0
  {
  }

  /** Places `x` after every element that does not compare above it (stability). */
  function Insert(s: seq<D.Decimal>, x: D.Decimal, nanHigh: bool): (r: seq<D.Decimal>)
    requires Sorted(s, nanHigh)
    ensures multiset(r) == multiset(s) + multiset{x}
    ensures Sorted(r, nanHigh)
  {
    if s == [] then [x]
    else if Compare(s[0], x, nanHigh) > 0 then
      InsertBeforeAll(s, x, nanHigh);
      [x] + s
    else
      var t := Insert(s[1..], x, nanHigh);
      InsertAfterHead(s, x, t, nanHigh);
      [s[0]] + t
  }

  lemma InsertBeforeAll(s: seq<D.Decimal>, x: D.Decimal, nanHigh: bool)
    requires Sorted(s, nanHigh) && s != [] && Compare(s[0], x, nanHigh) > 0
    ensures Sorted([x] + s, nanHigh)
  {
    forall j | 0 <= j < |s| ensures Compare(x, s[j], nanHigh) <= 0 {
      CompareAntisymmetric(s[0], x, nanHigh);
      if j > 0 {
        CompareTransitive(x, s[0], s[j], nanHigh);
      }
    }
  }

  lemma InsertAfterHead(s: seq<D.Decimal>, x: D.Decimal, t: seq<D.Decimal>, nanHigh: bool)
    requires Sorted(s, nanHigh) && s != [] && Compare(s[0], x, nanHigh) <= 0
    requires Sorted(t, nanHigh) && multiset(t) == multiset(s[1..]) + multiset{x}
    ensures multiset([s[0]] + t) == multiset(s) + multiset{x}
    ensures Sorted([s[0]] + t, nanHigh)
  {
    assert s == [s[0]] + s[1..];
    forall j | 0 <= j < |t| ensures Compare(s[0], t[j], nanHigh) <= 0 {
      assert t[j] in multiset(t);
      if t[j] != x {
        assert t[j] in multiset(s[1..]);
        var k :| 0 <= k < |s[1..]| && s[1..][k] == t[j];
        assert s[k + 1] == t[j];
      }
    }
  }

  /** `sortWith { a, b -> a.compare(b, nanHigh) }`. */
  function SortWith(s: seq<D.Decimal>, nanHigh: bool): (r: seq<D.Decimal>)
    ensures multiset(r) == multiset(s)
    ensures Sorted(r, nanHigh)
  {
    if s == [] then []
    else
      assert s == s[..|s| - 1] + [s[|s| - 1]];
      Insert(SortWith(s[..|s| - 1], nanHigh), s[|s| - 1], nanHigh)
  }

  lemma CompareZeroIsEquality(a: D.Decimal, b: D.Decimal, nanHigh: bool)
    requires Compare(a, b, nanHigh) <= 0 && Compare(b, a, nanHigh) <= 0
    ensures a == b
  {
  }

  /** The first element of a sorted sequence is no greater than any of its elements. */
  lemma HeadIsLeast(s: seq<D.Decimal>, y: D.Decimal, nanHigh: bool)
    requires Sorted(s, nanHigh) && y in multiset(s)
    ensures Compare(s[0], y, nanHigh) <= 0
  {
    var k :| 0 <= k < |s| && s[k] == y;
    if k == 0 {
      assert Compare(y, y, nanHigh) == 0;
    }
  }

  /** Because `compare` answers 0 only on equal values, a sorted arrangement of a
      multiset of decimals is unique. */
  lemma {:induction false} SortedIsUnique(a: seq<D.Decimal>, b: seq<D.Decimal>, nanHigh: bool)
    requires Sorted(a, nanHigh) && Sorted(b, nanHigh)
    requires multiset(a) == multiset(b)
    ensures a == b
  {
    if a == [] {
      assert |b| == |multiset(b)| == 0;
    } else {
      SameHead(a, b, nanHigh);
      TailIsSorted(a, nanHigh);
      TailIsSorted(b, nanHigh);
      SortedIsUnique(a[1..], b[1..], nanHigh);
      assert a == [a[0]] + a[1..];
      assert b == [b[0]] + b[1..];
    }
  }

  /** Two sorted arrangements of one multiset start with the same element. */
  lemma SameHead(a: seq<D.Decimal>, b: seq<D.Decimal>, nanHigh: bool)
    requires Sorted(a, nanHigh) && Sorted(b, nanHigh)
    requires multiset(a) == multiset(b) && a != []
    ensures b != [] && a[0] == b[0]
    ensures multiset(a[1..]) == multiset(b[1..])
  {
    assert a[0] in multiset(a);
    assert b != [];
    assert b[0] in multiset(b);
    HeadIsLeast(a, b[0], nanHigh);
    HeadIsLeast(b, a[0], nanHigh);
    CompareZeroIsEquality(a[0], b[0], nanHigh);
    assert a == [a[0]] + a[1..];
    assert b == [b[0]] + b[1..];
    assert multiset(a[1..]) == multiset(a) - multiset{a[0]};
    assert multiset(b[1..]) == multiset(b) - multiset{b[0]};
  }

  lemma TailIsSorted(s: seq<D.Decimal>, nanHigh: bool)
    requires Sorted(s, nanHigh) && s != []
    ensures Sorted(s[1..], nanHigh)
    ensures multiset(s) == multiset{s[0]} + multiset(s[1..])
  {
    assert s == [s[0]] + s[1..];
  }

  /** A sequence whose neighbours are in order is sorted. */
  lemma {:induction false} AdjacentInOrder(s: seq<D.Decimal>, nanHigh: bool)
    requires forall i :: 0 <= i < |s| - 1 ==> Compare(s[i], s[i + 1], nanHigh) <= 0
    ensures Sorted(s, nanHigh)
  {
    if |s| > 1 {
      var t := s[1..];
      forall i | 0 <= i < |t| - 1 ensures Compare(t[i], t[i + 1], nanHigh) <= 0 {
        assert t[i] == s[i + 1] && t[i + 1] == s[i + 2];
      }
      AdjacentInOrder(t, nanHigh);
      forall i, j | 0 <= i < j < |s| ensures Compare(s[i], s[j], nanHigh) <= 0 {
        if i == 0 {
          if j > 1 {
            assert Compare(t[0], t[j - 1], nanHigh) <= 0;
            CompareTransitive(s[0], s[1], s[j], nanHigh);
          }
        } else {
          assert Compare(t[i - 1], t[j - 1], nanHigh) <= 0;
        }
      }
    }
  }

  const TestValues: seq<D.Decimal> :=
    [D.Present(0.0), D.Present(1.0), D.Present(10.0), D.Indeterminate, D.Indeterminate]
  const NanHighOrder: seq<D.Decimal> :=
    [D.Present(0.0), D.Present(1.0), D.Present(10.0), D.Indeterminate, D.Indeterminate]
  const NanLowOrder: seq<D.Decimal> :=
    [D.Indeterminate, D.Indeterminate, D.Present(0.0), D.Present(1.0), D.Present(10.0)]

  /** Both expected orders are sorted under their own `nanHigh`. */
  lemma TestOrdersAreSorted()
    ensures Sorted(NanHighOrder, true)
    ensures Sorted(NanLowOrder, false)
  {
    AdjacentInOrder(NanHighOrder, true);
    AdjacentInOrder(NanLowOrder, false);
  }

  /** Both expected orders hold exactly the test values. */
  lemma TestOrdersArePermutations()
    ensures multiset(NanHighOrder) == multiset(TestValues)
    ensures multiset(NanLowOrder) == multiset(TestValues)
  {
    assert NanLowOrder == TestValues[3..] + TestValues[..3];
    assert TestValues == TestValues[..3] + TestValues[3..];
  }

  /** Every permutation of {0, 1, 10, nan, nan} sorts to the ascending values followed
      by the indeterminates when `nanHigh`, and to the indeterminates first otherwise. */
  lemma SortingPermutationsOfTestValues(p: seq<D.Decimal>)
    requires multiset(p) == multiset(TestValues)
    ensures SortWith(p, true) == NanHighOrder
    ensures SortWith(p, false) == NanLowOrder
  {
    TestOrdersAreSorted();
    TestOrdersArePermutations();
    SortedIsUnique(SortWith(p, true), NanHighOrder, true);
    SortedIsUnique(SortWith(p, false), NanLowOrder, false);
  }
}
