/**
 The merge sort of object members, as a function on lists: the early exit for
 lists already in strict order, the split in the middle, and the merge that
 prefers the second list on equal names.
 */
module MergeSort {
  import opened Bytes
  import opened Sequences
  import opened Json

  predicate Before<S, T>(a: Entry<S>, b: Entry<T>, cs: bool)
  {
    Strcmp(KeyOf(cs, a.key), KeyOf(cs, b.key)) < 0
  }

  /** Names strictly increase along the list. */
  predicate Ascending<T>(s: seq<Entry<T>>, cs: bool)
  {
    |s| <= 1 || (Before(s[0], s[1], cs) && Ascending(s[1..], cs))
  }

  /** Names never decrease along the list. */
  predicate Sorted<T>(s: seq<Entry<T>>, cs: bool)
  {
    |s| <= 1 || (!Before(s[1], s[0], cs) && Sorted(s[1..], cs))
  }

  /** Where the second of two pointers stops when the first moves twice as fast. */
  function Middle(n: nat): nat
  {
    (n + 1) / 2
  }

  function Merge<T>(a: seq<Entry<T>>, b: seq<Entry<T>>, cs: bool): (r: seq<Entry<T>>)
    ensures |r| == |a| + |b|
    ensures r != [] ==> (a != [] && r[0] == a[0]) || (b != [] && r[0] == b[0])
    decreases |a| + |b|
  {
    if a == [] then b
    else if b == [] then a
    else if Before(a[0], b[0], cs) then [a[0]] + Merge(a[1..], b, cs)
    else [b[0]] + Merge(a, b[1..], cs)
  }

  function Sort<T>(s: seq<Entry<T>>, cs: bool): (r: seq<Entry<T>>)
    ensures |r| == |s|
    decreases |s|
  {
    if Ascending(s, cs) then s
    else Merge(Sort(s[..Middle(|s|)], cs), Sort(s[Middle(|s|)..], cs), cs)
  }

  lemma {:induction false} MergePermutes<T>(a: seq<Entry<T>>, b: seq<Entry<T>>, cs: bool)
    ensures multiset(Merge(a, b, cs)) == multiset(a) + multiset(b)
    decreases |a| + |b|
  {
    if a != [] && b != [] {
      var r := Merge(a, b, cs);
      MultisetHead(r);
      if Before(a[0], b[0], cs) {
        MergePermutes(a[1..], b, cs);
        MultisetHead(a);
        assert r[1..] == Merge(a[1..], b, cs);
      } else {
        MergePermutes(a, b[1..], cs);
        MultisetHead(b);
        assert r[1..] == Merge(a, b[1..], cs);
      }
    }
  }

  /** Sorting only reorders. */
  lemma {:induction false} SortPermutes<T>(s: seq<Entry<T>>, cs: bool)
    ensures multiset(Sort(s, cs)) == multiset(s)
    decreases |s|
  {
    if !Ascending(s, cs) {
      var h := Middle(|s|);
      SortPermutes(s[..h], cs);
      SortPermutes(s[h..], cs);
      MergePermutes(Sort(s[..h], cs), Sort(s[h..], cs), cs);
      MultisetSplit(s, h);
    }
  }

  lemma SortMembers<T>(s: seq<Entry<T>>, cs: bool)
    ensures forall e :: e in Sort(s, cs) <==> e in s
  {
    SortPermutes(s, cs);
    forall e ensures e in Sort(s, cs) <==> e in s {
      assert e in multiset(Sort(s, cs)) <==> e in multiset(s);
    }
  }

  lemma SortMember<T>(s: seq<Entry<T>>, cs: bool, e: Entry<T>)
    requires e in Sort(s, cs)
    ensures e in s
  {
    SortMembers(s, cs);
  }

  lemma {:induction false} AscendingIsSorted<T>(s: seq<Entry<T>>, cs: bool)
    requires Ascending(s, cs)
    ensures Sorted(s, cs)
    decreases |s|
  {
    if |s| > 1 {
      AscendingIsSorted(s[1..], cs);
      StrcmpAntisymmetric(KeyOf(cs, s[0].key), KeyOf(cs, s[1].key));
    }
  }

  lemma {:induction false} MergeSorted<T>(a: seq<Entry<T>>, b: seq<Entry<T>>, cs: bool)
    requires Sorted(a, cs) && Sorted(b, cs)
    ensures Sorted(Merge(a, b, cs), cs)
    decreases |a| + |b|
  {
    if a != [] && b != [] {
      StrcmpAntisymmetric(KeyOf(cs, a[0].key), KeyOf(cs, b[0].key));
      if Before(a[0], b[0], cs) {
        MergeSorted(a[1..], b, cs);
        assert Merge(a, b, cs)[1..] == Merge(a[1..], b, cs);
      } else {
        MergeSorted(a, b[1..], cs);
        assert Merge(a, b, cs)[1..] == Merge(a, b[1..], cs);
      }
    }
  }

  /** Sorting puts the names in order. */
  lemma {:induction false} SortSorts<T>(s: seq<Entry<T>>, cs: bool)
    ensures Sorted(Sort(s, cs), cs)
    decreases |s|
  {
    if Ascending(s, cs) {
      AscendingIsSorted(s, cs);
    } else {
      var h := Middle(|s|);
      SortSorts(s[..h], cs);
      SortSorts(s[h..], cs);
      MergeSorted(Sort(s[..h], cs), Sort(s[h..], cs), cs);
    }
  }

  lemma {:induction false} SortedDistinctAscends<T>(s: seq<Entry<T>>, cs: bool)
    requires Sorted(s, cs) && Distinct(s, cs)
    ensures Ascending(s, cs)
    decreases |s|
  {
    if |s| > 1 {
      SortedDistinctAscends(s[1..], cs);
      KeyInKeys(s[1..], 0, cs);
      StrcmpAntisymmetric(KeyOf(cs, s[0].key), KeyOf(cs, s[1].key));
      StrcmpZero(KeyOf(cs, s[0].key), KeyOf(cs, s[1].key));
    }
  }

  /** What the walks over sorted children rely on. */
  lemma SortedMembers<T>(s: seq<Entry<T>>, cs: bool)
    requires Distinct(s, cs)
    ensures Ascending(Sort(s, cs), cs)
    ensures Distinct(Sort(s, cs), cs)
    ensures Keys(Sort(s, cs), cs) == Keys(s, cs)
    ensures multiset(Sort(s, cs)) == multiset(s)
  {
    SortPermutes(s, cs);
    SortSorts(s, cs);
    DistinctPermutation(s, Sort(s, cs), cs);
    SortedDistinctAscends(Sort(s, cs), cs);
  }

  /** The first name of an ascending list is below all others. */
  lemma {:induction false} AscendingHead<T>(s: seq<Entry<T>>, k: CString, cs: bool)
    requires s != [] && Ascending(s, cs) && k in Keys(s[1..], cs)
    ensures Strcmp(KeyOf(cs, s[0].key), k) < 0
    decreases |s|
  {
    if k != KeyOf(cs, s[1].key) {
      AscendingHead(s[1..], k, cs);
      StrcmpTransitive(KeyOf(cs, s[0].key), KeyOf(cs, s[1].key), k);
    }
  }

  /** A name below the first of an ascending list is not in it. */
  lemma BelowHead<T>(s: seq<Entry<T>>, k: CString, cs: bool)
    requires Ascending(s, cs)
    requires s != [] ==> Strcmp(k, KeyOf(cs, s[0].key)) < 0
    ensures k !in Keys(s, cs)
  {
    if k in Keys(s, cs) {
      StrcmpZero(k, k);
      if k != KeyOf(cs, s[0].key) {
        AscendingHead(s, k, cs);
        StrcmpTransitive(k, KeyOf(cs, s[0].key), k);
      }
    }
  }

  /** An ascending list is distinct, and stays ascending without its head. */
  lemma {:induction false} AscendingDistinct<T>(s: seq<Entry<T>>, cs: bool)
    requires Ascending(s, cs)
    ensures Distinct(s, cs)
    decreases |s|
  {
    if s != [] {
      AscendingDistinct(s[1..], cs);
      if |s| > 1 && KeyOf(cs, s[0].key) in Keys(s[1..], cs) {
        BelowHead(s[1..], KeyOf(cs, s[0].key), cs);
      }
    }
  }

  // --- Equal names --------------------------------------------------------------

  /** The entries of one name, in their order. */
  function Called<T>(s: seq<Entry<T>>, k: CString, cs: bool): seq<Entry<T>>
  {
    if s == [] then [] else IfCalled(s[0], k, cs) + Called(s[1..], k, cs)
  }

  function IfCalled<T>(e: Entry<T>, k: CString, cs: bool): seq<Entry<T>>
  {
    if KeyOf(cs, e.key) == k then [e] else []
  }

  lemma CalledHead<T>(e: Entry<T>, s: seq<Entry<T>>, k: CString, cs: bool)
    ensures Called([e] + s, k, cs) == IfCalled(e, k, cs) + Called(s, k, cs)
  {
    assert ([e] + s)[1..] == s;
  }

  function Backwards<T>(s: seq<T>): seq<T>
  {
    if s == [] then [] else Backwards(s[1..]) + [s[0]]
  }

  lemma {:induction false} CalledAppend<T>(s: seq<Entry<T>>, t: seq<Entry<T>>, k: CString, cs: bool)
    ensures Called(s + t, k, cs) == Called(s, k, cs) + Called(t, k, cs)
    decreases |s|
  {
    if s == [] {
      assert s + t == t;
    } else {
      CalledAppend(s[1..], t, k, cs);
      CalledHead(s[0], s[1..], k, cs);
      CalledHead(s[0], s[1..] + t, k, cs);
      hide Called, IfCalled;
      assert s == [s[0]] + s[1..];
      AppendAssociates([s[0]], s[1..], t);
      AppendAssociates(IfCalled(s[0], k, cs), Called(s[1..], k, cs), Called(t, k, cs));
    }
  }

  lemma {:induction false} BackwardsAppend<T>(s: seq<T>, t: seq<T>)
    ensures Backwards(s + t) == Backwards(t) + Backwards(s)
    decreases |s|
  {
    if s == [] {
      assert s + t == t;
    } else {
      BackwardsAppend(s[1..], t);
      assert (s + t)[0] == s[0] && (s + t)[1..] == s[1..] + t;
    }
  }

  lemma {:induction false} CalledNone<T>(s: seq<Entry<T>>, k: CString, cs: bool)
    requires k !in Keys(s, cs)
    ensures Called(s, k, cs) == []
    decreases |s|
  {
    if s != [] {
      CalledNone(s[1..], k, cs);
    }
  }

  lemma {:induction false} CalledOnce<T>(s: seq<Entry<T>>, k: CString, cs: bool)
    requires Distinct(s, cs)
    ensures |Called(s, k, cs)| <= 1
    decreases |s|
  {
    if s != [] {
      CalledOnce(s[1..], k, cs);
      if KeyOf(cs, s[0].key) == k {
        CalledNone(s[1..], k, cs);
      }
    }
  }

  /** A name below the first of a sorted list is not in it. */
  lemma {:induction false} BelowSorted<T>(s: seq<Entry<T>>, k: CString, cs: bool)
    requires Sorted(s, cs) && (s != [] ==> Strcmp(k, KeyOf(cs, s[0].key)) < 0)
    ensures k !in Keys(s, cs)
    decreases |s|
  {
    if s != [] {
      StrcmpZero(k, KeyOf(cs, s[0].key));
      if |s| > 1 {
        var l, m := KeyOf(cs, s[0].key), KeyOf(cs, s[1].key);
        StrcmpAntisymmetric(l, m);
        StrcmpZero(l, m);
        if l != m {
          StrcmpTransitive(k, l, m);
        }
      }
      BelowSorted(s[1..], k, cs);
    }
  }

  lemma SwapEmpty<T>(x: seq<T>, y: seq<T>, z: seq<T>)
    requires x == [] || y == []
    ensures x + (y + z) == y + (x + z)
  {
  }

  /** Merging puts entries of the second list before those of the first with the same name. */
  lemma {:induction false} MergeCalled<T>(a: seq<Entry<T>>, b: seq<Entry<T>>, k: CString, cs: bool)
    requires Sorted(a, cs) && Sorted(b, cs)
    ensures Called(Merge(a, b, cs), k, cs) == Called(b, k, cs) + Called(a, k, cs)
    decreases |a| + |b|
  {
    if a != [] && b != [] {
      assert a == [a[0]] + a[1..] && b == [b[0]] + b[1..];
      CalledHead(a[0], a[1..], k, cs);
      CalledHead(b[0], b[1..], k, cs);
      hide Called;
      if Before(a[0], b[0], cs) {
        CalledHead(a[0], Merge(a[1..], b, cs), k, cs);
        MergeCalled(a[1..], b, k, cs);
        assert IfCalled(a[0], k, cs) == [] || Called(b, k, cs) == [] by {
          if KeyOf(cs, a[0].key) == k {
            BelowSorted(b, k, cs);
            CalledNone(b, k, cs);
          }
        }
        hide Merge, Before, IfCalled;
        SwapEmpty(IfCalled(a[0], k, cs), Called(b, k, cs), Called(a[1..], k, cs));
      } else {
        CalledHead(b[0], Merge(a, b[1..], cs), k, cs);
        MergeCalled(a, b[1..], k, cs);
        hide Merge, Before, IfCalled;
        AppendAssociates(IfCalled(b[0], k, cs), Called(b[1..], k, cs), Called(a, k, cs));
      }
    }
  }

  /**
   Sorting reverses the entries of one name, whichever it is: with `SortSorts` this
   leaves one list that a sort may yield.
   */
  lemma {:induction false} SortReversesTies<T>(s: seq<Entry<T>>, k: CString, cs: bool)
    ensures Called(Sort(s, cs), k, cs) == Backwards(Called(s, k, cs))
    decreases |s|
  {
    if Ascending(s, cs) {
      AscendingDistinct(s, cs);
      CalledOnce(s, k, cs);
    } else {
      var h := Middle(|s|);
      var a, b := s[..h], s[h..];
      assert s == a + b;
      SortReversesTies(a, k, cs);
      SortReversesTies(b, k, cs);
      SortSorts(a, cs);
      SortSorts(b, cs);
      MergeCalled(Sort(a, cs), Sort(b, cs), k, cs);
      CalledAppend(a, b, k, cs);
      BackwardsAppend(Called(a, k, cs), Called(b, k, cs));
    }
  }
}
