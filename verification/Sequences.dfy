/**
 Sequences: taking elements out and putting them in, counting them, finding them.
 */
module Sequences {
  function RemoveAt<T>(s: seq<T>, i: nat): (r: seq<T>)
    requires i < |s|
    ensures |r| == |s| - 1
    ensures forall k :: 0 <= k < i ==> r[k] == s[k]
    ensures forall k :: i <= k < |r| ==> r[k] == s[k + 1]
  {
    s[..i] + s[i + 1..]
  }

  function InsertAt<T>(s: seq<T>, i: nat, x: T): (r: seq<T>)
    requires i <= |s|
    ensures |r| == |s| + 1
    ensures forall k :: 0 <= k < |r| ==> r[k] == if k < i then s[k] else if k == i then x else s[k - 1]
  {
    s[..i] + [x] + s[i..]
  }

  /** The first place of `x`, or the end of the sequence. */
  function PositionOf<T(==)>(s: seq<T>, x: T): (i: nat)
    ensures i <= |s| && (i < |s| ==> s[i] == x)
    ensures x in s ==> i < |s|
  {
    if s == [] || s[0] == x then 0 else 1 + PositionOf(s[1..], x)
  }

  ghost predicate NoDuplicates<T>(s: seq<T>)
  {
    forall i, j :: 0 <= i < j < |s| ==> s[i] != s[j]
  }

  lemma AppendAssociates<T>(x: seq<T>, y: seq<T>, z: seq<T>)
    ensures (x + y) + z == x + (y + z)
  {
  }

  // --- Counting ---------------------------------------------------------------

  lemma MultisetRemove<T>(s: seq<T>, i: nat)
    requires i < |s|
    ensures multiset(s) == multiset(RemoveAt(s, i)) + multiset{s[i]}
  {
    assert s == s[..i] + ([s[i]] + s[i + 1..]);
  }

  lemma MultisetHead<T>(s: seq<T>)
    requires s != []
    ensures multiset(s) == multiset{s[0]} + multiset(s[1..])
  {
    assert s == [s[0]] + s[1..];
  }

  lemma MultisetSplit<T>(s: seq<T>, h: nat)
    requires h <= |s|
    ensures multiset(s) == multiset(s[..h]) + multiset(s[h..])
  {
    assert s == s[..h] + s[h..];
  }

  lemma TwiceCounts<T>(s: seq<T>, i: nat, j: nat)
    requires i < j < |s| && s[i] == s[j]
    ensures multiset(s)[s[i]] >= 2
  {
    var a, b, d := s[..i + 1], s[i + 1..j + 1], s[j + 1..];
    assert s == a + b + d;
    assert a[i] == s[i] && s[i] in multiset(a) && b[j - i - 1] == s[j] && s[j] in multiset(b);
  }

  lemma {:induction false} CountOnce<T>(s: seq<T>, x: T)
    requires NoDuplicates(s)
    ensures multiset(s)[x] <= 1
  {
    if s != [] {
      MultisetHead(s);
      CountOnce(s[1..], x);
      forall k | 0 <= k < |s[1..]| ensures s[1..][k] != s[0] {
        assert s[0] != s[k + 1];
      }
      assert s[0] !in s[1..];
    }
  }

  /** In a permutation of a sequence without duplicates an element is where it is found. */
  lemma PositionIs<T>(s: seq<T>, t: seq<T>, x: T, i: nat)
    requires multiset(s) == multiset(t) && NoDuplicates(t) && i < |s|
    ensures PositionOf(s, x) == i <==> s[i] == x
  {
    var p := PositionOf(s, x);
    CountOnce(t, x);
    if s[i] == x && p != i {
      TwiceCounts(s, if p < i then p else i, if p < i then i else p);
    }
  }
}
