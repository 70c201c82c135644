/**
 What `test` does to a document: it sorts the objects it compares, which keeps their
 meaning but not always their links.
 */
module Wear {
  import opened Bytes
  import opened Json
  import opened MergeSort
  import opened Pointer
  import opened Compare
  import opened Links
  import opened Live
  import Patch
  import PatchLaws

  // --- Sorting does not look at items --------------------------------------------------

  function Mapped<S, T>(s: seq<Entry<S>>, f: S -> T): (r: seq<Entry<T>>)
    ensures |r| == |s| && forall i :: 0 <= i < |s| ==> r[i] == Entry(s[i].key, f(s[i].item))
  {
    seq(|s|, i requires 0 <= i < |s| => Entry(s[i].key, f(s[i].item)))
  }

  lemma {:induction false} AscendingMapped<S, T>(s: seq<Entry<S>>, f: S -> T, cs: bool)
    ensures Ascending(Mapped(s, f), cs) == Ascending(s, cs)
    decreases |s|
  {
    if |s| > 1 {
      assert Mapped(s, f)[1..] == Mapped(s[1..], f);
      AscendingMapped(s[1..], f, cs);
    }
  }

  lemma MappedCons<S, T>(e: Entry<S>, s: seq<Entry<S>>, f: S -> T)
    ensures Mapped([e] + s, f) == [Entry(e.key, f(e.item))] + Mapped(s, f)
  {
  }

  lemma {:induction false} MergeMapped<S, T>(a: seq<Entry<S>>, b: seq<Entry<S>>, f: S -> T, cs: bool)
    ensures Merge(Mapped(a, f), Mapped(b, f), cs) == Mapped(Merge(a, b, cs), f)
    decreases |a| + |b|
  {
    var x, y := Mapped(a, f), Mapped(b, f);
    if a != [] && b != [] {
      assert x[1..] == Mapped(a[1..], f) && y[1..] == Mapped(b[1..], f);
      assert Before(x[0], y[0], cs) == Before(a[0], b[0], cs);
      hide Mapped, Before;
      if Before(a[0], b[0], cs) {
        MergeMapped(a[1..], b, f, cs);
        MappedCons(a[0], Merge(a[1..], b, cs), f);
      } else {
        MergeMapped(a, b[1..], f, cs);
        MappedCons(b[0], Merge(a, b[1..], cs), f);
      }
    }
  }

  lemma {:induction false} SortMapped<S, T>(s: seq<Entry<S>>, f: S -> T, cs: bool)
    ensures Sort(Mapped(s, f), cs) == Mapped(Sort(s, cs), f)
    decreases |s|
  {
    AscendingMapped(s, f, cs);
    if !Ascending(s, cs) {
      var h := Middle(|s|);
      assert Mapped(s, f)[..h] == Mapped(s[..h], f) && Mapped(s, f)[h..] == Mapped(s[h..], f);
      SortMapped(s[..h], f, cs);
      SortMapped(s[h..], f, cs);
      MergeMapped(Sort(s[..h], cs), Sort(s[h..], cs), f, cs);
    }
  }

  /** Sorting the members of a document is sorting the tree. */
  lemma SortedPlain(ms: seq<Entry<Doc>>, back: Back, cs: bool)
    ensures PlainMembers(SortMembersOf(ms, back, cs).members) == Sort(PlainMembers(ms), cs)
  {
    hide Sort, Plain, SortedBack, PlainMembers;
    var f := (p: (nat, Doc)) => Plain(p.1);
    var t := Tagged(ms);
    SortMapped(t, f, cs);
    assert Mapped(t, f) == PlainMembers(ms);
    assert PlainMembers(Untagged(Sort(t, cs))) == Mapped(Sort(t, cs), f);
  }

  /** The members that are sorted are those of the object. */
  lemma SortedSame(ms: seq<Entry<Doc>>, back: Back, cs: bool)
    ensures |SortMembersOf(ms, back, cs).members| == |ms|
    ensures forall e | e in SortMembersOf(ms, back, cs).members :: e in ms
  {
    hide Sort;
    var t := Tagged(ms);
    SortMembers(t, cs);
    var s := Sort(t, cs);
    forall e | e in Untagged(s) ensures e in ms {
      var k :| 0 <= k < |s| && Untagged(s)[k] == e;
      assert s[k] in s && s[k] in t;
    }
  }

  // --- The meaning stays --------------------------------------------------------------------

  ghost predicate DistinctItems(s: seq<Json>, cs: bool)
  {
    forall x | x in s :: DistinctTree(x, cs)
  }

  /** Sorting on the way of a comparison does not change what a document means. */
  lemma {:induction false} WornMeans(a: Doc, b: Json, cs: bool)
    requires DistinctTree(Plain(a), cs)
    ensures DistinctTree(Plain(Worn(a, b, cs)), cs)
    ensures Meaning(Plain(Worn(a, b, cs)), cs) == Meaning(Plain(a), cs)
    decreases b, 1
  {
    if SameType(Plain(a), b) {
      match a
      case Leaf(_) =>
      case Items(s) => WornItemsMean(s, b.items, cs);
      case Members(ms, back) => WornObjectMeans(ms, back, b.members, cs);
    }
  }

  lemma {:induction false} WornItemsMean(x: seq<Doc>, y: seq<Json>, cs: bool)
    requires DistinctItems(PlainItems(x), cs)
    ensures DistinctItems(PlainItems(WornItems(x, y, cs)), cs)
    ensures ItemMeanings(PlainItems(WornItems(x, y, cs)), cs) == ItemMeanings(PlainItems(x), cs)
    decreases y, 0, 0
  {
    hide Worn, CompareSorted, Plain, DistinctTree, Meaning;
    if x != [] && y != [] {
      assert PlainItems(x)[0] in PlainItems(x);
      WornMeans(x[0], y[0], cs);
      WornItemsMean(x[1..], y[1..], cs);
    }
  }

  lemma SameObjects(x: seq<Entry<Json>>, y: seq<Entry<Json>>, cs: bool)
    requires Distinct(y, cs) && DistinctMembers(y, cs) && MapOf(x, cs) == MapOf(y, cs)
    ensures DistinctTree(Object(y), cs) && Meaning(Object(y), cs) == Meaning(Object(x), cs)
  {
  }

  lemma {:induction false} WornObjectMeans(ms: seq<Entry<Doc>>, back: Back, ns: seq<Entry<Json>>, cs: bool)
    requires DistinctTree(Object(PlainMembers(ms)), cs)
    ensures var w := Plain(Worn(Members(ms, back), Object(ns), cs));
      DistinctTree(w, cs) && Meaning(w, cs) == Meaning(Object(PlainMembers(ms)), cs)
    decreases Object(ns), 0
  {
    assert Distinct(PlainMembers(ms), cs) && DistinctMembers(PlainMembers(ms), cs);
    hide SortMembersOf, Sort, PlainMembers, Plain, Worn, WornMembers, Distinct, DistinctMembers, DistinctTree, Meaning, MapOf;
    var sorted := SortMembersOf(ms, back, cs);
    SortedPlain(ms, back, cs);
    SortedTreeMeans(PlainMembers(ms), cs);
    SortedAmong(ns, cs);
    WornObject(ms, back, ns, cs);
    WornMembersMean(sorted.members, Sort(ns, cs), cs, Object(ns));
    SameObjects(PlainMembers(ms), PlainMembers(WornMembers(sorted.members, Sort(ns, cs), cs, Object(ns))), cs);
  }

  lemma SortedAmong(ns: seq<Entry<Json>>, cs: bool)
    ensures forall e | e in Sort(ns, cs) :: e in ns
  {
    forall e | e in Sort(ns, cs) ensures e in ns {
      SortMember(ns, cs, e);
    }
  }

  lemma SortedTreeMeans(ms: seq<Entry<Json>>, cs: bool)
    requires Distinct(ms, cs) && DistinctMembers(ms, cs)
    ensures Distinct(Sort(ms, cs), cs) && DistinctMembers(Sort(ms, cs), cs) && MapOf(Sort(ms, cs), cs) == MapOf(ms, cs)
  {
    hide Sort, Distinct, MapOf;
    SortPermutes(ms, cs);
    SortMembers(ms, cs);
    MapOfPermutation(ms, Sort(ms, cs), cs);
    DistinctPermutation(ms, Sort(ms, cs), cs);
  }

  lemma WornObject(ms: seq<Entry<Doc>>, back: Back, ns: seq<Entry<Json>>, cs: bool)
    requires forall e | e in Sort(ns, cs) :: e in ns
    ensures var sorted := SortMembersOf(ms, back, cs);
      Worn(Members(ms, back), Object(ns), cs)
        == Members(WornMembers(sorted.members, Sort(ns, cs), cs, Object(ns)), sorted.back)
    ensures Plain(Worn(Members(ms, back), Object(ns), cs))
         == Object(PlainMembers(WornMembers(SortMembersOf(ms, back, cs).members, Sort(ns, cs), cs, Object(ns))))
  {
    hide SortMembersOf, Sort, WornMembers;
  }

  lemma {:induction false} WornMembersMean(x: seq<Entry<Doc>>, y: seq<Entry<Json>>, cs: bool, whole: Json)
    requires whole.Object? && forall e :: e in y ==> e in whole.members
    requires Distinct(PlainMembers(x), cs) && DistinctMembers(PlainMembers(x), cs)
    ensures var w := PlainMembers(WornMembers(x, y, cs, whole));
      && Distinct(w, cs) && DistinctMembers(w, cs)
      && MapOf(w, cs) == MapOf(PlainMembers(x), cs)
    decreases whole, 0, |y|
  {
    WornMembersMeanings(x, y, cs, whole);
    SameKeys(PlainMembers(WornMembers(x, y, cs, whole)), PlainMembers(x), cs);
  }

  lemma {:induction false} WornMembersMeanings(x: seq<Entry<Doc>>, y: seq<Entry<Json>>, cs: bool, whole: Json)
    requires whole.Object? && forall e :: e in y ==> e in whole.members
    requires DistinctMembers(PlainMembers(x), cs)
    ensures var w := PlainMembers(WornMembers(x, y, cs, whole));
      DistinctMembers(w, cs) && MemberMeanings(w, cs) == MemberMeanings(PlainMembers(x), cs)
    decreases whole, 0, |y|, 0
  {
    hide Worn, CompareSorted, Plain, PlainMembers, DistinctTree, Meaning, KeyOf, Strcmp;
    if x != [] && y != [] {
      var w := Worn(x[0].item, y[0].item, cs);
      assert PlainMembers(x)[0] in PlainMembers(x) && y[0] in whole.members;
      WornMeans(x[0].item, y[0].item, cs);
      assert PlainMembers(x) == [Entry(x[0].key, Plain(x[0].item))] + PlainMembers(x[1..]);
      assert MemberMeanings(PlainMembers(x), cs)
        == [Entry(x[0].key, Meaning(Plain(x[0].item), cs))] + MemberMeanings(PlainMembers(x[1..]), cs);
      assert DistinctMembers(PlainMembers(x), cs) ==> DistinctMembers(PlainMembers(x[1..]), cs);
      PlainCons(Entry(x[0].key, w), x[1..], cs);
      WornMembersMeanings(x[1..], y[1..], cs, whole);
      PlainCons(Entry(x[0].key, w), WornMembers(x[1..], y[1..], cs, whole), cs);
    }
  }

  lemma PlainCons(e: Entry<Doc>, x: seq<Entry<Doc>>, cs: bool)
    ensures MemberMeanings(PlainMembers([e] + x), cs)
         == [Entry(e.key, Meaning(Plain(e.item), cs))] + MemberMeanings(PlainMembers(x), cs)
    ensures DistinctMembers(PlainMembers([e] + x), cs) <==> DistinctTree(Plain(e.item), cs) && DistinctMembers(PlainMembers(x), cs)
  {
    hide Plain, Meaning, DistinctTree;
    assert ([e] + x)[1..] == x;
    assert PlainMembers([e] + x) == [Entry(e.key, Plain(e.item))] + PlainMembers(x);
    assert PlainMembers([e] + x)[1..] == PlainMembers(x);
    if DistinctMembers(PlainMembers([e] + x), cs) {
      assert PlainMembers([e] + x)[0] in PlainMembers([e] + x);
      assert forall f | f in PlainMembers(x) :: f in PlainMembers([e] + x);
    }
  }

  // --- How far the comparison comes ----------------------------------------------------

  /** The elements before `k` are there on both sides, and equal. */
  ghost predicate EqualUpTo(x: seq<Doc>, y: seq<Json>, k: nat, cs: bool)
  {
    k <= |x| && k <= |y| && forall i :: 0 <= i < k ==> CompareSorted(Plain(x[i]), y[i], cs)
  }

  lemma EqualUpToRest(x: seq<Doc>, y: seq<Json>, k: nat, cs: bool)
    requires x != [] && y != []
    ensures EqualUpTo(x, y, k + 1, cs) <==> CompareSorted(Plain(x[0]), y[0], cs) && EqualUpTo(x[1..], y[1..], k, cs)
  {
    hide CompareSorted, Plain;
    if EqualUpTo(x, y, k + 1, cs) {
      forall i | 0 <= i < k ensures CompareSorted(Plain(x[1..][i]), y[1..][i], cs) {
        assert x[1..][i] == x[i + 1] && y[1..][i] == y[i + 1];
      }
    }
    if CompareSorted(Plain(x[0]), y[0], cs) && EqualUpTo(x[1..], y[1..], k, cs) {
      forall i | 0 <= i < k + 1 ensures CompareSorted(Plain(x[i]), y[i], cs) {
        assert i > 0 ==> x[i] == x[1..][i - 1] && y[i] == y[1..][i - 1];
      }
    }
  }

  /** Of two arrays those elements are compared, and sorted, before which all are equal; the others stay. */
  lemma {:induction false} WornItemsAt(x: seq<Doc>, y: seq<Json>, cs: bool, k: nat)
    requires k < |x|
    ensures WornItems(x, y, cs)[k] == if k < |y| && EqualUpTo(x, y, k, cs) then Worn(x[k], y[k], cs) else x[k]
    decreases k
  {
    hide Worn, CompareSorted, Plain, EqualUpTo;
    if y != [] {
      if k > 0 {
        EqualUpToRest(x, y, k - 1, cs);
        WornItemsAt(x[1..], y[1..], cs, k - 1);
      } else {
        NothingBefore(x, y, cs);
      }
    }
  }

  lemma NothingBefore(x: seq<Doc>, y: seq<Json>, cs: bool)
    ensures EqualUpTo(x, y, 0, cs)
  {
  }

  /** The members before `k` have the same names on both sides, and equal values. */
  ghost predicate MembersEqualUpTo(x: seq<Entry<Doc>>, y: seq<Entry<Json>>, k: nat, cs: bool)
  {
    && k <= |x| && k <= |y|
    && forall i :: 0 <= i < k ==>
         KeyOf(cs, x[i].key) == KeyOf(cs, y[i].key) && CompareSorted(Plain(x[i].item), y[i].item, cs)
  }

  lemma MembersEqualUpToRest(x: seq<Entry<Doc>>, y: seq<Entry<Json>>, k: nat, cs: bool)
    requires x != [] && y != []
    ensures MembersEqualUpTo(x, y, 0, cs)
    ensures MembersEqualUpTo(x, y, k + 1, cs)
            <==> KeyOf(cs, x[0].key) == KeyOf(cs, y[0].key) && CompareSorted(Plain(x[0].item), y[0].item, cs)
                 && MembersEqualUpTo(x[1..], y[1..], k, cs)
  {
    hide CompareSorted, Plain, KeyOf;
    if MembersEqualUpTo(x, y, k + 1, cs) {
      forall i | 0 <= i < k
        ensures KeyOf(cs, x[1..][i].key) == KeyOf(cs, y[1..][i].key)
                && CompareSorted(Plain(x[1..][i].item), y[1..][i].item, cs)
      {
        assert x[1..][i] == x[i + 1] && y[1..][i] == y[i + 1];
      }
    }
    if KeyOf(cs, x[0].key) == KeyOf(cs, y[0].key) && CompareSorted(Plain(x[0].item), y[0].item, cs)
       && MembersEqualUpTo(x[1..], y[1..], k, cs)
    {
      forall i | 0 <= i < k + 1
        ensures KeyOf(cs, x[i].key) == KeyOf(cs, y[i].key) && CompareSorted(Plain(x[i].item), y[i].item, cs)
      {
        assert i > 0 ==> x[i] == x[1..][i - 1] && y[i] == y[1..][i - 1];
      }
    }
  }

  /** Of two sorted objects the members are compared, up to the first of another name or with another value. */
  lemma {:induction false} WornMembersAt(x: seq<Entry<Doc>>, y: seq<Entry<Json>>, cs: bool, whole: Json, k: nat)
    requires whole.Object? && (forall e :: e in y ==> e in whole.members) && k < |x|
    ensures WornMembers(x, y, cs, whole)[k].item
         == if k < |y| && MembersEqualUpTo(x, y, k, cs) && KeyOf(cs, x[k].key) == KeyOf(cs, y[k].key)
            then Worn(x[k].item, y[k].item, cs) else x[k].item
    decreases k
  {
    hide Worn, CompareSorted, Plain, MembersEqualUpTo, KeyOf, Strcmp;
    if y != [] {
      StrcmpZero(KeyOf(cs, x[0].key), KeyOf(cs, y[0].key));
      MembersEqualUpToRest(x, y, if k > 0 then k - 1 else 0, cs);
      if k > 0 {
        WornMembersAt(x[1..], y[1..], cs, whole, k - 1);
      }
    }
  }

  // --- Test ---------------------------------------------------------------------------------

  /**
   `test` (section 4.6) succeeds exactly when the pointer leads somewhere, there is a
   value, and both are equal up to the order of members. The document still means the
   same afterwards.
   */
  lemma TestMeans(doc: Doc, patch: Json, path: CString, cs: bool)
    requires Patch.GetItem(patch, "path", cs) == Some(String(path)) && Patch.HasOp(patch, "test", cs)
    requires DistinctTree(Plain(doc), cs) && DistinctTree(patch, cs)
    ensures var at, value := Locate(Plain(doc), path, cs), Patch.GetItem(patch, "value", cs);
      var r := ApplyPatch(doc, patch, cs);
      var equal := at.Some? && value.Some? && Meaning(Get(Plain(doc), at.value), cs) == Meaning(value.value, cs);
      r == Done(if equal then 0 else 1, Tested(doc, path, value, cs))
    ensures ApplyPatch(doc, patch, cs).Done?
         && Meaning(Plain(ApplyPatch(doc, patch, cs).doc), cs) == Meaning(Plain(doc), cs)
  {
    hide Meaning, CompareSorted, Locate, Get, ItemAt, IndexOf, Plain, Worn, PutAt, DistinctTree;
    Patch.OperationNames(patch, "test", cs);
    var at, value := Locate(Plain(doc), path, cs), Patch.GetItem(patch, "value", cs);
    if at.Some? && value.Some? {
      PatchLaws.GetDistinct(Plain(doc), at.value, cs);
      ValueDistinct(patch, cs);
      CompareSortedMeans(Get(Plain(doc), at.value), value.value, cs);
      TestedMeans(doc, at.value, value.value, cs);
    }
  }

  lemma ValueDistinct(patch: Json, cs: bool)
    requires DistinctTree(patch, cs)
    ensures var value := Patch.GetItem(patch, "value", cs); value.Some? ==> DistinctTree(value.value, cs)
  {
    var value := Patch.GetItem(patch, "value", cs);
    if value.Some? {
      assert patch.members[IndexOf(patch.members, "value", cs)] in patch.members;
    }
  }

  lemma TestedMeans(doc: Doc, at: Location, b: Json, cs: bool)
    requires Exists(Plain(doc), at) && DistinctTree(Plain(doc), cs)
    ensures Meaning(Plain(PutAt(doc, at, Worn(ItemAt(doc, at), b, cs))), cs) == Meaning(Plain(doc), cs)
  {
    hide Meaning, ItemAt, Plain, Worn, PutAt, Get, DistinctTree;
    var w := Worn(ItemAt(doc, at), b, cs);
    PatchLaws.GetDistinct(Plain(doc), at, cs);
    WornMeans(ItemAt(doc, at), b, cs);
    PutAtPlain(doc, at, w);
    PatchLaws.PutMeaning(Plain(doc), at, Plain(w), cs);
  }
}
