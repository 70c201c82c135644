/**
 Two small documents in which an addition or a replacement after a `test` is lost or
 loses another member, while every status is 0, or follows a pointer out of the list.
 */
module Lost {
  import opened Bytes
  import opened Sequences
  import opened Json
  import opened MergeSort
  import Pointer
  import opened InPlace
  import Compare
  import opened Links
  import opened Live
  import Wear
  import opened Additions
  import Patch
  import PatchLaws
  import Diff

  /** An operation object that compares the whole document with a value. */
  function TestOf(value: Json): Json
  {
    Diff.Composed("test", [], Some(value))
  }

  function AddOf(name: CString, n: Int): Json
  {
    Diff.PatchOf(Diff.Step(Patch.ADD, "/" + name, Some(Number(n))))
  }

  function ReplaceOf(name: CString, n: Int): Json
  {
    Diff.PatchOf(Diff.Step(Patch.REPLACE, "/" + name, Some(Number(n))))
  }

  function RemoveOf(name: CString): Json
  {
    Diff.PatchOf(Diff.Step(Patch.REMOVE, "/" + name, None))
  }

  function Num(name: CString, n: Int): Entry<Doc>
  {
    Entry(name, Leaf(Number(n)))
  }

  ghost predicate Leaves(ms: seq<Entry<Doc>>)
  {
    forall e | e in ms :: e.item.Leaf?
  }

  // --- Sorting small objects ------------------------------------------------------------

  lemma Letters(cs: bool)
    ensures KeyOf(cs, "a") == "a" && KeyOf(cs, "b") == "b" && KeyOf(cs, "c") == "c" && KeyOf(cs, "d") == "d"
    ensures Strcmp("a", "b") < 0 && Strcmp("b", "c") < 0 && Strcmp("a", "c") < 0
    ensures Strcmp("b", "a") > 0 && Strcmp("c", "b") > 0 && Strcmp("c", "a") > 0
  {
    assert Fold("a")[0] == 'a' && Fold("b")[0] == 'b' && Fold("c")[0] == 'c' && Fold("d")[0] == 'd';
  }

  lemma SortThree<T>(x: Entry<T>, y: Entry<T>, z: Entry<T>, cs: bool)
    requires Before(x, y, cs) && !Before(y, z, cs) && Before(x, z, cs)
    ensures Sort([x, y, z], cs) == [x, z, y]
  {
    hide Before;
    var s := [x, y, z];
    assert s[1..] == [y, z] && s[2..] == [z] && s[..2] == [x, y] && [y, z][1..] == [z];
    assert [x, y][1..] == [y] && [y][1..] == [] && [z][1..] == [];
    assert Sort([x, y], cs) == [x, y] && Sort([z], cs) == [z];
    assert !Ascending([y, z], cs) && !Ascending(s, cs) && Middle(3) == 2;
    assert Merge([y], [], cs) == [y];
    assert Merge([y], [z], cs) == [z, y];
    assert Merge([x, y], [z], cs) == [x] + Merge([y], [z], cs);
  }

  lemma LeavesOrdered(ms: seq<Entry<Doc>>, back: Back, cs: bool)
    requires Leaves(ms)
    ensures Ordered(Members(ms, back), cs) == SortMembersOf(ms, back, cs)
  {
    Wear.SortedSame(ms, back, cs);
    OrderedObject(ms, back, cs);
    var sorted := SortMembersOf(ms, back, cs);
    var all := OrderedMembers(sorted.members, cs, Members(ms, back));
    hide SortMembersOf;
    forall i | 0 <= i < |all| ensures all[i] == sorted.members[i] {
      assert sorted.members[i] in sorted.members;
    }
    assert all == sorted.members;
  }

  // --- Operations on small objects ----------------------------------------------------------

  lemma NameDecodes(name: CString)
    requires '/' !in name && '~' !in name
    ensures Patch.LastSlash("/" + name) == Some(0) && ("/" + name)[..0] == [] && ("/" + name)[1..] == name
    ensures DecodeInPlace(name) == name
  {
    Patch.LastSlashToken(name);
    EscapeFree(name);
    DecodesIff(name);
  }

  /** A path of one name adds to the root. */
  lemma AddRoot(ms: seq<Entry<Doc>>, back: Back, name: CString, n: Int, cs: bool)
    requires '/' !in name && '~' !in name
    ensures AddCopy(Members(ms, back), "/" + name, Some(Number(n)), cs)
         == AddSub(Members(ms, back), name, Leaf(Number(n)), cs)
  {
    NameDecodes(name);
    hide Patch.LastSlash, DecodeInPlace, AddMember, IndexOf, Plain;
    assert Duplicate(Number(n), 0) == Some(Number(n)) && Fresh(Number(n)) == Leaf(Number(n));
    assert AddTo(Members(ms, back), "/" + name, Leaf(Number(n)), cs)
        == AddUnder(Members(ms, back), [], name, Leaf(Number(n)), cs);
  }

  lemma DetachRoot(ms: seq<Entry<Doc>>, back: Back, name: CString, cs: bool)
    requires '/' !in name && '~' !in name && IndexOf(ms, name, false) < |ms|
    ensures var i := IndexOf(ms, name, false);
      DetachAt(Members(ms, back), "/" + name, cs)
        == Some(Taken(ms[i].item, Members(RemoveAt(ms, i), DetachedBack(|ms|, back, i))))
  {
    NameDecodes(name);
    hide Patch.LastSlash, DecodeInPlace, IndexOf, Plain, RemoveAt, DetachedBack;
    assert Pointer.Locate(Plain(Members(ms, back)), [], cs) == Some([]);
  }

  lemma AddNamed(ms: seq<Entry<Doc>>, back: Back, name: CString, n: Int, cs: bool)
    requires '/' !in name && '~' !in name
    ensures ApplyPatch(Members(ms, back), AddOf(name, n), cs) == AddSub(Members(ms, back), name, Leaf(Number(n)), cs)
  {
    hide ApplyPatch, AddSub, AddCopy, Diff.PatchOf;
    Diff.PatchRuns(Members(ms, back), Diff.Step(Patch.ADD, "/" + name, Some(Number(n))), cs);
    AddRoot(ms, back, name, n, cs);
  }

  /** Removing, and replacing, the member of a name. */
  lemma DetachNamed(ms: seq<Entry<Doc>>, back: Back, name: CString, n: Int, cs: bool)
    requires '/' !in name && '~' !in name && IndexOf(ms, name, false) < |ms|
    ensures var i := IndexOf(ms, name, false);
      var left := Members(RemoveAt(ms, i), DetachedBack(|ms|, back, i));
      && ApplyPatch(Members(ms, back), RemoveOf(name), cs) == Done(0, left)
      && ApplyPatch(Members(ms, back), ReplaceOf(name, n), cs) == AddSub(left, name, Leaf(Number(n)), cs)
  {
    hide ApplyPatch, AddSub, IndexOf, AddCopy, DetachAt, RemoveAt, DetachedBack, Diff.PatchOf;
    Diff.PatchRuns(Members(ms, back), Diff.Step(Patch.REMOVE, "/" + name, None), cs);
    Diff.PatchRuns(Members(ms, back), Diff.Step(Patch.REPLACE, "/" + name, Some(Number(n))), cs);
    DetachRoot(ms, back, name, cs);
    var i := IndexOf(ms, name, false);
    AddRoot(RemoveAt(ms, i), DetachedBack(|ms|, back, i), name, n, cs);
  }

  lemma TestRuns(doc: Doc, value: Json, cs: bool)
    ensures ApplyPatch(doc, TestOf(value), cs)
         == Done(if Passes(doc, [], Some(value), cs) then 0 else 1, Tested(doc, [], Some(value), cs))
  {
    hide Patch.GetItem, Patch.DecodeOperation, Diff.Composed, Tested, Passes, Apply;
    Diff.PatchMembers("test", [], Some(value), cs);
    Patch.OperationNames(TestOf(value), "test", cs);
  }

  lemma TestPasses(ms: seq<Entry<Doc>>, back: Back, value: Json, cs: bool)
    requires Leaves(ms) && Compare.CompareSorted(Object(PlainMembers(ms)), value, cs)
    ensures ApplyPatch(Members(ms, back), TestOf(value), cs) == Done(0, SortMembersOf(ms, back, cs))
  {
    var doc := Members(ms, back);
    assert Plain(doc) == Object(PlainMembers(ms));
    hide TestOf, ApplyPatch, Worn, Ordered, SortMembersOf, Compare.CompareSorted, PlainMembers, Plain, Tested, Passes;
    TestRuns(doc, value, cs);
    PassedIsOrdered(doc, value, cs);
    LeavesOrdered(ms, back, cs);
  }

  // --- The documents -----------------------------------------------------------------------

  lemma TwoDistinct(x: Entry<Json>, y: Entry<Json>, cs: bool)
    requires KeyOf(cs, x.key) != KeyOf(cs, y.key)
    ensures Distinct([x, y], cs)
  {
    KeysAppend([], x, cs);
    KeysAppend([x], y, cs);
    hide KeyOf;
    assert [] + [x] == [x] && [x] + [y] == [x, y];
  }

  /** Any order of two numbers is equal to the other. */
  lemma SwappedEqual(x: Entry<Json>, y: Entry<Json>, cs: bool)
    requires KeyOf(cs, x.key) != KeyOf(cs, y.key) && x.item.Number? && y.item.Number?
    ensures Compare.CompareSorted(Object([x, y]), Object([y, x]), cs)
  {
    hide KeyOf, Meaning, Compare.CompareSorted, Distinct, MapOf;
    TwoDistinct(x, y, cs);
    TwoDistinct(y, x, cs);
    var s, t := [x, y], [y, x];
    assert multiset(s) == multiset(t);
    MapOfPermutation(s, t, cs);
    SameMap(s, t, cs);
    assert forall e | e in s :: DistinctTree(e.item, cs);
    assert forall e | e in t :: DistinctTree(e.item, cs);
    Compare.CompareSortedMeans(Object(s), Object(t), cs);
  }

  lemma SameMap(x: seq<Entry<Json>>, y: seq<Entry<Json>>, cs: bool)
    requires MapOf(x, cs) == MapOf(y, cs)
    ensures Meaning(Object(x), cs) == Meaning(Object(y), cs)
  {
  }

  const BA: seq<Entry<Json>> := [Entry("b", Number(1)), Entry("a", Number(2))]
  const ACB: seq<Entry<Json>> := [Entry("a", Number(1)), Entry("c", Number(3)), Entry("b", Number(2))]

  lemma SortedBA(cs: bool)
    ensures SortMembersOf([Num("b", 1), Num("a", 2)], At(1), cs) == Members([Num("a", 2), Num("b", 1)], Nowhere)
  {
    Letters(cs);
    var x, y := Num("b", 1), Num("a", 2);
    var t := Tagged([x, y]);
    assert t == [Entry("b", (0, x.item)), Entry("a", (1, y.item))];
    assert Sort([t[0], t[1]], cs) == [t[1], t[0]];
    assert Untagged([t[1], t[0]]) == [y, x];
    hide Sort;
  }

  lemma FreshBA()
    ensures Fresh(Object(BA)) == Members([Num("b", 1), Num("a", 2)], At(1))
    ensures PlainMembers([Num("b", 1), Num("a", 2)]) == BA
  {
    assert FreshMembers(BA) == [Num("b", 1), Num("a", 2)];
  }

  /** The document `{"b":1,"a":2}` after a `test` with an equal value. */
  lemma TestedBA(value: Json, cs: bool)
    requires Compare.CompareSorted(Object(BA), value, cs)
    ensures ApplyPatch(Fresh(Object(BA)), TestOf(value), cs) == Done(0, Members([Num("a", 2), Num("b", 1)], Nowhere))
  {
    FreshBA();
    SortedBA(cs);
    hide ApplyPatch, TestOf, SortMembersOf, Fresh, PlainMembers, Compare.CompareSorted;
    TestPasses([Num("b", 1), Num("a", 2)], At(1), value, cs);
  }

  lemma IndexInAB(cs: bool)
    ensures IndexOf([Num("a", 2), Num("b", 1)], "c", cs) == 2
    ensures IndexOf([Num("a", 2), Num("b", 1)], "a", cs) == 0
    ensures IndexOf([Num("b", 1)], "a", cs) == 1
  {
    Letters(cs);
    hide KeyOf;
    assert [Num("a", 2), Num("b", 1)][1..] == [Num("b", 1)] && [Num("b", 1)][1..] == [];
  }

  /** A new member is not added to `{"b":1,"a":2}` after a `test` with any equal value, but every status is 0. */
  lemma NotAdded(value: Json, cs: bool)
    requires Compare.CompareSorted(Object(BA), value, cs)
    ensures ApplyAll(Fresh(Object(BA)), [TestOf(value), AddOf("c", 3)], cs)
         == Done(0, Members([Num("a", 2), Num("b", 1)], Nowhere))
  {
    hide ApplyPatch, ApplyAll, TestOf, AddOf, Fresh, Compare.CompareSorted, IndexOf;
    TestedBA(value, cs);
    IndexInAB(cs);
    AddNamed([Num("a", 2), Num("b", 1)], Nowhere, "c", 3, cs);
    PatchLaws.ApplyTwo(Fresh(Object(BA)), TestOf(value), AddOf("c", 3), cs);
  }

  /** Replacing `a` in the same document removes it. */
  lemma NotReplaced(value: Json, cs: bool)
    requires Compare.CompareSorted(Object(BA), value, cs)
    ensures ApplyAll(Fresh(Object(BA)), [TestOf(value), ReplaceOf("a", 5)], cs) == Done(0, Members([Num("b", 1)], Nowhere))
  {
    hide ApplyPatch, ApplyAll, TestOf, ReplaceOf, Fresh, Compare.CompareSorted, IndexOf;
    TestedBA(value, cs);
    IndexInAB(false);
    IndexInAB(cs);
    var ms := [Num("a", 2), Num("b", 1)];
    assert RemoveAt(ms, 0) == [Num("b", 1)];
    DetachNamed(ms, Nowhere, "a", 5, cs);
    PatchLaws.ApplyTwo(Fresh(Object(BA)), TestOf(value), ReplaceOf("a", 5), cs);
  }

  /** `{"a":1,"c":3,"b":2}` when it has been sorted. */
  const ABC: seq<Entry<Doc>> := [Num("a", 1), Num("b", 2), Num("c", 3)]

  lemma SortedACB(cs: bool)
    ensures SortMembersOf([Num("a", 1), Num("c", 3), Num("b", 2)], At(2), cs) == Members(ABC, At(1))
  {
    Letters(cs);
    var x, y, z := Num("a", 1), Num("c", 3), Num("b", 2);
    var t := Tagged([x, y, z]);
    assert t == [Entry("a", (0, x.item)), Entry("c", (1, y.item)), Entry("b", (2, z.item))];
    SortThree(t[0], t[1], t[2], cs);
    hide Sort;
    var s := [t[0], t[2], t[1]];
    assert Untagged(s) == [x, z, y];
    assert s[1..][0] == t[2] && PositionOf(s[1..], t[2]) == 0 && PositionOf(s, t[2]) == 1;
  }

  lemma FreshACB()
    ensures Fresh(Object(ACB)) == Members([Num("a", 1), Num("c", 3), Num("b", 2)], At(2))
    ensures PlainMembers([Num("a", 1), Num("c", 3), Num("b", 2)]) == ACB
  {
    assert FreshMembers(ACB) == [Num("a", 1), Num("c", 3), Num("b", 2)];
  }

  lemma TestedACB(value: Json, cs: bool)
    requires Compare.CompareSorted(Object(ACB), value, cs)
    ensures ApplyPatch(Fresh(Object(ACB)), TestOf(value), cs) == Done(0, Members(ABC, At(1)))
  {
    FreshACB();
    SortedACB(cs);
    hide ApplyPatch, TestOf, SortMembersOf, Fresh, PlainMembers, Compare.CompareSorted;
    TestPasses([Num("a", 1), Num("c", 3), Num("b", 2)], At(2), value, cs);
  }

  lemma IndexInABC(cs: bool)
    ensures IndexOf(ABC, "d", cs) == 3 && IndexOf(ABC, "b", cs) == 1
  {
    Letters(cs);
    hide KeyOf;
    assert ABC[1..] == [Num("b", 2), Num("c", 3)] && ABC[1..][1..] == [Num("c", 3)] && [Num("c", 3)][1..] == [];
  }

  lemma IndexInAC(cs: bool)
    ensures RemoveAt(ABC, 1) == [Num("a", 1), Num("c", 3)]
    ensures IndexOf([Num("a", 1), Num("c", 3)], "d", cs) == 2 == IndexOf([Num("a", 1), Num("c", 3)], "b", cs)
  {
    Letters(cs);
    hide KeyOf;
    assert [Num("a", 1), Num("c", 3)][1..] == [Num("c", 3)] && [Num("c", 3)][1..] == [];
  }

  /** Adding `d` to `{"a":1,"c":3,"b":2}` after a `test` with any equal value cuts off `c`. */
  lemma CutOff(value: Json, cs: bool)
    requires Compare.CompareSorted(Object(ACB), value, cs)
    ensures ApplyAll(Fresh(Object(ACB)), [TestOf(value), AddOf("d", 4)], cs)
         == Done(0, Members([Num("a", 1), Num("b", 2), Num("d", 4)], At(2)))
  {
    hide ApplyPatch, ApplyAll, TestOf, AddOf, Fresh, Compare.CompareSorted, IndexOf;
    TestedACB(value, cs);
    IndexInABC(cs);
    AddNamed(ABC, At(1), "d", 4, cs);
    assert Appended(ABC, At(1), Num("d", 4)) == [Num("a", 1), Num("b", 2), Num("d", 4)];
    PatchLaws.ApplyTwo(Fresh(Object(ACB)), TestOf(value), AddOf("d", 4), cs);
  }

  /** Adding `b` to it, replacing `b`, or adding `d` once `b` is removed follows the pointer to the old `b`. */
  lemma FollowsRemoved(value: Json, cs: bool)
    requires Compare.CompareSorted(Object(ACB), value, cs)
    ensures ApplyAll(Fresh(Object(ACB)), [TestOf(value), AddOf("b", 5)], cs) == Undefined
    ensures ApplyAll(Fresh(Object(ACB)), [TestOf(value), ReplaceOf("b", 5)], cs) == Undefined
    ensures ApplyAll(Fresh(Object(ACB)), [TestOf(value), RemoveOf("b"), AddOf("d", 4)], cs) == Undefined
  {
    hide ApplyPatch, ApplyAll, TestOf, AddOf, ReplaceOf, RemoveOf, Fresh, Compare.CompareSorted, IndexOf, RemoveAt;
    var doc := Fresh(Object(ACB));
    TestedACB(value, cs);
    IndexInABC(false);
    IndexInABC(cs);
    IndexInAC(cs);
    AddNamed(ABC, At(1), "b", 5, cs);
    assert DetachedBack(3, At(1), 1) == Elsewhere;
    DetachNamed(ABC, At(1), "b", 5, cs);
    AddNamed([Num("a", 1), Num("c", 3)], Elsewhere, "d", 4, cs);
    PatchLaws.ApplyTwo(doc, TestOf(value), AddOf("b", 5), cs);
    PatchLaws.ApplyTwo(doc, TestOf(value), ReplaceOf("b", 5), cs);
    PatchLaws.ApplyTwo(Members(ABC, At(1)), RemoveOf("b"), AddOf("d", 4), cs);
    ApplyThree(doc, TestOf(value), RemoveOf("b"), AddOf("d", 4), cs);
  }

  lemma ApplyThree(doc: Doc, p: Json, q: Json, r: Json, cs: bool)
    ensures ApplyAll(doc, [p, q, r], cs)
         == var o := ApplyPatch(doc, p, cs);
            if o.Undefined? || o.status != 0 then o else ApplyAll(o.doc, [q, r], cs)
  {
    hide ApplyPatch;
    assert [p, q, r][1..] == [q, r];
  }

  /** Such values: the members of the first document in the other order, and the second document itself. */
  lemma EqualValues(cs: bool)
    ensures Compare.CompareSorted(Object(BA), Object([BA[1], BA[0]]), cs)
    ensures Compare.CompareSorted(Object(ACB), Object(ACB), cs)
  {
    Letters(cs);
    SwappedEqual(BA[0], BA[1], cs);
    KeysAppend([], ACB[0], cs);
    KeysAppend([ACB[0]], ACB[1], cs);
    KeysAppend([ACB[0], ACB[1]], ACB[2], cs);
    assert [] + [ACB[0]] == [ACB[0]] && [ACB[0]] + [ACB[1]] == [ACB[0], ACB[1]] && [ACB[0], ACB[1]] + [ACB[2]] == ACB;
    hide KeyOf, Compare.CompareSorted, Distinct, Meaning, Fold, Strcmp, Keys;
    assert forall e | e in ACB :: DistinctTree(e.item, cs);
    Compare.CompareSortedMeans(Object(ACB), Object(ACB), cs);
  }

  /** The five runs with these values. */
  lemma Instances(cs: bool)
    ensures var swapped, whole := TestOf(Object([BA[1], BA[0]])), TestOf(Object(ACB));
      && ApplyAll(Fresh(Object(BA)), [swapped, AddOf("c", 3)], cs) == Done(0, Members([Num("a", 2), Num("b", 1)], Nowhere))
      && ApplyAll(Fresh(Object(BA)), [swapped, ReplaceOf("a", 5)], cs) == Done(0, Members([Num("b", 1)], Nowhere))
      && ApplyAll(Fresh(Object(ACB)), [whole, AddOf("d", 4)], cs)
           == Done(0, Members([Num("a", 1), Num("b", 2), Num("d", 4)], At(2)))
      && ApplyAll(Fresh(Object(ACB)), [whole, AddOf("b", 5)], cs) == Undefined
      && ApplyAll(Fresh(Object(ACB)), [whole, ReplaceOf("b", 5)], cs) == Undefined
  {
    hide ApplyAll, TestOf, AddOf, ReplaceOf, Fresh, Compare.CompareSorted;
    EqualValues(cs);
    NotAdded(Object([BA[1], BA[0]]), cs);
    NotReplaced(Object([BA[1], BA[0]]), cs);
    CutOff(Object(ACB), cs);
    FollowsRemoved(Object(ACB), cs);
  }
}
