/**
 The merge patch generator, and when merging the generated patch into the old
 document gives the new one.

 The generator sorts the members with the case flag of the call but walks the
 sorted lists with `strcmp`, and always ignores case below the top. The model
 does the same; the theorems are about names on which all these orders are one.
 */
module GenerateMerge {
  import opened Bytes
  import opened Sequences
  import opened Json
  import opened MergeSort
  import opened Compare
  import opened MergePatch

  /** `generate_merge_patch`; no `to`, and no patch, are NULL pointers. */
  function Generate(from: Option<Json>, to: Option<Json>, cs: bool): Option<Json>
    decreases if from.Some? then 1 + Height(from.value) else 0, 1, 0
  {
    if to.None? then Some(Null)
    else if !to.value.Object? || from.None? || !from.value.Object? then Duplicate(to.value, 0)
    else
      SortMembers(from.value.members, cs);
      var members := GenerateWalk(Sort(from.value.members, cs), Sort(to.value.members, cs), cs,
                                  Height(from.value));
      if members == [] then None else Some(Object(members))
  }

  /** The walk over the two sorted lists of members; `h` bounds the height of the old members. */
  function GenerateWalk(a: seq<Entry<Json>>, b: seq<Entry<Json>>, cs: bool, ghost h: nat): seq<Entry<Json>>
    requires forall e :: e in a ==> Height(e.item) < h
    decreases h, 2, |a| + |b|
  {
    if a == [] && b == [] then []
    else
      var difference := if a == [] then 1 else if b == [] then -1 else Strcmp(a[0].key, b[0].key);
      if difference < 0 then
        [Entry(a[0].key, Null)] + GenerateWalk(a[1..], b, cs, h)
      else if difference > 0 then
        Added(b[0].key, Duplicate(b[0].item, 0)) + GenerateWalk(a, b[1..], cs, h)
      else if CompareSorted(a[0].item, b[0].item, cs) then
        GenerateWalk(a[1..], b[1..], cs, h)
      else
        assert a[0] in a;
        Added(b[0].key, Generate(Some(a[0].item), Some(b[0].item), false)) + GenerateWalk(a[1..], b[1..], cs, h)
  }

  /** `cJSON_AddItemToObject` with an item that may be a NULL pointer. */
  function Added(key: CString, item: Option<Json>): seq<Entry<Json>>
  {
    match item
    case None => []
    case Some(j) => [Entry(key, j)]
  }

  /** One round of the walk adds at most one member to the patch. */
  lemma WalkRound(members: seq<Entry<Json>>, a: seq<Entry<Json>>, b: seq<Entry<Json>>, cs: bool, h: nat)
    requires forall e :: e in a ==> Height(e.item) < h
    requires a != [] || b != []
    ensures var difference := if a == [] then 1 else if b == [] then -1 else Strcmp(a[0].key, b[0].key);
      members + GenerateWalk(a, b, cs, h)
      == if difference < 0 then members + [Entry(a[0].key, Null)] + GenerateWalk(a[1..], b, cs, h)
         else if difference > 0 then
           members + Added(b[0].key, Duplicate(b[0].item, 0)) + GenerateWalk(a, b[1..], cs, h)
         else if CompareSorted(a[0].item, b[0].item, cs) then members + GenerateWalk(a[1..], b[1..], cs, h)
         else members + Added(b[0].key, Generate(Some(a[0].item), Some(b[0].item), false))
              + GenerateWalk(a[1..], b[1..], cs, h)
  {
    hide CompareSorted, Strcmp, Generate, Duplicate, Added;
    var difference := if a == [] then 1 else if b == [] then -1 else Strcmp(a[0].key, b[0].key);
    if difference < 0 {
      AppendAssociates(members, [Entry(a[0].key, Null)], GenerateWalk(a[1..], b, cs, h));
    } else if difference > 0 {
      AppendAssociates(members, Added(b[0].key, Duplicate(b[0].item, 0)), GenerateWalk(a, b[1..], cs, h));
    } else if !CompareSorted(a[0].item, b[0].item, cs) {
      AppendAssociates(members, Added(b[0].key, Generate(Some(a[0].item), Some(b[0].item), false)),
                GenerateWalk(a[1..], b[1..], cs, h));
    }
  }

  /** `generate_merge_patch`, with its loop over the two lists of children. */
  method GenerateMergePatch(from: Option<Json>, to: Option<Json>, cs: bool) returns (patch: Option<Json>)
    ensures patch == Generate(from, to, cs)
    ensures to.None? ==> patch == Some(Null)
    ensures to.Some? && (from.None? || !from.value.Object? || !to.value.Object?) ==> patch == Duplicate(to.value, 0)
    decreases if from.Some? then 1 + Height(from.value) else 0
  {
    if to.None? {
      return Some(Null);
    }
    if !to.value.Object? || from.None? || !from.value.Object? {
      return Duplicate(to.value, 0);
    }
    hide Sort, CompareSorted, Strcmp, Height, Added;
    SortMembers(from.value.members, cs);
    var a, b := Sort(from.value.members, cs), Sort(to.value.members, cs);
    var members: seq<Entry<Json>> := [];
    ghost var h, goal := Height(from.value), GenerateWalk(a, b, cs, Height(from.value));
    while a != [] || b != []
      invariant forall e :: e in a ==> Height(e.item) < h
      invariant goal == members + GenerateWalk(a, b, cs, h)
      decreases |a| + |b|
    {
      WalkRound(members, a, b, cs, h);
      var difference := if a == [] then 1 else if b == [] then -1 else Strcmp(a[0].key, b[0].key);
      if difference < 0 {
        members := members + [Entry(a[0].key, Null)];
        a := a[1..];
      } else if difference > 0 {
        members := members + Added(b[0].key, Duplicate(b[0].item, 0));
        b := b[1..];
      } else {
        assert a[0] in a;
        var same := CompareJson(a[0].item, b[0].item, cs);
        if !same {
          var change := GenerateMergePatch(Some(a[0].item), Some(b[0].item), false);
          members := members + Added(b[0].key, change);
        }
        a, b := a[1..], b[1..];
      }
    }
    assert members + [] == members;
    return if members == [] then None else Some(Object(members));
  }

  // --- What the patch means -------------------------------------------------

  /** The patch that takes one value to another, on unordered objects. */
  function Difference(f: Value, t: Value): Value
  {
    match t
    case VObject(b) =>
      if !f.VObject? then t
      else
        var a := f.members;
        VObject(map k | k in a.Keys + b.Keys && !(k in a && k in b && a[k] == b[k]) ::
          if k !in b then VNull else if k !in a then b[k] else Difference(a[k], b[k]))
    case _ => t
  }

  /** The members of a difference of objects. */
  function DifferenceMap(a: map<CString, Value>, b: map<CString, Value>): map<CString, Value>
  {
    map k | k in a.Keys + b.Keys && !(k in a && k in b && a[k] == b[k]) ::
      if k !in b then VNull else if k !in a then b[k] else Difference(a[k], b[k])
  }

  lemma DifferenceObjects(a: map<CString, Value>, b: map<CString, Value>)
    ensures Difference(VObject(a), VObject(b)) == VObject(DifferenceMap(a, b))
    ensures DifferenceMap(a, b) == map[] <==> a == b
  {
    assert Difference(VObject(a), VObject(b)).members == DifferenceMap(a, b);
    if DifferenceMap(a, b) == map[] {
      forall k | k in a.Keys + b.Keys ensures k in a && k in b && a[k] == b[k] {
        assert k !in DifferenceMap(a, b);
      }
    }
  }

  // --- Names on which case does not matter --------------------------------------

  /** `strcmp` orders two names as it does their lower-case forms. */
  predicate SameOrder(k: CString, l: CString)
  {
    Strcmp(Fold(k), Fold(l)) < 0 <==> Strcmp(k, l) < 0
  }

  /** All orders of the generator are one on these names. */
  ghost predicate Consistent(names: set<CString>)
  {
    forall k, l | k in names && l in names :: SameOrder(k, l)
  }

  /** For example, names without capital letters. */
  lemma LowerConsistent(names: set<CString>)
    requires forall k | k in names :: Fold(k) == k
    ensures Consistent(names)
  {
  }

  lemma ConsistentEqual(k: CString, l: CString, cs: bool, names: set<CString>)
    requires Consistent(names) && k in names && l in names
    ensures Strcmp(KeyOf(cs, k), KeyOf(cs, l)) < 0 <==> Strcmp(k, l) < 0
    ensures Strcmp(KeyOf(cs, k), KeyOf(cs, l)) == 0 <==> Strcmp(k, l) == 0
    ensures KeyOf(cs, k) == KeyOf(cs, l) <==> k == l
  {
    assert SameOrder(k, l) && SameOrder(l, k);
    hide Fold, Strcmp;
    StrcmpAntisymmetric(k, l);
    StrcmpAntisymmetric(Fold(k), Fold(l));
    StrcmpZero(k, l);
    StrcmpZero(Fold(k), Fold(l));
  }

  /** All member names of the tree are among `names`, except that those at the top may be `free`. */
  predicate NamedBelow(j: Json, names: set<CString>, free: bool)
  {
    match j
    case Object(ms) => forall e | e in ms :: (free || e.key in names) && Named(e.item, names)
    case _ => Named(j, names)
  }

  ghost predicate KeysAmong<T(!new)>(ms: seq<Entry<T>>, names: set<CString>)
  {
    forall e | e in ms :: e.key in names
  }

  lemma BeforeSame<S(!new), T(!new)>(a: Entry<S>, b: Entry<T>, cs: bool, names: set<CString>)
    requires Consistent(names) && a.key in names && b.key in names
    ensures Before(a, b, cs) == Before(a, b, true)
  {
    ConsistentEqual(a.key, b.key, cs, names);
  }

  lemma {:induction false} AscendingSame<T(!new)>(s: seq<Entry<T>>, cs: bool, names: set<CString>)
    requires Consistent(names) && KeysAmong(s, names)
    ensures Ascending(s, cs) == Ascending(s, true)
    decreases |s|
  {
    hide Before, Consistent;
    if |s| > 1 {
      assert s[0] in s && s[1] in s;
      assert forall e | e in s[1..] :: e in s;
      BeforeSame(s[0], s[1], cs, names);
      AscendingSame(s[1..], cs, names);
    }
  }

  lemma {:induction false} MergeSame<T(!new)>(a: seq<Entry<T>>, b: seq<Entry<T>>, cs: bool, names: set<CString>)
    requires Consistent(names) && KeysAmong(a, names) && KeysAmong(b, names)
    ensures MergeSort.Merge(a, b, cs) == MergeSort.Merge(a, b, true)
    decreases |a| + |b|
  {
    hide Before, Consistent;
    if a != [] && b != [] {
      assert a[0] in a && b[0] in b;
      assert forall e | e in a[1..] :: e in a;
      assert forall e | e in b[1..] :: e in b;
      BeforeSame(a[0], b[0], cs, names);
      MergeSame(a[1..], b, cs, names);
      MergeSame(a, b[1..], cs, names);
    }
  }

  /** Sorting does not depend on the case flag. */
  lemma {:induction false} SortSame<T(!new)>(s: seq<Entry<T>>, cs: bool, names: set<CString>)
    requires Consistent(names) && KeysAmong(s, names)
    ensures Sort(s, cs) == Sort(s, true)
    decreases |s|
  {
    hide Before, Consistent;
    AscendingSame(s, cs, names);
    if !Ascending(s, cs) {
      var h := Middle(|s|);
      assert forall e | e in s[..h] :: e in s;
      assert forall e | e in s[h..] :: e in s;
      SortSame(s[..h], cs, names);
      SortSame(s[h..], cs, names);
      SortMembers(s[..h], true);
      SortMembers(s[h..], true);
      MergeSame(Sort(s[..h], true), Sort(s[h..], true), cs, names);
    }
  }

  /** Nor does the comparison of trees. */
  lemma {:induction false} CompareSame(a: Json, b: Json, cs: bool, names: set<CString>)
    requires Consistent(names) && Named(a, names) && Named(b, names)
    ensures CompareSorted(a, b, cs) == CompareSorted(a, b, true)
    decreases a, 1, 0
  {
    hide Consistent, Strcmp, PairMembers, Sort;
    if SameType(a, b) {
      match a
      case Array(items) => PairItemsSame(items, b.items, cs, names);
      case Object(ms) => ObjectsSame(ms, b.members, cs, names);
      case _ =>
    }
  }

  lemma {:induction false} ObjectsSame(x: seq<Entry<Json>>, y: seq<Entry<Json>>, cs: bool, names: set<CString>)
    requires Consistent(names) && Named(Object(x), names) && Named(Object(y), names)
    ensures CompareSorted(Object(x), Object(y), cs) == CompareSorted(Object(x), Object(y), true)
    decreases Object(x), 0
  {
    hide Consistent, PairMembers, Sort;
    assert NamedMembers(x, names) && NamedMembers(y, names);
    SortSame(x, cs, names);
    SortSame(y, cs, names);
    SortMembers(x, true);
    SortMembers(y, true);
    assert NamedMembers(Sort(x, true), names) && NamedMembers(Sort(y, true), names);
    PairMembersSame(Sort(x, true), Sort(y, true), cs, Object(x), names);
  }

  lemma {:induction false} PairItemsSame(x: seq<Json>, y: seq<Json>, cs: bool, names: set<CString>)
    requires Consistent(names) && (forall e | e in x :: Named(e, names)) && (forall e | e in y :: Named(e, names))
    ensures PairItems(x, y, cs) == PairItems(x, y, true)
    decreases x, 0, 0
  {
    hide Consistent, Named, CompareSorted;
    if x != [] && y != [] {
      CompareSame(x[0], y[0], cs, names);
      PairItemsSame(x[1..], y[1..], cs, names);
    }
  }

  ghost predicate NamedMembers(ms: seq<Entry<Json>>, names: set<CString>)
  {
    forall e | e in ms :: e.key in names && Named(e.item, names)
  }

  lemma {:induction false} PairMembersSame(x: seq<Entry<Json>>, y: seq<Entry<Json>>, cs: bool, whole: Json, names: set<CString>)
    requires whole.Object? && forall e :: e in x ==> e in whole.members
    requires Consistent(names) && NamedMembers(x, names) && NamedMembers(y, names)
    ensures PairMembers(x, y, cs, whole) == PairMembers(x, y, true, whole)
    decreases whole, 0, |x|
  {
    hide Consistent, Named, CompareSorted, KeyOf, Strcmp;
    if x != [] && y != [] {
      assert x[0] in x && x[0] in whole.members && y[0] in y;
      ConsistentEqual(x[0].key, y[0].key, cs, names);
      ConsistentEqual(x[0].key, y[0].key, true, names);
      CompareSame(x[0].item, y[0].item, cs, names);
      PairMembersSame(x[1..], y[1..], cs, whole, names);
    }
  }

  lemma {:induction false} IndexSame(ms: seq<Entry<Json>>, name: CString, cs: bool, names: set<CString>)
    requires Consistent(names) && NamedMembers(ms, names) && name in names
    ensures IndexOf(ms, name, cs) == IndexOf(ms, name, true)
  {
    hide Consistent, Named, KeyOf;
    if ms != [] {
      assert ms[0] in ms;
      ConsistentEqual(ms[0].key, name, cs, names);
      ConsistentEqual(ms[0].key, name, true, names);
      IndexSame(ms[1..], name, cs, names);
    }
  }

  /** Nor does merging. */
  lemma {:induction false} MergePatchSame(target: Option<Json>, patch: Json, cs: bool, names: set<CString>)
    requires Consistent(names) && Named(patch, names) && (target.Some? ==> Named(target.value, names))
    ensures MergePatch.Merge(target, patch, cs) == MergePatch.Merge(target, patch, true)
    ensures MergePatch.Merge(target, patch, true).Some? ==> Named(MergePatch.Merge(target, patch, true).value, names)
    decreases patch, 1
  {
    hide Consistent, MergeMembers, Duplicate;
    match patch
    case Object(ps) =>
      var base := if target.Some? && target.value.Object? then target.value.members else [];
      MergeMembersSame(base, ps, cs, names);
    case _ => DuplicateIsCopy(patch, 0);
  }

  lemma {:induction false} MergeMembersSame(ms: seq<Entry<Json>>, ps: seq<Entry<Json>>, cs: bool, names: set<CString>)
    requires Consistent(names) && NamedMembers(ms, names) && NamedMembers(ps, names)
    ensures MergeMembers(ms, ps, cs) == MergeMembers(ms, ps, true)
    ensures MergeMembers(ms, ps, true).Some? ==> NamedMembers(MergeMembers(ms, ps, true).value, names)
    decreases ps, 0
  {
    hide Consistent, Named, MergePatch.Merge, IndexOf;
    if ps != [] {
      assert ps[0] in ps;
      var i := IndexOf(ms, ps[0].key, true);
      IndexSame(ms, ps[0].key, cs, names);
      var rest := if i < |ms| then RemoveAt(ms, i) else ms;
      var target := if i < |ms| then Some(ms[i].item) else None;
      assert i < |ms| ==> ms[i] in ms;
      if ps[0].item.Null? {
        MergeMembersSame(rest, ps[1..], cs, names);
      } else {
        MergePatchSame(target, ps[0].item, cs, names);
        var merged := MergePatch.Merge(target, ps[0].item, true);
        if merged.Some? {
          MergeMembersSame(rest + [Entry(ps[0].key, merged.value)], ps[1..], cs, names);
        }
      }
    }
  }

  // --- The generated patch is the difference ----------------------------------

  lemma OnlyOld(a: map<CString, Value>, k: CString, v: Value, b: map<CString, Value>)
    requires k !in a && k !in b
    ensures DifferenceMap(a[k := v], b) == DifferenceMap(a, b)[k := VNull]
  {
  }

  lemma OnlyNew(a: map<CString, Value>, b: map<CString, Value>, k: CString, v: Value)
    requires k !in a && k !in b
    ensures DifferenceMap(a, b[k := v]) == DifferenceMap(a, b)[k := v]
  {
  }

  lemma InBoth(a: map<CString, Value>, b: map<CString, Value>, k: CString, v: Value, w: Value)
    requires k !in a && k !in b
    ensures DifferenceMap(a[k := v], b[k := w])
         == if v == w then DifferenceMap(a, b) else DifferenceMap(a, b)[k := Difference(v, w)]
  {
  }

  /** A member list fit to be part of a patch. */
  ghost predicate Fit(ms: seq<Entry<Json>>, free: bool, names: set<CString>)
  {
    Distinct(ms, true) && forall e | e in ms :: FitEntry(e, free, names)
  }

  ghost predicate FitEntry(e: Entry<Json>, free: bool, names: set<CString>)
  {
    (free || e.key in names) && Named(e.item, names) && DistinctTree(e.item, true) && Copyable(e.item)
  }

  /** A member list of a document whose values can be copied. */
  ghost predicate Source(ms: seq<Entry<Json>>, free: bool, names: set<CString>)
  {
    forall e | e in ms :: SourceEntry(e, free, names)
  }

  ghost predicate SourceEntry(e: Entry<Json>, free: bool, names: set<CString>)
  {
    (free || e.key in names) && Named(e.item, names) && DistinctTree(e.item, true) && Height(e.item) <= 10000
  }

  lemma {:induction false} LowIsCopyable(j: Json)
    requires Height(j) <= 10000
    ensures Copyable(j)
  {
    match j
    case Object(ms) =>
      forall e | e in ms ensures Copyable(e.item) { LowIsCopyable(e.item); }
    case _ =>
  }

  lemma FitCons(e: Entry<Json>, rest: seq<Entry<Json>>, free: bool, names: set<CString>)
    requires Fit(rest, free, names) && FitEntry(e, free, names) && e.key !in Keys(rest, true)
    ensures Fit([e] + rest, free, names)
    ensures MapOf([e] + rest, true) == MapOf(rest, true)[e.key := Meaning(e.item, true)]
    ensures Keys([e] + rest, true) == Keys(rest, true) + {e.key}
  {
    assert ([e] + rest)[1..] == rest;
    MapOfHead([e] + rest, true);
  }

  lemma {:induction false} WalkMeans(a: seq<Entry<Json>>, b: seq<Entry<Json>>, cs: bool, h: nat, free: bool, names: set<CString>)
    requires forall e :: e in a ==> Height(e.item) < h
    requires Consistent(names) && Ascending(a, true) && Ascending(b, true)
    requires Source(a, free, names) && Source(b, free, names)
    ensures var r := GenerateWalk(a, b, cs, h);
      && Fit(r, free, names) && Keys(r, true) <= Keys(a, true) + Keys(b, true)
      && MapOf(r, true) == DifferenceMap(MapOf(a, true), MapOf(b, true))
    decreases h, |a| + |b|, 1
  {
    hide Consistent, MapOf, DifferenceMap, Difference, Meaning, Fit, FitEntry, Distinct, CompareSorted, Generate;
    if a == [] && b == [] {
      NothingToDo(free, names);
    } else {
      var difference := if a == [] then 1 else if b == [] then -1 else Strcmp(a[0].key, b[0].key);
      if difference < 0 {
        WalkOld(a, b, cs, h, free, names);
      } else if difference > 0 {
        WalkNew(a, b, cs, h, free, names);
      } else {
        WalkBoth(a, b, cs, h, free, names);
      }
    }
  }

  lemma NothingToDo(free: bool, names: set<CString>)
    ensures Fit([], free, names) && MapOf([], true) == DifferenceMap(MapOf([], true), MapOf([], true))
  {
    MapOfKeys([], true);
  }

  lemma {:induction false} WalkOld(a: seq<Entry<Json>>, b: seq<Entry<Json>>, cs: bool, h: nat, free: bool, names: set<CString>)
    requires forall e :: e in a ==> Height(e.item) < h
    requires Consistent(names) && Ascending(a, true) && Ascending(b, true)
    requires Source(a, free, names) && Source(b, free, names)
    requires a != [] && (b == [] || Strcmp(a[0].key, b[0].key) < 0)
    ensures var r := GenerateWalk(a, b, cs, h);
      && Fit(r, free, names) && Keys(r, true) <= Keys(a, true) + Keys(b, true)
      && MapOf(r, true) == DifferenceMap(MapOf(a, true), MapOf(b, true))
    decreases h, |a| + |b|, 0
  {
    hide Consistent, MapOf, DifferenceMap, Meaning, Fit, Distinct, CompareSorted, Generate;
    var k, e := a[0].key, Entry(a[0].key, Null);
    WalkMeans(a[1..], b, cs, h, free, names);
    HeadAndTail(a, true);
    BelowHead(b, k, true);
    MapOfKeys(a[1..], true);
    MapOfKeys(b, true);
    assert a[0] in a && SourceEntry(a[0], free, names);
    FitCons(e, GenerateWalk(a[1..], b, cs, h), free, names);
    OnlyOld(MapOf(a[1..], true), k, Meaning(a[0].item, true), MapOf(b, true));
    NullValue();
  }

  lemma NullValue()
    ensures Meaning(Null, true) == VNull
  {
  }

  lemma {:induction false} WalkNew(a: seq<Entry<Json>>, b: seq<Entry<Json>>, cs: bool, h: nat, free: bool, names: set<CString>)
    requires forall e :: e in a ==> Height(e.item) < h
    requires Consistent(names) && Ascending(a, true) && Ascending(b, true)
    requires Source(a, free, names) && Source(b, free, names)
    requires b != [] && (a == [] || Strcmp(a[0].key, b[0].key) > 0)
    ensures var r := GenerateWalk(a, b, cs, h);
      && Fit(r, free, names) && Keys(r, true) <= Keys(a, true) + Keys(b, true)
      && MapOf(r, true) == DifferenceMap(MapOf(a, true), MapOf(b, true))
    decreases h, |a| + |b|, 0
  {
    hide Consistent, MapOf, DifferenceMap, Meaning, Fit, Distinct, CompareSorted, Generate;
    var k := b[0].key;
    if a != [] {
      StrcmpAntisymmetric(a[0].key, k);
    }
    WalkMeans(a, b[1..], cs, h, free, names);
    HeadAndTail(b, true);
    BelowHead(a, k, true);
    MapOfKeys(b[1..], true);
    MapOfKeys(a, true);
    assert b[0] in b && SourceEntry(b[0], free, names);
    DuplicateIsCopy(b[0].item, 0);
    LowIsCopyable(b[0].item);
    FitCons(b[0], GenerateWalk(a, b[1..], cs, h), free, names);
    OnlyNew(MapOf(a, true), MapOf(b[1..], true), k, Meaning(b[0].item, true));
  }

  lemma {:induction false} WalkBoth(a: seq<Entry<Json>>, b: seq<Entry<Json>>, cs: bool, h: nat, free: bool, names: set<CString>)
    requires forall e :: e in a ==> Height(e.item) < h
    requires Consistent(names) && Ascending(a, true) && Ascending(b, true)
    requires Source(a, free, names) && Source(b, free, names)
    requires a != [] && b != [] && Strcmp(a[0].key, b[0].key) == 0
    ensures var r := GenerateWalk(a, b, cs, h);
      && Fit(r, free, names) && Keys(r, true) <= Keys(a, true) + Keys(b, true)
      && MapOf(r, true) == DifferenceMap(MapOf(a, true), MapOf(b, true))
    decreases h, |a| + |b|, 0
  {
    hide Consistent, MapOf, DifferenceMap, Difference, Meaning, Fit, Distinct, CompareSorted, Generate;
    var k, x, y := b[0].key, a[0].item, b[0].item;
    StrcmpZero(a[0].key, k);
    WalkMeans(a[1..], b[1..], cs, h, free, names);
    HeadAndTail(a, true);
    HeadAndTail(b, true);
    MapOfKeys(a[1..], true);
    MapOfKeys(b[1..], true);
    assert a[0] in a && SourceEntry(a[0], free, names) && b[0] in b && SourceEntry(b[0], free, names);
    InBoth(MapOf(a[1..], true), MapOf(b[1..], true), k, Meaning(x, true), Meaning(y, true));
    CompareMeans(x, y, cs, names);
    if !CompareSorted(x, y, cs) {
      GenerateMeans(x, y, false, false, names);
      FitCons(Entry(k, Generate(Some(x), Some(y), false).value), GenerateWalk(a[1..], b[1..], cs, h), free, names);
    }
  }

  lemma CompareMeans(x: Json, y: Json, cs: bool, names: set<CString>)
    requires Consistent(names) && Named(x, names) && Named(y, names) && DistinctTree(x, true) && DistinctTree(y, true)
    ensures CompareSorted(x, y, cs) <==> Meaning(x, true) == Meaning(y, true)
  {
    CompareSame(x, y, cs, names);
    CompareSortedMeans(x, y, true);
  }

  /** What the theorems ask of the documents. */
  ghost predicate Ready(j: Json, free: bool, names: set<CString>)
  {
    NamedBelow(j, names, free) && DistinctTree(j, true) && Height(j) <= 10000
  }

  /**
   The generated patch is the difference of the two documents; there is none
   exactly when they are two objects equal up to the order of members.
   */
  lemma {:induction false} GenerateMeans(from: Json, to: Json, cs: bool, free: bool, names: set<CString>)
    requires free ==> cs
    requires Consistent(names) && Ready(from, free, names) && Ready(to, free, names)
    ensures Generate(Some(from), Some(to), cs).None? <==>
      (from.Object? && to.Object? && Meaning(from, true) == Meaning(to, true))
    ensures Generate(Some(from), Some(to), cs).Some? ==>
      var patch := Generate(Some(from), Some(to), cs).value;
      && Meaning(patch, true) == Difference(Meaning(from, true), Meaning(to, true))
      && NamedBelow(patch, names, free) && DistinctTree(patch, true) && Copyable(patch)
    decreases 1 + Height(from), 1, 0
  {
    if !to.Object? || !from.Object? {
      DuplicateIsCopy(to, 0);
      LowIsCopyable(to);
    } else {
      GenerateObjects(from.members, to.members, cs, free, names);
      DifferenceObjects(MapOf(from.members, true), MapOf(to.members, true));
      var generated := Generate(Some(from), Some(to), cs);
      if generated.Some? {
        forall e | e in generated.value.members ensures FitEntry(e, free, names) {}
      }
    }
  }

  lemma SourceSorted(ms: seq<Entry<Json>>, cs: bool, free: bool, names: set<CString>)
    requires free ==> cs
    requires Consistent(names) && Ready(Object(ms), free, names)
    ensures var s := Sort(ms, cs);
      && Ascending(s, true) && Source(s, free, names) && MapOf(s, true) == MapOf(ms, true)
      && forall e :: e in s ==> Height(e.item) < Height(Object(ms))
  {
    if !free {
      SortSame(ms, cs, names);
    }
    SortedMembers(ms, true);
    MapOfPermutation(ms, Sort(ms, true), true);
    forall e | e in Sort(ms, true) ensures SourceEntry(e, free, names) && Height(e.item) < Height(Object(ms)) {
      SortMember(ms, true, e);
    }
  }

  lemma {:induction false} GenerateObjects(x: seq<Entry<Json>>, y: seq<Entry<Json>>, cs: bool, free: bool, names: set<CString>)
    requires free ==> cs
    requires Consistent(names) && Ready(Object(x), free, names) && Ready(Object(y), free, names)
    ensures var generated := Generate(Some(Object(x)), Some(Object(y)), cs);
      && (generated.None? <==> MapOf(x, true) == MapOf(y, true))
      && (generated.Some? ==>
            generated.value.Object? && Fit(generated.value.members, free, names)
            && MapOf(generated.value.members, true) == DifferenceMap(MapOf(x, true), MapOf(y, true)))
    decreases 1 + Height(Object(x)), 0, 0
  {
    hide MapOf, DifferenceMap, Difference, Fit, Distinct, Sort, GenerateWalk, Consistent;
    SourceSorted(x, cs, free, names);
    SourceSorted(y, cs, free, names);
    var a, b := Sort(x, cs), Sort(y, cs);
    WalkMeans(a, b, cs, Height(Object(x)), free, names);
    var members := GenerateWalk(a, b, cs, Height(Object(x)));
    KeysEmpty(members, true);
    DifferenceObjects(MapOf(x, true), MapOf(y, true));
  }

  // --- Generating and merging -------------------------------------------------

  /** No object reachable through objects has a null member. */
  predicate NullFree(v: Value)
  {
    v.VObject? ==> forall k | k in v.members :: v.members[k] != VNull && NullFree(v.members[k])
  }

  /**
   What a merge patch can express: where a member is new or has changed, the new
   document must not need a null there.
   */
  predicate Expressible(f: Value, t: Value)
    decreases t
  {
    if !t.VObject? then true
    else if !f.VObject? then NullFree(t)
    else
      forall k | k in t.members ::
        var w := t.members[k];
        (k in f.members && f.members[k] == w)
        || (w != VNull && if k in f.members then Expressible(f.members[k], w) else NullFree(w))
  }

  /** Merging a value into something that is not an object drops its nulls, and nothing else. */
  lemma {:induction false} MergeFresh(target: Option<Value>, v: Value)
    requires target.Some? ==> !target.value.VObject?
    ensures RfcMerge(target, v) == v <==> NullFree(v)
    decreases v
  {
    if v.VObject? {
      var r := MergeMaps(map[], v.members);
      RfcMergeObject(target, v.members);
      forall k | k in v.members
        ensures k in r && r[k] == v.members[k] <==> v.members[k] != VNull && NullFree(v.members[k])
      {
        MergeFresh(None, v.members[k]);
      }
      if forall k | k in v.members :: k in r && r[k] == v.members[k] {
        assert r == v.members;
      }
    }
  }

  /** Merging the difference into the old value gives the new one exactly when it can be expressed. */
  lemma {:induction false} MergeDifference(f: Value, t: Value)
    ensures RfcMerge(Some(f), Difference(f, t)) == t <==> Expressible(f, t)
    decreases t
  {
    if t.VObject? {
      if !f.VObject? {
        MergeFresh(Some(f), t);
      } else {
        MergeObjects(f.members, t.members);
        DifferenceObjects(f.members, t.members);
        RfcMergeObject(Some(f), DifferenceMap(f.members, t.members));
      }
    }
  }

  /** The change of one member can be expressed. */
  predicate ExpressibleAt(a: map<CString, Value>, b: map<CString, Value>, k: CString)
    requires k in b
  {
    (k in a && a[k] == b[k])
    || (b[k] != VNull && if k in a then Expressible(a[k], b[k]) else NullFree(b[k]))
  }

  predicate Restored(r: map<CString, Value>, b: map<CString, Value>, k: CString)
  {
    k in b && k in r && r[k] == b[k]
  }

  lemma AllRestored(r: map<CString, Value>, b: map<CString, Value>)
    requires r.Keys <= b.Keys
    ensures r == b <==> forall k | k in b :: Restored(r, b, k)
  {
    if forall k | k in b :: Restored(r, b, k) {
      assert forall k | k in b :: k in r && r[k] == b[k];
      assert r == b;
    }
  }

  lemma {:induction false} MergeObjects(a: map<CString, Value>, b: map<CString, Value>)
    ensures MergeMaps(a, DifferenceMap(a, b)) == b <==> Expressible(VObject(a), VObject(b))
    decreases VObject(b), 0
  {
    hide Expressible, ExpressibleAt, Restored;
    var r := MergeMaps(a, DifferenceMap(a, b));
    assert r.Keys <= b.Keys;
    AllRestored(r, b);
    forall k | k in b ensures Restored(r, b, k) <==> ExpressibleAt(a, b, k) {
      MergeMember(a, b, k);
    }
    ExpressibleObjects(a, b);
  }

  lemma ExpressibleObjects(a: map<CString, Value>, b: map<CString, Value>)
    ensures Expressible(VObject(a), VObject(b)) <==> forall k | k in b :: ExpressibleAt(a, b, k)
  {
  }

  lemma {:induction false} MergeMember(a: map<CString, Value>, b: map<CString, Value>, k: CString)
    requires k in b
    ensures Restored(MergeMaps(a, DifferenceMap(a, b)), b, k) <==> ExpressibleAt(a, b, k)
    decreases VObject(b), 0, 0
  {
    var d := DifferenceMap(a, b);
    if k in a && a[k] == b[k] {
      assert k !in d;
    } else if k in a {
      MergeDifference(a[k], b[k]);
    } else {
      MergeFresh(None, b[k]);
    }
  }

  lemma NullFreeIsExpressible(f: Value, t: Value)
    requires NullFree(t)
    ensures Expressible(f, t)
    decreases t
  {
    if t.VObject? && f.VObject? {
      forall k | k in t.members && k in f.members ensures Expressible(f.members[k], t.members[k]) {
        NullFreeIsExpressible(f.members[k], t.members[k]);
      }
    }
  }

  /**
   For documents whose names `strcmp` orders as it does their lower-case forms
   (in case-sensitive calls, names at the top are free): the generator returns
   no patch exactly when both documents are the same object up to the order of
   members; otherwise merging the patch into a copy of the old document
   succeeds, and gives the new document exactly when a merge patch can express
   the change, as it always can when the new document has no null member.
   */
  lemma GenerateThenMerge(from: Json, to: Json, csGenerate: bool, csMerge: bool, names: set<CString>)
    requires Consistent(names)
    requires Ready(from, csGenerate && csMerge, names) && Ready(to, csGenerate && csMerge, names)
    ensures Generate(Some(from), Some(to), csGenerate).None? <==>
      (from.Object? && to.Object? && Meaning(from, true) == Meaning(to, true))
    ensures Generate(Some(from), Some(to), csGenerate).Some? ==>
      var merged := MergePatch.Merge(Some(from), Generate(Some(from), Some(to), csGenerate).value, csMerge);
      && merged.Some?
      && (Meaning(merged.value, true) == Meaning(to, true) <==>
            Expressible(Meaning(from, true), Meaning(to, true)))
    ensures NullFree(Meaning(to, true)) ==> Expressible(Meaning(from, true), Meaning(to, true))
  {
    hide Consistent, Meaning, Generate, MergePatch.Merge, DistinctTree, RfcMerge;
    var generated := Generate(Some(from), Some(to), csGenerate);
    GenerateMeans(from, to, csGenerate, csGenerate && csMerge, names);
    if generated.Some? {
      if !csMerge {
        MergePatchSame(Some(from), generated.value, csMerge, names);
      }
      MergeMeans(Some(from), generated.value, true);
      MergeDifference(Meaning(from, true), Meaning(to, true));
    }
    if NullFree(Meaning(to, true)) {
      NullFreeIsExpressible(Meaning(from, true), Meaning(to, true));
    }
  }

  // --- Names on which the orders differ -------------------------------------------

  /** Generating a patch and merging it into a copy of the old document gives the new one. */
  ghost predicate RoundTrips(from: Json, to: Json, csGenerate: bool, csMerge: bool)
  {
    var patch := Generate(Some(from), Some(to), csGenerate);
    if patch.None? then from.Object? && to.Object? && Meaning(from, true) == Meaning(to, true)
    else
      var merged := MergePatch.Merge(Some(from), patch.value, csMerge);
      merged.Some? && Meaning(merged.value, true) == Meaning(to, true)
  }

  /** Documents with such names, of which a merge patch can express the difference. */
  ghost predicate Suitable(from: Json, to: Json, free: bool, names: set<CString>)
  {
    Ready(from, free, names) && Ready(to, free, names) && Expressible(Meaning(from, true), Meaning(to, true))
  }

  /** What is generated when the walk meets `p` before `q` although `strcmp` puts it behind. */
  function Misled(p: CString, q: CString, n: Int): seq<Entry<Json>>
  {
    [Entry(q, Number(n)), Entry(p, Null), Entry(q, Null)]
  }

  lemma MisledWalk(x: Entry<Json>, y: Entry<Json>, h: nat)
    requires h > 0 && x.item.Number? && y.item.Number? && Strcmp(x.key, y.key) > 0
    ensures GenerateWalk([x, y], [y], false, h) == Misled(x.key, y.key, y.item.n)
  {
    hide KeyOf, Strcmp, CompareSorted;
    assert [x, y][1..] == [y] && [y][1..] == [];
    var x0, y0 := Entry(x.key, Null), Entry(y.key, Null);
    assert GenerateWalk([y], [], false, h) == [y0];
    assert GenerateWalk([x, y], [], false, h) == [x0, y0];
    assert Duplicate(y.item, 0) == Some(y.item);
  }

  /** Merging removes what it has just set. */
  lemma MisledMerge(ms: seq<Entry<Json>>, x: Entry<Json>, y: Entry<Json>, cs: bool)
    requires y.item.Number?
    requires ms == [y, x] || (ms == [x, y] && KeyOf(cs, x.key) != KeyOf(cs, y.key))
    ensures MergeMembers(ms, Misled(x.key, y.key, y.item.n), cs) == Some([])
  {
    hide KeyOf;
    var ps := Misled(x.key, y.key, y.item.n);
    var x0, y0 := Entry(x.key, Null), Entry(y.key, Null);
    assert ps[1..] == [x0, y0] && [x0, y0][1..] == [y0] && [y0][1..] == [];
    var i := IndexOf(ms, y.key, cs);
    assert i == if ms == [y, x] then 0 else 1 by {
      assert ms[1..] == if ms == [y, x] then [x] else [y];
    }
    assert RemoveAt(ms, i) == [x] && [x] + [y] == [x, y];
    assert MergePatch.Merge(Some(ms[i].item), y.item, cs) == Some(y.item);
    assert IndexOf([x, y], x.key, cs) == 0 && RemoveAt([x, y], 0) == [y];
    assert IndexOf([y], y.key, cs) == 0 && RemoveAt([y], 0) == [];
    assert MergeMembers([], [], cs) == Some([]);
    assert MergeMembers([y], [y0], cs) == Some([]);
    assert MergeMembers([x, y], [x0, y0], cs) == Some([]);
  }

  lemma SortPair(x: Entry<Json>, y: Entry<Json>, cs: bool)
    ensures Sort([x, y], cs) == if Before(x, y, cs) then [x, y] else [y, x]
    ensures Sort([x], cs) == [x]
  {
    hide Before;
    var s := [x, y];
    assert s[1..] == [y] && s[..1] == [x];
    assert Sort([x], cs) == [x] && Sort([y], cs) == [y];
    assert [x][1..] == [] && [y][1..] == [];
    if !Before(x, y, cs) {
      assert MergeSort.Merge([x], [y], cs) == [y] + MergeSort.Merge([x], [], cs);
    }
  }

  /** A name that comes between the orders: the generated patch removes what it has just set. */
  lemma Mislead(from: seq<Entry<Json>>, x: Entry<Json>, y: Entry<Json>, csMerge: bool)
    requires x.item.Number? && y.item.Number? && Strcmp(x.key, y.key) > 0
    requires Sort(from, false) == [x, y]
    requires from == [y, x] || (from == [x, y] && KeyOf(csMerge, x.key) != KeyOf(csMerge, y.key))
    ensures Generate(Some(Object(from)), Some(Object([y])), false) == Some(Object(Misled(x.key, y.key, y.item.n)))
    ensures MergePatch.Merge(Some(Object(from)), Object(Misled(x.key, y.key, y.item.n)), csMerge) == Some(Object([]))
  {
    hide Sort, GenerateWalk, MergeMembers, KeyOf, Strcmp;
    MisledWalk(x, y, Height(Object(from)));
    MisledMerge(from, x, y, csMerge);
    SortSingle(y, false);
  }

  lemma SortSingle(x: Entry<Json>, cs: bool)
    ensures Sort([x], cs) == [x]
  {
  }

  /** Two members whose order the sort and `strcmp` do not agree on. */
  lemma Misplaced(k: CString, l: CString) returns (ms: seq<Entry<Json>>, x: Entry<Json>, y: Entry<Json>)
    requires !SameOrder(k, l)
    ensures x.item.Number? && y.item.Number? && {x.key, y.key} == {k, l}
    ensures Strcmp(x.key, y.key) > 0 && Sort(ms, false) == [x, y]
    ensures ms == [y, x] || (ms == [x, y] && Fold(x.key) != Fold(y.key))
  {
    hide Fold, Strcmp, Sort;
    StrcmpZero(k, l);
    StrcmpZero(Fold(k), Fold(l));
    StrcmpAntisymmetric(k, l);
    StrcmpAntisymmetric(Fold(k), Fold(l));
    if Strcmp(Fold(k), Fold(l)) < 0 {
      x, y := Entry(k, Number(1)), Entry(l, Number(2));
      ms := [x, y];
    } else {
      x, y := Entry(l, Number(1)), Entry(k, Number(2));
      ms := if Fold(k) == Fold(l) then [y, x] else [x, y];
    }
    SortPair(x, y, false);
    SortPair(y, x, false);
  }

  /** Objects of numbers. */
  ghost predicate Numbers(ms: seq<Entry<Json>>, names: set<CString>)
  {
    Distinct(ms, true) && forall e | e in ms :: e.item.Number? && e.key in names
  }

  lemma {:induction false} NumbersHeight(ms: seq<Entry<Json>>)
    requires forall e | e in ms :: e.item.Number?
    ensures HeightOfMembers(ms) <= 1
  {
    if ms != [] {
      assert ms[0] in ms && forall e | e in ms[1..] :: e in ms;
      NumbersHeight(ms[1..]);
    }
  }

  lemma NumbersReady(ms: seq<Entry<Json>>, free: bool, names: set<CString>)
    requires Numbers(ms, names)
    ensures Ready(Object(ms), free, names) && Named(Object(ms), names)
    ensures Height(Object(ms)) <= 1 && DistinctTree(Object(ms), true)
  {
    NumbersHeight(ms);
  }

  lemma MisplacedNumbers(x: Entry<Json>, y: Entry<Json>, names: set<CString>)
    requires x.item.Number? && y.item.Number? && x.key != y.key && x.key in names && y.key in names
    ensures Numbers([x, y], names) && Numbers([y, x], names) && Numbers([y], names) && Numbers([], names)
  {
    OneDistinct(x);
    OneDistinct(y);
    KeysAppend([x], y, true);
    KeysAppend([y], x, true);
    hide Distinct, Keys;
    assert [x] + [y] == [x, y] && [y] + [x] == [y, x];
  }

  lemma OneDistinct(e: Entry<Json>)
    ensures Distinct([e], true) && Distinct<Json>([], true) && Keys([e], true) == {e.key}
  {
    KeysAppend([], e, true);
    assert [] + [e] == [e];
    assert KeyOf(true, e.key) == e.key;
  }

  lemma EmptyMeans()
    ensures Meaning(Object([]), true) == VObject(map[])
  {
    MapOfKeys([], true);
  }

  lemma OneMeans(e: Entry<Json>)
    ensures Meaning(Object([e]), true) == VObject(map[e.key := Meaning(e.item, true)])
  {
    assert [e][1..] == [];
    MapOfHead([e], true);
    MapOfKeys([], true);
    hide Meaning;
  }

  /** A member that holds one of these objects. */
  lemma BelowReady(k: CString, j: Json, free: bool, names: set<CString>)
    requires k in names && Named(j, names) && Height(j) <= 1 && DistinctTree(j, true)
    ensures Ready(Object([Entry(k, j)]), free, names)
  {
    var ms := [Entry(k, j)];
    OneDistinct(ms[0]);
    hide Distinct;
    assert ms[1..] == [] && HeightOfMembers([]) == 0;
    assert HeightOfMembers(ms) <= 2;
  }

  /** For names that are ordered differently there are documents that do not come back, whatever the flags. */
  lemma InconsistentMisleads(k: CString, l: CString, csGenerate: bool, csMerge: bool, names: set<CString>)
    returns (from: Json, to: Json)
    requires k in names && l in names && !SameOrder(k, l)
    ensures Suitable(from, to, csGenerate && csMerge, names) && !RoundTrips(from, to, csGenerate, csMerge)
  {
    hide Strcmp, Fold, Sort, Generate, MergePatch.Merge, Meaning, Ready, Named, Numbers, CompareSorted, Expressible;
    var ms, x, y := Misplaced(k, l);
    assert x.key in {k, l} && y.key in {k, l};
    StrcmpZero(x.key, y.key);
    var free := csGenerate && csMerge;
    var patch := Object(Misled(x.key, y.key, y.item.n));
    MisplacedNumbers(x, y, names);
    NumbersReady(ms, free, names);
    NumbersReady([y], free, names);
    Mislead(ms, x, y, csMerge);
    EmptyMeans();
    OneMeans(y);
    assert y.key in Meaning(Object([y]), true).members;
    assert Meaning(Object([]), true) != Meaning(Object([y]), true);
    NoNulls(k, y);
    if !csGenerate {
      from, to := Object(ms), Object([y]);
    } else {
      from, to := Object([Entry(k, Object(ms))]), Object([Entry(k, Object([y]))]);
      SizesDiffer(ms, [y], true);
      BelowGenerated(k, Object(ms), Object([y]), patch);
      BelowMerged(k, Object(ms), patch, Object([]), csMerge);
      BelowReady(k, Object(ms), free, names);
      BelowReady(k, Object([y]), free, names);
      OneMeans(Entry(k, Object([])));
      OneMeans(Entry(k, Object([y])));
      MapsDiffer(k, Meaning(Object([]), true), Meaning(Object([y]), true));
    }
    NullFreeIsExpressible(Meaning(from, true), Meaning(to, true));
  }

  lemma MapsDiffer(k: CString, v: Value, w: Value)
    requires v != w
    ensures map[k := v] != map[k := w]
  {
    assert map[k := v][k] != map[k := w][k];
  }

  lemma NoNulls(k: CString, y: Entry<Json>)
    requires y.item.Number?
    ensures NullFree(Meaning(Object([y]), true)) && NullFree(Meaning(Object([Entry(k, Object([y]))]), true))
  {
    OneMeans(y);
    OneMeans(Entry(k, Object([y])));
    assert NullFree(Meaning(y.item, true));
    hide Meaning;
  }

  /**
   The condition on names is exact, for each pair of flags: all documents with such
   names, of which a merge patch can express the difference, come back if and only
   if `strcmp` orders the names as it does their lower-case forms.
   */
  lemma ConsistentIff(names: set<CString>, csGenerate: bool, csMerge: bool)
    ensures Consistent(names) <==>
      forall from, to | Suitable(from, to, csGenerate && csMerge, names) :: RoundTrips(from, to, csGenerate, csMerge)
  {
    hide Suitable, RoundTrips, SameOrder;
    if Consistent(names) {
      forall from, to | Suitable(from, to, csGenerate && csMerge, names) ensures RoundTrips(from, to, csGenerate, csMerge) {
        SuitableReturns(from, to, csGenerate, csMerge, names);
      }
    } else {
      var k, l :| k in names && l in names && !SameOrder(k, l);
      var from, to := InconsistentMisleads(k, l, csGenerate, csMerge, names);
    }
  }

  lemma SuitableReturns(from: Json, to: Json, csGenerate: bool, csMerge: bool, names: set<CString>)
    requires Consistent(names) && Suitable(from, to, csGenerate && csMerge, names)
    ensures RoundTrips(from, to, csGenerate, csMerge)
  {
    hide Consistent, Ready, Meaning, Generate, MergePatch.Merge, Expressible;
    GenerateThenMerge(from, to, csGenerate, csMerge, names);
  }

  // --- A capital letter ---------------------------------------------------------

  const LOWER := Entry("a", Number(1))
  const CAPITAL := Entry("B", Number(2))
  const NO_LOWER := Entry("a", Null)
  const NO_CAPITAL := Entry("B", Null)

  lemma CapitalKeys()
    ensures KeyOf(false, "a") == "a" && KeyOf(false, "B") == "b"
    ensures Strcmp("a", "b") < 0 && Strcmp("a", "B") > 0
  {
    assert Fold("a")[0] == 'a' && Fold("B")[0] == 'b';
  }

  lemma CapitalWalk(h: nat)
    requires h > 0
    ensures GenerateWalk([LOWER, CAPITAL], [CAPITAL], false, h) == [CAPITAL, NO_LOWER, NO_CAPITAL]
  {
    CapitalKeys();
    hide KeyOf, Strcmp;
    assert [LOWER, CAPITAL][1..] == [CAPITAL] && [CAPITAL][1..] == [];
    assert GenerateWalk([CAPITAL], [], false, h) == [NO_CAPITAL];
    assert GenerateWalk([LOWER, CAPITAL], [], false, h) == [NO_LOWER, NO_CAPITAL];
    assert Duplicate(CAPITAL.item, 0) == Some(CAPITAL.item);
  }

  lemma CapitalMerge()
    ensures MergeMembers([LOWER, CAPITAL], [CAPITAL, NO_LOWER, NO_CAPITAL], false) == Some([])
  {
    CapitalKeys();
    hide KeyOf;
    assert [CAPITAL, NO_LOWER, NO_CAPITAL][1..] == [NO_LOWER, NO_CAPITAL];
    assert [NO_LOWER, NO_CAPITAL][1..] == [NO_CAPITAL] && [NO_CAPITAL][1..] == [];
    assert IndexOf([LOWER, CAPITAL], "B", false) == 1 && IndexOf([LOWER, CAPITAL], "a", false) == 0;
    assert IndexOf([CAPITAL], "B", false) == 0;
    assert RemoveAt([LOWER, CAPITAL], 1) == [LOWER] && RemoveAt([LOWER, CAPITAL], 0) == [CAPITAL];
    assert RemoveAt([CAPITAL], 0) == [];
    assert MergeMembers([CAPITAL], [NO_CAPITAL], false) == Some([]);
    assert MergeMembers([LOWER, CAPITAL], [NO_LOWER, NO_CAPITAL], false) == Some([]);
    assert MergePatch.Merge(Some(CAPITAL.item), CAPITAL.item, false) == Some(CAPITAL.item);
    assert [LOWER] + [CAPITAL] == [LOWER, CAPITAL];
  }

  /**
   With a capital letter the case-insensitive order and `strcmp` disagree: the
   walk misses that `B` is in both documents, and the patch removes it.
   */
  lemma CapitalsMislead()
    ensures var from, to := Object([LOWER, CAPITAL]), Object([CAPITAL]);
      var patch := Generate(Some(from), Some(to), false);
      patch.Some? && MergePatch.Merge(Some(from), patch.value, false) == Some(Object([]))
  {
    CapitalMerge();
    CapitalGenerated();
    hide Generate, MergeMembers;
  }

  /** The case-sensitive generator goes wrong in the same way below the top, where it ignores case all the same. */
  lemma CapitalsMisleadBelow()
    ensures var from, to := Object([Entry("x", Object([LOWER, CAPITAL]))]), Object([Entry("x", Object([CAPITAL]))]);
      var patch := Generate(Some(from), Some(to), true);
      patch.Some? && MergePatch.Merge(Some(from), patch.value, true) == Some(Object([Entry("x", Object([]))]))
  {
    var x, y := Object([LOWER, CAPITAL]), Object([CAPITAL]);
    var patch := Object([CAPITAL, NO_LOWER, NO_CAPITAL]);
    CapitalGenerated();
    CapitalMergeExact();
    SizesDiffer([LOWER, CAPITAL], [CAPITAL], true);
    hide Generate, MergePatch.Merge, CompareSorted;
    BelowGenerated("x", x, y, patch);
    BelowMerged("x", x, patch, Object([]), true);
  }

  lemma CapitalGenerated()
    ensures Generate(Some(Object([LOWER, CAPITAL])), Some(Object([CAPITAL])), false)
         == Some(Object([CAPITAL, NO_LOWER, NO_CAPITAL]))
  {
    assert LOWER in [LOWER, CAPITAL];
    CapitalWalk(Height(Object([LOWER, CAPITAL])));
    hide Sort, GenerateWalk;
  }

  lemma CapitalMergeExact()
    ensures MergePatch.Merge(Some(Object([LOWER, CAPITAL])), Object([CAPITAL, NO_LOWER, NO_CAPITAL]), true)
         == Some(Object([]))
  {
    assert [CAPITAL, NO_LOWER, NO_CAPITAL][1..] == [NO_LOWER, NO_CAPITAL];
    assert [NO_LOWER, NO_CAPITAL][1..] == [NO_CAPITAL] && [NO_CAPITAL][1..] == [];
    assert IndexOf([LOWER, CAPITAL], "B", true) == 1 && IndexOf([LOWER, CAPITAL], "a", true) == 0;
    assert IndexOf([CAPITAL], "B", true) == 0;
    assert RemoveAt([LOWER, CAPITAL], 1) == [LOWER] && RemoveAt([LOWER, CAPITAL], 0) == [CAPITAL];
    assert RemoveAt([CAPITAL], 0) == [];
    assert MergeMembers([CAPITAL], [NO_CAPITAL], true) == Some([]);
    assert MergeMembers([LOWER, CAPITAL], [NO_LOWER, NO_CAPITAL], true) == Some([]);
    assert MergePatch.Merge(Some(CAPITAL.item), CAPITAL.item, true) == Some(CAPITAL.item);
    assert [LOWER] + [CAPITAL] == [LOWER, CAPITAL];
  }

  lemma {:induction false} PairsAreMany(x: seq<Entry<Json>>, y: seq<Entry<Json>>, cs: bool, whole: Json)
    requires whole.Object? && forall e :: e in x ==> e in whole.members
    requires PairMembers(x, y, cs, whole)
    ensures |x| == |y|
  {
    hide CompareSorted, Strcmp, KeyOf;
    if x != [] && y != [] {
      PairsAreMany(x[1..], y[1..], cs, whole);
    }
  }

  /** Objects of different sizes are not equal. */
  lemma SizesDiffer(x: seq<Entry<Json>>, y: seq<Entry<Json>>, cs: bool)
    requires |x| != |y|
    ensures !CompareSorted(Object(x), Object(y), cs)
  {
    hide PairMembers, Sort;
    SortMembers(x, cs);
    var a, b := Object(x), Object(y);
    assert SameType(a, b) && CompareSorted(a, b, cs) == PairMembers(Sort(x, cs), Sort(y, cs), cs, a);
    if CompareSorted(a, b, cs) {
      PairsAreMany(Sort(x, cs), Sort(y, cs), cs, a);
    }
  }

  /** One member that differs: the patch for its value, under its name. */
  lemma BelowGenerated(k: CString, x: Json, y: Json, patch: Json)
    requires Generate(Some(x), Some(y), false) == Some(patch) && !CompareSorted(x, y, true)
    ensures Generate(Some(Object([Entry(k, x)])), Some(Object([Entry(k, y)])), true)
         == Some(Object([Entry(k, patch)]))
  {
    var a, b := [Entry(k, x)], [Entry(k, y)];
    BelowWalk(k, x, y, patch, Height(Object(a)));
    hide CompareSorted, GenerateWalk;
    assert Sort(a, true) == a && Sort(b, true) == b;
  }

  lemma BelowWalk(k: CString, x: Json, y: Json, patch: Json, h: nat)
    requires Generate(Some(x), Some(y), false) == Some(patch) && !CompareSorted(x, y, true)
    requires h == Height(Object([Entry(k, x)]))
    ensures GenerateWalk([Entry(k, x)], [Entry(k, y)], true, h) == [Entry(k, patch)]
  {
    hide CompareSorted, Generate, Strcmp;
    var a, b := [Entry(k, x)], [Entry(k, y)];
    assert a[0] in a && a[1..] == [] && b[1..] == [];
    StrcmpZero(k, k);
    assert GenerateWalk([], [], true, h) == [];
  }

  lemma BelowMerged(k: CString, x: Json, patch: Json, merged: Json, cs: bool)
    requires MergePatch.Merge(Some(x), patch, cs) == Some(merged) && !patch.Null?
    ensures MergePatch.Merge(Some(Object([Entry(k, x)])), Object([Entry(k, patch)]), cs)
         == Some(Object([Entry(k, merged)]))
  {
    var ms, ps := [Entry(k, x)], [Entry(k, patch)];
    assert ps[1..] == [] && IndexOf(ms, k, cs) == 0 && RemoveAt(ms, 0) == [];
    var all: seq<Entry<Json>> := [Entry(k, merged)];
    assert [] + all == all;
    assert MergeMembers(all, [], cs) == Some(all);
    hide MergePatch.Merge;
    assert MergeMembers(ms, ps, cs) == Some(all);
  }
}
