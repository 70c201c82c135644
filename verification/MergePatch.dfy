/**
 JSON merge patch (RFC 7396): applying a patch, generating one, and when the
 two are inverse.
 */
module MergePatch {
  import opened Bytes
  import opened Sequences
  import opened Json

  // --- Applying -------------------------------------------------------------

  /** `merge_patch`; no target and no result are NULL pointers. */
  function Merge(target: Option<Json>, patch: Json, cs: bool): Option<Json>
    decreases patch, 1
  {
    match patch
    case Object(ps) =>
      var base := if target.Some? && target.value.Object? then target.value.members else [];
      (match MergeMembers(base, ps, cs)
       case None => None
       case Some(ms) => Some(Object(ms)))
    case _ => Duplicate(patch, 0)
  }

  /** The loop over the members of the patch. */
  function MergeMembers(ms: seq<Entry<Json>>, ps: seq<Entry<Json>>, cs: bool): Option<seq<Entry<Json>>>
    decreases ps, 0
  {
    if ps == [] then Some(ms)
    else
      var i := IndexOf(ms, ps[0].key, cs);
      var rest := if i < |ms| then RemoveAt(ms, i) else ms;
      if ps[0].item.Null? then MergeMembers(rest, ps[1..], cs)
      else
        match Merge(if i < |ms| then Some(ms[i].item) else None, ps[0].item, cs)
        case None => None
        case Some(merged) => MergeMembers(rest + [Entry(ps[0].key, merged)], ps[1..], cs)
  }

  /** The recursion and the loop of `merge_patch`. */
  method MergePatch(target: Option<Json>, patch: Json, cs: bool) returns (result: Option<Json>)
    ensures result == Merge(target, patch, cs)
    decreases patch
  {
    if !patch.Object? {
      return Duplicate(patch, 0);
    }
    var ms := if target.Some? && target.value.Object? then target.value.members else [];
    var k := 0;
    while k < |patch.members|
      invariant 0 <= k <= |patch.members|
      invariant Merge(target, patch, cs)
        == match MergeMembers(ms, patch.members[k..], cs) case None => None case Some(all) => Some(Object(all))
    {
      var child := patch.members[k];
      assert patch.members[k..][0] == child && patch.members[k..][1..] == patch.members[k + 1..];
      var i := GetObjectItem(ms, child.key, cs);
      var replaceMe: Option<Json> := None;
      if i < |ms| {
        replaceMe := Some(ms[i].item);
        ms := RemoveAt(ms, i);
      }
      if !child.item.Null? {
        var replacement := MergePatch(replaceMe, child.item, cs);
        if replacement.None? {
          return None;
        }
        ms := ms + [Entry(child.key, replacement.value)];
      }
      k := k + 1;
    }
    return Some(Object(ms));
  }

  /** The algorithm of RFC 7396, section 2, on unordered objects. */
  function RfcMerge(target: Option<Value>, patch: Value): Value
    decreases patch
  {
    match patch
    case VObject(ps) =>
      var base: map<CString, Value> := if target.Some? && target.value.VObject? then target.value.members else map[];
      VObject(map k | k in base.Keys + ps.Keys && (k in ps ==> ps[k] != VNull) ::
        if k in ps then RfcMerge(At(base, k), ps[k]) else base[k])
    case _ => patch
  }

  function At<T>(m: map<CString, T>, k: CString): Option<T>
  {
    if k in m then Some(m[k]) else None
  }

  function BaseOf(target: Option<Value>): map<CString, Value>
  {
    if target.Some? && target.value.VObject? then target.value.members else map[]
  }

  /** The members of an RFC merge. */
  function MergeMaps(base: map<CString, Value>, ps: map<CString, Value>): map<CString, Value>
  {
    map k | k in base.Keys + ps.Keys && (k in ps ==> ps[k] != VNull) ::
      if k in ps then RfcMerge(At(base, k), ps[k]) else base[k]
  }

  lemma RfcMergeObject(target: Option<Value>, ps: map<CString, Value>)
    ensures RfcMerge(target, VObject(ps)) == VObject(MergeMaps(BaseOf(target), ps))
  {
    assert RfcMerge(target, VObject(ps)).members == MergeMaps(BaseOf(target), ps);
  }

  /** Whether everything that has to be duplicated can be: limited only by the height of copied values. */
  predicate Copyable(patch: Json)
  {
    match patch
    case Object(ps) => forall p | p in ps :: Copyable(p.item)
    case _ => Height(patch) <= 10000
  }

  ghost predicate CopyableMembers(ps: seq<Entry<Json>>)
  {
    forall p | p in ps :: Copyable(p.item)
  }

  function MeaningOf(j: Option<Json>, cs: bool): Option<Value>
  {
    match j
    case None => None
    case Some(v) => Some(Meaning(v, cs))
  }

  /** One member of the patch, then the others. */
  lemma MergeMapsStep(base: map<CString, Value>, k: CString, v: Value, ps: map<CString, Value>)
    requires k !in ps
    ensures MergeMaps(base, ps[k := v])
         == MergeMaps(if v == VNull then base - {k} else (base - {k})[k := RfcMerge(At(base, k), v)], ps)
  {
    var next := if v == VNull then base - {k} else (base - {k})[k := RfcMerge(At(base, k), v)];
    var l, r := MergeMaps(base, ps[k := v]), MergeMaps(next, ps);
    assert forall x :: x in l <==> x in r;
    forall x | x in l ensures l[x] == r[x] {
      if x != k {
        assert At(base, x) == At(next, x);
      }
    }
  }

  lemma {:induction false} MergeMeans(target: Option<Json>, patch: Json, cs: bool)
    requires DistinctTree(patch, cs) && (target.Some? ==> DistinctTree(target.value, cs))
    ensures Merge(target, patch, cs).Some? <==> Copyable(patch)
    ensures Merge(target, patch, cs).Some? ==>
      var result := Merge(target, patch, cs).value;
      DistinctTree(result, cs) && Meaning(result, cs) == RfcMerge(MeaningOf(target, cs), Meaning(patch, cs))
    decreases patch, 1
  {
    hide KeyOf, ToMap, MemberMeanings, MergeMaps, RfcMerge, MergeMembers, Distinct;
    match patch
    case Object(ps) =>
      var base := if target.Some? && target.value.Object? then target.value.members else [];
      DistinctNil(cs);
      MergeMembersMeans(base, ps, cs);
      RfcMergeObject(MeaningOf(target, cs), MapOf(ps, cs));
      assert BaseOf(MeaningOf(target, cs)) == MapOf(base, cs);
    case _ =>
      DuplicateIsCopy(patch, 0);
      RfcMergeOther(MeaningOf(target, cs), Meaning(patch, cs));
  }

  lemma RfcMergeOther(target: Option<Value>, patch: Value)
    requires !patch.VObject?
    ensures RfcMerge(target, patch) == patch
  {
  }

  lemma DistinctNil(cs: bool)
    ensures Distinct<Entry<Json>>([], cs) && Distinct<Json>([], cs) && MapOf([], cs) == map[]
  {
    MapOfKeys([], cs);
  }

  lemma {:induction false} MergeMembersMeans(ms: seq<Entry<Json>>, ps: seq<Entry<Json>>, cs: bool)
    requires Distinct(ms, cs) && DistinctMembers(ms, cs)
    requires Distinct(ps, cs) && DistinctMembers(ps, cs)
    ensures MergeMembers(ms, ps, cs).Some? <==> CopyableMembers(ps)
    ensures MergeMembers(ms, ps, cs).Some? ==>
      var all := MergeMembers(ms, ps, cs).value;
      Distinct(all, cs) && DistinctMembers(all, cs) && MapOf(all, cs) == MergeMaps(MapOf(ms, cs), MapOf(ps, cs))
    decreases ps, 0
  {
    hide KeyOf, Meaning, MapOf, ToMap, Distinct, RfcMerge, MergeMaps, Keys, Merge;
    if ps == [] {
      NothingToMerge(ms, cs);
    } else {
      var i := IndexOf(ms, ps[0].key, cs);
      var old_item := if i < |ms| then Some(ms[i].item) else None;
      DistinctTail(ps, cs);
      assert ps[0] in ps && ps == [ps[0]] + ps[1..];
      assert i < |ms| ==> ms[i] in ms;
      TakeOut(ms, ps[0].key, cs);
      MapOfHead(ps, cs);
      MergeMapsStep(MapOf(ms, cs), KeyOf(cs, ps[0].key), Meaning(ps[0].item, cs), MapOf(ps[1..], cs));
      NullMeans(ps[0].item, cs);
      if ps[0].item.Null? {
        MergeMembersMeans(if i < |ms| then RemoveAt(ms, i) else ms, ps[1..], cs);
      } else {
        MergeMeans(old_item, ps[0].item, cs);
        FoundMeans(ms, ps[0].key, cs);
        var merged := Merge(old_item, ps[0].item, cs);
        if merged.Some? {
          PutBack(ms, Entry(ps[0].key, merged.value), cs);
          MergeMembersMeans(Replaced(ms, Entry(ps[0].key, merged.value), cs), ps[1..], cs);
        }
      }
    }
  }

  /** The member of a name taken out, and a new one of that name at the end. */
  function Replaced(ms: seq<Entry<Json>>, e: Entry<Json>, cs: bool): seq<Entry<Json>>
  {
    var i := IndexOf(ms, e.key, cs);
    (if i < |ms| then RemoveAt(ms, i) else ms) + [e]
  }

  lemma PutBack(ms: seq<Entry<Json>>, e: Entry<Json>, cs: bool)
    requires Distinct(ms, cs) && DistinctMembers(ms, cs) && DistinctTree(e.item, cs)
    ensures Distinct(Replaced(ms, e, cs), cs) && DistinctMembers(Replaced(ms, e, cs), cs)
    ensures MapOf(Replaced(ms, e, cs), cs)
         == (MapOf(ms, cs) - {KeyOf(cs, e.key)})[KeyOf(cs, e.key) := Meaning(e.item, cs)]
  {
    hide KeyOf, Meaning, MapOf;
    var i := IndexOf(ms, e.key, cs);
    var rest := if i < |ms| then RemoveAt(ms, i) else ms;
    TakeOut(ms, e.key, cs);
    KeysAppend(rest, e, cs);
    MapOfAppend(rest, e, cs);
  }

  lemma FoundMeans(ms: seq<Entry<Json>>, name: CString, cs: bool)
    ensures var i := IndexOf(ms, name, cs);
      MeaningOf(if i < |ms| then Some(ms[i].item) else None, cs) == At(MapOf(ms, cs), KeyOf(cs, name))
  {
    MapOfIndexOf(ms, name, cs);
  }

  lemma NothingToMerge(ms: seq<Entry<Json>>, cs: bool)
    ensures MergeMaps(MapOf(ms, cs), MapOf([], cs)) == MapOf(ms, cs)
  {
    MapOfKeys([], cs);
  }

  lemma NullMeans(j: Json, cs: bool)
    ensures j.Null? <==> Meaning(j, cs) == VNull
  {
  }

  lemma DistinctTail(ps: seq<Entry<Json>>, cs: bool)
    requires ps != [] && Distinct(ps, cs)
    ensures Distinct(ps[1..], cs) && KeyOf(cs, ps[0].key) !in MapOf(ps[1..], cs)
  {
    MapOfKeys(ps[1..], cs);
  }

  /** Detaching the member of a name takes it out of the map. */
  lemma TakeOut(ms: seq<Entry<Json>>, name: CString, cs: bool)
    requires Distinct(ms, cs) && DistinctMembers(ms, cs)
    ensures var i := IndexOf(ms, name, cs);
      var rest := if i < |ms| then RemoveAt(ms, i) else ms;
      && Distinct(rest, cs) && DistinctMembers(rest, cs)
      && MapOf(rest, cs) == MapOf(ms, cs) - {KeyOf(cs, name)}
      && KeyOf(cs, name) !in Keys(rest, cs)
  {
    var i := IndexOf(ms, name, cs);
    MapOfIndexOf(ms, name, cs);
    MapOfKeys(ms, cs);
    if i < |ms| {
      KeysRemove(ms, i, cs);
      MapOfRemove(ms, i, cs);
      MapOfKeys(RemoveAt(ms, i), cs);
    } else {
      assert MapOf(ms, cs) - {KeyOf(cs, name)} == MapOf(ms, cs);
    }
  }
}
