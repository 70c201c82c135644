/**
 The generator of JSON Patch operations as the source writes it: absolute paths
 built in buffers of computed size, and loops that append to a list of patches.
 Below it, single operations that do not do what they are generated for.
 */
module Generator {
  import opened Bytes
  import opened Sequences
  import opened Json
  import opened MergeSort
  import opened Pointer
  import opened InPlace
  import opened Patch
  import opened Diff
  import Live

  // --- Paths --------------------------------------------------------------------

  lemma EncodeBytes(path: CString, name: CString, written: seq<char>)
    requires written == (path + "/") + Encode(name)
    ensures written == path + Slash(Encode(name))
    ensures forall i :: 0 <= i < |written| ==> '\0' < written[i] <= '\U{00FF}'
  {
  }

  /** The path of a child: a buffer that the path, a slash, the token and a NUL fill exactly. */
  method ChildPath(path: CString, name: CString) returns (full: CString)
    ensures full == path + Slash(Encode(name))
  {
    var length := EncodedLength(name);
    var buffer := new char[|path| + length + 2];
    var i := 0;
    while i < |path|
      invariant 0 <= i <= |path| && buffer[..i] == path[..i]
    {
      buffer[i] := path[i];
      i := i + 1;
    }
    buffer[i] := '/';
    assert buffer[..i + 1] == path + "/";
    var end := EncodeStringAsPointer(buffer, i + 1, name);
    assert end + 1 == buffer.Length;
    assert buffer[..end] == buffer[..i + 1] + buffer[i + 1..end];
    EncodeBytes(path, name, buffer[..end]);
    full := buffer[..end];
  }

  /** The decimal form of a 64-bit index fits into the 20 bytes reserved for it. */
  lemma IndexFits(n: nat)
    requires n < 0x1_0000_0000_0000_0000
    ensures |Decimal(n)| <= 20
  {
    assert Power10(4) == 10_000;
    assert Power10(8) == 100_000_000;
    assert Power10(12) == 1_000_000_000_000;
    assert Power10(16) == 10_000_000_000_000_000;
    DecimalLength(n, 20);
  }

  lemma {:induction false} DecimalLength(n: nat, digits: nat)
    requires digits > 0 && n < Power10(digits)
    ensures |Decimal(n)| <= digits
  {
    if n >= 10 {
      assert Power10(digits) == 10 * Power10(digits - 1);
      DecimalLength(n / 10, digits - 1);
    }
  }

  function Power10(k: nat): nat
  {
    if k == 0 then 1 else 10 * Power10(k - 1)
  }

  // --- Patches under a path --------------------------------------------------------

  function Under(path: CString, steps: seq<Step>): seq<Json>
  {
    Patches(Prefixed(path, steps))
  }

  lemma {:induction false} UnderAppend(path: CString, s: seq<Step>, t: seq<Step>)
    ensures Under(path, s + t) == Under(path, s) + Under(path, t)
  {
    if s == [] {
      assert s + t == t;
    } else {
      hide PatchOf;
      UnderAppend(path, s[1..], t);
      assert (s + t)[1..] == s[1..] + t;
      hide Under;
      AppendAssociates([PatchOf(s[0].(path := path + s[0].path))], Under(path, s[1..]), Under(path, t));
    }
  }

  lemma {:induction false} PrefixedTwice(path: CString, p: CString, s: seq<Step>)
    ensures Prefixed(path, Prefixed(p, s)) == Prefixed(path + p, s)
  {
    if s != [] {
      PrefixedTwice(path, p, s[1..]);
      assert path + (p + s[0].path) == (path + p) + s[0].path;
      assert Prefixed(p, s)[1..] == Prefixed(p, s[1..]);
    }
  }

  lemma {:induction false} PrefixedNil(s: seq<Step>)
    ensures Prefixed([], s) == s
  {
    if s != [] {
      PrefixedNil(s[1..]);
      assert [] + s[0].path == s[0].path;
    }
  }

  /** The steps of a pair, then the rest. */
  lemma UnderPair(path: CString, token: CString, s: seq<Step>, t: seq<Step>)
    ensures Under(path, Prefixed(Slash(token), s) + t) == Under(path + Slash(token), s) + Under(path, t)
  {
    UnderAppend(path, Prefixed(Slash(token), s), t);
    PrefixedTwice(path, Slash(token), s);
  }

  lemma UnderOne(path: CString, s: Step, t: seq<Step>)
    ensures Under(path, [s] + t) == [PatchOf(s.(path := path + s.path))] + Under(path, t)
  {
    assert ([s] + t)[1..] == t;
  }

  // --- The generator -----------------------------------------------------------------

  /** `compose_patch`; a value that is too deep to copy is left out. */
  method ComposePatch(patches: seq<Json>, operation: Operation, path: CString, suffix: Option<CString>, value: Option<Json>)
    returns (extended: seq<Json>)
    ensures var full := if suffix.None? then path else path + Slash(Encode(suffix.value));
      var copy := if value.None? then None else Duplicate(value.value, 0);
      extended == patches + [PatchOf(Step(operation, full, copy))]
  {
    var full := path;
    if suffix.Some? {
      full := ChildPath(path, suffix.value);
    }
    var copy := if value.None? then None else Duplicate(value.value, 0);
    extended := patches + [Composed(NameOf(operation), full, copy)];
  }

  /** `create_patches`. */
  method CreatePatches(patches: seq<Json>, path: CString, from: Json, to: Json, cs: bool) returns (extended: seq<Json>)
    ensures extended == patches + Under(path, Steps(from, to, cs))
    decreases Height(from), 1
  {
    hide PatchOf, Duplicate, Encode, Slash;
    if Replaces(from, to) {
      extended := ComposePatch(patches, REPLACE, path, None, Some(to));
      UnderOne(path, Step(REPLACE, [], Duplicate(to, 0)), []);
      assert path + [] == path && [Step(REPLACE, [], Duplicate(to, 0))] + [] == [Step(REPLACE, [], Duplicate(to, 0))];
    } else if from.Array? {
      extended := CreateItemPatches(patches, path, from.items, to.items, cs, Height(from));
    } else if from.Object? {
      SortMembers(from.members, cs);
      extended := CreateMemberPatches(patches, path, Sort(from.members, cs), Sort(to.members, cs), cs, Height(from));
    } else {
      extended := patches;
    }
  }

  lemma ItemStepsUnder(path: CString, i: nat, a: seq<Json>, b: seq<Json>, cs: bool, h: nat)
    requires forall x :: x in a ==> Height(x) < h
    ensures Under(path, ItemSteps(i, a, b, cs, h))
         == if a != [] && b != [] then
              Under(path + Slash(Decimal(i)), Steps(a[0], b[0], cs)) + Under(path, ItemSteps(i + 1, a[1..], b[1..], cs, h))
            else if a != [] then
              [PatchOf(Step(REMOVE, path + Slash(Decimal(i)), None))] + Under(path, ItemSteps(i, a[1..], b, cs, h))
            else if b != [] then
              [PatchOf(Step(ADD, path + "/-", Duplicate(b[0], 0)))] + Under(path, ItemSteps(i + 1, a, b[1..], cs, h))
            else []
  {
    hide Under, Prefixed, Steps, Slash, PatchOf, Duplicate, Decimal;
    if a != [] && b != [] {
      UnderPair(path, Decimal(i), Steps(a[0], b[0], cs), ItemSteps(i + 1, a[1..], b[1..], cs, h));
    } else if a != [] {
      UnderOne(path, Step(REMOVE, Slash(Decimal(i)), None), ItemSteps(i, a[1..], b, cs, h));
    } else if b != [] {
      UnderOne(path, Step(ADD, "/-", Duplicate(b[0], 0)), ItemSteps(i + 1, a, b[1..], cs, h));
    } else {
      UnderNil(path);
    }
  }

  lemma UnderNil(path: CString)
    ensures Under(path, []) == []
  {
  }

  /** The three loops over array elements: pairs, leftovers of the old array, new elements. */
  method CreateItemPatches(patches: seq<Json>, path: CString, from: seq<Json>, to: seq<Json>, cs: bool, ghost h: nat)
    returns (extended: seq<Json>)
    requires forall x :: x in from ==> Height(x) < h
    ensures extended == patches + Under(path, ItemSteps(0, from, to, cs, h))
    decreases h, 0
  {
    hide Under, ItemSteps, Steps, Slash, PatchOf, Duplicate, Decimal, Encode, Height;
    var a, b := from, to;
    var index: nat := 0;
    extended := patches;
    ghost var goal := patches + Under(path, ItemSteps(0, from, to, cs, h));
    while a != [] && b != []
      invariant forall x :: x in a ==> Height(x) < h
      invariant goal == extended + Under(path, ItemSteps(index, a, b, cs, h))
      decreases |a|
    {
      ItemStepsUnder(path, index, a, b, cs, h);
      DecimalToken(index);
      var newPath := ChildPath(path, Decimal(index));
      assert a[0] in a;
      ghost var before := extended;
      extended := CreatePatches(extended, newPath, a[0], b[0], cs);
      AppendAssociates(before, Under(newPath, Steps(a[0], b[0], cs)), Under(path, ItemSteps(index + 1, a[1..], b[1..], cs, h)));
      a, b, index := a[1..], b[1..], index + 1;
    }
    while a != []
      invariant a == [] || b == []
      invariant forall x :: x in a ==> Height(x) < h
      invariant goal == extended + Under(path, ItemSteps(index, a, b, cs, h))
      decreases |a|
    {
      ItemStepsUnder(path, index, a, b, cs, h);
      DecimalToken(index);
      ghost var before := extended;
      extended := ComposePatch(extended, REMOVE, path, Some(Decimal(index)), None);
      AppendAssociates(before, [PatchOf(Step(REMOVE, path + Slash(Decimal(index)), None))],
                       Under(path, ItemSteps(index, a[1..], b, cs, h)));
      a := a[1..];
    }
    while b != []
      invariant a == []
      invariant goal == extended + Under(path, ItemSteps(index, a, b, cs, h))
      decreases |b|
    {
      ItemStepsUnder(path, index, a, b, cs, h);
      DashToken();
      ghost var before := extended;
      extended := ComposePatch(extended, ADD, path, Some("-"), Some(b[0]));
      AppendAssociates(before, [PatchOf(Step(ADD, path + "/-", Duplicate(b[0], 0)))],
                       Under(path, ItemSteps(index + 1, a, b[1..], cs, h)));
      b, index := b[1..], index + 1;
    }
    ItemStepsUnder(path, index, a, b, cs, h);
    assert extended + [] == extended;
  }

  lemma MemberStepsUnder(path: CString, a: seq<Entry<Json>>, b: seq<Entry<Json>>, cs: bool, h: nat)
    requires forall e :: e in a ==> Height(e.item) < h
    ensures Under(path, MemberSteps(a, b, cs, h))
         == if a == [] && b == [] then []
            else if HeadsDiffer(a, b, cs) == 0 then
              Under(path + Slash(Encode(a[0].key)), Steps(a[0].item, b[0].item, cs))
              + Under(path, MemberSteps(a[1..], b[1..], cs, h))
            else if HeadsDiffer(a, b, cs) < 0 then
              [PatchOf(Step(REMOVE, path + Slash(Encode(a[0].key)), None))] + Under(path, MemberSteps(a[1..], b, cs, h))
            else
              [PatchOf(Step(ADD, path + Slash(Encode(b[0].key)), Duplicate(b[0].item, 0)))]
              + Under(path, MemberSteps(a, b[1..], cs, h))
  {
    hide Under, Prefixed, Steps, Slash, PatchOf, Duplicate, Encode, KeyOf, Strcmp;
    if a == [] && b == [] {
      UnderNil(path);
    } else if HeadsDiffer(a, b, cs) == 0 {
      UnderPair(path, Encode(a[0].key), Steps(a[0].item, b[0].item, cs), MemberSteps(a[1..], b[1..], cs, h));
    } else if HeadsDiffer(a, b, cs) < 0 {
      UnderOne(path, Step(REMOVE, Slash(Encode(a[0].key)), None), MemberSteps(a[1..], b, cs, h));
    } else {
      UnderOne(path, Step(ADD, Slash(Encode(b[0].key)), Duplicate(b[0].item, 0)), MemberSteps(a, b[1..], cs, h));
    }
  }

  /** The loop over the members of two sorted objects. */
  method CreateMemberPatches(patches: seq<Json>, path: CString, from: seq<Entry<Json>>, to: seq<Entry<Json>>, cs: bool,
                             ghost h: nat)
    returns (extended: seq<Json>)
    requires forall e :: e in from ==> Height(e.item) < h
    ensures extended == patches + Under(path, MemberSteps(from, to, cs, h))
    decreases h, 0
  {
    hide Under, MemberSteps, Steps, Slash, PatchOf, Duplicate, Encode, Height, KeyOf, Strcmp;
    var a, b := from, to;
    extended := patches;
    ghost var goal := patches + Under(path, MemberSteps(from, to, cs, h));
    while a != [] || b != []
      invariant forall e :: e in a ==> Height(e.item) < h
      invariant goal == extended + Under(path, MemberSteps(a, b, cs, h))
      decreases |a| + |b|
    {
      MemberStepsUnder(path, a, b, cs, h);
      var difference := 0;
      if a == [] {
        difference := 1;
      } else if b == [] {
        difference := -1;
      } else {
        difference := CompareStrings(a[0].key, b[0].key, cs);
      }
      assert difference == HeadsDiffer(a, b, cs);
      ghost var before := extended;
      if difference == 0 {
        var newPath := ChildPath(path, a[0].key);
        assert a[0] in a;
        extended := CreatePatches(extended, newPath, a[0].item, b[0].item, cs);
        AppendAssociates(before, Under(newPath, Steps(a[0].item, b[0].item, cs)),
                         Under(path, MemberSteps(a[1..], b[1..], cs, h)));
        a, b := a[1..], b[1..];
      } else if difference < 0 {
        extended := ComposePatch(extended, REMOVE, path, Some(a[0].key), None);
        AppendAssociates(before, [PatchOf(Step(REMOVE, path + Slash(Encode(a[0].key)), None))],
                         Under(path, MemberSteps(a[1..], b, cs, h)));
        a := a[1..];
      } else {
        extended := ComposePatch(extended, ADD, path, Some(b[0].key), Some(b[0].item));
        AppendAssociates(before, [PatchOf(Step(ADD, path + Slash(Encode(b[0].key)), Duplicate(b[0].item, 0)))],
                         Under(path, MemberSteps(a, b[1..], cs, h)));
        b := b[1..];
      }
    }
    MemberStepsUnder(path, a, b, cs, h);
    assert extended + [] == extended;
  }

  /** `cJSONUtils_GeneratePatches` and its case-sensitive form. */
  method GeneratePatches(from: Json, to: Json, cs: bool) returns (patches: Json)
    ensures patches == Array(Patches(Steps(from, to, cs)))
  {
    var list := CreatePatches([], [], from, to, cs);
    PrefixedNil(Steps(from, to, cs));
    patches := Array(list);
  }

  /** Generating and then applying to a copy of the old document, as a caller does it. */
  method GenerateThenApply(from: Json, to: Json, cs: bool) returns (result: Live.Result)
    requires Fit(from, to, cs)
    requires DistinctTree(to, cs) && Height(to) <= 10000
    requires DecodableNames(from) && DecodableNames(to)
    ensures Achieves(result, to, cs)
  {
    hide Steps, DistinctTree, Height, Meaning, DecodableNames, Live.ApplyAll, Live.Fresh, Achieves, Patches;
    var patches := GeneratePatches(from, to, cs);
    DiffThenApply(from, to, cs);
    result := Live.ApplyPatches(Live.Fresh(from), patches, cs);
  }

  // --- Operations that miss ---------------------------------------------------------------

  /**
   Detaching, which ignores case even in case-sensitive calls, takes the member
   that was asked for exactly when no earlier member has its name up to case.
   */
  lemma DetachesIff(ms: seq<Entry<Json>>, i: nat, cs: bool)
    requires i < |ms| && Distinct(ms, true) && Decodable(ms[i].key)
    ensures DetachPath(Object(ms), Slash(Encode(ms[i].key)), cs) == Some(Detached(ms[i].item, Object(RemoveAt(ms, i))))
       <==> forall k :: 0 <= k < i ==> Fold(ms[k].key) != Fold(ms[i].key)
  {
    var name := ms[i].key;
    DecodesIff(name);
    FirstFolded(ms, i);
    hide Encode, DecodeInPlace, Slash, DetachPath, Decodable, Distinct, RemoveAt, IndexOf, Fold;
    DetachMember(ms, name, cs);
    if IndexOf(ms, name, false) < i {
      RemovesAnother(ms, IndexOf(ms, name, false), i);
    }
  }

  lemma FirstFolded(ms: seq<Entry<Json>>, i: nat)
    requires i < |ms|
    ensures IndexOf(ms, ms[i].key, false) <= i
    ensures IndexOf(ms, ms[i].key, false) == i <==> forall k :: 0 <= k < i ==> Fold(ms[k].key) != Fold(ms[i].key)
  {
    hide Fold, IndexOf;
  }

  lemma RemovesAnother(ms: seq<Entry<Json>>, i: nat, j: nat)
    requires i < j < |ms| && Distinct(ms, true)
    ensures RemoveAt(ms, i) != RemoveAt(ms, j)
  {
    hide KeyOf, Distinct, RemoveAt;
    DistinctIndices(ms, i, i + 1, true);
    assert RemoveAt(ms, i)[i] == ms[i + 1] && RemoveAt(ms, j)[i] == ms[i];
  }

  /** Adding gives the new member the name that was meant exactly when that name decodes. */
  lemma AddsIff(ms: seq<Entry<Json>>, name: CString, v: Json, cs: bool)
    ensures var added := AddAt(Object(ms), Slash(Encode(name)), v, cs);
      && added.status == 0 && added.doc.Object? && added.doc.members != []
      && (added.doc.members[|added.doc.members| - 1] == Entry(name, v) <==> Decodable(name))
  {
    EncodeNoSlash(name);
    DecodesIff(name);
    hide Encode, DecodeInPlace, Slash, AddAt, Decodable;
    AddDirectly(Object(ms), Encode(name), v, cs);
  }
}
