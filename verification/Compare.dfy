/**
 The two equality tests of the library: `compare_json`, which sorts the members
 of both objects and walks them in step, and `cJSON_Compare`, which looks every
 member of each object up in the other. Both decide equality of meanings.
 */
module Compare {
  import opened Bytes
  import opened Json
  import opened MergeSort

  /** Equal `type` fields. */
  predicate SameType(a: Json, b: Json)
  {
    match a
    case Invalid => b.Invalid?
    case Null => b.Null?
    case False => b.False?
    case True => b.True?
    case Number(_) => b.Number?
    case String(_) => b.String?
    case Array(_) => b.Array?
    case Object(_) => b.Object?
  }

  // --- Sorting comparison ---------------------------------------------------

  /** `compare_json`. */
  predicate CompareSorted(a: Json, b: Json, cs: bool)
    decreases a, 1, 0
  {
    if !SameType(a, b) then false
    else
      match a
      case Number(n) => n == b.n
      case String(text) => Strcmp(text, b.text) == 0
      case Array(items) => PairItems(items, b.items, cs)
      case Object(ms) =>
        SortMembers(ms, cs);
        PairMembers(Sort(ms, cs), Sort(b.members, cs), cs, a)
      case _ => true
  }

  predicate PairItems(x: seq<Json>, y: seq<Json>, cs: bool)
    decreases x, 0, 0
  {
    if x == [] || y == [] then x == [] && y == []
    else CompareSorted(x[0], y[0], cs) && PairItems(x[1..], y[1..], cs)
  }

  predicate PairMembers(x: seq<Entry<Json>>, y: seq<Entry<Json>>, cs: bool, ghost whole: Json)
    requires whole.Object? && forall e :: e in x ==> e in whole.members
    decreases whole, 0, |x|
  {
    if x == [] || y == [] then x == [] && y == []
    else
      assert x[0] in whole.members;
      && Strcmp(KeyOf(cs, x[0].key), KeyOf(cs, y[0].key)) == 0
      && CompareSorted(x[0].item, y[0].item, cs)
      && PairMembers(x[1..], y[1..], cs, whole)
  }

  /** The recursion of `compare_json`, with its loops over the children. */
  method CompareJson(a: Json, b: Json, cs: bool) returns (same: bool)
    ensures same == CompareSorted(a, b, cs)
    decreases a
  {
    if !SameType(a, b) {
      return false;
    }
    match a
    case Number(n) => return n == b.n;
    case String(text) => return Strcmp(text, b.text) == 0;
    case Array(items) =>
      var x, y := items, b.items;
      while x != [] && y != []
        invariant forall e :: e in x ==> e in items
        invariant PairItems(items, b.items, cs) == PairItems(x, y, cs)
        decreases |x|
      {
        assert x[0] in items;
        var identical := CompareJson(x[0], y[0], cs);
        if !identical {
          return false;
        }
        x, y := x[1..], y[1..];
      }
      return x == [] && y == [];
    case Object(ms) =>
      var x, y := Sort(ms, cs), Sort(b.members, cs);
      forall e | e in x ensures e in ms { SortMember(ms, cs, e); }
      while x != [] && y != []
        invariant forall e :: e in x ==> e in ms
        invariant CompareSorted(a, b, cs) == PairMembers(x, y, cs, a)
        decreases |x|
      {
        assert x[0] in ms;
        var difference := CompareStrings(x[0].key, y[0].key, cs);
        if difference != 0 {
          return false;
        }
        var identical := CompareJson(x[0].item, y[0].item, cs);
        if !identical {
          return false;
        }
        x, y := x[1..], y[1..];
      }
      return x == [] && y == [];
    case _ => return true;
  }

  /** Sorted and paired, two objects agree exactly when they are the same map. */
  lemma {:induction false} PairMembersMean(x: seq<Entry<Json>>, y: seq<Entry<Json>>, cs: bool, whole: Json)
    requires whole.Object? && forall e :: e in x ==> e in whole.members
    requires Ascending(x, cs) && Ascending(y, cs)
    requires forall e :: e in x ==> DistinctTree(e.item, cs)
    requires forall e :: e in y ==> DistinctTree(e.item, cs)
    ensures PairMembers(x, y, cs, whole) <==> MapOf(x, cs) == MapOf(y, cs)
    decreases whole, 0, |x|
  {
    MapOfKeys(x, cs);
    MapOfKeys(y, cs);
    if x == [] || y == [] {
      KeysEmpty(x, cs);
      KeysEmpty(y, cs);
    } else {
      var kx, ky := KeyOf(cs, x[0].key), KeyOf(cs, y[0].key);
      StrcmpZero(kx, ky);
      if kx == ky {
        assert x[0] in whole.members && y[0] in y;
        CompareSortedMeans(x[0].item, y[0].item, cs);
        PairMembersMean(x[1..], y[1..], cs, whole);
        HeadAndTail(x, cs);
        HeadAndTail(y, cs);
      } else {
        StrcmpAntisymmetric(kx, ky);
        if Strcmp(kx, ky) < 0 {
          BelowHead(y, kx, cs);
        } else {
          BelowHead(x, ky, cs);
        }
      }
    }
  }

  lemma KeysEmpty(x: seq<Entry<Json>>, cs: bool)
    ensures x == [] <==> MapOf(x, cs) == map[]
  {
    MapOfKeys(x, cs);
    if x != [] {
      assert KeyOf(cs, x[0].key) in MapOf(x, cs);
    } else {
      assert MapOf(x, cs).Keys == {};
    }
  }

  /** The map of an ascending list is its head and the map of its tail, which are disjoint. */
  lemma HeadAndTail(x: seq<Entry<Json>>, cs: bool)
    requires x != [] && Ascending(x, cs)
    ensures var k := KeyOf(cs, x[0].key);
      && k !in MapOf(x[1..], cs)
      && MapOf(x, cs) == MapOf(x[1..], cs)[k := Meaning(x[0].item, cs)]
      && MapOf(x, cs) - {k} == MapOf(x[1..], cs)
  {
    MapOfHead(x, cs);
    AscendingDistinct(x, cs);
    MapOfKeys(x[1..], cs);
  }

  lemma {:induction false} CompareSortedMeans(a: Json, b: Json, cs: bool)
    requires DistinctTree(a, cs) && DistinctTree(b, cs)
    ensures CompareSorted(a, b, cs) <==> Meaning(a, cs) == Meaning(b, cs)
    decreases a, 1, 0
  {
    hide Sort, Ascending, Distinct, KeyOf, ToMap, MemberMeanings, ItemMeanings, Strcmp, PairMembers, PairItems;
    if SameType(a, b) {
      match a {
        case String(text) => StrcmpZero(text, b.text);
        case Array(items) => PairItemsMean(items, b.items, cs);
        case Object(ms) =>
          SortMembers(ms, cs);
          SortMembers(b.members, cs);
          SortedMembers(ms, cs);
          SortedMembers(b.members, cs);
          MapOfPermutation(ms, Sort(ms, cs), cs);
          MapOfPermutation(b.members, Sort(b.members, cs), cs);
          PairMembersMean(Sort(ms, cs), Sort(b.members, cs), cs, a);
        case _ =>
      }
    }
  }

  lemma {:induction false} PairItemsMean(x: seq<Json>, y: seq<Json>, cs: bool)
    requires forall e :: e in x ==> DistinctTree(e, cs)
    requires forall e :: e in y ==> DistinctTree(e, cs)
    ensures PairItems(x, y, cs) <==> ItemMeanings(x, cs) == ItemMeanings(y, cs)
    decreases x, 0, 0
  {
    if x != [] && y != [] {
      CompareSortedMeans(x[0], y[0], cs);
      PairItemsMean(x[1..], y[1..], cs);
      ConsEqual(Meaning(x[0], cs), ItemMeanings(x[1..], cs), Meaning(y[0], cs), ItemMeanings(y[1..], cs));
    }
  }

  lemma ConsEqual<T>(a: T, s: seq<T>, b: T, t: seq<T>)
    ensures [a] + s == [b] + t <==> a == b && s == t
  {
    assert ([a] + s)[0] == a && ([b] + t)[0] == b;
    assert ([a] + s)[1..] == s && ([b] + t)[1..] == t;
  }

  // --- Quadratic comparison -------------------------------------------------

  /** `cJSON_Compare`. */
  predicate CompareQuadratic(a: Json, b: Json, cs: bool)
    decreases Height(a) + Height(b), 1, 0
  {
    if !SameType(a, b) then false
    else
      match a
      case Invalid => false
      case Number(n) => n == b.n
      case String(text) => Strcmp(text, b.text) == 0
      case Array(items) => EachItem(items, b.items, cs, Height(a) + Height(b))
      case Object(ms) =>
        && EachFound(ms, b.members, cs, Height(a) + Height(b))
        && EachFound(b.members, ms, cs, Height(a) + Height(b))
      case _ => true
  }

  predicate EachItem(x: seq<Json>, y: seq<Json>, cs: bool, ghost h: nat)
    requires forall a, b :: a in x && b in y ==> Height(a) + Height(b) < h
    decreases h, 0, |x|
  {
    if x == [] || y == [] then x == [] && y == []
    else CompareQuadratic(x[0], y[0], cs) && EachItem(x[1..], y[1..], cs, h)
  }

  /** Every one of `es` has a counterpart among `ms`. */
  predicate EachFound(es: seq<Entry<Json>>, ms: seq<Entry<Json>>, cs: bool, ghost h: nat)
    requires forall a, b :: a in es && b in ms ==> Height(a.item) + Height(b.item) < h
    decreases h, 0, |es|
  {
    if es == [] then true
    else
      var i := IndexOf(ms, es[0].key, cs);
      i < |ms| && CompareQuadratic(es[0].item, ms[i].item, cs) && EachFound(es[1..], ms, cs, h)
  }

  /** The recursion of `cJSON_Compare`, with its loops over the children. */
  method CompareItems(a: Json, b: Json, cs: bool) returns (same: bool)
    ensures same == CompareQuadratic(a, b, cs)
    decreases Height(a) + Height(b), 1
  {
    hide MapOf, Meaning;
    if !SameType(a, b) {
      return false;
    }
    match a
    case Invalid => return false;
    case Number(n) => return n == b.n;
    case String(text) => return Strcmp(text, b.text) == 0;
    case Array(items) =>
      ghost var h := Height(a) + Height(b);
      var x, y := items, b.items;
      while x != [] && y != []
        invariant forall e, f :: e in x && f in y ==> Height(e) + Height(f) < h
        invariant EachItem(items, b.items, cs, h) == EachItem(x, y, cs, h)
        decreases |x|
      {
        assert x[0] in x && y[0] in y;
        var identical := CompareItems(x[0], y[0], cs);
        if !identical {
          return false;
        }
        x, y := x[1..], y[1..];
      }
      return x == [] && y == [];
    case Object(ms) =>
      ghost var h := Height(a) + Height(b);
      same := FindAll(ms, b.members, cs, h);
      if same {
        same := FindAll(b.members, ms, cs, h);
      }
    case _ => return true;
  }

  /** Each of the two loops of `cJSON_Compare` over the members of an object. */
  method FindAll(es: seq<Entry<Json>>, ms: seq<Entry<Json>>, cs: bool, ghost h: nat) returns (found: bool)
    requires forall e, f :: e in es && f in ms ==> Height(e.item) + Height(f.item) < h
    ensures found == EachFound(es, ms, cs, h)
    decreases h, 0
  {
    var rest := es;
    while rest != []
      invariant forall e :: e in rest ==> e in es
      invariant EachFound(es, ms, cs, h) == EachFound(rest, ms, cs, h)
      decreases |rest|
    {
      assert rest[0] in es;
      var i := GetObjectItem(ms, rest[0].key, cs);
      if i == |ms| {
        return false;
      }
      assert ms[i] in ms;
      var identical := CompareItems(rest[0].item, ms[i].item, cs);
      if !identical {
        return false;
      }
      rest := rest[1..];
    }
    return true;
  }

  /** No item of the tree has the invalid type. */
  predicate AllValid(j: Json)
  {
    match j
    case Invalid => false
    case Array(items) => forall x | x in items :: AllValid(x)
    case Object(ms) => forall e | e in ms :: AllValid(e.item)
    case _ => true
  }

  ghost predicate ValidMembers(es: seq<Entry<Json>>)
  {
    forall e | e in es :: AllValid(e.item)
  }

  /** The members `es` are a part of the map of `ms`. */
  ghost predicate PartOf(es: seq<Entry<Json>>, ms: seq<Entry<Json>>, cs: bool)
  {
    forall i :: 0 <= i < |es| ==>
      KeyOf(cs, es[i].key) in MapOf(ms, cs) && MapOf(ms, cs)[KeyOf(cs, es[i].key)] == Meaning(es[i].item, cs)
  }

  lemma {:induction false} EachFoundMeans(es: seq<Entry<Json>>, ms: seq<Entry<Json>>, cs: bool, h: nat)
    requires forall a, b :: a in es && b in ms ==> Height(a.item) + Height(b.item) < h
    requires DistinctMembers(es, cs) && DistinctMembers(ms, cs)
    ensures EachFound(es, ms, cs, h) <==> PartOf(es, ms, cs) && ValidMembers(es)
    decreases h, 0, |es|
  {
    hide MapOf, Meaning, KeyOf, PartOf, AllValid, CompareQuadratic;
    if es == [] {
      PartOfNil(ms, cs);
    } else {
      var i := IndexOf(ms, es[0].key, cs);
      MapOfIndexOf(ms, es[0].key, cs);
      if i < |ms| {
        assert es[0] in es && ms[i] in ms;
        CompareQuadraticMeans(es[0].item, ms[i].item, cs);
      }
      EachFoundMeans(es[1..], ms, cs, h);
      PartOfHead(es, ms, cs);
      assert ValidMembers(es) <==> AllValid(es[0].item) && ValidMembers(es[1..]) by {
        assert es == [es[0]] + es[1..];
      }
    }
  }

  lemma PartOfNil(ms: seq<Entry<Json>>, cs: bool)
    ensures PartOf([], ms, cs)
  {
  }

  lemma PartOfHead(es: seq<Entry<Json>>, ms: seq<Entry<Json>>, cs: bool)
    requires es != []
    ensures PartOf(es, ms, cs) <==>
      (KeyOf(cs, es[0].key) in MapOf(ms, cs)
       && MapOf(ms, cs)[KeyOf(cs, es[0].key)] == Meaning(es[0].item, cs)
       && PartOf(es[1..], ms, cs))
  {
    hide MapOf, Meaning, KeyOf;
    if PartOf(es, ms, cs) {
      forall i | 0 <= i < |es[1..]|
        ensures KeyOf(cs, es[1..][i].key) in MapOf(ms, cs)
        ensures MapOf(ms, cs)[KeyOf(cs, es[1..][i].key)] == Meaning(es[1..][i].item, cs)
      {
        assert es[1..][i] == es[i + 1];
      }
    }
    if PartOf(es[1..], ms, cs) {
      forall i | 1 <= i < |es|
        ensures KeyOf(cs, es[i].key) in MapOf(ms, cs)
        ensures MapOf(ms, cs)[KeyOf(cs, es[i].key)] == Meaning(es[i].item, cs)
      {
        assert es[1..][i - 1] == es[i];
      }
    }
  }

  /** Two member lists that are parts of each other are the same map. */
  lemma MutualParts(x: seq<Entry<Json>>, y: seq<Entry<Json>>, cs: bool)
    requires Distinct(x, cs) && Distinct(y, cs)
    ensures PartOf(x, y, cs) && PartOf(y, x, cs) <==> MapOf(x, cs) == MapOf(y, cs)
  {
    PartOfSelf(x, cs);
    PartOfSelf(y, cs);
    if PartOf(x, y, cs) && PartOf(y, x, cs) {
      PartOfIncludes(x, y, cs);
      PartOfIncludes(y, x, cs);
    }
  }

  lemma PartOfSelf(x: seq<Entry<Json>>, cs: bool)
    requires Distinct(x, cs)
    ensures PartOf(x, x, cs)
  {
    forall i | 0 <= i < |x|
      ensures KeyOf(cs, x[i].key) in MapOf(x, cs)
      ensures MapOf(x, cs)[KeyOf(cs, x[i].key)] == Meaning(x[i].item, cs)
    {
      DistinctIndexOf(x, i, cs);
      MapOfIndexOf(x, x[i].key, cs);
    }
  }

  lemma PartOfIncludes(x: seq<Entry<Json>>, y: seq<Entry<Json>>, cs: bool)
    requires Distinct(x, cs) && PartOf(x, y, cs)
    ensures forall k :: k in MapOf(x, cs) ==> k in MapOf(y, cs) && MapOf(y, cs)[k] == MapOf(x, cs)[k]
  {
    PartOfSelf(x, cs);
    MapOfKeys(x, cs);
    forall k | k in MapOf(x, cs) ensures k in MapOf(y, cs) && MapOf(y, cs)[k] == MapOf(x, cs)[k] {
      var i := KeysWitness(x, k, cs);
    }
  }

  lemma {:induction false} CompareQuadraticMeans(a: Json, b: Json, cs: bool)
    requires DistinctTree(a, cs) && DistinctTree(b, cs)
    ensures CompareQuadratic(a, b, cs) <==> Meaning(a, cs) == Meaning(b, cs) && AllValid(a)
    decreases Height(a) + Height(b), 1, 0
  {
    hide Distinct, KeyOf, ToMap, MemberMeanings, ItemMeanings, Strcmp, EachFound, EachItem, PartOf;
    if SameType(a, b) {
      match a {
        case String(text) => StrcmpZero(text, b.text);
        case Array(items) => EachItemMeans(items, b.items, cs, Height(a) + Height(b));
        case Object(ms) => ObjectsMean(ms, b.members, cs, Height(a) + Height(b));
        case _ =>
      }
    }
  }

  lemma {:induction false} ObjectsMean(x: seq<Entry<Json>>, y: seq<Entry<Json>>, cs: bool, h: nat)
    requires h == Height(Object(x)) + Height(Object(y))
    requires DistinctTree(Object(x), cs) && DistinctTree(Object(y), cs)
    ensures CompareQuadratic(Object(x), Object(y), cs) <==>
      (Meaning(Object(x), cs) == Meaning(Object(y), cs) && AllValid(Object(x)))
    decreases h, 0, |x| + |y| + 1
  {
    hide Distinct, KeyOf, ToMap, MemberMeanings, EachFound, PartOf;
    EachFoundMeans(x, y, cs, h);
    EachFoundMeans(y, x, cs, h);
    MutualParts(x, y, cs);
    SameValidity(Object(x), Object(y), cs);
  }

  lemma {:induction false} EachItemMeans(x: seq<Json>, y: seq<Json>, cs: bool, h: nat)
    requires forall a, b :: a in x && b in y ==> Height(a) + Height(b) < h
    requires forall e :: e in x ==> DistinctTree(e, cs)
    requires forall e :: e in y ==> DistinctTree(e, cs)
    ensures EachItem(x, y, cs, h) <==>
      (ItemMeanings(x, cs) == ItemMeanings(y, cs) && forall e | e in x :: AllValid(e))
    decreases h, 0, |x|
  {
    if x != [] && y != [] {
      assert x[0] in x && y[0] in y;
      CompareQuadraticMeans(x[0], y[0], cs);
      EachItemMeans(x[1..], y[1..], cs, h);
      ConsEqual(Meaning(x[0], cs), ItemMeanings(x[1..], cs), Meaning(y[0], cs), ItemMeanings(y[1..], cs));
      assert x == [x[0]] + x[1..];
    }
  }

  /** Validity depends on the meaning only. */
  predicate ValidValue(v: Value)
  {
    match v
    case VInvalid => false
    case VArray(items) => forall x | x in items :: ValidValue(x)
    case VObject(ms) => forall k | k in ms :: ValidValue(ms[k])
    case _ => true
  }

  lemma {:induction false} ValidMeaning(a: Json, cs: bool)
    requires DistinctTree(a, cs)
    ensures AllValid(a) <==> ValidValue(Meaning(a, cs))
  {
    match a
    case Array(items) =>
      forall i | 0 <= i < |items| ensures AllValid(items[i]) <==> ValidValue(ItemMeanings(items, cs)[i]) {
        assert items[i] in items;
        ValidMeaning(items[i], cs);
      }
    case Object(ms) =>
      forall i | 0 <= i < |ms|
        ensures KeyOf(cs, ms[i].key) in MapOf(ms, cs)
        ensures AllValid(ms[i].item) <==> ValidValue(MapOf(ms, cs)[KeyOf(cs, ms[i].key)])
      {
        assert ms[i] in ms;
        ValidMeaning(ms[i].item, cs);
        DistinctIndexOf(ms, i, cs);
        MapOfIndexOf(ms, ms[i].key, cs);
      }
      MapOfKeys(ms, cs);
      if AllValid(a) {
        forall k | k in MapOf(ms, cs) ensures ValidValue(MapOf(ms, cs)[k]) {
          var i := KeysWitness(ms, k, cs);
          assert ms[i] in ms;
        }
      }
    case _ =>
  }

  lemma SameValidity(a: Json, b: Json, cs: bool)
    requires DistinctTree(a, cs) && DistinctTree(b, cs)
    ensures Meaning(a, cs) == Meaning(b, cs) ==> AllValid(a) == AllValid(b)
  {
    ValidMeaning(a, cs);
    ValidMeaning(b, cs);
  }

  // --- Agreement ------------------------------------------------------------

  /**
   The two tests agree on valid trees with distinct sibling names, and both
   decide equality up to the order of members; on trees with an invalid item
   `cJSON_Compare` says no, even of a tree and itself.
   */
  lemma ComparisonsAgree(a: Json, b: Json, cs: bool)
    requires DistinctTree(a, cs) && DistinctTree(b, cs)
    ensures CompareSorted(a, b, cs) <==> Meaning(a, cs) == Meaning(b, cs)
    ensures CompareQuadratic(a, b, cs) <==> CompareSorted(a, b, cs) && AllValid(a)
  {
    CompareSortedMeans(a, b, cs);
    CompareQuadraticMeans(a, b, cs);
  }

  /** A copy compares equal to its source under both tests. */
  lemma CopyComparesEqual(j: Json, cs: bool)
    requires DistinctTree(j, cs)
    ensures Duplicate(j, 0).Some? ==>
      var copy := Duplicate(j, 0).value;
      CompareSorted(copy, j, cs) && (CompareQuadratic(copy, j, cs) <==> AllValid(j))
    ensures Duplicate(j, 0).Some? <==> Height(j) <= 10000
  {
    DuplicateIsCopy(j, 0);
    ComparisonsAgree(j, j, cs);
  }
}
