/**
 JSON trees as values, the lookups on member lists, and the meaning of a tree:
 what is left of it once the order of object members is forgotten.
 */
module Json {
  import opened Bytes
  import opened Sequences

  /** A child together with the name it has in its parent. */
  datatype Entry<+T> = Entry(key: CString, item: T)

  const INT_MAX: int := 0x7FFF_FFFF
  const INT_MIN: int := -0x8000_0000

  /** The range of `int`. */
  type Int = n: int | INT_MIN <= n <= INT_MAX

  /** The types of `cJSON` items, without Raw items and references; numbers are integers in the range of `int`. */
  datatype Json =
    | Invalid
    | Null
    | False
    | True
    | Number(n: Int)
    | String(text: CString)
    | Array(items: seq<Json>)
    | Object(members: seq<Entry<Json>>)

  // --- Child lists ----------------------------------------------------------

  /** The first member whose name compares equal to `name`, or the end of the list. */
  function IndexOf<T>(ms: seq<Entry<T>>, name: CString, cs: bool): (i: nat)
    ensures i <= |ms|
    ensures i < |ms| ==> KeyOf(cs, ms[i].key) == KeyOf(cs, name)
    ensures forall k :: 0 <= k < i ==> KeyOf(cs, ms[k].key) != KeyOf(cs, name)
  {
    if ms == [] || KeyOf(cs, ms[0].key) == KeyOf(cs, name) then 0
    else 1 + IndexOf(ms[1..], name, cs)
  }

  /** The loops of `get_object_item` over the children of an object. */
  method GetObjectItem<T>(ms: seq<Entry<T>>, name: CString, cs: bool) returns (i: nat)
    ensures i == IndexOf(ms, name, cs)
  {
    i := 0;
    while i < |ms|
      invariant i <= |ms|
      invariant IndexOf(ms, name, cs) == i + IndexOf(ms[i..], name, cs)
    {
      var difference := CompareStrings(name, ms[i].key, cs);
      StrcmpZero(KeyOf(cs, name), KeyOf(cs, ms[i].key));
      if difference == 0 {
        return;
      }
      assert ms[i..][1..] == ms[i + 1..];
      i := i + 1;
    }
  }

  /** The names of the members, in the form in which they are compared. */
  function Keys<T>(ms: seq<Entry<T>>, cs: bool): set<CString>
  {
    if ms == [] then {} else {KeyOf(cs, ms[0].key)} + Keys(ms[1..], cs)
  }

  /** No two members have names that compare equal. */
  predicate Distinct<T>(ms: seq<Entry<T>>, cs: bool)
  {
    ms == [] || (KeyOf(cs, ms[0].key) !in Keys(ms[1..], cs) && Distinct(ms[1..], cs))
  }

  lemma {:induction false} KeyInKeys<T>(ms: seq<Entry<T>>, i: nat, cs: bool)
    requires i < |ms|
    ensures KeyOf(cs, ms[i].key) in Keys(ms, cs)
  {
    if i > 0 {
      assert ms[i] == ms[1..][i - 1];
      KeyInKeys(ms[1..], i - 1, cs);
    }
  }

  /** Two members of the same name make a list not distinct, and nothing else does. */
  lemma {:induction false} DistinctIndices<T>(ms: seq<Entry<T>>, i: nat, j: nat, cs: bool)
    requires Distinct(ms, cs) && i < j < |ms|
    ensures KeyOf(cs, ms[i].key) != KeyOf(cs, ms[j].key)
  {
    assert ms[j] == ms[1..][j - 1];
    if i == 0 {
      KeyInKeys(ms[1..], j - 1, cs);
    } else {
      assert ms[i] == ms[1..][i - 1];
      DistinctIndices(ms[1..], i - 1, j - 1, cs);
    }
  }

  /** In a distinct list every member is the one a lookup of its name finds. */
  lemma {:induction false} DistinctIndexOf<T>(ms: seq<Entry<T>>, i: nat, cs: bool)
    requires Distinct(ms, cs) && i < |ms|
    ensures IndexOf(ms, ms[i].key, cs) == i
  {
    var k := IndexOf(ms, ms[i].key, cs);
    if k < i {
      DistinctIndices(ms, k, i, cs);
    }
  }

  lemma {:induction false} KeysRemove<T>(ms: seq<Entry<T>>, i: nat, cs: bool)
    requires i < |ms| && Distinct(ms, cs)
    ensures Distinct(RemoveAt(ms, i), cs)
    ensures Keys(RemoveAt(ms, i), cs) == Keys(ms, cs) - {KeyOf(cs, ms[i].key)}
  {
    hide KeyOf;
    if i == 0 {
      assert RemoveAt(ms, 0) == ms[1..];
    } else {
      var rest, less := ms[1..], RemoveAt(ms[1..], i - 1);
      KeysRemove(rest, i - 1, cs);
      DistinctIndices(ms, 0, i, cs);
      hide Keys, Distinct;
      assert ms == [ms[0]] + rest && RemoveAt(ms, i) == [ms[0]] + less;
      KeysCons(ms[0], rest, cs);
      KeysCons(ms[0], less, cs);
      assert KeyOf(cs, ms[i].key) == KeyOf(cs, rest[i - 1].key);
    }
  }

  lemma KeysCons<T>(e: Entry<T>, ms: seq<Entry<T>>, cs: bool)
    ensures Keys([e] + ms, cs) == {KeyOf(cs, e.key)} + Keys(ms, cs)
    ensures Distinct([e] + ms, cs) <==> KeyOf(cs, e.key) !in Keys(ms, cs) && Distinct(ms, cs)
  {
    hide KeyOf;
    assert ([e] + ms)[1..] == ms;
  }

  lemma {:induction false} KeysAppend<T>(ms: seq<Entry<T>>, e: Entry<T>, cs: bool)
    ensures Keys(ms + [e], cs) == Keys(ms, cs) + {KeyOf(cs, e.key)}
    ensures Distinct(ms + [e], cs) <==> Distinct(ms, cs) && KeyOf(cs, e.key) !in Keys(ms, cs)
  {
    hide KeyOf;
    if ms == [] {
      assert ms + [e] == [e];
      assert [e][1..] == [];
    } else {
      KeysAppend(ms[1..], e, cs);
      assert ms + [e] == [ms[0]] + (ms[1..] + [e]);
    }
  }

  lemma {:induction false} KeysUpdate<T>(ms: seq<Entry<T>>, i: nat, v: T, cs: bool)
    requires i < |ms|
    ensures Keys(ms[i := Entry(ms[i].key, v)], cs) == Keys(ms, cs)
    ensures Distinct(ms[i := Entry(ms[i].key, v)], cs) <==> Distinct(ms, cs)
  {
    hide KeyOf;
    if i == 0 {
      assert ms[0 := Entry(ms[0].key, v)] == [Entry(ms[0].key, v)] + ms[1..];
    } else {
      KeysUpdate(ms[1..], i - 1, v, cs);
      assert ms[i := Entry(ms[i].key, v)] == [ms[0]] + ms[1..][i - 1 := Entry(ms[1..][i - 1].key, v)];
    }
  }

  lemma {:induction false} DistinctPermutation<T>(ms: seq<Entry<T>>, ns: seq<Entry<T>>, cs: bool)
    requires multiset(ms) == multiset(ns) && Distinct(ms, cs)
    ensures Distinct(ns, cs) && Keys(ns, cs) == Keys(ms, cs)
    decreases |ns|
  {
    hide KeyOf;
    if ns == [] {
      assert |multiset(ms)| == 0;
    } else {
      var i := PositionIn(ms, ns);
      KeysRemove(ms, i, cs);
      DistinctPermutation(RemoveAt(ms, i), ns[1..], cs);
      KeyInKeys(ms, i, cs);
    }
  }

  /** Where the first element of a list is in a permutation of it. */
  lemma PositionIn<T>(ms: seq<T>, ns: seq<T>) returns (i: nat)
    requires multiset(ms) == multiset(ns) && ns != []
    ensures i < |ms| && ms[i] == ns[0]
    ensures multiset(RemoveAt(ms, i)) == multiset(ns[1..])
  {
    assert ns[0] in multiset(ms);
    i :| 0 <= i < |ms| && ms[i] == ns[0];
    MultisetRemove(ms, i);
    MultisetHead(ns);
    assert multiset(RemoveAt(ms, i)) == multiset(ms) - multiset{ms[i]};
  }

  /** Member names are distinct in every object of the tree. */
  predicate DistinctTree(j: Json, cs: bool)
  {
    match j
    case Array(items) => forall x | x in items :: DistinctTree(x, cs)
    case Object(ms) => Distinct(ms, cs) && forall e | e in ms :: DistinctTree(e.item, cs)
    case _ => true
  }

  ghost predicate DistinctMembers(ms: seq<Entry<Json>>, cs: bool)
  {
    forall e | e in ms :: DistinctTree(e.item, cs)
  }

  /** All member names of the tree are among `names`. */
  predicate Named(j: Json, names: set<CString>)
  {
    match j
    case Array(items) => forall x | x in items :: Named(x, names)
    case Object(ms) => forall e | e in ms :: e.key in names && Named(e.item, names)
    case _ => true
  }

  /** Names that differ without regard to case differ. */
  lemma {:induction false} FoldKeys<T>(ms: seq<Entry<T>>)
    requires Distinct(ms, false)
    ensures Distinct(ms, true)
  {
    if ms != [] {
      FoldKeys(ms[1..]);
      if ms[0].key in Keys(ms[1..], true) {
        var i := KeysWitness(ms[1..], ms[0].key, true);
        DistinctIndices(ms, 0, i + 1, false);
      }
    }
  }

  lemma {:induction false} KeysWitness<T>(ms: seq<Entry<T>>, k: CString, cs: bool) returns (i: nat)
    requires k in Keys(ms, cs)
    ensures i < |ms| && KeyOf(cs, ms[i].key) == k
  {
    if KeyOf(cs, ms[0].key) == k {
      i := 0;
    } else {
      i := KeysWitness(ms[1..], k, cs);
      i := i + 1;
    }
  }

  lemma {:induction false} FoldDistinctIsDistinct(j: Json)
    requires DistinctTree(j, false)
    ensures DistinctTree(j, true)
  {
    match j
    case Array(items) =>
      forall x | x in items ensures DistinctTree(x, true) { FoldDistinctIsDistinct(x); }
    case Object(ms) =>
      FoldKeys(ms);
      forall e | e in ms ensures DistinctTree(e.item, true) { FoldDistinctIsDistinct(e.item); }
    case _ =>
  }

  /** The members by name; the first member of a name counts, as it does in lookups. */
  function ToMap<T>(ms: seq<Entry<T>>, cs: bool): (m: map<CString, T>)
    ensures m.Keys == Keys(ms, cs)
  {
    if ms == [] then map[] else ToMap(ms[1..], cs)[KeyOf(cs, ms[0].key) := ms[0].item]
  }

  /** A lookup finds what the map holds. */
  lemma {:induction false} ToMapIndexOf<T>(ms: seq<Entry<T>>, name: CString, cs: bool)
    ensures IndexOf(ms, name, cs) < |ms| <==> KeyOf(cs, name) in ToMap(ms, cs)
    ensures IndexOf(ms, name, cs) < |ms| ==>
      ToMap(ms, cs)[KeyOf(cs, name)] == ms[IndexOf(ms, name, cs)].item
  {
    hide KeyOf;
    if ms != [] {
      ToMapIndexOf(ms[1..], name, cs);
    }
  }

  lemma UpdateThenRemove<K, V>(m: map<K, V>, k0: K, v: V, k: K)
    requires k0 != k
    ensures m[k0 := v] - {k} == (m - {k})[k0 := v]
  {
  }

  lemma {:induction false} ToMapRemove<T>(ms: seq<Entry<T>>, i: nat, cs: bool)
    requires i < |ms| && Distinct(ms, cs)
    ensures ToMap(RemoveAt(ms, i), cs) == ToMap(ms, cs) - {KeyOf(cs, ms[i].key)}
  {
    hide KeyOf;
    var k0, k := KeyOf(cs, ms[0].key), KeyOf(cs, ms[i].key);
    if i == 0 {
      assert RemoveAt(ms, 0) == ms[1..];
    } else {
      var rest := RemoveAt(ms, i);
      ToMapRemove(ms[1..], i - 1, cs);
      KeyInKeys(ms[1..], i - 1, cs);
      assert rest[1..] == RemoveAt(ms[1..], i - 1);
      DistinctIndices(ms, 0, i, cs);
      UpdateThenRemove(ToMap(ms[1..], cs), k0, ms[0].item, k);
    }
  }

  lemma {:induction false} ToMapAppend<T>(ms: seq<Entry<T>>, e: Entry<T>, cs: bool)
    requires KeyOf(cs, e.key) !in Keys(ms, cs)
    ensures ToMap(ms + [e], cs) == ToMap(ms, cs)[KeyOf(cs, e.key) := e.item]
  {
    hide KeyOf;
    if ms == [] {
      assert ms + [e] == [e];
      assert [e][1..] == [];
    } else {
      ToMapAppend(ms[1..], e, cs);
      assert ms + [e] == [ms[0]] + (ms[1..] + [e]);
    }
  }

  lemma {:induction false} ToMapUpdate<T>(ms: seq<Entry<T>>, i: nat, v: T, cs: bool)
    requires i < |ms| && Distinct(ms, cs)
    ensures ToMap(ms[i := Entry(ms[i].key, v)], cs) == ToMap(ms, cs)[KeyOf(cs, ms[i].key) := v]
  {
    hide KeyOf;
    var changed := ms[i := Entry(ms[i].key, v)];
    var k0, k := KeyOf(cs, ms[0].key), KeyOf(cs, ms[i].key);
    if i == 0 {
      assert changed[1..] == ms[1..];
    } else {
      ToMapUpdate(ms[1..], i - 1, v, cs);
      KeyInKeys(ms[1..], i - 1, cs);
      assert changed[1..] == ms[1..][i - 1 := Entry(ms[1..][i - 1].key, v)];
      calc {
        ToMap(changed, cs);
        ToMap(changed[1..], cs)[k0 := ms[0].item];
        ToMap(ms[1..], cs)[k := v][k0 := ms[0].item];
        ToMap(ms[1..], cs)[k0 := ms[0].item][k := v];
      }
    }
  }

  /** Reordering distinct members does not change the map. */
  lemma {:induction false} ToMapPermutation<T>(ms: seq<Entry<T>>, ns: seq<Entry<T>>, cs: bool)
    requires multiset(ms) == multiset(ns) && Distinct(ms, cs)
    ensures ToMap(ms, cs) == ToMap(ns, cs)
    decreases |ns|
  {
    hide KeyOf;
    if ns == [] {
      assert |multiset(ms)| == 0;
    } else {
      var i := PositionIn(ms, ns);
      KeysRemove(ms, i, cs);
      ToMapPermutation(RemoveAt(ms, i), ns[1..], cs);
      ToMapRemove(ms, i, cs);
      DistinctIndexOf(ms, i, cs);
      ToMapIndexOf(ms, ms[i].key, cs);
    }
  }

  // --- Meaning --------------------------------------------------------------

  /** A JSON value whose objects are unordered. */
  datatype Value =
    | VInvalid
    | VNull
    | VFalse
    | VTrue
    | VNumber(n: Int)
    | VString(text: CString)
    | VArray(items: seq<Value>)
    | VObject(members: map<CString, Value>)

  function Meaning(j: Json, cs: bool): Value
  {
    match j
    case Invalid => VInvalid
    case Null => VNull
    case False => VFalse
    case True => VTrue
    case Number(n) => VNumber(n)
    case String(text) => VString(text)
    case Array(items) => VArray(ItemMeanings(items, cs))
    case Object(ms) => VObject(ToMap(MemberMeanings(ms, cs), cs))
  }

  function ItemMeanings(items: seq<Json>, cs: bool): (r: seq<Value>)
    ensures |r| == |items|
    ensures forall i :: 0 <= i < |items| ==> r[i] == Meaning(items[i], cs)
  {
    if items == [] then [] else [Meaning(items[0], cs)] + ItemMeanings(items[1..], cs)
  }

  function MemberMeanings(ms: seq<Entry<Json>>, cs: bool): (r: seq<Entry<Value>>)
    ensures |r| == |ms|
    ensures forall i :: 0 <= i < |ms| ==> r[i] == Entry(ms[i].key, Meaning(ms[i].item, cs))
  {
    if ms == [] then []
    else [Entry(ms[0].key, Meaning(ms[0].item, cs))] + MemberMeanings(ms[1..], cs)
  }

  /** The members of an object by name, as values. */
  function MapOf(ms: seq<Entry<Json>>, cs: bool): map<CString, Value>
  {
    ToMap(MemberMeanings(ms, cs), cs)
  }

  lemma MapOfHead(ms: seq<Entry<Json>>, cs: bool)
    requires ms != []
    ensures MapOf(ms, cs) == MapOf(ms[1..], cs)[KeyOf(cs, ms[0].key) := Meaning(ms[0].item, cs)]
  {
    hide KeyOf;
    assert MemberMeanings(ms, cs)[1..] == MemberMeanings(ms[1..], cs);
  }

  lemma {:induction false} SameKeys<S, T>(ms: seq<Entry<S>>, ns: seq<Entry<T>>, cs: bool)
    requires |ms| == |ns| && forall i :: 0 <= i < |ms| ==> ms[i].key == ns[i].key
    ensures Keys(ms, cs) == Keys(ns, cs)
    ensures Distinct(ms, cs) == Distinct(ns, cs)
    ensures forall name :: IndexOf(ms, name, cs) == IndexOf(ns, name, cs)
  {
    if ms != [] {
      SameKeys(ms[1..], ns[1..], cs);
    }
  }

  lemma MapOfKeys(ms: seq<Entry<Json>>, cs: bool)
    ensures MapOf(ms, cs).Keys == Keys(ms, cs)
  {
    SameKeys(ms, MemberMeanings(ms, cs), cs);
  }

  lemma MapOfIndexOf(ms: seq<Entry<Json>>, name: CString, cs: bool)
    ensures IndexOf(ms, name, cs) < |ms| <==> KeyOf(cs, name) in MapOf(ms, cs)
    ensures IndexOf(ms, name, cs) < |ms| ==>
      MapOf(ms, cs)[KeyOf(cs, name)] == Meaning(ms[IndexOf(ms, name, cs)].item, cs)
  {
    hide KeyOf;
    SameKeys(ms, MemberMeanings(ms, cs), cs);
    ToMapIndexOf(MemberMeanings(ms, cs), name, cs);
  }

  lemma MapOfRemove(ms: seq<Entry<Json>>, i: nat, cs: bool)
    requires i < |ms| && Distinct(ms, cs)
    ensures MapOf(RemoveAt(ms, i), cs) == MapOf(ms, cs) - {KeyOf(cs, ms[i].key)}
  {
    hide KeyOf;
    SameKeys(ms, MemberMeanings(ms, cs), cs);
    ToMapRemove(MemberMeanings(ms, cs), i, cs);
    assert MemberMeanings(RemoveAt(ms, i), cs) == RemoveAt(MemberMeanings(ms, cs), i);
  }

  lemma MapOfAppend(ms: seq<Entry<Json>>, e: Entry<Json>, cs: bool)
    requires KeyOf(cs, e.key) !in Keys(ms, cs)
    ensures MapOf(ms + [e], cs) == MapOf(ms, cs)[KeyOf(cs, e.key) := Meaning(e.item, cs)]
  {
    hide KeyOf;
    SameKeys(ms, MemberMeanings(ms, cs), cs);
    ToMapAppend(MemberMeanings(ms, cs), Entry(e.key, Meaning(e.item, cs)), cs);
    assert MemberMeanings(ms + [e], cs) == MemberMeanings(ms, cs) + [Entry(e.key, Meaning(e.item, cs))];
  }

  lemma MapOfUpdate(ms: seq<Entry<Json>>, i: nat, v: Json, cs: bool)
    requires i < |ms| && Distinct(ms, cs)
    ensures MapOf(ms[i := Entry(ms[i].key, v)], cs) == MapOf(ms, cs)[KeyOf(cs, ms[i].key) := Meaning(v, cs)]
  {
    hide KeyOf;
    SameKeys(ms, MemberMeanings(ms, cs), cs);
    ToMapUpdate(MemberMeanings(ms, cs), i, Meaning(v, cs), cs);
    assert MemberMeanings(ms[i := Entry(ms[i].key, v)], cs)
        == MemberMeanings(ms, cs)[i := Entry(ms[i].key, Meaning(v, cs))];
  }

  lemma MeaningsRemove(ms: seq<Entry<Json>>, i: nat, cs: bool)
    requires i < |ms|
    ensures multiset(MemberMeanings(ms, cs))
         == multiset(MemberMeanings(RemoveAt(ms, i), cs)) + multiset{Entry(ms[i].key, Meaning(ms[i].item, cs))}
  {
    var vs := MemberMeanings(ms, cs);
    assert MemberMeanings(RemoveAt(ms, i), cs) == RemoveAt(vs, i);
    MultisetRemove(vs, i);
  }

  lemma {:induction false} MeaningsPermutation(ms: seq<Entry<Json>>, ns: seq<Entry<Json>>, cs: bool)
    requires multiset(ms) == multiset(ns)
    ensures multiset(MemberMeanings(ms, cs)) == multiset(MemberMeanings(ns, cs))
    decreases |ns|
  {
    if ns == [] {
      assert |multiset(ms)| == 0;
    } else {
      var i := PositionIn(ms, ns);
      MeaningsPermutation(RemoveAt(ms, i), ns[1..], cs);
      MeaningsRemove(ms, i, cs);
    }
  }

  lemma MapOfPermutation(ms: seq<Entry<Json>>, ns: seq<Entry<Json>>, cs: bool)
    requires multiset(ms) == multiset(ns) && Distinct(ms, cs)
    ensures MapOf(ms, cs) == MapOf(ns, cs)
  {
    hide KeyOf;
    SameKeys(ms, MemberMeanings(ms, cs), cs);
    MeaningsPermutation(ms, ns, cs);
    ToMapPermutation(MemberMeanings(ms, cs), MemberMeanings(ns, cs), cs);
  }

  // --- Duplication ----------------------------------------------------------

  const CIRCULAR_LIMIT: nat := 10000

  function Max(a: nat, b: nat): nat
  {
    if a < b then b else a
  }

  /** The number of levels below an item. */
  function Height(j: Json): nat
  {
    match j
    case Array(items) => HeightOfItems(items)
    case Object(ms) => HeightOfMembers(ms)
    case _ => 0
  }

  function HeightOfItems(items: seq<Json>): (h: nat)
    ensures forall x | x in items :: Height(x) < h
  {
    if items == [] then 0 else Max(1 + Height(items[0]), HeightOfItems(items[1..]))
  }

  function HeightOfMembers(ms: seq<Entry<Json>>): (h: nat)
    ensures forall e | e in ms :: Height(e.item) < h
  {
    if ms == [] then 0 else Max(1 + Height(ms[0].item), HeightOfMembers(ms[1..]))
  }

  /** `cJSON_Duplicate_rec`, whose only failure (memory aside) is the level limit. */
  function Duplicate(j: Json, depth: nat): Option<Json>
  {
    match j
    case Array(items) =>
      (match DuplicateItems(items, depth)
       case Some(copies) => Some(Array(copies))
       case None => None)
    case Object(ms) =>
      (match DuplicateMembers(ms, depth)
       case Some(copies) => Some(Object(copies))
       case None => None)
    case _ => Some(j)
  }

  function DuplicateItems(items: seq<Json>, depth: nat): Option<seq<Json>>
  {
    if items == [] then Some([])
    else if depth >= CIRCULAR_LIMIT then None
    else
      match Duplicate(items[0], depth + 1)
      case None => None
      case Some(first) =>
        match DuplicateItems(items[1..], depth)
        case None => None
        case Some(rest) => Some([first] + rest)
  }

  function DuplicateMembers(ms: seq<Entry<Json>>, depth: nat): Option<seq<Entry<Json>>>
  {
    if ms == [] then Some([])
    else if depth >= CIRCULAR_LIMIT then None
    else
      match Duplicate(ms[0].item, depth + 1)
      case None => None
      case Some(first) =>
        match DuplicateMembers(ms[1..], depth)
        case None => None
        case Some(rest) => Some([Entry(ms[0].key, first)] + rest)
  }

  /** A copy equals its source; there is one exactly when the tree is not too high. */
  lemma {:induction false} DuplicateIsCopy(j: Json, depth: nat)
    requires depth <= 10000
    ensures Duplicate(j, depth) == if depth + Height(j) <= 10000 then Some(j) else None
    decreases j, 1
  {
    match j
    case Array(items) => DuplicateItemsIsCopy(items, depth);
    case Object(ms) => DuplicateMembersIsCopy(ms, depth);
    case _ =>
  }

  lemma {:induction false} DuplicateItemsIsCopy(items: seq<Json>, depth: nat)
    requires depth <= 10000
    ensures DuplicateItems(items, depth)
         == if depth + HeightOfItems(items) <= 10000 then Some(items) else None
    decreases items, 0
  {
    if items != [] && depth < 10000 {
      DuplicateIsCopy(items[0], depth + 1);
      DuplicateItemsIsCopy(items[1..], depth);
      assert items == [items[0]] + items[1..];
    }
  }

  lemma {:induction false} DuplicateMembersIsCopy(ms: seq<Entry<Json>>, depth: nat)
    requires depth <= 10000
    ensures DuplicateMembers(ms, depth)
         == if depth + HeightOfMembers(ms) <= 10000 then Some(ms) else None
    decreases ms, 0
  {
    if ms != [] && depth < 10000 {
      DuplicateIsCopy(ms[0].item, depth + 1);
      DuplicateMembersIsCopy(ms[1..], depth);
      assert ms == [ms[0]] + ms[1..];
    }
  }
}
