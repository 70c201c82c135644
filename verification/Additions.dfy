/**
 Additions and replacements in objects that a `test` has sorted: exactly when they
 take effect, lose members, or follow a pointer to a node that has left the list.
 */
module Additions {
  import opened Bytes
  import opened Sequences
  import opened Json
  import opened MergeSort
  import opened Pointer
  import InPlace
  import opened Compare
  import opened Links
  import opened Live
  import opened Wear
  import Patch
  import PatchLaws
  import Diff
  import LiveEdits

  // --- One addition -------------------------------------------------------------------

  /**
   What becomes of an addition to an object: it takes effect; it loses the new member
   or others, with status 0; or it follows a pointer to a node that has left the list.
   */
  datatype Fate = Works | Loses | Dangles

  /** The fate of an addition by what it leaves, compared with what it should leave. */
  function FateOf(r: Result, goal: Json): Fate
  {
    if r.Undefined? then Dangles else if Plain(r.doc) == goal then Works else Loses
  }

  ghost predicate Succeeds(r: Result)
  {
    r.Done? ==> r.status == 0
  }

  /**
   The fate of an addition to an object of `n` members by where its list points back,
   `i` being the place of a member of the same name, or `n`. It works behind an intact
   list, or behind one that losing its last member repairs.
   */
  function AddFate(n: nat, back: Back, i: nat): Fate
  {
    if n == 0 || back == At(n - 1) || (i < n && (n == 1 || i == n - 1)) then Works
    else if back == Elsewhere || (i < n && back == At(i)) then Dangles
    else Loses
  }

  /** The fate is that of the addition to the members left when one of the same name is detached. */
  lemma DetachedFate(n: nat, back: Back, i: nat)
    requires i < n
    ensures AddFate(n - 1, DetachedBack(n, back, i), n - 1) == AddFate(n, back, i)
  {
  }

  lemma AddMemberFate(ms: seq<Entry<Doc>>, back: Back, e: Entry<Doc>)
    ensures var r := AddMember(ms, back, e);
      && Succeeds(r)
      && FateOf(r, Object(PlainMembers(ms) + [Entry(e.key, Plain(e.item))])) == AddFate(|ms|, back, |ms|)
  {
    hide PlainMembers, Plain, Appended;
    AppendedIff(ms, back, e);
    var r := AddMember(ms, back, e);
    if r.Done? {
      PlainObject(r.doc);
      assert |PlainMembers(r.doc.members)| == |r.doc.members|;
    }
  }

  lemma PlainObject(d: Doc)
    requires d.Members?
    ensures Plain(d) == Object(PlainMembers(d.members))
  {
  }

  lemma PlainRemove(ms: seq<Entry<Doc>>, i: nat)
    requires i < |ms|
    ensures PlainMembers(RemoveAt(ms, i)) == RemoveAt(PlainMembers(ms), i)
  {
    hide Plain, PlainMembers, RemoveAt;
    forall k | 0 <= k < |ms| - 1 ensures PlainMembers(RemoveAt(ms, i))[k] == RemoveAt(PlainMembers(ms), i)[k] {
      assert RemoveAt(ms, i)[k] == ms[if k < i then k else k + 1];
    }
  }

  /** The fate of an addition to an object, which has status 0 unless it follows a pointer out of the list. */
  lemma AdditionFate(ms: seq<Entry<Doc>>, back: Back, child: CString, v: Doc, cs: bool)
    ensures var r := AddSub(Members(ms, back), child, v, cs);
      && Succeeds(r)
      && FateOf(r, Patch.AddChild(Object(PlainMembers(ms)), child, Plain(v), cs).doc)
           == AddFate(|ms|, back, IndexOf(ms, child, cs))
  {
    hide IndexOf, PlainMembers, AddMember, RemoveAt, DetachedBack, AddFate, FateOf, Plain;
    SameKeys(ms, PlainMembers(ms), cs);
    var i := IndexOf(ms, child, cs);
    if i < |ms| {
      PlainRemove(ms, i);
      DetachedFate(|ms|, back, i);
      AddMemberFate(RemoveAt(ms, i), DetachedBack(|ms|, back, i), Entry(child, v));
    } else {
      AddMemberFate(ms, back, Entry(child, v));
    }
  }

  // --- Where sorting leaves the back pointer -----------------------------------------------

  /** The names with their places. */
  function Numbered<T>(ms: seq<Entry<T>>): (r: seq<Entry<nat>>)
    ensures |r| == |ms| && forall i :: 0 <= i < |ms| ==> r[i] == Entry(ms[i].key, i)
  {
    seq(|ms|, i requires 0 <= i < |ms| => Entry(ms[i].key, i))
  }

  /** Sorting moves neither the first nor the last member. */
  predicate EndsStay<T>(ms: seq<Entry<T>>, cs: bool)
  {
    var s := Sort(Numbered(ms), cs);
    s != [] ==> s[0].item == 0 && s[|s| - 1].item == |s| - 1
  }

  /** Where an intact list points back once it has been sorted. */
  function After<T>(ms: seq<Entry<T>>, cs: bool): Back
  {
    SortedBack(Numbered(ms), Sort(Numbered(ms), cs), End(|ms|))
  }

  /**
   The fate of an addition to an intact list that has been sorted, which replaces the
   member sorted to place `i`, if there is one there. The list is intact if neither end
   has moved; it points back at the old last member if the old first one is still first.
   */
  function SortedFate<T>(ms: seq<Entry<T>>, i: nat, cs: bool): Fate
  {
    var n, s := |ms|, Sort(Numbered(ms), cs);
    if n <= 1 || EndsStay(ms, cs) || i == n - 1 then Works
    else if i < |s| && s[0].item == 0 && s[i].item == n - 1 then Dangles
    else Loses
  }

  /** What has been sorted tells where it was. */
  lemma NumberTells<T>(ms: seq<Entry<T>>, k: nat, cs: bool)
    requires k < |ms|
    ensures var e := Sort(Numbered(ms), cs)[k]; 0 <= e.item < |ms| && e == Numbered(ms)[e.item]
  {
    hide Sort;
    var t, s := Numbered(ms), Sort(Numbered(ms), cs);
    SortMember(t, cs, s[k]);
    var i :| 0 <= i < |t| && t[i] == s[k];
  }

  lemma NumberedOnce<T>(ms: seq<Entry<T>>)
    ensures NoDuplicates(Numbered(ms))
  {
    var t := Numbered(ms);
    forall i, j | 0 <= i < j < |t| ensures t[i] != t[j] {
      assert t[i].item == i && t[j].item == j;
    }
  }

  lemma AfterMeans<T>(ms: seq<Entry<T>>, i: nat, cs: bool)
    requires i < |ms|
    ensures var s := Sort(Numbered(ms), cs);
      && After(ms, cs) != Elsewhere
      && (After(ms, cs) == At(i) <==> s[0].item == 0 && s[i].item == |ms| - 1)
  {
    var t, s, n := Numbered(ms), Sort(Numbered(ms), cs), |ms| - 1;
    SortPermutes(t, cs);
    NumberedOnce(ms);
    NumberTells(ms, 0, cs);
    NumberTells(ms, i, cs);
    hide Sort, PositionOf, NoDuplicates;
    PositionIs(s, t, t[n], i);
  }

  lemma AfterFate<T>(ms: seq<Entry<T>>, i: nat, cs: bool)
    ensures AddFate(|ms|, After(ms, cs), i) == SortedFate(ms, i, cs)
  {
    hide Sort, Numbered, After;
    if ms != [] {
      AfterMeans(ms, |ms| - 1, cs);
      AfterMeans(ms, if i < |ms| then i else |ms| - 1, cs);
      NumberTells(ms, 0, cs);
    }
  }

  lemma TaggedNumbers(ms: seq<Entry<Doc>>, cs: bool)
    ensures |Sort(Tagged(ms), cs)| == |Sort(Numbered(ms), cs)| == |ms|
    ensures forall k :: 0 <= k < |ms| ==> Sort(Numbered(ms), cs)[k].item == Sort(Tagged(ms), cs)[k].item.0
  {
    hide Sort;
    var f := (p: (nat, Doc)) => p.0;
    SortMapped(Tagged(ms), f, cs);
    assert Mapped(Tagged(ms), f) == Numbered(ms);
  }

  /** The same for the members of a document. */
  lemma AfterTagged(ms: seq<Entry<Doc>>, cs: bool)
    ensures SortedBack(Tagged(ms), Sort(Tagged(ms), cs), End(|ms|)) == After(ms, cs)
  {
    hide Sort, PositionOf, NoDuplicates;
    var t, s, z := Tagged(ms), Sort(Tagged(ms), cs), Sort(Numbered(ms), cs);
    TaggedNumbers(ms, cs);
    if ms != [] {
      var n := |ms| - 1;
      SortMembers(t, cs);
      SortPermutes(Numbered(ms), cs);
      NumberedOnce(ms);
      NumberTells(ms, 0, cs);
      TagTells(ms, s[0]);
      assert t[n] in t;
      var p := PositionOf(s, t[n]);
      assert z[p].item == s[p].item.0 == n;
      NumberTells(ms, p, cs);
      PositionIs(z, Numbered(ms), Numbered(ms)[n], p);
    }
  }

  lemma TagTells(ms: seq<Entry<Doc>>, e: Entry<(nat, Doc)>)
    requires e in Tagged(ms)
    ensures e.item.0 < |ms| && e == Tagged(ms)[e.item.0]
  {
  }

  lemma AfterSame<S, T>(ms: seq<Entry<S>>, ns: seq<Entry<T>>, cs: bool)
    requires |ms| == |ns| && forall i :: 0 <= i < |ms| ==> ms[i].key == ns[i].key
    ensures After(ms, cs) == After(ns, cs)
  {
    assert Numbered(ms) == Numbered(ns);
  }

  // --- Everything sorted ------------------------------------------------------------------

  /** A document of which every object has been sorted. */
  function Ordered(d: Doc, cs: bool): Doc
    decreases d, 1
  {
    match d
    case Leaf(_) => d
    case Items(s) => Items(OrderedItems(s, cs))
    case Members(ms, back) =>
      SortedSame(ms, back, cs);
      var sorted := SortMembersOf(ms, back, cs);
      Members(OrderedMembers(sorted.members, cs, d), sorted.back)
  }

  function OrderedItems(s: seq<Doc>, cs: bool): (r: seq<Doc>)
    ensures |r| == |s| && forall i :: 0 <= i < |s| ==> r[i] == Ordered(s[i], cs)
    decreases s, 0
  {
    if s == [] then [] else [Ordered(s[0], cs)] + OrderedItems(s[1..], cs)
  }

  function OrderedMembers(x: seq<Entry<Doc>>, cs: bool, ghost whole: Doc): (r: seq<Entry<Doc>>)
    requires whole.Members? && forall e :: e in x ==> e in whole.members
    ensures |r| == |x| && forall i :: 0 <= i < |x| ==> x[i] in x && r[i] == Entry(x[i].key, Ordered(x[i].item, cs))
    decreases whole, 0, |x|
  {
    if x == [] then []
    else
      assert x[0] in whole.members;
      [Entry(x[0].key, Ordered(x[0].item, cs))] + OrderedMembers(x[1..], cs, whole)
  }

  /** A `test` that succeeds sorts all it compares. */
  lemma {:induction false} PassedIsOrdered(a: Doc, b: Json, cs: bool)
    requires CompareSorted(Plain(a), b, cs)
    ensures Worn(a, b, cs) == Ordered(a, cs)
    decreases b, 1
  {
    match a
    case Leaf(_) =>
    case Items(s) => PassedItems(s, b.items, cs);
    case Members(ms, back) => PassedObject(ms, back, b.members, cs);
  }

  lemma {:induction false} PassedItems(x: seq<Doc>, y: seq<Json>, cs: bool)
    requires PairItems(PlainItems(x), y, cs)
    ensures WornItems(x, y, cs) == OrderedItems(x, cs)
    decreases y, 0, 0
  {
    hide Worn, Ordered, CompareSorted, Plain;
    if x != [] && y != [] {
      assert PlainItems(x)[1..] == PlainItems(x[1..]);
      PassedIsOrdered(x[0], y[0], cs);
      PassedItems(x[1..], y[1..], cs);
    }
  }

  lemma {:induction false} PassedObject(ms: seq<Entry<Doc>>, back: Back, ns: seq<Entry<Json>>, cs: bool)
    requires CompareSorted(Object(PlainMembers(ms)), Object(ns), cs)
    ensures Worn(Members(ms, back), Object(ns), cs) == Ordered(Members(ms, back), cs)
    decreases Object(ns), 0
  {
    var sorted := SortMembersOf(ms, back, cs);
    var a, b := Object(PlainMembers(ms)), Object(ns);
    SortMembers(PlainMembers(ms), cs);
    assert PairMembers(Sort(PlainMembers(ms), cs), Sort(ns, cs), cs, a);
    SortedPlain(ms, back, cs);
    SortedSame(ms, back, cs);
    SortedAmong(ns, cs);
    WornObject(ms, back, ns, cs);
    OrderedObject(ms, back, cs);
    hide SortMembersOf, Sort, Worn, Ordered, PairMembers, WornMembers, OrderedMembers, CompareSorted, PlainMembers;
    PassedMembers(sorted.members, Sort(ns, cs), cs, a, b, Members(ms, back));
  }

  lemma OrderedObject(ms: seq<Entry<Doc>>, back: Back, cs: bool)
    requires forall e :: e in SortMembersOf(ms, back, cs).members ==> e in ms
    ensures var sorted := SortMembersOf(ms, back, cs);
      Ordered(Members(ms, back), cs)
        == Members(OrderedMembers(sorted.members, cs, Members(ms, back)), sorted.back)
  {
    hide SortMembersOf, OrderedMembers;
  }

  lemma {:induction false} PassedMembers(x: seq<Entry<Doc>>, y: seq<Entry<Json>>, cs: bool, elder: Json, whole: Json, d: Doc)
    requires elder.Object? && forall e :: e in PlainMembers(x) ==> e in elder.members
    requires whole.Object? && forall e :: e in y ==> e in whole.members
    requires d.Members? && forall e :: e in x ==> e in d.members
    requires PairMembers(PlainMembers(x), y, cs, elder)
    ensures WornMembers(x, y, cs, whole) == OrderedMembers(x, cs, d)
    decreases whole, 0, |y|
  {
    hide Worn, Ordered, CompareSorted, Plain, KeyOf, Strcmp;
    if x != [] && y != [] {
      assert PlainMembers(x)[1..] == PlainMembers(x[1..]);
      assert y[0] in whole.members;
      PassedIsOrdered(x[0].item, y[0].item, cs);
      PassedMembers(x[1..], y[1..], cs, elder, whole, d);
    }
  }

  // --- Places before and after sorting -------------------------------------------------------

  lemma OrderedSub(d: Doc, i: nat, cs: bool) returns (k: nat)
    requires i < |Subs(Ordered(d, cs))|
    ensures k < |Subs(d)| && Subs(Ordered(d, cs))[i] == Ordered(Subs(d)[k], cs)
  {
    match d
    case Leaf(_) =>
    case Items(s) => k := i;
    case Members(ms, back) => k := OrderedMember(ms, back, i, cs);
  }

  lemma OrderedMember(ms: seq<Entry<Doc>>, back: Back, i: nat, cs: bool) returns (k: nat)
    requires i < |Subs(Ordered(Members(ms, back), cs))|
    ensures k < |ms| && Subs(Ordered(Members(ms, back), cs))[i] == Ordered(ms[k].item, cs)
  {
    hide SortMembersOf, Ordered, OrderedMembers, Plain;
    SortedSame(ms, back, cs);
    OrderedObject(ms, back, cs);
    var sorted := SortMembersOf(ms, back, cs);
    var members := OrderedMembers(sorted.members, cs, Members(ms, back));
    assert sorted.members[i] in ms;
    k :| 0 <= k < |ms| && ms[k] == sorted.members[i];
  }

  /** Each item of a sorted document has been one of the document, and has been sorted itself. */
  lemma {:induction false} OrderedAt(d: Doc, l: Location, cs: bool) returns (place: Location)
    requires Exists(Plain(Ordered(d, cs)), l)
    ensures Exists(Plain(d), place) && ItemAt(Ordered(d, cs), l) == Ordered(ItemAt(d, place), cs)
    decreases |l|
  {
    hide Plain, Ordered;
    if l == [] {
      place := [];
    } else {
      var k := OrderedSub(d, l[0], cs);
      var rest := OrderedAt(Subs(d)[k], l[1..], cs);
      place := [k] + rest;
      assert place[1..] == rest;
    }
  }

  lemma ExistsSub(d: Doc, l: Location)
    requires l != []
    ensures Exists(Plain(d), l) <==> l[0] < |Subs(d)| && Exists(Plain(Subs(d)[l[0]]), l[1..])
  {
    hide Plain;
  }

  /** Below a place that has been put, one finds what is below the item put there. */
  lemma {:induction false} BelowPut(d: Doc, at: Location, v: Doc, l: Location)
    requires Exists(Plain(d), at)
    ensures Exists(Plain(PutAt(d, at, v)), at + l) <==> Exists(Plain(v), l)
    ensures Exists(Plain(v), l) ==> ItemAt(PutAt(d, at, v), at + l) == ItemAt(v, l)
    decreases |at|
  {
    hide Plain, SetSub, Exists, Subs;
    if at == [] {
      assert at + l == l;
    } else {
      ExistsSub(d, at);
      var i := at[0];
      var kid := PutAt(Subs(d)[i], at[1..], v);
      BelowPut(Subs(d)[i], at[1..], v, l);
      SubSet(d, i, kid);
      assert (at + l)[1..] == at[1..] + l && (at + l)[0] == i;
      ExistsSub(SetSub(d, i, kid), at + l);
    }
  }

  lemma SubSet(d: Doc, i: nat, v: Doc)
    requires i < |Subs(d)|
    ensures |Subs(SetSub(d, i, v))| == |Subs(d)| && Subs(SetSub(d, i, v))[i] == v
  {
  }

  lemma {:induction false} GetBelow(j: Json, at: Location, l: Location)
    requires Exists(j, at) && Exists(Get(j, at), l)
    ensures Exists(j, at + l) && Get(j, at + l) == Get(Get(j, at), l)
    decreases |at|
  {
    if at == [] {
      assert at + l == l;
    } else {
      GetBelow(Kids(j)[at[0]], at[1..], l);
      assert (at + l)[1..] == at[1..] + l;
    }
  }

  // --- Test, then add or replace ----------------------------------------------------------------

  lemma SortedShape(ms: seq<Entry<Json>>, cs: bool)
    ensures var d := Ordered(Fresh(Object(ms)), cs);
      && d.Members? && |d.members| == |ms| == |Sort(ms, cs)|
      && (forall i :: 0 <= i < |ms| ==> d.members[i].key == Sort(ms, cs)[i].key)
      && d.back == After(ms, cs)
  {
    hide Sort, Ordered, Fresh, FreshMembers, Tagged, SortedBack, PlainMembers, Plain, End, After;
    var fs, back := FreshMembers(ms), End(|ms|);
    LiveEdits.FreshObject(ms);
    SortedSame(fs, back, cs);
    OrderedObject(fs, back, cs);
    SortedPlain(fs, back, cs);
    PlainFreshMembers(ms);
    AfterTagged(fs, cs);
    AfterSame(fs, ms, cs);
    var sorted := SortMembersOf(fs, back, cs);
    hide SortMembersOf;
    assert forall i :: 0 <= i < |ms| ==> PlainMembers(sorted.members)[i].key == sorted.members[i].key;
  }

  lemma PlainFreshMembers(ms: seq<Entry<Json>>)
    ensures PlainMembers(FreshMembers(ms)) == ms
  {
    hide Plain, Fresh, PlainMembers, FreshMembers;
    forall i | 0 <= i < |ms| ensures PlainMembers(FreshMembers(ms))[i] == ms[i] {
      PlainFresh(ms[i].item);
    }
  }

  /** The parent that a path to be added to leads to is the item at a place. */
  predicate Parents(doc: Doc, path: CString, at: Location, cs: bool)
  {
    Patch.LastSlash(path).Some? && Locate(Plain(doc), path[..Patch.LastSlash(path).value], cs) == Some(at)
  }

  lemma AddUnderFate(doc: Doc, at: Location, child: CString, v: Doc, cs: bool)
    requires Exists(Plain(doc), at) && ItemAt(doc, at).Members?
    ensures var parent := ItemAt(doc, at);
      var r := AddUnder(doc, at, child, v, cs);
      && Succeeds(r)
      && FateOf(r, Patch.AddUnder(Plain(doc), at, child, Plain(v), cs).doc)
           == AddFate(|parent.members|, parent.back, IndexOf(parent.members, child, cs))
  {
    var parent := ItemAt(doc, at);
    PlainObject(parent);
    hide AddSub, AddFate, IndexOf, PutAt, Get, PlainMembers, Plain, Patch.Put;
    AdditionFate(parent.members, parent.back, child, v, cs);
    var r, goal := AddSub(parent, child, v, cs), Patch.AddChild(Plain(parent), child, Plain(v), cs);
    assert goal.status == 0;
    hide Patch.AddChild;
    if r.Done? {
      PutAtPlain(doc, at, r.doc);
      PutsSame(Plain(doc), at, Plain(r.doc), goal.doc);
    }
  }

  /** The fate of an addition at a path is its fate in the parent. */
  lemma AddToFate(doc: Doc, path: CString, v: Doc, at: Location, cs: bool)
    requires Parents(doc, path, at, cs) && ItemAt(doc, at).Members?
    ensures var parent := ItemAt(doc, at);
      var r := AddTo(doc, path, v, cs);
      && Succeeds(r)
      && FateOf(r, Patch.AddAt(Plain(doc), path, Plain(v), cs).doc)
           == AddFate(|parent.members|, parent.back, IndexOf(parent.members, PatchLaws.LastToken(path), cs))
  {
    hide AddUnder, Patch.AddUnder, AddFate, FateOf, IndexOf, InPlace.DecodeInPlace, Locate, Plain, Exists, ItemAt;
    AddUnderFate(doc, at, PatchLaws.LastToken(path), v, cs);
  }

  /** The path leads to an object that an addition would leave through its back pointer. */
  predicate Dangling(doc: Doc, path: CString, cs: bool)
  {
    match Patch.LastSlash(path)
    case None => false
    case Some(s) =>
      match Locate(Plain(doc), path[..s], cs)
      case None => false
      case Some(at) =>
        var parent := ItemAt(doc, at);
        parent.Members? && AddFate(|parent.members|, parent.back, IndexOf(parent.members, PatchLaws.LastToken(path), cs)) == Dangles
  }

  /** Exactly when an addition at a path, in any document, follows a pointer to a node that has left the list. */
  lemma DanglesIff(doc: Doc, path: CString, v: Doc, cs: bool)
    ensures AddTo(doc, path, v, cs).Undefined? <==> Dangling(doc, path, cs)
  {
    hide IndexOf, InPlace.DecodeInPlace, Locate, Plain, Exists, ItemAt, PutAt, AddMember, AddFate, Patch.AddAt;
    var slash := Patch.LastSlash(path);
    if slash.Some? {
      var at := Locate(Plain(doc), path[..slash.value], cs);
      if at.Some? && ItemAt(doc, at.value).Members? {
        AddToFate(doc, path, v, at.value, cs);
      }
    }
  }

  lemma PutsSame(j: Json, at: Location, v: Json, w: Json)
    requires Exists(j, at)
    ensures Patch.Put(j, at, v) == Patch.Put(j, at, w) <==> v == w
  {
    hide Patch.Put, Get;
    PatchLaws.PutGet(j, at, v);
    PatchLaws.PutGet(j, at, w);
  }

  /** Detaching a member at a path, and adding a value there to the members that are left. */
  lemma ReplaceFate(doc: Doc, path: CString, v: Doc, at: Location, cs: bool)
    requires Parents(doc, path, at, cs) && ItemAt(doc, at).Members?
    ensures var parent, t := ItemAt(doc, at), DetachAt(doc, path, cs);
      var n, i := |parent.members|, IndexOf(parent.members, PatchLaws.LastToken(path), false);
      && (t.Some? <==> i < n)
      && (t.Some? ==>
            && Succeeds(AddTo(t.value.doc, path, v, cs))
            && FateOf(AddTo(t.value.doc, path, v, cs), Patch.AddAt(Plain(t.value.doc), path, Plain(v), cs).doc)
                 == AddFate(n - 1, DetachedBack(n, parent.back, i), IndexOf(RemoveAt(parent.members, i), PatchLaws.LastToken(path), cs)))
  {
    hide AddFate, IndexOf, PutAt, InPlace.DecodeInPlace, Locate, Get, ItemAt, AddTo, FateOf, Plain, RemoveAt;
    var parent, t := ItemAt(doc, at), DetachAt(doc, path, cs);
    if t.Some? {
      var i := IndexOf(parent.members, PatchLaws.LastToken(path), false);
      var rest := Members(RemoveAt(parent.members, i), DetachedBack(|parent.members|, parent.back, i));
      assert t.value.doc == PutAt(doc, at, rest);
      hide DetachAt, DetachedBack;
      PutAtPlain(doc, at, rest);
      PatchLaws.LocatePut(Plain(doc), path[..Patch.LastSlash(path).value], Plain(rest), cs);
      PutItem(doc, at, rest);
      AddToFate(t.value.doc, path, v, at, cs);
    }
  }

  lemma PutItem(doc: Doc, at: Location, v: Doc)
    requires Exists(Plain(doc), at)
    ensures Exists(Plain(PutAt(doc, at, v)), at) && ItemAt(PutAt(doc, at, v), at) == v
  {
    hide Plain, PutAt;
    assert at + [] == at;
    BelowPut(doc, at, v, []);
  }

  /** `detach_path` does to the links of a document what it does to the tree. */
  lemma DetachPlain(doc: Doc, path: CString, cs: bool)
    ensures Patch.DetachPath(Plain(doc), path, cs)
         == match DetachAt(doc, path, cs) case None => None
            case Some(t) => Some(Patch.Detached(Plain(t.item), Plain(t.doc)))
  {
    hide DetachSub, Patch.DetachChild, InPlace.DecodeInPlace, Plain, PutAt, ItemAt, Patch.Put, Get, Locate;
    var slash := Patch.LastSlash(path);
    if slash.Some? {
      var at := Locate(Plain(doc), path[..slash.value], cs);
      if at.Some? {
        var parent, child := ItemAt(doc, at.value), InPlace.DecodeInPlace(path[slash.value + 1..]);
        DetachSubPlain(parent, child);
        var t := DetachSub(parent, child);
        if t.Some? {
          PutAtPlain(doc, at.value, t.value.doc);
        }
      }
    }
  }

  lemma DetachSubPlain(parent: Doc, child: CString)
    ensures Patch.DetachChild(Plain(parent), child)
         == match DetachSub(parent, child) case None => None
            case Some(t) => Some(Patch.Detached(Plain(t.item), Plain(t.doc)))
  {
    match parent
    case Leaf(_) =>
    case Items(s) =>
      var index := DecodeIndex(child);
      if index.Some? && index.value < |s| {
        var i := index.value;
        assert PlainItems(RemoveAt(s, i)) == RemoveAt(PlainItems(s), i);
      }
    case Members(ms, back) =>
      SameKeys(ms, PlainMembers(ms), false);
      var i := IndexOf(ms, child, false);
      if i < |ms| {
        PlainRemove(ms, i);
      }
  }

  /** Where the object to be added to was, before `test` sorted it. */
  lemma TestedParent(j: Json, at: Location, l: Location, cs: bool) returns (ms: seq<Entry<Json>>, place: Location)
    requires Exists(j, at) && Exists(Plain(Fresh(j)), at)
    requires var doc := PutAt(Fresh(j), at, Ordered(ItemAt(Fresh(j), at), cs));
      Exists(Plain(doc), at + l) && ItemAt(doc, at + l).Members?
    ensures Exists(j, at + place) && Get(j, at + place) == Object(ms)
    ensures ItemAt(PutAt(Fresh(j), at, Ordered(ItemAt(Fresh(j), at), cs)), at + l) == Ordered(Fresh(Object(ms)), cs)
  {
    hide Plain, Ordered, Fresh, PutAt;
    var top := ItemAt(Fresh(j), at);
    LiveEdits.FreshItemAt(j, at);
    BelowPut(Fresh(j), at, Ordered(top, cs), l);
    place := OrderedAt(top, l, cs);
    PlainFresh(Get(j, at));
    LiveEdits.FreshItemAt(Get(j, at), place);
    GetBelow(j, at, place);
    ms := OrderedFresh(Get(j, at + place), cs);
  }

  lemma OrderedFresh(j: Json, cs: bool) returns (ms: seq<Entry<Json>>)
    requires Ordered(Fresh(j), cs).Members?
    ensures j == Object(ms)
  {
    ms := j.members;
  }

  /** An operation object that compares what is at a path with a value. */
  predicate IsTest(test: Json, p: CString, b: Json, cs: bool)
  {
    && Patch.GetItem(test, "path", cs) == Some(String(p)) && Patch.HasOp(test, "test", cs)
    && Patch.GetItem(test, "value", cs) == Some(b)
  }

  /**
   The path leads to a member of an object somewhere in what a successful `test` has
   compared, `l` being the place of the object in there.
   */
  ghost predicate Follows(j: Json, test: Json, p: CString, b: Json, q: CString, l: Location, cs: bool)
  {
    && IsTest(test, p, b, cs) && Passes(Fresh(j), p, Some(b), cs)
    && var doc, at := Tested(Fresh(j), p, Some(b), cs), Locate(Plain(Fresh(j)), p, cs).value;
       Parents(doc, q, at + l, cs) && ItemAt(doc, at + l).Members?
  }

  /** The members `ms` that object had before, at a place of the document, and how it is left. */
  lemma Compared(j: Json, test: Json, p: CString, b: Json, q: CString, l: Location, cs: bool)
    returns (ms: seq<Entry<Json>>, place: Location, at: Location)
    requires Follows(j, test, p, b, q, l, cs)
    ensures Exists(j, place) && Get(j, place) == Object(ms)
    ensures Parents(Tested(Fresh(j), p, Some(b), cs), q, at, cs)
    ensures var parent := ItemAt(Tested(Fresh(j), p, Some(b), cs), at);
      && parent.Members? && |parent.members| == |ms| && parent.back == After(ms, cs)
      && (forall i :: 0 <= i < |ms| ==> parent.members[i].key == Sort(ms, cs)[i].key)
  {
    hide Plain, Fresh, Ordered, PutAt, ItemAt, Worn, CompareSorted, Locate, Get, Sort, After, Patch.LastSlash;
    var top := Locate(Plain(Fresh(j)), p, cs).value;
    PlainFresh(j);
    PassedIsOrdered(ItemAt(Fresh(j), top), b, cs);
    ms, place := TestedParent(j, top, l, cs);
    SortedShape(ms, cs);
    place, at := top + place, top + l;
  }

  /**
   Adding to an object, anywhere in what a `test` has just successfully compared: the
   addition works, loses members with status 0, or follows a pointer out of the list,
   exactly as `SortedFate` says of the members the object had before the `test`.
   */
  lemma TestThenAdd(j: Json, test: Json, p: CString, b: Json, q: CString, w: Json, l: Location, cs: bool)
    returns (ms: seq<Entry<Json>>, place: Location)
    requires Follows(j, test, p, b, q, l, cs) && Height(w) <= 10000
    ensures Exists(j, place) && Get(j, place) == Object(ms) && Patch.LastSlash(q).Some?
    ensures var r := ApplyAll(Fresh(j), [test, Diff.PatchOf(Diff.Step(Patch.ADD, q, Some(w)))], cs);
      && Succeeds(r)
      && FateOf(r, Patch.AddAt(Plain(Tested(Fresh(j), p, Some(b), cs)), q, w, cs).doc)
           == SortedFate(ms, IndexOf(Sort(ms, cs), PatchLaws.LastToken(q), cs), cs)
  {
    hide Plain, Fresh, ItemAt, SortedFate, AddFate, FateOf, AddTo, Tested, Sort, After, IndexOf, Locate, Get, Exists;
    hide Patch.AddAt, ApplyAll, Diff.PatchOf, Height, Duplicate, InPlace.DecodeInPlace, Follows;
    var doc, at := Tested(Fresh(j), p, Some(b), cs), [];
    PlainFresh(w);
    ms, place, at := Compared(j, test, p, b, q, l, cs);
    SameKeys(ItemAt(doc, at).members, Sort(ms, cs), cs);
    AddToFate(doc, q, Fresh(w), at, cs);
    AfterFate(ms, IndexOf(Sort(ms, cs), PatchLaws.LastToken(q), cs), cs);
    TestRuns(j, test, p, b, q, l, Diff.Step(Patch.ADD, q, Some(w)), cs);
    DuplicateIsCopy(w, 0);
  }

  /**
   The fate of a replacement under a name in an intact list that has been sorted: one
   member is detached, looked up without regard to case, and the new one is added to
   those that are left, in place of another one of the name if there is one.
   */
  function ReplacedFate(ms: seq<Entry<Json>>, child: CString, cs: bool): Fate
    requires IndexOf(Sort(ms, cs), child, false) < |ms|
  {
    var i := IndexOf(Sort(ms, cs), child, false);
    AddFate(|ms| - 1, DetachedBack(|ms|, After(ms, cs), i), IndexOf(RemoveAt(Sort(ms, cs), i), child, cs))
  }

  /** If there is no other one of the name, it is that of an addition in place of the one detached. */
  lemma ReplacedOnce(ms: seq<Entry<Json>>, child: CString, cs: bool)
    requires IndexOf(Sort(ms, cs), child, false) < |ms|
    requires IndexOf(RemoveAt(Sort(ms, cs), IndexOf(Sort(ms, cs), child, false)), child, cs) == |ms| - 1
    ensures ReplacedFate(ms, child, cs) == SortedFate(ms, IndexOf(Sort(ms, cs), child, false), cs)
  {
    hide Sort, IndexOf, RemoveAt, After, SortedFate, DetachedBack, AddFate;
    var i := IndexOf(Sort(ms, cs), child, false);
    DetachedFate(|ms|, After(ms, cs), i);
    AfterFate(ms, i, cs);
  }

  /** Replacing a member of such an object likewise; without a member of the name it fails and changes nothing. */
  lemma TestThenReplace(j: Json, test: Json, p: CString, b: Json, q: CString, w: Json, l: Location, cs: bool)
    returns (ms: seq<Entry<Json>>, place: Location)
    requires Follows(j, test, p, b, q, l, cs) && Height(w) <= 10000
    ensures Exists(j, place) && Get(j, place) == Object(ms) && Patch.LastSlash(q).Some?
    ensures var doc := Tested(Fresh(j), p, Some(b), cs);
      var r := ApplyAll(Fresh(j), [test, Diff.PatchOf(Diff.Step(Patch.REPLACE, q, Some(w)))], cs);
      if IndexOf(Sort(ms, cs), PatchLaws.LastToken(q), false) == |ms| then r == Done(13, doc)
      else
        && Succeeds(r)
        && FateOf(r, Patch.ApplyOperation(Plain(doc), Patch.REPLACE, q, Some(w), None, cs).doc)
             == ReplacedFate(ms, PatchLaws.LastToken(q), cs)
  {
    hide Plain, Fresh, ItemAt, AddFate, FateOf, AddTo, Tested, Sort, After, IndexOf, RemoveAt, Locate, Get, Exists;
    hide Patch.AddAt, ApplyAll, Diff.PatchOf, Height, Duplicate, InPlace.DecodeInPlace, Follows, DetachAt, DetachedBack;
    hide Patch.DetachPath;
    var doc, at := Tested(Fresh(j), p, Some(b), cs), [];
    PlainFresh(w);
    ms, place, at := Compared(j, test, p, b, q, l, cs);
    var members, i := ItemAt(doc, at).members, IndexOf(Sort(ms, cs), PatchLaws.LastToken(q), false);
    SameKeys(members, Sort(ms, cs), false);
    if i < |ms| {
      SameKeys(RemoveAt(members, i), RemoveAt(Sort(ms, cs), i), cs);
    }
    ReplaceFate(doc, q, Fresh(w), at, cs);
    DetachPlain(doc, q, cs);
    TestRuns(j, test, p, b, q, l, Diff.Step(Patch.REPLACE, q, Some(w)), cs);
    DuplicateIsCopy(w, 0);
  }

  /** An operation after a successful `test` acts on what that leaves. */
  lemma TestRuns(j: Json, test: Json, p: CString, b: Json, q: CString, l: Location, s: Diff.Step, cs: bool)
    requires Follows(j, test, p, b, q, l, cs) && Diff.IsEdit(s)
    ensures ApplyAll(Fresh(j), [test, Diff.PatchOf(s)], cs)
         == Apply(Tested(Fresh(j), p, Some(b), cs), s.operation, s.path, s.value, None, cs)
  {
    hide Passes, Tested, Apply, Diff.PatchOf, Patch.GetItem, Patch.DecodeOperation, Fresh, Parents, ItemAt, Plain;
    Patch.OperationNames(test, "test", cs);
    PatchLaws.ApplyTwo(Fresh(j), test, Diff.PatchOf(s), cs);
    Diff.PatchRuns(Tested(Fresh(j), p, Some(b), cs), s, cs);
  }
}
