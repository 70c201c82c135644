/**
 Documents as JSON Patch (RFC 6902) leaves them: trees in which every object also
 knows where its first child points back. `test` sorts what it compares, which can
 leave that pointer wrong, so that a later addition to the object goes astray.

 On documents whose lists are intact, as parsing and copying make them, all other
 operations do what `Patch` says and leave the lists intact.
 */
module Live {
  import opened Bytes
  import opened Sequences
  import opened Json
  import MergeSort
  import opened Pointer
  import InPlace
  import Compare
  import opened Links
  import Patch

  type Scalar = j: Json | !j.Array? && !j.Object? witness Null

  datatype Doc =
    | Leaf(value: Scalar)
    | Items(items: seq<Doc>)
    | Members(members: seq<Entry<Doc>>, back: Back)

  /** The tree as a reader of the lists sees it. */
  function Plain(d: Doc): Json
  {
    match d
    case Leaf(v) => v
    case Items(s) => Array(PlainItems(s))
    case Members(ms, _) => Object(PlainMembers(ms))
  }

  function PlainItems(s: seq<Doc>): (r: seq<Json>)
    ensures |r| == |s| && forall i :: 0 <= i < |s| ==> r[i] == Plain(s[i])
  {
    if s == [] then [] else [Plain(s[0])] + PlainItems(s[1..])
  }

  function PlainMembers(ms: seq<Entry<Doc>>): (r: seq<Entry<Json>>)
    ensures |r| == |ms| && forall i :: 0 <= i < |ms| ==> r[i] == Entry(ms[i].key, Plain(ms[i].item))
  {
    if ms == [] then [] else [Entry(ms[0].key, Plain(ms[0].item))] + PlainMembers(ms[1..])
  }

  /** A tree that has just been parsed or copied: every list is intact. */
  function Fresh(j: Json): Doc
  {
    match j
    case Array(items) => Items(FreshItems(items))
    case Object(ms) => Members(FreshMembers(ms), End(|ms|))
    case _ => Leaf(j)
  }

  function FreshItems(items: seq<Json>): (r: seq<Doc>)
    ensures |r| == |items| && forall i :: 0 <= i < |items| ==> r[i] == Fresh(items[i])
  {
    if items == [] then [] else [Fresh(items[0])] + FreshItems(items[1..])
  }

  function FreshMembers(ms: seq<Entry<Json>>): (r: seq<Entry<Doc>>)
    ensures |r| == |ms| && forall i :: 0 <= i < |ms| ==> r[i] == Entry(ms[i].key, Fresh(ms[i].item))
  {
    if ms == [] then [] else [Entry(ms[0].key, Fresh(ms[0].item))] + FreshMembers(ms[1..])
  }

  lemma {:induction false} PlainFresh(j: Json)
    ensures Plain(Fresh(j)) == j
  {
    match j
    case Array(items) =>
      forall i | 0 <= i < |items| ensures Plain(Fresh(items[i])) == items[i] {
        PlainFresh(items[i]);
      }
      assert PlainItems(FreshItems(items)) == items;
    case Object(ms) =>
      forall i | 0 <= i < |ms| ensures Plain(Fresh(ms[i].item)) == ms[i].item {
        PlainFresh(ms[i].item);
      }
      assert PlainMembers(FreshMembers(ms)) == ms;
    case _ =>
  }

  // --- Places in a document ----------------------------------------------------------

  function Subs(d: Doc): (r: seq<Doc>)
    ensures |r| == |Kids(Plain(d))| && forall i :: 0 <= i < |r| ==> Plain(r[i]) == Kids(Plain(d))[i]
  {
    match d
    case Leaf(_) => []
    case Items(s) => s
    case Members(ms, _) => seq(|ms|, i requires 0 <= i < |ms| => ms[i].item)
  }

  function ItemAt(d: Doc, at: Location): (r: Doc)
    requires Exists(Plain(d), at)
    ensures Plain(r) == Get(Plain(d), at)
    decreases |at|
  {
    if at == [] then d else ItemAt(Subs(d)[at[0]], at[1..])
  }

  function SetSub(d: Doc, i: nat, v: Doc): (r: Doc)
    requires i < |Subs(d)|
  {
    match d
    case Items(s) => Items(s[i := v])
    case Members(ms, back) => Members(ms[i := Entry(ms[i].key, v)], back)
  }

  function PutAt(d: Doc, at: Location, v: Doc): Doc
    requires Exists(Plain(d), at)
    decreases |at|
  {
    if at == [] then v else SetSub(d, at[0], PutAt(Subs(d)[at[0]], at[1..], v))
  }

  lemma {:induction false} PutAtPlain(d: Doc, at: Location, v: Doc)
    requires Exists(Plain(d), at)
    ensures Plain(PutAt(d, at, v)) == Patch.Put(Plain(d), at, Plain(v))
    decreases |at|
  {
    if at != [] {
      PutAtPlain(Subs(d)[at[0]], at[1..], v);
    }
  }

  // --- Sorting and comparing ------------------------------------------------------------

  /** The members with their places, which tell apart members that look the same. */
  function Tagged(ms: seq<Entry<Doc>>): (r: seq<Entry<(nat, Doc)>>)
    ensures |r| == |ms| && forall i :: 0 <= i < |ms| ==> r[i] == Entry(ms[i].key, (i, ms[i].item))
  {
    seq(|ms|, i requires 0 <= i < |ms| => Entry(ms[i].key, (i, ms[i].item)))
  }

  function Untagged(s: seq<Entry<(nat, Doc)>>): (r: seq<Entry<Doc>>)
    ensures |r| == |s| && forall i :: 0 <= i < |s| ==> r[i] == Entry(s[i].key, s[i].item.1)
  {
    seq(|s|, i requires 0 <= i < |s| => Entry(s[i].key, s[i].item.1))
  }

  /** `sort_object` on the members of an object. */
  function SortMembersOf(ms: seq<Entry<Doc>>, back: Back, cs: bool): (r: Doc)
    ensures r.Members?
  {
    var s := MergeSort.Sort(Tagged(ms), cs);
    Members(Untagged(s), SortedBack(Tagged(ms), s, back))
  }

  /**
   What `compare_json` leaves of its first argument: objects are sorted on the way,
   up to the first difference.
   */
  function Worn(a: Doc, b: Json, cs: bool): (r: Doc)
    decreases b, 1
  {
    if !Compare.SameType(Plain(a), b) then a
    else
      match a
      case Leaf(_) => a
      case Items(s) => Items(WornItems(s, b.items, cs))
      case Members(ms, back) =>
        MergeSort.SortMembers(b.members, cs);
        var sorted := SortMembersOf(ms, back, cs);
        Members(WornMembers(sorted.members, MergeSort.Sort(b.members, cs), cs, b), sorted.back)
  }

  function WornItems(x: seq<Doc>, y: seq<Json>, cs: bool): (r: seq<Doc>)
    ensures |r| == |x|
    decreases y, 0, 0
  {
    if x == [] || y == [] then x
    else
      [Worn(x[0], y[0], cs)]
      + if Compare.CompareSorted(Plain(x[0]), y[0], cs) then WornItems(x[1..], y[1..], cs) else x[1..]
  }

  function WornMembers(x: seq<Entry<Doc>>, y: seq<Entry<Json>>, cs: bool, ghost whole: Json): (r: seq<Entry<Doc>>)
    requires whole.Object? && forall e :: e in y ==> e in whole.members
    ensures |r| == |x| && forall i :: 0 <= i < |x| ==> r[i].key == x[i].key
    decreases whole, 0, |y|
  {
    if x == [] || y == [] || Strcmp(KeyOf(cs, x[0].key), KeyOf(cs, y[0].key)) != 0 then x
    else
      assert y[0] in whole.members;
      [Entry(x[0].key, Worn(x[0].item, y[0].item, cs))]
      + if Compare.CompareSorted(Plain(x[0].item), y[0].item, cs) then WornMembers(x[1..], y[1..], cs, whole) else x[1..]
  }

  // --- Operations --------------------------------------------------------------------------

  datatype Taken = Taken(item: Doc, doc: Doc)

  /** The child a decoded token names in its parent, detached. */
  function DetachSub(parent: Doc, child: CString): Option<Taken>
  {
    match parent
    case Items(s) =>
      var index := DecodeIndex(child);
      if index.Some? && index.value < |s| then Some(Taken(s[index.value], Items(RemoveAt(s, index.value)))) else None
    case Members(ms, back) =>
      var i := IndexOf(ms, child, false);
      if i < |ms| then Some(Taken(ms[i].item, Members(RemoveAt(ms, i), DetachedBack(|ms|, back, i)))) else None
    case _ => None
  }

  /** `detach_path`. */
  function DetachAt(doc: Doc, path: CString, cs: bool): Option<Taken>
  {
    match Patch.LastSlash(path)
    case None => None
    case Some(s) =>
      match Locate(Plain(doc), path[..s], cs)
      case None => None
      case Some(at) =>
        match DetachSub(ItemAt(doc, at), InPlace.DecodeInPlace(path[s + 1..]))
        case None => None
        case Some(t) => Some(Taken(t.item, PutAt(doc, at, t.doc)))
  }

  /**
   A status and a document; or undefined, when an addition would follow a pointer to
   a node that has left the list.
   */
  datatype Result = Done(status: nat, doc: Doc) | Undefined

  /** A value put into its parent under a decoded token. */
  function AddSub(parent: Doc, child: CString, value: Doc, cs: bool): Result
  {
    match parent
    case Items(s) =>
      if child == "-" then Done(0, Items(s + [value]))
      else
        var index := DecodeIndex(child);
        if index.None? then Done(11, parent)
        else if index.value > |s| then Done(10, parent)
        else Done(0, Items(InsertAt(s, index.value, value)))
    case Members(ms, back) =>
      var i := IndexOf(ms, child, cs);
      if i < |ms| then AddMember(RemoveAt(ms, i), DetachedBack(|ms|, back, i), Entry(child, value))
      else AddMember(ms, back, Entry(child, value))
    case _ => Done(9, parent)
  }

  /** `add_item_to_array` on the members of an object. */
  function AddMember(ms: seq<Entry<Doc>>, back: Back, e: Entry<Doc>): Result
  {
    if ms != [] && back == Elsewhere then Undefined
    else Done(0, Members(Appended(ms, back, e), AppendedBack(|ms|, back)))
  }

  /** The last part of `apply_patch`: puts a value at a path. */
  function AddTo(doc: Doc, path: CString, value: Doc, cs: bool): Result
  {
    match Patch.LastSlash(path)
    case None => Done(9, doc)
    case Some(s) =>
      match Locate(Plain(doc), path[..s], cs)
      case None => Done(9, doc)
      case Some(at) => AddUnder(doc, at, InPlace.DecodeInPlace(path[s + 1..]), value, cs)
  }

  function AddUnder(doc: Doc, at: Location, child: CString, value: Doc, cs: bool): Result
    requires Exists(Plain(doc), at)
  {
    match AddSub(ItemAt(doc, at), child, value, cs)
    case Undefined => Undefined
    case Done(status, added) => Done(status, if status == 0 then PutAt(doc, at, added) else doc)
  }

  /** A copy of the value of the patch, if there is one, put at the path. */
  function AddCopy(doc: Doc, path: CString, value: Option<Json>, cs: bool): Result
  {
    if value.None? then Done(7, doc)
    else
      match Duplicate(value.value, 0)
      case None => Done(8, doc)
      case Some(copy) => AddTo(doc, path, Fresh(copy), cs)
  }

  /** The operations other than `test`. */
  function Apply(doc: Doc, operation: Patch.Operation, path: CString, value: Option<Json>, from: Option<Json>,
                 cs: bool): Result
  {
    if path == [] && operation == Patch.REMOVE then Done(0, Leaf(Invalid))
    else if path == [] && (operation == Patch.REPLACE || operation == Patch.ADD) then
      if value.None? then Done(7, doc)
      else
        match Duplicate(value.value, 0)
        case None => Done(8, doc)
        case Some(copy) => Done(0, Fresh(copy))
    else if operation == Patch.REMOVE then
      match DetachAt(doc, path, cs)
      case None => Done(13, doc)
      case Some(t) => Done(0, t.doc)
    else if operation == Patch.REPLACE then
      match DetachAt(doc, path, cs)
      case None => Done(13, doc)
      case Some(t) => AddCopy(t.doc, path, value, cs)
    else if operation == Patch.MOVE || operation == Patch.COPY then
      if from.None? || !from.value.String? then Done(4, doc)
      else if operation == Patch.MOVE then
        match DetachAt(doc, from.value.text, cs)
        case None => Done(5, doc)
        case Some(t) => AddTo(t.doc, path, t.item, cs)
      else
        match Locate(Plain(doc), from.value.text, cs)
        case None => Done(5, doc)
        case Some(at) =>
          match Duplicate(Get(Plain(doc), at), 0)
          case None => Done(6, doc)
          case Some(copy) => AddTo(doc, path, Fresh(copy), cs)
    else AddCopy(doc, path, value, cs)
  }

  /** What `test` compares with its value, and whether it succeeds. */
  predicate Passes(doc: Doc, path: CString, value: Option<Json>, cs: bool)
  {
    var at := Locate(Plain(doc), path, cs);
    at.Some? && value.Some? && Compare.CompareSorted(Get(Plain(doc), at.value), value.value, cs)
  }

  /** The document after a `test`. */
  function Tested(doc: Doc, path: CString, value: Option<Json>, cs: bool): Doc
  {
    var at := Locate(Plain(doc), path, cs);
    if at.Some? && value.Some? then PutAt(doc, at.value, Worn(ItemAt(doc, at.value), value.value, cs)) else doc
  }

  /** `apply_patch`. */
  function ApplyPatch(doc: Doc, patch: Json, cs: bool): Result
  {
    var path := Patch.GetItem(patch, "path", cs);
    if path.None? || !path.value.String? then Done(2, doc)
    else
      var operation, value := Patch.DecodeOperation(patch, cs), Patch.GetItem(patch, "value", cs);
      if operation == Patch.INVALID then Done(3, doc)
      else if operation == Patch.TEST then
        Done(if Passes(doc, path.value.text, value, cs) then 0 else 1, Tested(doc, path.value.text, value, cs))
      else Apply(doc, operation, path.value.text, value, Patch.GetItem(patch, "from", cs), cs)
  }

  /** The operations of a list, in order, up to the first that fails. */
  function ApplyAll(doc: Doc, patches: seq<Json>, cs: bool): Result
    decreases |patches|
  {
    if patches == [] then Done(0, doc)
    else
      var first := ApplyPatch(doc, patches[0], cs);
      if first.Undefined? || first.status != 0 then first else ApplyAll(first.doc, patches[1..], cs)
  }

  /** Documents of which each comes of the one before by the operation at its place, with status 0. */
  ghost predicate InTurn(docs: seq<Doc>, patches: seq<Json>, cs: bool)
  {
    && 1 <= |docs| <= |patches| + 1
    && forall i :: 0 <= i < |docs| - 1 ==> ApplyPatch(docs[i], patches[i], cs) == Done(0, docs[i + 1])
  }

  /** The operations are applied in turn, up to the first that fails; its outcome is that of all. */
  lemma {:induction false} AppliedInTurn(doc: Doc, patches: seq<Json>, cs: bool) returns (docs: seq<Doc>)
    ensures |docs| <= |patches| + 1 && InTurn(docs, patches, cs) && docs != [] && docs[0] == doc
    ensures var n, r := |docs| - 1, ApplyAll(doc, patches, cs);
      if n == |patches| then r == Done(0, docs[n])
      else r == ApplyPatch(docs[n], patches[n], cs) && (r.Undefined? || r.status != 0)
    decreases |patches|
  {
    ApplyAllHead(doc, patches, cs);
    JustOne(doc, patches, cs);
    hide ApplyPatch, ApplyAll, InTurn;
    docs := [doc];
    if patches != [] {
      var first := ApplyPatch(doc, patches[0], cs);
      if first.Done? && first.status == 0 {
        var rest := AppliedInTurn(first.doc, patches[1..], cs);
        OneMoreInTurn(doc, rest, patches, cs);
        docs := [doc] + rest;
      }
    }
  }

  lemma ApplyAllHead(doc: Doc, patches: seq<Json>, cs: bool)
    ensures ApplyAll(doc, [], cs) == Done(0, doc)
    ensures patches != [] ==>
      var first := ApplyPatch(doc, patches[0], cs);
      ApplyAll(doc, patches, cs)
        == if first.Done? && first.status == 0 then ApplyAll(first.doc, patches[1..], cs) else first
  {
    hide ApplyPatch;
  }

  lemma JustOne(doc: Doc, patches: seq<Json>, cs: bool)
    ensures InTurn([doc], patches, cs)
  {
  }

  lemma OneMoreInTurn(doc: Doc, rest: seq<Doc>, patches: seq<Json>, cs: bool)
    requires patches != [] && InTurn(rest, patches[1..], cs) && rest != [] && ApplyPatch(doc, patches[0], cs) == Done(0, rest[0])
    ensures InTurn([doc] + rest, patches, cs)
    ensures ([doc] + rest)[|rest|] == rest[|rest| - 1] && (|rest| < |patches| ==> patches[|rest|] == patches[1..][|rest| - 1])
  {
    hide ApplyPatch;
    var docs := [doc] + rest;
    forall i | 0 <= i < |docs| - 1 ensures ApplyPatch(docs[i], patches[i], cs) == Done(0, docs[i + 1]) {
      if i > 0 {
        assert docs[i] == rest[i - 1] && docs[i + 1] == rest[i] && patches[i] == patches[1..][i - 1];
      }
    }
  }

  /** `cJSONUtils_ApplyPatches` and its case-sensitive form. */
  method ApplyPatches(doc: Doc, patches: Json, cs: bool) returns (result: Result)
    ensures result == if patches.Array? then ApplyAll(doc, patches.items, cs) else Done(1, doc)
  {
    if !patches.Array? {
      return Done(1, doc);
    }
    result := Done(0, doc);
    var i := 0;
    while i < |patches.items|
      invariant 0 <= i <= |patches.items|
      invariant result.Done? && result.status == 0
      invariant ApplyAll(doc, patches.items, cs) == ApplyAll(result.doc, patches.items[i..], cs)
    {
      assert patches.items[i..][1..] == patches.items[i + 1..];
      result := ApplyPatch(result.doc, patches.items[i], cs);
      if result.Undefined? || result.status != 0 {
        return;
      }
      i := i + 1;
    }
  }
}
