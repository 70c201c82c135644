/**
 Laws of the JSON Patch operations (RFC 6902, section 4): how the compound
 operations come down to the simple ones, on any document, and when one operation
 undoes another on a tree the lists of which are intact.
 */
module PatchLaws {
  import opened Bytes
  import opened Sequences
  import opened Json
  import opened Pointer
  import InPlace
  import opened Patch
  import opened Diff
  import Live

  // --- A place that changes ------------------------------------------------------

  lemma {:induction false} GetDistinct(j: Json, at: Location, cs: bool)
    requires Exists(j, at) && DistinctTree(j, cs)
    ensures DistinctTree(Get(j, at), cs)
    decreases |at|
  {
    if at != [] {
      assert Kids(j)[at[0]] in Kids(j);
      GetDistinct(Kids(j)[at[0]], at[1..], cs);
    }
  }

  /** What is put at a place is found there, and putting something else forgets it. */
  lemma {:induction false} PutGet(j: Json, at: Location, v: Json)
    requires Exists(j, at)
    ensures Exists(Put(j, at, v), at) && Get(Put(j, at, v), at) == v
    ensures forall w :: Put(Put(j, at, v), at, w) == Put(j, at, w)
    ensures Put(j, at, Get(j, at)) == j
    decreases |at|
  {
    if at != [] {
      var i, kid := at[0], Kids(j)[at[0]];
      PutGet(kid, at[1..], v);
      SetKidChild(j, i, Put(kid, at[1..], v), [], true);
      SetSame(j, i);
      hide SetKid;
    }
  }

  /** Changing the item a pointer leads to does not change where the pointer leads. */
  lemma {:induction false} LocatePut(j: Json, pointer: CString, v: Json, cs: bool)
    requires Locate(j, pointer, cs).Some?
    ensures Locate(Put(j, Locate(j, pointer, cs).value, v), pointer, cs) == Locate(j, pointer, cs)
    decreases |pointer|
  {
    if pointer != [] && pointer[0] == '/' {
      var i := Child(j, pointer[1..], cs).value;
      var kid, rest := Kids(j)[i], AfterToken(pointer[1..]);
      var at := Locate(kid, rest, cs).value;
      LocatePut(kid, rest, v, cs);
      hide Child, SetKid, Kids;
      PutBelow(j, i, at, v);
      SetKidChild(j, i, Put(kid, at, v), pointer[1..], cs);
    }
  }

  lemma SetMeaning(j: Json, i: nat, v: Json, cs: bool)
    requires i < |Kids(j)| && DistinctTree(j, cs)
    ensures Meaning(SetKid(j, i, v), cs) == Meaning(j, cs) <==> Meaning(v, cs) == Meaning(Kids(j)[i], cs)
  {
    match j
    case Array(items) => SetItemMeaning(items, i, v, cs);
    case Object(ms) => SetMemberMeaning(ms, i, v, cs);
  }

  lemma SetItemMeaning(items: seq<Json>, i: nat, v: Json, cs: bool)
    requires i < |items|
    ensures ItemMeanings(items[i := v], cs) == ItemMeanings(items, cs) <==> Meaning(v, cs) == Meaning(items[i], cs)
  {
    hide Meaning;
    assert ItemMeanings(items[i := v], cs) == ItemMeanings(items, cs)[i := Meaning(v, cs)];
    assert ItemMeanings(items, cs)[i := Meaning(v, cs)][i] == Meaning(v, cs);
  }

  lemma SetMemberMeaning(ms: seq<Entry<Json>>, i: nat, v: Json, cs: bool)
    requires i < |ms| && Distinct(ms, cs)
    ensures MapOf(ms[i := Entry(ms[i].key, v)], cs) == MapOf(ms, cs) <==> Meaning(v, cs) == Meaning(ms[i].item, cs)
  {
    var k := KeyOf(cs, ms[i].key);
    DistinctIndexOf(ms, i, cs);
    MapOfIndexOf(ms, ms[i].key, cs);
    MapOfUpdate(ms, i, v, cs);
    hide MapOf, KeyOf, Distinct;
    assert MapOf(ms, cs)[k := Meaning(v, cs)][k] == Meaning(v, cs);
  }

  /** A change at a place changes the meaning of the document exactly when it changes that of the place. */
  lemma {:induction false} PutMeaning(j: Json, at: Location, v: Json, cs: bool)
    requires Exists(j, at) && DistinctTree(j, cs)
    ensures Meaning(Put(j, at, v), cs) == Meaning(j, cs) <==> Meaning(v, cs) == Meaning(Get(j, at), cs)
    decreases |at|
  {
    hide Meaning, SetKid;
    if at != [] {
      GetDistinct(j, [at[0]], cs);
      assert [at[0]][1..] == [];
      PutMeaning(Kids(j)[at[0]], at[1..], v, cs);
      SetMeaning(j, at[0], Put(Kids(j)[at[0]], at[1..], v), cs);
    }
  }

  function LastToken(path: CString): CString
    requires LastSlash(path).Some?
  {
    InPlace.DecodeInPlace(path[LastSlash(path).value + 1..])
  }

  // --- Refusals ---------------------------------------------------------------

  /** The operation object has a path and one of the six names. */
  predicate WellFormed(patch: Json, op: CString, path: CString, cs: bool)
  {
    HasOp(patch, op, cs) && GetItem(patch, "path", cs) == Some(String(path))
    && op in {"add", "remove", "replace", "move", "copy", "test"}
  }

  /** Every other one is refused. */
  lemma Malformed(doc: Live.Doc, patch: Json, cs: bool)
    requires forall op, path :: !WellFormed(patch, op, path, cs)
    ensures var path := GetItem(patch, "path", cs);
      Live.ApplyPatch(doc, patch, cs) == Live.Done(if path.Some? && path.value.String? then 3 else 2, doc)
  {
    hide GetItem, DecodeOperation, Live.Apply;
    var op, path := GetItem(patch, "op", cs), GetItem(patch, "path", cs);
    if path.Some? && path.value.String? {
      if op.Some? && op.value.String? {
        assert !WellFormed(patch, op.value.text, path.value.text, cs);
        OperationNames(patch, op.value.text, cs);
      } else {
        NoOperation(patch, cs);
      }
    }
  }

  lemma NoOperation(patch: Json, cs: bool)
    requires var op := GetItem(patch, "op", cs); op.None? || !op.value.String?
    ensures DecodeOperation(patch, cs) == INVALID
  {
    hide GetItem;
  }

  /**
   `move` and `copy` are refused without a source, `add` and `replace` without a value
   or with one too deep to copy; what `replace` has removed by then is lost.
   */
  lemma Lacking(doc: Live.Doc, patch: Json, op: CString, path: CString, cs: bool)
    requires WellFormed(patch, op, path, cs)
    ensures var from, value := GetItem(patch, "from", cs), GetItem(patch, "value", cs);
      var r := Live.ApplyPatch(doc, patch, cs);
      && (op in {"move", "copy"} && (from.None? || !from.value.String?) ==> r == Live.Done(4, doc))
      && (op == "add" && (value.None? || Height(value.value) > 10000) ==> r == Live.Done(if value.None? then 7 else 8, doc))
      && (op == "replace" && (value.None? || Height(value.value) > 10000) ==>
            var removed := Live.DetachAt(doc, path, cs);
            r == if path == [] then Live.Done(if value.None? then 7 else 8, doc)
                 else if removed.None? then Live.Done(13, doc)
                 else Live.Done(if value.None? then 7 else 8, removed.value.doc))
      && (op == "add" && value.Some? && Height(value.value) <= 10000 ==>
            r == if path == [] then Live.Done(0, Live.Fresh(value.value))
                 else Live.AddTo(doc, path, Live.Fresh(value.value), cs))
  {
    hide GetItem, DecodeOperation, Live.AddTo, Live.DetachAt, Height, Duplicate, Live.Fresh, Live.Plain;
    OperationNames(patch, op, cs);
    var value := GetItem(patch, "value", cs);
    if value.Some? {
      DuplicateIsCopy(value.value, 0);
    }
  }

  /** An addition below the root is refused, without a change, exactly when there is no place for it. */
  lemma NoPlace(doc: Live.Doc, path: CString, v: Live.Doc, cs: bool)
    ensures var r := Live.AddTo(doc, path, v, cs);
      r.Done? ==>
        && (r.status != 0 ==> r.doc == doc)
        && if LastSlash(path).None? || Locate(Live.Plain(doc), path[..LastSlash(path).value], cs).None? then r.status == 9
           else
             var parent := Live.ItemAt(doc, Locate(Live.Plain(doc), path[..LastSlash(path).value], cs).value);
             var token := LastToken(path);
             r.status == if parent.Leaf? then 9 else if parent.Members? || token == "-" then 0
                         else if DecodeIndex(token).None? then 11
                         else if DecodeIndex(token).value > |parent.items| then 10 else 0
  {
    hide DecodeIndex, Locate, InPlace.DecodeInPlace, IndexOf, Live.PutAt, Live.ItemAt, Live.Plain;
  }

  // --- Compound operations -----------------------------------------------------------

  /** Two operations, the second on what the first leaves, unless it fails. */
  function Both(doc: Live.Doc, first: Step, second: Step, cs: bool): Live.Result
  {
    Live.ApplyAll(doc, [PatchOf(first), PatchOf(second)], cs)
  }

  function Performed(doc: Live.Doc, s: Step, cs: bool): Live.Result
  {
    Live.Apply(doc, s.operation, s.path, s.value, None, cs)
  }

  lemma BothRun(doc: Live.Doc, first: Step, second: Step, cs: bool)
    requires IsEdit(first) && IsEdit(second)
    ensures Both(doc, first, second, cs)
         == var o := Performed(doc, first, cs);
            if o.Undefined? || o.status != 0 then o else Performed(o.doc, second, cs)
  {
    hide Live.Apply, Live.ApplyPatch, PatchOf, Live.ApplyAll;
    var o := Performed(doc, first, cs);
    PatchRuns(doc, first, cs);
    if o.Done? {
      PatchRuns(o.doc, second, cs);
    }
    ApplyTwo(doc, PatchOf(first), PatchOf(second), cs);
  }

  lemma ApplyTwo(doc: Live.Doc, p: Json, q: Json, cs: bool)
    ensures Live.ApplyAll(doc, [p, q], cs)
         == var o := Live.ApplyPatch(doc, p, cs);
            if o.Undefined? || o.status != 0 then o else Live.ApplyPatch(o.doc, q, cs)
  {
    hide Live.ApplyPatch;
    assert [p, q][1..] == [q] && [q][1..] == [];
    var o := Live.ApplyPatch(doc, p, cs);
    if o.Done? {
      var last := Live.ApplyPatch(o.doc, q, cs);
      assert last.Done? ==> Live.ApplyAll(last.doc, [], cs) == Live.Done(0, last.doc);
    }
  }

  /** `replace` (section 4.3) below the root is `remove` and then `add`; at the root it is `add`. */
  lemma ReplaceIsRemoveThenAdd(doc: Live.Doc, path: CString, value: Json, cs: bool)
    ensures var replaced := Live.ApplyPatch(doc, PatchOf(Step(REPLACE, path, Some(value))), cs);
      replaced == if path == [] then Live.ApplyPatch(doc, PatchOf(Step(ADD, path, Some(value))), cs)
                  else Both(doc, Step(REMOVE, path, None), Step(ADD, path, Some(value)), cs)
  {
    hide PatchOf, Live.DetachAt, Live.AddCopy, Live.ApplyPatch, Both;
    PatchRuns(doc, Step(REPLACE, path, Some(value)), cs);
    PatchRuns(doc, Step(ADD, path, Some(value)), cs);
    BothRun(doc, Step(REMOVE, path, None), Step(ADD, path, Some(value)), cs);
  }

  /**
   `move` (section 4.4) from and to places below the root is `remove` and then `add`
   of what was removed, as far as that can be copied, and its lists are intact.
   */
  lemma MoveIsRemoveThenAdd(doc: Live.Doc, patch: Json, from: CString, path: CString, cs: bool)
    requires GetItem(patch, "path", cs) == Some(String(path)) && GetItem(patch, "from", cs) == Some(String(from))
    requires HasOp(patch, "move", cs) && from != [] && path != []
    ensures match Live.DetachAt(doc, from, cs)
      case None =>
        && Live.ApplyPatch(doc, patch, cs) == Live.Done(5, doc)
        && Live.ApplyPatch(doc, PatchOf(Step(REMOVE, from, None)), cs) == Live.Done(13, doc)
      case Some(t) =>
        var item := Live.Plain(t.item);
        Height(item) <= 10000 && t.item == Live.Fresh(item) ==>
          Live.ApplyPatch(doc, patch, cs) == Both(doc, Step(REMOVE, from, None), Step(ADD, path, Some(item)), cs)
  {
    hide Live.DetachAt, Live.AddTo, PatchOf, GetItem, DecodeOperation, Both, Height, Duplicate, Live.Plain, Live.Fresh;
    OperationNames(patch, "move", cs);
    PatchRuns(doc, Step(REMOVE, from, None), cs);
    var detached := Live.DetachAt(doc, from, cs);
    if detached.Some? {
      var item := Live.Plain(detached.value.item);
      if Height(item) <= 10000 {
        BothRun(doc, Step(REMOVE, from, None), Step(ADD, path, Some(item)), cs);
        DuplicateIsCopy(item, 0);
      }
    }
  }

  /** Moving to the root is refused, and what was to be moved is lost. */
  lemma MoveToRoot(doc: Live.Doc, patch: Json, from: CString, cs: bool)
    requires GetItem(patch, "path", cs) == Some(String([])) && GetItem(patch, "from", cs) == Some(String(from))
    requires HasOp(patch, "move", cs)
    ensures Live.ApplyPatch(doc, patch, cs)
         == match Live.DetachAt(doc, from, cs) case None => Live.Done(5, doc) case Some(t) => Live.Done(9, t.doc)
  {
    hide Live.DetachAt, GetItem, DecodeOperation;
    OperationNames(patch, "move", cs);
  }

  /** `copy` (section 4.5) to a place below the root is `add` of what `from` leads to. */
  lemma CopyIsAdd(doc: Live.Doc, patch: Json, from: CString, path: CString, cs: bool)
    requires GetItem(patch, "path", cs) == Some(String(path)) && GetItem(patch, "from", cs) == Some(String(from))
    requires HasOp(patch, "copy", cs) && path != []
    ensures match Locate(Live.Plain(doc), from, cs)
      case None => Live.ApplyPatch(doc, patch, cs) == Live.Done(5, doc)
      case Some(at) =>
        var item := Get(Live.Plain(doc), at);
        if Height(item) <= 10000
        then Live.ApplyPatch(doc, patch, cs) == Live.ApplyPatch(doc, PatchOf(Step(ADD, path, Some(item))), cs)
        else Live.ApplyPatch(doc, patch, cs) == Live.Done(6, doc)
  {
    hide Live.AddTo, PatchOf, GetItem, DecodeOperation, Height, Duplicate, Locate, Get, Live.Plain, Live.Fresh;
    OperationNames(patch, "copy", cs);
    var found := Locate(Live.Plain(doc), from, cs);
    if found.Some? {
      var v := Get(Live.Plain(doc), found.value);
      DuplicateIsCopy(v, 0);
      PatchRuns(doc, Step(ADD, path, Some(v)), cs);
    }
  }

  // --- Undoing ------------------------------------------------------------------------

  /** The parent that a path to be added to leads to. */
  function ParentOf(doc: Json, path: CString, cs: bool): Json
    requires LastSlash(path).Some? && Locate(doc, path[..LastSlash(path).value], cs).Some?
  {
    Get(doc, Locate(doc, path[..LastSlash(path).value], cs).value)
  }

  /** A member name that is new without regard to case, or an index. */
  predicate NewChild(parent: Json, child: CString)
  {
    match parent
    case Array(items) => child != "-"
    case Object(ms) => IndexOf(ms, child, false) == |ms|
    case _ => false
  }

  lemma AddChildUndone(parent: Json, child: CString, v: Json, cs: bool)
    requires AddChild(parent, child, v, cs).status == 0
    ensures DetachChild(AddChild(parent, child, v, cs).doc, child) == Some(Detached(v, parent)) <==> NewChild(parent, child)
  {
    match parent
    case Array(items) =>
      if child != "-" {
        var index := DecodeIndex(child).value;
        hide DecodeIndex;
        assert RemoveAt(InsertAt(items, index, v), index) == items;
      }
    case Object(ms) => AddMemberUndone(ms, child, v, cs);
  }

  lemma AddMemberUndone(ms: seq<Entry<Json>>, child: CString, v: Json, cs: bool)
    ensures DetachChild(AddChild(Object(ms), child, v, cs).doc, child) == Some(Detached(v, Object(ms)))
       <==> IndexOf(ms, child, false) == |ms|
  {
    var i, e := IndexOf(ms, child, cs), Entry(child, v);
    AbsentByFold(ms, child, cs);
    hide IndexOf;
    if i < |ms| {
      FirstOrAppended(RemoveAt(ms, i), e);
    } else {
      FirstOrAppended(ms, e);
      AppendedStays(ms, e, IndexOf(ms, child, false));
    }
  }

  lemma AppendedStays(ms: seq<Entry<Json>>, e: Entry<Json>, k: nat)
    requires k <= |ms| && forall i :: 0 <= i < |ms| ==> ms[i].key != e.key
    ensures RemoveAt(ms + [e], k) == ms <==> k == |ms|
  {
    if k < |ms| {
      assert RemoveAt(ms + [e], k)[|ms| - 1] == e;
    } else {
      assert RemoveAt(ms + [e], k) == ms;
    }
  }

  lemma {:induction false} AbsentByFold(ms: seq<Entry<Json>>, name: CString, cs: bool)
    ensures IndexOf(ms, name, false) == |ms| ==> IndexOf(ms, name, cs) == |ms|
    ensures IndexOf(ms, name, cs) == |ms| ==> forall i :: 0 <= i < |ms| ==> ms[i].key != name
  {
    if ms != [] {
      AbsentByFold(ms[1..], name, cs);
    }
  }

  lemma {:induction false} FirstOrAppended(ms: seq<Entry<Json>>, e: Entry<Json>)
    ensures IndexOf(ms + [e], e.key, false) == IndexOf(ms, e.key, false)
  {
    if ms != [] {
      assert (ms + [e])[1..] == ms[1..] + [e];
      FirstOrAppended(ms[1..], e);
    } else {
      assert ms + [e] == [e];
    }
  }

  /**
   Removing at a path undoes an addition at that path exactly when the addition
   inserted an element at an index or added a member whose name is new without
   regard to case.
   */
  lemma AddThenRemove(doc: Json, path: CString, v: Json, cs: bool)
    requires AddAt(doc, path, v, cs).status == 0
    ensures DetachPath(AddAt(doc, path, v, cs).doc, path, cs) == Some(Detached(v, doc))
       <==> NewChild(ParentOf(doc, path, cs), LastToken(path))
  {
    hide Locate, LastSlash, InPlace.DecodeInPlace, AddChild, DetachChild, NewChild, Put, Get, Exists;
    var s := LastSlash(path).value;
    var at, child := Locate(doc, path[..s], cs).value, LastToken(path);
    var parent := Get(doc, at);
    var added := AddChild(parent, child, v, cs).doc;
    LocatePut(doc, path[..s], added, cs);
    PutGet(doc, at, added);
    AddChildUndone(parent, child, v, cs);
    var d := DetachChild(added, child);
    if d.Some? {
      PutSame(doc, at, d.value.doc);
    }
  }

  lemma PutSame(j: Json, at: Location, v: Json)
    requires Exists(j, at)
    ensures Put(j, at, v) == j <==> v == Get(j, at)
  {
    hide Put, Get, Exists;
    PutGet(j, at, v);
  }

  // --- Putting back ---------------------------------------------------------------------

  /** The name in the path is the name of the removed member, as the lookup of the call sees it. */
  predicate SameName(parent: Json, child: CString, cs: bool)
  {
    parent.Object? ==>
      var i := IndexOf(parent.members, child, false);
      i < |parent.members| && KeyOf(cs, parent.members[i].key) == KeyOf(cs, child)
  }

  /** Adding a member sets its name to the value, whether it was there or not. */
  lemma AddedMember(ms: seq<Entry<Json>>, name: CString, v: Json, cs: bool)
    requires Distinct(ms, cs)
    ensures var r := AddChild(Object(ms), name, v, cs);
      && r.status == 0 && r.doc.Object? && Distinct(r.doc.members, cs)
      && MapOf(r.doc.members, cs) == MapOf(ms, cs)[KeyOf(cs, name) := Meaning(v, cs)]
  {
    hide KeyOf, Distinct, MapOf, Keys, Meaning;
    var i, e, k := IndexOf(ms, name, cs), Entry(name, v), KeyOf(cs, name);
    MapOfIndexOf(ms, name, cs);
    MapOfKeys(ms, cs);
    var rest := if i < |ms| then RemoveAt(ms, i) else ms;
    if i < |ms| {
      KeysRemove(ms, i, cs);
      MapOfRemove(ms, i, cs);
    }
    KeysAppend(rest, e, cs);
    MapOfAppend(rest, e, cs);
    assert MapOf(rest, cs) == MapOf(ms, cs) - {k};
    assert (MapOf(ms, cs) - {k})[k := Meaning(v, cs)] == MapOf(ms, cs)[k := Meaning(v, cs)];
  }

  lemma DetachChildRestored(parent: Json, child: CString, cs: bool)
    requires DetachChild(parent, child).Some? && DistinctTree(parent, cs)
    ensures var d := DetachChild(parent, child).value;
      var r := AddChild(d.doc, child, d.item, cs);
      && r.status == 0
      && (parent.Array? ==> r.doc == parent)
      && (Meaning(r.doc, cs) == Meaning(parent, cs) <==> SameName(parent, child, cs))
  {
    match parent
    case Array(items) =>
      var index := DecodeIndex(child).value;
      hide DecodeIndex;
      assert InsertAt(RemoveAt(items, index), index, items[index]) == items;
    case Object(ms) => DetachMemberRestored(ms, child, cs);
  }

  lemma DetachMemberRestored(ms: seq<Entry<Json>>, child: CString, cs: bool)
    requires IndexOf(ms, child, false) < |ms| && Distinct(ms, cs)
    ensures var i := IndexOf(ms, child, false);
      var r := AddChild(Object(RemoveAt(ms, i)), child, ms[i].item, cs);
      && r.status == 0 && r.doc.Object?
      && (MapOf(r.doc.members, cs) == MapOf(ms, cs) <==> KeyOf(cs, ms[i].key) == KeyOf(cs, child))
  {
    hide KeyOf, Distinct, MapOf, Keys, Meaning;
    var i := IndexOf(ms, child, false);
    DistinctIndexOf(ms, i, cs);
    MapOfIndexOf(ms, ms[i].key, cs);
    KeysRemove(ms, i, cs);
    MapOfRemove(ms, i, cs);
    AddedMember(RemoveAt(ms, i), child, ms[i].item, cs);
    hide AddChild, IndexOf;
  }

  /**
   Adding what was removed at the same path always succeeds. It restores an array
   exactly; it restores an object up to the order of members exactly when the
   path spells the name as the object did, as far as the call tells names apart.
   */
  lemma RemoveThenAdd(doc: Json, path: CString, cs: bool)
    requires DistinctTree(doc, cs) && DetachPath(doc, path, cs).Some?
    ensures var d := DetachPath(doc, path, cs).value;
      var r := AddAt(d.doc, path, d.item, cs);
      && r.status == 0
      && (ParentOf(doc, path, cs).Array? ==> r.doc == doc)
      && (Meaning(r.doc, cs) == Meaning(doc, cs) <==> SameName(ParentOf(doc, path, cs), LastToken(path), cs))
  {
    hide Locate, LastSlash, InPlace.DecodeInPlace, AddChild, DetachChild, SameName, Put, Get, Exists, Meaning, DistinctTree;
    var s := LastSlash(path).value;
    var at, child := Locate(doc, path[..s], cs).value, LastToken(path);
    var parent := Get(doc, at);
    var detached := DetachChild(parent, child).value;
    LocatePut(doc, path[..s], detached.doc, cs);
    PutGet(doc, at, detached.doc);
    GetDistinct(doc, at, cs);
    DetachChildRestored(parent, child, cs);
    var r := AddChild(detached.doc, child, detached.item, cs).doc;
    PutMeaning(doc, at, r, cs);
    PutSame(doc, at, r);
  }
}
