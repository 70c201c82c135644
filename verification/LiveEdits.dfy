/**
 On documents whose lists are intact the operations of `Live` other than `test` are
 those of `Patch`, and leave the lists intact.
 */
module LiveEdits {
  import opened Bytes
  import opened Sequences
  import opened Json
  import opened Pointer
  import InPlace
  import opened Links
  import opened Live
  import Patch

  /** The outcome of an operation on a tree, as one of a document with intact lists. */
  function Lifted(o: Patch.Outcome): Result
  {
    Done(o.status, Fresh(o.doc))
  }

  lemma {:induction false} FreshItemAt(j: Json, at: Location)
    requires Exists(j, at)
    ensures Exists(Plain(Fresh(j)), at) && ItemAt(Fresh(j), at) == Fresh(Get(j, at))
    decreases |at|
  {
    PlainFresh(j);
    if at != [] {
      FreshItemAt(Kids(j)[at[0]], at[1..]);
    }
  }

  lemma {:induction false} FreshPut(j: Json, at: Location, v: Json)
    requires Exists(j, at)
    ensures Exists(Plain(Fresh(j)), at) && PutAt(Fresh(j), at, Fresh(v)) == Fresh(Patch.Put(j, at, v))
    decreases |at|
  {
    PlainFresh(j);
    if at != [] {
      var i := at[0];
      FreshPut(Kids(j)[i], at[1..], v);
    }
  }

  lemma FreshRemove(ms: seq<Entry<Json>>, i: nat)
    requires i < |ms|
    ensures RemoveAt(FreshMembers(ms), i) == FreshMembers(RemoveAt(ms, i))
  {
    hide Fresh, FreshMembers, RemoveAt;
    var a, b := RemoveAt(FreshMembers(ms), i), FreshMembers(RemoveAt(ms, i));
    forall k | 0 <= k < |a| ensures a[k] == b[k] {
      var e := ms[if k < i then k else k + 1];
      assert RemoveAt(ms, i)[k] == e && b[k] == Entry(e.key, Fresh(e.item));
    }
  }

  /** An intact list stays intact when a child is detached. */
  lemma EndDetached(n: nat, i: nat)
    requires i < n
    ensures DetachedBack(n, End(n), i) == End(n - 1)
  {
  }

  lemma FreshInsertItem(items: seq<Json>, i: nat, v: Json)
    requires i <= |items|
    ensures InsertAt(FreshItems(items), i, Fresh(v)) == FreshItems(InsertAt(items, i, v))
    ensures FreshItems(items) + [Fresh(v)] == FreshItems(items + [v])
  {
    hide Fresh, FreshItems;
    forall k | 0 <= k <= |items|
      ensures InsertAt(FreshItems(items), i, Fresh(v))[k] == FreshItems(InsertAt(items, i, v))[k]
    {
    }
  }

  lemma FreshObject(ms: seq<Entry<Json>>)
    ensures Fresh(Object(ms)) == Members(FreshMembers(ms), End(|ms|))
  {
  }

  lemma FreshArray(items: seq<Json>)
    ensures Fresh(Array(items)) == Items(FreshItems(items))
  {
  }

  lemma FreshDetachSub(parent: Json, child: CString)
    ensures DetachSub(Fresh(parent), child)
         == match Patch.DetachChild(parent, child) case None => None
            case Some(d) => Some(Taken(Fresh(d.item), Fresh(d.doc)))
  {
    match parent
    case Array(items) =>
      var index := DecodeIndex(child);
      FreshArray(items);
      hide Fresh, FreshItems, DecodeIndex, RemoveAt;
      if index.Some? && index.value < |items| {
        assert RemoveAt(FreshItems(items), index.value) == FreshItems(RemoveAt(items, index.value));
        FreshArray(RemoveAt(items, index.value));
      }
    case Object(ms) =>
      FreshDetachMember(ms, child);
    case _ =>
  }

  lemma FreshDetachMember(ms: seq<Entry<Json>>, child: CString)
    ensures DetachSub(Fresh(Object(ms)), child)
         == match Patch.DetachChild(Object(ms), child) case None => None
            case Some(d) => Some(Taken(Fresh(d.item), Fresh(d.doc)))
  {
    var i := IndexOf(ms, child, false);
    FreshObject(ms);
    hide Fresh, FreshMembers, IndexOf, DetachedBack, RemoveAt;
    if i < |ms| {
      FreshRemove(ms, i);
      EndDetached(|ms|, i);
      FreshObject(RemoveAt(ms, i));
    }
  }

  lemma FreshDetachAt(doc: Json, path: CString, cs: bool)
    ensures DetachAt(Fresh(doc), path, cs)
         == match Patch.DetachPath(doc, path, cs) case None => None
            case Some(d) => Some(Taken(Fresh(d.item), Fresh(d.doc)))
  {
    hide DetachSub, Patch.DetachChild, Fresh, InPlace.DecodeInPlace, Plain, PutAt, ItemAt;
    PlainFresh(doc);
    var slash := Patch.LastSlash(path);
    if slash.Some? {
      var at := Locate(doc, path[..slash.value], cs);
      if at.Some? {
        var child := InPlace.DecodeInPlace(path[slash.value + 1..]);
        FreshItemAt(doc, at.value);
        FreshDetachSub(Get(doc, at.value), child);
        var d := Patch.DetachChild(Get(doc, at.value), child);
        if d.Some? {
          FreshPut(doc, at.value, d.value.doc);
        }
      }
    }
  }

  lemma FreshAddMember(ms: seq<Entry<Json>>, e: Entry<Json>)
    ensures AddMember(FreshMembers(ms), End(|ms|), Entry(e.key, Fresh(e.item))) == Done(0, Fresh(Object(ms + [e])))
  {
    FreshObject(ms + [e]);
    hide Fresh, FreshMembers;
    var f := Entry(e.key, Fresh(e.item));
    AppendedIff(FreshMembers(ms), End(|ms|), f);
    forall k | 0 <= k <= |ms| ensures FreshMembers(ms + [e])[k] == (FreshMembers(ms) + [f])[k] {
    }
    assert FreshMembers(ms + [e]) == FreshMembers(ms) + [f];
  }

  lemma FreshAddSub(parent: Json, child: CString, value: Json, cs: bool)
    ensures AddSub(Fresh(parent), child, Fresh(value), cs) == Lifted(Patch.AddChild(parent, child, value, cs))
  {
    match parent
    case Array(items) => FreshAddItem(items, child, value, cs);
    case Object(ms) => FreshAddNamed(ms, child, value, cs);
    case _ =>
  }

  lemma FreshAddItem(items: seq<Json>, child: CString, value: Json, cs: bool)
    ensures AddSub(Fresh(Array(items)), child, Fresh(value), cs) == Lifted(Patch.AddChild(Array(items), child, value, cs))
  {
    var index := DecodeIndex(child);
    FreshArray(items);
    FreshArray(items + [value]);
    FreshInsertItem(items, 0, value);
    if index.Some? && index.value <= |items| {
      FreshInsertItem(items, index.value, value);
      FreshArray(InsertAt(items, index.value, value));
    }
    hide Fresh, FreshItems, DecodeIndex, InsertAt;
  }

  lemma FreshAddNamed(ms: seq<Entry<Json>>, child: CString, value: Json, cs: bool)
    ensures AddSub(Fresh(Object(ms)), child, Fresh(value), cs) == Lifted(Patch.AddChild(Object(ms), child, value, cs))
  {
    var i := IndexOf(ms, child, cs);
    FreshObject(ms);
    hide Fresh, FreshMembers, AddMember, DetachedBack, RemoveAt, IndexOf;
    FreshAddMember(ms, Entry(child, value));
    if i < |ms| {
      FreshRemove(ms, i);
      EndDetached(|ms|, i);
      FreshAddMember(RemoveAt(ms, i), Entry(child, value));
    }
  }

  lemma FreshAddTo(doc: Json, path: CString, value: Json, cs: bool)
    ensures AddTo(Fresh(doc), path, Fresh(value), cs) == Lifted(Patch.AddAt(doc, path, value, cs))
  {
    hide AddSub, Patch.AddChild, Fresh, InPlace.DecodeInPlace, Plain, PutAt, ItemAt;
    PlainFresh(doc);
    var slash := Patch.LastSlash(path);
    if slash.Some? {
      var at := Locate(doc, path[..slash.value], cs);
      if at.Some? {
        var child := InPlace.DecodeInPlace(path[slash.value + 1..]);
        FreshItemAt(doc, at.value);
        FreshAddSub(Get(doc, at.value), child, value, cs);
        FreshPut(doc, at.value, Patch.AddChild(Get(doc, at.value), child, value, cs).doc);
      }
    }
  }

  lemma FreshAddCopy(doc: Json, path: CString, value: Option<Json>, cs: bool)
    ensures AddCopy(Fresh(doc), path, value, cs) == Lifted(Patch.AddCopy(doc, path, value, cs))
  {
    hide AddTo, Patch.AddAt, Fresh, Duplicate;
    if value.Some? && Duplicate(value.value, 0).Some? {
      FreshAddTo(doc, path, Duplicate(value.value, 0).value, cs);
    }
  }

  /** On intact lists every operation but `test` does what it does on the tree, and leaves the lists intact. */
  lemma ApplyIsEdit(doc: Json, operation: Patch.Operation, path: CString, value: Option<Json>, from: Option<Json>,
                    cs: bool)
    ensures Apply(Fresh(doc), operation, path, value, from, cs)
         == Lifted(Patch.ApplyOperation(doc, operation, path, value, from, cs))
  {
    hide AddTo, Patch.AddAt, AddCopy, Patch.AddCopy, DetachAt, Patch.DetachPath, Duplicate, Locate, Get;
    PlainFresh(doc);
    assert Fresh(Invalid) == Leaf(Invalid);
    hide Fresh, Plain, KeyOf, Exists;
    if operation == Patch.REMOVE || operation == Patch.REPLACE {
      FreshDetachAt(doc, path, cs);
      var d := Patch.DetachPath(doc, path, cs);
      if d.Some? {
        FreshAddCopy(d.value.doc, path, value, cs);
      }
    } else if operation == Patch.MOVE || operation == Patch.COPY {
      if from.Some? && from.value.String? {
        MoveIsEdit(doc, from.value.text, path, cs);
        CopyIsEdit(doc, from.value.text, path, cs);
      }
    } else {
      FreshAddCopy(doc, path, value, cs);
    }
  }

  lemma MoveIsEdit(doc: Json, from: CString, path: CString, cs: bool)
    ensures var t, d := DetachAt(Fresh(doc), from, cs), Patch.DetachPath(doc, from, cs);
      && (t.Some? <==> d.Some?)
      && (d.Some? ==> AddTo(t.value.doc, path, t.value.item, cs) == Lifted(Patch.AddAt(d.value.doc, path, d.value.item, cs)))
  {
    hide AddTo, Patch.AddAt, DetachAt, Patch.DetachPath, Fresh;
    FreshDetachAt(doc, from, cs);
    var d := Patch.DetachPath(doc, from, cs);
    if d.Some? {
      FreshAddTo(d.value.doc, path, d.value.item, cs);
    }
  }

  lemma CopyIsEdit(doc: Json, from: CString, path: CString, cs: bool)
    ensures var at := Locate(doc, from, cs);
      at.Some? && Duplicate(Get(doc, at.value), 0).Some? ==>
        var copy := Duplicate(Get(doc, at.value), 0).value;
        AddTo(Fresh(doc), path, Fresh(copy), cs) == Lifted(Patch.AddAt(doc, path, copy, cs))
  {
    hide AddTo, Patch.AddAt, Duplicate, Locate, Get, Fresh;
    var at := Locate(doc, from, cs);
    if at.Some? && Duplicate(Get(doc, at.value), 0).Some? {
      FreshAddTo(doc, path, Duplicate(Get(doc, at.value), 0).value, cs);
    }
  }

  lemma OperationIntact(doc: Json, patch: Json, cs: bool)
    requires !Patch.HasOp(patch, "test", cs)
    ensures var r := ApplyPatch(Fresh(doc), patch, cs); r.Done? && r.doc == Fresh(Plain(r.doc))
  {
    hide Fresh, Plain, Apply, Patch.GetItem, Patch.DecodeOperation, Patch.ApplyOperation, Patch.HasOp;
    PlainFresh(doc);
    Patch.NoTest(patch, cs);
    var path := Patch.GetItem(patch, "path", cs);
    if path.Some? && path.value.String? {
      var operation, value := Patch.DecodeOperation(patch, cs), Patch.GetItem(patch, "value", cs);
      var from := Patch.GetItem(patch, "from", cs);
      ApplyIsEdit(doc, operation, path.value.text, value, from, cs);
      PlainFresh(Patch.ApplyOperation(doc, operation, path.value.text, value, from, cs).doc);
    }
  }

  /** Without `test`, no run on a document with intact lists follows a pointer out of a list: all lists stay intact. */
  lemma {:induction false} RunIntact(doc: Json, patches: seq<Json>, cs: bool)
    requires forall p | p in patches :: !Patch.HasOp(p, "test", cs)
    ensures var r := ApplyAll(Fresh(doc), patches, cs); r.Done? && r.doc == Fresh(Plain(r.doc))
    decreases |patches|
  {
    hide Fresh, Plain, ApplyPatch, Patch.HasOp;
    PlainFresh(doc);
    if patches != [] {
      OperationIntact(doc, patches[0], cs);
      RunIntact(Plain(ApplyPatch(Fresh(doc), patches[0], cs).doc), patches[1..], cs);
    }
  }
}
