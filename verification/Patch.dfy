/**
 JSON Patch (RFC 6902): what operations other than `test` do to a tree all lists of
 which are intact; `Live` has the same operations on any document, and `test`.

 The document is a value; an operation that changes the tree in place is a
 function from the old document to a status code and the new document. As in
 the source, a failing operation may leave a document that has changed.
 */
module Patch {
  import opened Bytes
  import opened Sequences
  import opened Json
  import opened Pointer
  import InPlace

  datatype Operation = INVALID | ADD | REMOVE | REPLACE | MOVE | COPY | TEST

  datatype Outcome = Outcome(status: nat, doc: Json)

  /** `get_object_item` on any item; the children of an array have no names. */
  function GetItem(j: Json, name: CString, cs: bool): Option<Json>
  {
    if j.Object? && IndexOf(j.members, name, cs) < |j.members|
    then Some(j.members[IndexOf(j.members, name, cs)].item) else None
  }

  /** `decode_patch_operation`. */
  /** The item of the first member with the name, for the case flag. */
  lemma GetItemMeans(j: Json, name: CString, cs: bool, i: nat)
    ensures !j.Object? ==> GetItem(j, name, cs) == None
    ensures j.Object? && i < |j.members| && KeyOf(cs, j.members[i].key) == KeyOf(cs, name)
            && (forall k :: 0 <= k < i ==> KeyOf(cs, j.members[k].key) != KeyOf(cs, name))
            ==> GetItem(j, name, cs) == Some(j.members[i].item)
    ensures j.Object? && (forall k :: 0 <= k < |j.members| ==> KeyOf(cs, j.members[k].key) != KeyOf(cs, name))
            ==> GetItem(j, name, cs) == None
  {
    hide KeyOf;
  }

  function DecodeOperation(patch: Json, cs: bool): Operation
  {
    var operation := GetItem(patch, "op", cs);
    if operation.None? || !operation.value.String? then INVALID
    else if operation.value.text == "add" then ADD
    else if operation.value.text == "remove" then REMOVE
    else if operation.value.text == "replace" then REPLACE
    else if operation.value.text == "move" then MOVE
    else if operation.value.text == "copy" then COPY
    else if operation.value.text == "test" then TEST
    else INVALID
  }

  /** The text of the `op` member of an operation object. */
  predicate HasOp(patch: Json, op: CString, cs: bool)
  {
    GetItem(patch, "op", cs) == Some(String(op))
  }

  /** The six names of section 4, in the order of its subsections, and no others. */
  lemma OperationNames(patch: Json, op: CString, cs: bool)
    requires HasOp(patch, op, cs)
    ensures op == "add" ==> DecodeOperation(patch, cs) == ADD
    ensures op == "remove" ==> DecodeOperation(patch, cs) == REMOVE
    ensures op == "replace" ==> DecodeOperation(patch, cs) == REPLACE
    ensures op == "move" ==> DecodeOperation(patch, cs) == MOVE
    ensures op == "copy" ==> DecodeOperation(patch, cs) == COPY
    ensures op == "test" ==> DecodeOperation(patch, cs) == TEST
    ensures op != "add" && op != "remove" && op != "replace" && op != "move" && op != "copy" && op != "test"
            <==> DecodeOperation(patch, cs) == INVALID
  {
    hide GetItem;
    var names: seq<CString> := ["add", "remove", "replace", "move", "copy", "test"];
    assert |names[0]| == 3 && |names[1]| == 6 && |names[2]| == 7 && |names[3]| == |names[4]| == |names[5]| == 4;
    assert names[3][0] == 'm' && names[4][0] == 'c' && names[5][0] == 't';
  }

  lemma NoTest(patch: Json, cs: bool)
    requires !HasOp(patch, "test", cs)
    ensures DecodeOperation(patch, cs) != TEST
  {
  }

  /** `strrchr(path, '/')`. */
  function LastSlash(path: CString): (r: Option<nat>)
    ensures r.Some? ==> r.value < |path| && path[r.value] == '/'
  {
    if path == [] then None
    else if path[|path| - 1] == '/' then Some(|path| - 1)
    else LastSlash(path[..|path| - 1])
  }

  // --- Changing a place in the tree -------------------------------------------

  /** The item with another value in the place of a child. */
  function SetKid(j: Json, i: nat, v: Json): (r: Json)
    requires i < |Kids(j)|
    ensures |Kids(r)| == |Kids(j)|
  {
    match j
    case Array(items) => Array(items[i := v])
    case Object(ms) => Object(ms[i := Entry(ms[i].key, v)])
  }

  function Put(j: Json, at: Location, v: Json): Json
    requires Exists(j, at)
    decreases |at|
  {
    if at == [] then v else SetKid(j, at[0], Put(Kids(j)[at[0]], at[1..], v))
  }

  datatype Detached = Detached(item: Json, doc: Json)

  /** `detach_path`. Whatever the case flag, the member is looked up without regard to case. */
  function DetachPath(doc: Json, path: CString, cs: bool): Option<Detached>
  {
    match LastSlash(path)
    case None => None
    case Some(s) =>
      match Locate(doc, path[..s], cs)
      case None => None
      case Some(at) =>
        match DetachChild(Get(doc, at), InPlace.DecodeInPlace(path[s + 1..]))
        case None => None
        case Some(d) => Some(Detached(d.item, Put(doc, at, d.doc)))
  }

  /** The child a decoded token names in its parent, detached. */
  function DetachChild(parent: Json, child: CString): Option<Detached>
  {
    match parent
    case Array(items) =>
      var index := DecodeIndex(child);
      if index.Some? && index.value < |items|
      then Some(Detached(items[index.value], Array(RemoveAt(items, index.value)))) else None
    case Object(ms) =>
      var i := IndexOf(ms, child, false);
      if i < |ms| then Some(Detached(ms[i].item, Object(RemoveAt(ms, i)))) else None
    case _ => None
  }

  /** The last part of `apply_patch`: puts a value at a path. */
  function AddAt(doc: Json, path: CString, value: Json, cs: bool): Outcome
  {
    match LastSlash(path)
    case None => Outcome(9, doc)
    case Some(s) =>
      match Locate(doc, path[..s], cs)
      case None => Outcome(9, doc)
      case Some(at) => AddUnder(doc, at, InPlace.DecodeInPlace(path[s + 1..]), value, cs)
  }

  /** A value put under a decoded token into the item at a place. */
  function AddUnder(doc: Json, at: Location, child: CString, value: Json, cs: bool): Outcome
    requires Exists(doc, at)
  {
    var added := AddChild(Get(doc, at), child, value, cs);
    Outcome(added.status, if added.status == 0 then Put(doc, at, added.doc) else doc)
  }

  /** A value put into its parent under a decoded token. */
  function AddChild(parent: Json, child: CString, value: Json, cs: bool): Outcome
  {
    match parent
    case Array(items) =>
      if child == "-" then Outcome(0, Array(items + [value]))
      else
        var index := DecodeIndex(child);
        if index.None? then Outcome(11, parent)
        else if index.value > |items| then Outcome(10, parent)
        else Outcome(0, Array(InsertAt(items, index.value, value)))
    case Object(ms) =>
      var i := IndexOf(ms, child, cs);
      Outcome(0, Object((if i < |ms| then RemoveAt(ms, i) else ms) + [Entry(child, value)]))
    case _ => Outcome(9, parent)
  }

  // --- Applying ---------------------------------------------------------------

  /** The operations other than `test`. */
  function ApplyOperation(doc: Json, operation: Operation, path: CString, value: Option<Json>,
                          from: Option<Json>, cs: bool): Outcome
  {
    if path == [] && operation == REMOVE then Outcome(0, Invalid)
    else if path == [] && (operation == REPLACE || operation == ADD) then
      if value.None? then Outcome(7, doc)
      else
        match Duplicate(value.value, 0)
        case None => Outcome(8, doc)
        case Some(copy) => Outcome(0, copy)
    else if operation == REMOVE then
      match DetachPath(doc, path, cs)
      case None => Outcome(13, doc)
      case Some(d) => Outcome(0, d.doc)
    else if operation == REPLACE then
      match DetachPath(doc, path, cs)
      case None => Outcome(13, doc)
      case Some(d) => AddCopy(d.doc, path, value, cs)
    else if operation == MOVE || operation == COPY then
      if from.None? || !from.value.String? then Outcome(4, doc)
      else if operation == MOVE then
        match DetachPath(doc, from.value.text, cs)
        case None => Outcome(5, doc)
        case Some(d) => AddAt(d.doc, path, d.item, cs)
      else
        match Locate(doc, from.value.text, cs)
        case None => Outcome(5, doc)
        case Some(at) =>
          match Duplicate(Get(doc, at), 0)
          case None => Outcome(6, doc)
          case Some(copy) => AddAt(doc, path, copy, cs)
    else AddCopy(doc, path, value, cs)
  }

  /** A copy of the value of the patch, if there is one, put at the path. */
  function AddCopy(doc: Json, path: CString, value: Option<Json>, cs: bool): Outcome
  {
    if value.None? then Outcome(7, doc)
    else
      match Duplicate(value.value, 0)
      case None => Outcome(8, doc)
      case Some(copy) => AddAt(doc, path, copy, cs)
  }

  // --- What an operation changes ------------------------------------------------

  lemma {:induction false} LastSlashAppend(p: CString, q: CString)
    requires IsTail(q) && q != []
    ensures LastSlash(q).Some?
    ensures LastSlash(p + q) == Some(|p| + LastSlash(q).value)
    decreases |q|
  {
    var last := |q| - 1;
    assert (p + q)[|p + q| - 1] == q[last];
    if q[last] != '/' {
      assert q[..last][0] == q[0];
      LastSlashAppend(p, q[..last]);
      assert (p + q)[..|p + q| - 1] == p + q[..last];
    }
  }

  lemma {:induction false} LastSlashToken(token: CString)
    requires '/' !in token
    ensures LastSlash("/" + token) == Some(0)
    decreases |token|
  {
    if token != [] {
      var last := |token| - 1;
      assert ("/" + token)[..last + 1] == "/" + token[..last];
      LastSlashToken(token[..last]);
      assert ("/" + token)[last + 1] == token[last];
    }
  }

  /** A token leads to the same child whatever follows it. */
  lemma ChildByToken(j: Json, token: CString, p: CString, q: CString, cs: bool)
    requires '/' !in token && IsTail(p) && IsTail(q)
    ensures Child(j, token + p, cs) == Child(j, token + q, cs)
  {
    TokenThenTail(token, p);
    TokenThenTail(token, q);
    if j.Object? {
      MatchByToken(j.members, token + p, token + q, cs);
    }
  }

  lemma {:induction false} MatchByToken(ms: seq<Entry<Json>>, p: CString, q: CString, cs: bool)
    requires Token(p) == Token(q)
    ensures MatchIndex(ms, p, cs) == MatchIndex(ms, q, cs)
  {
    if ms != [] {
      MatchByToken(ms[1..], p, q, cs);
    }
  }

  /** The parent of a place below a child. */
  lemma LocateBelow(j: Json, token: CString, q: CString, i: nat, cs: bool)
    requires '/' !in token && IsTail(q) && q != [] && Child(j, token, cs) == Some(i)
    ensures LastSlash(q).Some?
    ensures var s := LastSlash(q).value;
      var path := Below(token, q);
      && |path| == 1 + |token| + |q|
      && LastSlash(path) == Some(1 + |token| + s)
      && path[1 + |token| + s + 1..] == q[s + 1..]
      && Locate(j, path[..1 + |token| + s], cs) == Under([i], Locate(Kids(j)[i], q[..s], cs))
  {
    hide Child, Locate, Below, LastSlash;
    BelowSlash(token, q);
    LocateToken(j, token, q[..LastSlash(q).value], i, cs);
  }

  /** A token and what follows it, as a path. */
  function Below(token: CString, q: CString): CString
  {
    "/" + token + q
  }

  lemma BelowSlash(token: CString, q: CString)
    requires '/' !in token && IsTail(q) && q != []
    ensures LastSlash(q).Some?
    ensures var s := LastSlash(q).value;
      && IsTail(q[..s])
      && |Below(token, q)| == 1 + |token| + |q|
      && LastSlash(Below(token, q)) == Some(1 + |token| + s)
      && Below(token, q)[..1 + |token| + s] == Below(token, q[..s])
      && Below(token, q)[1 + |token| + s + 1..] == q[s + 1..]
  {
    hide LastSlash, Below, IsTail;
    LastSlashBelow(token, q);
    SplitPath(token, q, LastSlash(q).value);
    TailPart(q, LastSlash(q).value);
    BelowLength(token, q);
  }

  lemma LastSlashBelow(token: CString, q: CString)
    requires '/' !in token && IsTail(q) && q != []
    ensures LastSlash(q).Some? && LastSlash(Below(token, q)) == Some(1 + |token| + LastSlash(q).value)
  {
    hide LastSlash, Below, IsTail;
    LastSlashAppend("/" + token, q);
    BelowLength(token, q);
  }

  lemma TailPart(q: CString, s: nat)
    requires IsTail(q) && s <= |q|
    ensures IsTail(q[..s])
  {
  }

  lemma BelowLength(token: CString, q: CString)
    ensures |Below(token, q)| == 1 + |token| + |q|
    ensures Below(token, q) == ("/" + token) + q
  {
  }

  lemma LocateToken(j: Json, token: CString, q: CString, i: nat, cs: bool)
    requires '/' !in token && IsTail(q) && Child(j, token, cs) == Some(i)
    ensures Locate(j, Below(token, q), cs) == Under([i], Locate(Kids(j)[i], q, cs))
  {
    hide Child, Kids;
    assert token + [] == token;
    ChildByToken(j, token, [], q, cs);
    TokenThenTail(token, q);
    LocateStep(j, token + q, cs);
    assert Below(token, q) == "/" + (token + q);
  }

  lemma SplitPath(token: CString, q: CString, s: nat)
    requires s < |q|
    ensures Below(token, q)[..1 + |token| + s] == Below(token, q[..s])
    ensures Below(token, q)[1 + |token| + s + 1..] == q[s + 1..]
  {
  }

  lemma PutBelow(j: Json, i: nat, at: Location, v: Json)
    requires i < |Kids(j)| && Exists(Kids(j)[i], at)
    ensures Exists(j, [i] + at)
    ensures Get(j, [i] + at) == Get(Kids(j)[i], at)
    ensures Put(j, [i] + at, v) == SetKid(j, i, Put(Kids(j)[i], at, v))
  {
    assert ([i] + at)[1..] == at;
  }

  /** Framing: detaching below a child changes that child only. */
  lemma DetachBelow(j: Json, token: CString, q: CString, i: nat, cs: bool)
    requires '/' !in token && IsTail(q) && q != [] && Child(j, token, cs) == Some(i)
    ensures DetachPath(j, Below(token, q), cs)
         == match DetachPath(Kids(j)[i], q, cs) case None => None
            case Some(d) => Some(Detached(d.item, SetKid(j, i, d.doc)))
  {
    hide DetachChild, Locate, LastSlash, Put, Get, Exists, Child, Kids, SetKid, Below;
    LocateBelow(j, token, q, i, cs);
    var found := Locate(Kids(j)[i], q[..LastSlash(q).value], cs);
    if found.Some? {
      var d := DetachChild(Get(Kids(j)[i], found.value), InPlace.DecodeInPlace(q[LastSlash(q).value + 1..]));
      PutBelow(j, i, found.value, if d.Some? then d.value.doc else j);
    }
  }

  /** Framing: adding below a child changes that child only. */
  lemma AddBelow(j: Json, token: CString, q: CString, i: nat, value: Json, cs: bool)
    requires '/' !in token && IsTail(q) && q != [] && Child(j, token, cs) == Some(i)
    ensures var below := AddAt(Kids(j)[i], q, value, cs);
      AddAt(j, Below(token, q), value, cs) == Outcome(below.status, SetKid(j, i, below.doc))
  {
    hide AddUnder, Locate, LastSlash, Exists, Child, Kids, SetKid, Below, InPlace.DecodeInPlace, Under, IsTail;
    LocateBelow(j, token, q, i, cs);
    var found := Locate(Kids(j)[i], q[..LastSlash(q).value], cs);
    if found.None? {
      UnderNone([i]);
      SetSame(j, i);
    } else {
      UnderSome([i], found.value);
      AddUnderBelow(j, i, found.value, InPlace.DecodeInPlace(q[LastSlash(q).value + 1..]), value, cs);
    }
  }

  lemma AddUnderBelow(j: Json, i: nat, at: Location, child: CString, value: Json, cs: bool)
    requires i < |Kids(j)| && Exists(Kids(j)[i], at)
    ensures Exists(j, [i] + at)
    ensures var below := AddUnder(Kids(j)[i], at, child, value, cs);
      AddUnder(j, [i] + at, child, value, cs) == Outcome(below.status, SetKid(j, i, below.doc))
  {
    SetSame(j, i);
    hide AddChild, SetKid;
    PutBelow(j, i, at, AddChild(Get(Kids(j)[i], at), child, value, cs).doc);
  }

  lemma UnderSome(at: Location, more: Location)
    ensures Under(at, Some(more)) == Some(at + more)
  {
  }

  lemma SetSame(j: Json, i: nat)
    requires i < |Kids(j)|
    ensures SetKid(j, i, Kids(j)[i]) == j
  {
    if j.Object? {
      assert j.members[i := Entry(j.members[i].key, j.members[i].item)] == j.members;
    }
  }

  /** Changing a child does not change where tokens lead. */
  lemma SetKidChild(j: Json, i: nat, v: Json, token: CString, cs: bool)
    requires i < |Kids(j)|
    ensures Child(SetKid(j, i, v), token, cs) == Child(j, token, cs)
    ensures Kids(SetKid(j, i, v))[i] == v
    ensures forall w :: SetKid(SetKid(j, i, v), i, w) == SetKid(j, i, w)
  {
    if j.Object? {
      MatchByName(j.members, j.members[i := Entry(j.members[i].key, v)], token, cs);
    }
    forall w ensures SetKid(SetKid(j, i, v), i, w) == SetKid(j, i, w) {
      if j.Object? {
        assert j.members[i := Entry(j.members[i].key, v)][i := Entry(j.members[i].key, w)]
            == j.members[i := Entry(j.members[i].key, w)];
      } else {
        assert j.items[i := v][i := w] == j.items[i := w];
      }
    }
  }

  lemma {:induction false} MatchByName(ms: seq<Entry<Json>>, ns: seq<Entry<Json>>, token: CString, cs: bool)
    requires |ms| == |ns| && forall i :: 0 <= i < |ms| ==> ms[i].key == ns[i].key
    ensures MatchIndex(ms, token, cs) == MatchIndex(ns, token, cs)
  {
    if ms != [] {
      MatchByName(ms[1..], ns[1..], token, cs);
    }
  }
}
