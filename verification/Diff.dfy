/**
 JSON Patch (RFC 6902): generating the operations that take one document to
 another, and the theorem that applying them does so.

 The generator builds absolute paths; its specification `Steps` uses paths
 relative to the item it is about, and puts the prefix on afterwards.
 */
module Diff {
  import opened Bytes
  import opened Sequences
  import opened Json
  import opened MergeSort
  import opened Pointer
  import opened InPlace
  import Compare
  import opened Patch
  import Live
  import LiveEdits

  /** An add, remove or replace operation. */
  datatype Step = Step(operation: Operation, path: CString, value: Option<Json>)

  predicate IsEdit(s: Step)
  {
    s.operation == ADD || s.operation == REMOVE || s.operation == REPLACE
  }

  /** The operation is about something below the item. */
  predicate Inner(s: Step)
  {
    IsEdit(s) && s.path != [] && s.path[0] == '/'
  }

  ghost predicate AllInner(steps: seq<Step>)
  {
    forall s | s in steps :: Inner(s)
  }

  // --- Operations as JSON objects -----------------------------------------------

  function NameOf(operation: Operation): CString
  {
    match operation
    case ADD => "add"
    case REMOVE => "remove"
    case REPLACE => "replace"
    case MOVE => "move"
    case COPY => "copy"
    case TEST => "test"
    case INVALID => ""
  }

  function ValueMember(value: Option<Json>): seq<Entry<Json>>
  {
    match value case None => [] case Some(v) => [Entry("value", v)]
  }

  /** The object that describes an operation. */
  function Composed(operation: CString, path: CString, value: Option<Json>): Json
  {
    Object([Entry("op", String(operation)), Entry("path", String(path))] + ValueMember(value))
  }

  function PatchOf(s: Step): Json
  {
    Composed(NameOf(s.operation), s.path, s.value)
  }

  function Patches(steps: seq<Step>): seq<Json>
  {
    if steps == [] then [] else [PatchOf(steps[0])] + Patches(steps[1..])
  }

  // --- The operations that lead from one item to another --------------------------

  /** The items are dealt with as a whole. */
  predicate Replaces(from: Json, to: Json)
  {
    !Compare.SameType(from, to)
    || (from.Number? && from.n != to.n)
    || (from.String? && from.text != to.text)
  }

  function Prefixed(prefix: CString, steps: seq<Step>): seq<Step>
  {
    if steps == [] then []
    else [steps[0].(path := prefix + steps[0].path)] + Prefixed(prefix, steps[1..])
  }

  function Slash(token: CString): CString
  {
    "/" + token
  }

  /** `create_patches`, with paths relative to the item. */
  function Steps(from: Json, to: Json, cs: bool): seq<Step>
    decreases Height(from), 2, 0
  {
    if Replaces(from, to) then [Step(REPLACE, [], Duplicate(to, 0))]
    else
      match from
      case Array(items) => ItemSteps(0, items, to.items, cs, Height(from))
      case Object(ms) =>
        SortMembers(ms, cs);
        MemberSteps(Sort(ms, cs), Sort(to.members, cs), cs, Height(from))
      case _ => []
  }

  /** The loops over array elements, from element `i` on. */
  function ItemSteps(i: nat, a: seq<Json>, b: seq<Json>, cs: bool, ghost h: nat): seq<Step>
    requires forall x :: x in a ==> Height(x) < h
    decreases h, 1, |a| + |b|
  {
    if a != [] && b != [] then
      assert a[0] in a;
      Prefixed(Slash(Decimal(i)), Steps(a[0], b[0], cs)) + ItemSteps(i + 1, a[1..], b[1..], cs, h)
    else if a != [] then [Step(REMOVE, Slash(Decimal(i)), None)] + ItemSteps(i, a[1..], b, cs, h)
    else if b != [] then [Step(ADD, "/-", Duplicate(b[0], 0))] + ItemSteps(i + 1, a, b[1..], cs, h)
    else []
  }

  /** How the heads of two sorted lists of members compare; a list that is at its end comes last. */
  function HeadsDiffer(a: seq<Entry<Json>>, b: seq<Entry<Json>>, cs: bool): int
    requires a != [] || b != []
  {
    if a == [] then 1 else if b == [] then -1
    else Strcmp(KeyOf(cs, a[0].key), KeyOf(cs, b[0].key))
  }

  /** The loop over the sorted members of two objects. */
  function MemberSteps(a: seq<Entry<Json>>, b: seq<Entry<Json>>, cs: bool, ghost h: nat): seq<Step>
    requires forall e :: e in a ==> Height(e.item) < h
    decreases h, 1, |a| + |b|
  {
    if a == [] && b == [] then []
    else
      var difference := HeadsDiffer(a, b, cs);
      if difference == 0 then
        assert a[0] in a;
        Prefixed(Slash(Encode(a[0].key)), Steps(a[0].item, b[0].item, cs)) + MemberSteps(a[1..], b[1..], cs, h)
      else if difference < 0 then
        [Step(REMOVE, Slash(Encode(a[0].key)), None)] + MemberSteps(a[1..], b, cs, h)
      else
        [Step(ADD, Slash(Encode(b[0].key)), Duplicate(b[0].item, 0))] + MemberSteps(a, b[1..], cs, h)
  }

  // --- Applying steps ---------------------------------------------------------------

  function RunStep(doc: Json, s: Step, cs: bool): Outcome
  {
    ApplyOperation(doc, s.operation, s.path, s.value, None, cs)
  }

  /** The steps in order, up to the first that fails. */
  function Run(doc: Json, steps: seq<Step>, cs: bool): Outcome
    decreases |steps|
  {
    if steps == [] then Outcome(0, doc)
    else
      var first := RunStep(doc, steps[0], cs);
      if first.status != 0 then first else Run(first.doc, steps[1..], cs)
  }

  lemma PatchKeys(cs: bool)
    ensures KeyOf(cs, "op") == "op" && KeyOf(cs, "path") == "path"
    ensures KeyOf(cs, "value") == "value" && KeyOf(cs, "from") == "from"
  {
  }

  /** The members of an operation are found, whatever the case flag. */
  lemma PatchMembers(operation: CString, path: CString, value: Option<Json>, cs: bool)
    ensures var patch := Composed(operation, path, value);
      && GetItem(patch, "op", cs) == Some(String(operation))
      && GetItem(patch, "path", cs) == Some(String(path))
      && GetItem(patch, "value", cs) == value
      && GetItem(patch, "from", cs) == None
  {
    PatchKeys(cs);
    hide KeyOf;
    var ms := Composed(operation, path, value).members;
    assert ms[0].key == "op" && ms[1].key == "path" && (value.Some? ==> ms[2].key == "value");
  }

  /** An operation object is read back, on any document. */
  lemma PatchRuns(doc: Live.Doc, s: Step, cs: bool)
    requires IsEdit(s)
    ensures Live.ApplyPatch(doc, PatchOf(s), cs) == Live.Apply(doc, s.operation, s.path, s.value, None, cs)
  {
    PatchMembers(NameOf(s.operation), s.path, s.value, cs);
    hide GetItem, Composed, Live.Apply;
  }

  lemma {:induction false} PatchesRun(doc: Json, steps: seq<Step>, cs: bool)
    requires forall s | s in steps :: IsEdit(s)
    ensures Live.ApplyAll(Live.Fresh(doc), Patches(steps), cs) == LiveEdits.Lifted(Run(doc, steps, cs))
    decreases |steps|
  {
    hide Live.ApplyPatch, Live.Apply, ApplyOperation, Live.Fresh;
    if steps != [] {
      assert steps[0] in steps;
      var s := steps[0];
      PatchRuns(Live.Fresh(doc), s, cs);
      LiveEdits.ApplyIsEdit(doc, s.operation, s.path, s.value, None, cs);
      assert Patches(steps)[1..] == Patches(steps[1..]);
      PatchesRun(RunStep(doc, steps[0], cs).doc, steps[1..], cs);
    }
  }

  lemma {:induction false} RunAppend(doc: Json, s: seq<Step>, t: seq<Step>, cs: bool)
    ensures Run(doc, s + t, cs) == var first := Run(doc, s, cs);
      if first.status != 0 then first else Run(first.doc, t, cs)
    decreases |s|
  {
    hide RunStep;
    if s == [] {
      assert s + t == t;
    } else {
      assert (s + t)[1..] == s[1..] + t;
      RunAppend(RunStep(doc, s[0], cs).doc, s[1..], t, cs);
    }
  }

  lemma RunOne(doc: Json, s: Step, t: seq<Step>, cs: bool)
    ensures Run(doc, [s] + t, cs) == var first := RunStep(doc, s, cs);
      if first.status != 0 then first else Run(first.doc, t, cs)
  {
    assert ([s] + t)[1..] == t;
  }

  // --- Steps below a child -------------------------------------------------------------

  lemma SlashBelow(token: CString, q: CString)
    ensures Slash(token) + q == Patch.Below(token, q)
  {
  }

  lemma AddCopyBelow(j: Json, token: CString, q: CString, i: nat, value: Option<Json>, cs: bool)
    requires '/' !in token && IsTail(q) && q != [] && Child(j, token, cs) == Some(i)
    ensures var below := AddCopy(Kids(j)[i], q, value, cs);
      AddCopy(j, Patch.Below(token, q), value, cs) == Outcome(below.status, SetKid(j, i, below.doc))
  {
    SetSame(j, i);
    hide AddAt, Duplicate, Patch.Below, SetKid, Child, Kids;
    var copy := if value.Some? then Duplicate(value.value, 0) else None;
    if copy.Some? {
      AddBelow(j, token, q, i, copy.value, cs);
    }
  }

  lemma ReplaceBelow(j: Json, token: CString, q: CString, i: nat, value: Option<Json>, cs: bool)
    requires '/' !in token && IsTail(q) && q != [] && Child(j, token, cs) == Some(i)
    ensures var below := RunStep(Kids(j)[i], Step(REPLACE, q, value), cs);
      RunStep(j, Step(REPLACE, Patch.Below(token, q), value), cs) == Outcome(below.status, SetKid(j, i, below.doc))
  {
    SetSame(j, i);
    BelowLength(token, q);
    DetachBelow(j, token, q, i, cs);
    hide DetachPath, AddCopy, Patch.Below, SetKid, Child, Kids;
    var detached := DetachPath(Kids(j)[i], q, cs);
    if detached.Some? {
      SetKidChild(j, i, detached.value.doc, token, cs);
      AddCopyBelow(SetKid(j, i, detached.value.doc), token, q, i, value, cs);
    }
  }

  /** A step below a child changes that child only. */
  lemma StepBelow(j: Json, token: CString, i: nat, s: Step, cs: bool)
    requires '/' !in token && Child(j, token, cs) == Some(i) && Inner(s)
    ensures var below := RunStep(Kids(j)[i], s, cs);
      RunStep(j, s.(path := Slash(token) + s.path), cs) == Outcome(below.status, SetKid(j, i, below.doc))
  {
    SlashBelow(token, s.path);
    BelowLength(token, s.path);
    SetSame(j, i);
    hide DetachPath, AddCopy, Patch.Below, Slash, SetKid, Child, Kids;
    if s.operation == REPLACE {
      ReplaceBelow(j, token, s.path, i, s.value, cs);
    } else if s.operation == REMOVE {
      DetachBelow(j, token, s.path, i, cs);
    } else {
      AddCopyBelow(j, token, s.path, i, s.value, cs);
    }
  }

  /** Steps below a child change that child only. */
  lemma {:induction false} RunBelow(j: Json, token: CString, i: nat, steps: seq<Step>, cs: bool)
    requires '/' !in token && Child(j, token, cs) == Some(i) && AllInner(steps)
    ensures var below := Run(Kids(j)[i], steps, cs);
      Run(j, Prefixed(Slash(token), steps), cs) == Outcome(below.status, SetKid(j, i, below.doc))
    decreases |steps|
  {
    SetSame(j, i);
    if steps != [] {
      assert steps[0] in steps && forall s | s in steps[1..] :: s in steps;
      hide RunStep, Slash, SetKid, Child, Kids;
      StepBelow(j, token, i, steps[0], cs);
      var first := RunStep(Kids(j)[i], steps[0], cs);
      SetKidChild(j, i, first.doc, token, cs);
      if first.status == 0 {
        RunBelow(SetKid(j, i, first.doc), token, i, steps[1..], cs);
      }
      assert Prefixed(Slash(token), steps)[1..] == Prefixed(Slash(token), steps[1..]);
    }
  }

  // --- Steps about a child as a whole ----------------------------------------------------

  /** The last token of the path is one that decoding in place restores. */
  ghost predicate Addressed(s: Step)
  {
    match LastSlash(s.path)
    case None => true
    case Some(k) => Encode(DecodeInPlace(s.path[k + 1..])) == s.path[k + 1..]
  }

  ghost predicate AllAddressed(steps: seq<Step>)
  {
    forall s | s in steps :: Addressed(s)
  }

  lemma SlashToken(token: CString)
    requires '/' !in token
    ensures LastSlash(Slash(token)) == Some(0)
    ensures Slash(token)[..0] == [] && Slash(token)[1..] == token && Slash(token) != []
    ensures Slash(token) + [] == Slash(token)
  {
    LastSlashToken(token);
  }

  lemma DetachDirectly(doc: Json, token: CString, cs: bool)
    requires '/' !in token
    ensures DetachPath(doc, Slash(token), cs) == DetachChild(doc, DecodeInPlace(token))
  {
    SlashToken(token);
    hide DetachChild, DecodeInPlace, LastSlash, Slash;
    assert Locate(doc, [], cs) == Some([]);
    var d := DetachChild(doc, DecodeInPlace(token));
    if d.Some? {
      assert Put(doc, [], d.value.doc) == d.value.doc;
    }
  }

  lemma AddDirectly(doc: Json, token: CString, value: Json, cs: bool)
    requires '/' !in token
    ensures AddAt(doc, Slash(token), value, cs) == AddChild(doc, DecodeInPlace(token), value, cs)
  {
    SlashToken(token);
    hide AddChild, DecodeInPlace, LastSlash, Slash;
    assert Locate(doc, [], cs) == Some([]);
    var added := AddChild(doc, DecodeInPlace(token), value, cs);
    assert Put(doc, [], added.doc) == added.doc;
  }

  /** What indices look like as tokens. */
  lemma DecimalToken(i: nat)
    ensures '/' !in Decimal(i) && Encode(Decimal(i)) == Decimal(i)
    ensures DecodeInPlace(Decimal(i)) == Decimal(i) && DecodeIndex(Decimal(i)) == Some(i)
    ensures Decimal(i) != "-"
  {
    var d := Decimal(i);
    assert forall c | c in d :: IsDigit(c);
    assert IsDigit(d[0]);
    EscapeFree(d);
    DecodesIff(d);
    DecodeDecimal(i, []);
    assert d + [] == d;
  }

  lemma DashToken()
    ensures '/' !in "-" && Slash("-") == "/-" && DecodeInPlace("-") == "-" && Encode("-") == "-"
  {
    EscapeFree("-");
    DecodesIff("-");
  }

  /** A step about element `i` finds it. */
  lemma ItemToken(items: seq<Json>, i: nat, cs: bool)
    requires i < |items|
    ensures Child(Array(items), Decimal(i), cs) == Some(i)
  {
    DecimalToken(i);
  }

  lemma RemoveItem(items: seq<Json>, i: nat, cs: bool)
    requires i < |items|
    ensures RunStep(Array(items), Step(REMOVE, Slash(Decimal(i)), None), cs) == Outcome(0, Array(RemoveAt(items, i)))
  {
    DecimalToken(i);
    DetachDirectly(Array(items), Decimal(i), cs);
    SlashToken(Decimal(i));
    hide DecodeInPlace, Slash, Decimal, DecodeIndex, DetachPath;
  }

  lemma AppendItem(items: seq<Json>, v: Json, cs: bool)
    requires Height(v) <= 10000
    ensures RunStep(Array(items), Step(ADD, "/-", Duplicate(v, 0)), cs) == Outcome(0, Array(items + [v]))
  {
    DashToken();
    AddDirectly(Array(items), "-", v, cs);
    SlashToken("-");
    DuplicateIsCopy(v, 0);
    hide DecodeInPlace, Slash, DecodeIndex, AddAt, Duplicate;
  }

  lemma ReplaceItem(items: seq<Json>, i: nat, v: Json, cs: bool)
    requires i < |items| && Height(v) <= 10000
    ensures RunStep(Array(items), Step(REPLACE, Slash(Decimal(i)), Some(v)), cs) == Outcome(0, Array(items[i := v]))
  {
    hide DecodeInPlace, Slash, Decimal, DecodeIndex, DetachPath, AddAt, Duplicate, Encode, Height;
    DecimalToken(i);
    DetachDirectly(Array(items), Decimal(i), cs);
    AddDirectly(Array(RemoveAt(items, i)), Decimal(i), v, cs);
    SlashToken(Decimal(i));
    DuplicateIsCopy(v, 0);
    assert InsertAt(RemoveAt(items, i), i, v) == items[i := v];
  }

  // --- The steps are of the right form -----------------------------------------------------

  lemma {:induction false} PrefixedInner(token: CString, steps: seq<Step>)
    requires forall s | s in steps :: IsEdit(s)
    ensures AllInner(Prefixed(Slash(token), steps))
  {
    if steps != [] {
      assert steps[0] in steps && forall s | s in steps[1..] :: s in steps;
      PrefixedInner(token, steps[1..]);
    }
  }

  lemma {:induction false} ItemStepsInner(i: nat, a: seq<Json>, b: seq<Json>, cs: bool, h: nat)
    requires forall x :: x in a ==> Height(x) < h
    ensures AllInner(ItemSteps(i, a, b, cs, h))
    decreases h, 1, |a| + |b|
  {
    hide Decimal, Steps, Height;
    if a != [] && b != [] {
      assert a[0] in a;
      StepsEdit(a[0], b[0], cs);
      PrefixedInner(Decimal(i), Steps(a[0], b[0], cs));
      ItemStepsInner(i + 1, a[1..], b[1..], cs, h);
    } else if a != [] {
      ItemStepsInner(i, a[1..], b, cs, h);
    } else if b != [] {
      ItemStepsInner(i + 1, a, b[1..], cs, h);
    }
  }

  lemma {:induction false} MemberStepsInner(a: seq<Entry<Json>>, b: seq<Entry<Json>>, cs: bool, h: nat)
    requires forall e :: e in a ==> Height(e.item) < h
    ensures AllInner(MemberSteps(a, b, cs, h))
    decreases h, 1, |a| + |b|
  {
    hide Encode, Steps, Height, Strcmp, KeyOf;
    if a != [] || b != [] {
      var difference := HeadsDiffer(a, b, cs);
      if difference == 0 {
        assert a[0] in a;
        StepsEdit(a[0].item, b[0].item, cs);
        PrefixedInner(Encode(a[0].key), Steps(a[0].item, b[0].item, cs));
        MemberStepsInner(a[1..], b[1..], cs, h);
      } else if difference < 0 {
        MemberStepsInner(a[1..], b, cs, h);
      } else {
        MemberStepsInner(a, b[1..], cs, h);
      }
    }
  }

  /** Either the item is replaced, or all steps are about something below it. */
  lemma {:induction false} StepsEdit(from: Json, to: Json, cs: bool)
    ensures forall s | s in Steps(from, to, cs) :: IsEdit(s)
    ensures !Replaces(from, to) ==> AllInner(Steps(from, to, cs))
    decreases Height(from), 2, 0
  {
    if !Replaces(from, to) {
      match from
      case Array(items) => ItemStepsInner(0, items, to.items, cs, Height(from));
      case Object(ms) =>
        SortMembers(ms, cs);
        MemberStepsInner(Sort(ms, cs), Sort(to.members, cs), cs, Height(from));
      case _ =>
    }
  }

  lemma AddressedBelow(token: CString, s: Step)
    requires '/' !in token && Inner(s)
    ensures Addressed(s.(path := Slash(token) + s.path)) == Addressed(s)
  {
    var p := Slash(token);
    hide LastSlash, Encode, DecodeInPlace, Slash;
    LastSlashAppend(p, s.path);
    assert (p + s.path)[|p| + (LastSlash(s.path).value) + 1..] == s.path[(LastSlash(s.path).value) + 1..];
  }

  lemma {:induction false} PrefixedAddressed(token: CString, steps: seq<Step>)
    requires '/' !in token && AllInner(steps) && AllAddressed(Prefixed(Slash(token), steps))
    ensures AllAddressed(steps)
  {
    hide Addressed, Inner, Slash;
    if steps != [] {
      var all := Prefixed(Slash(token), steps);
      assert steps[0] in steps && forall t | t in steps[1..] :: t in steps;
      assert all[1..] == Prefixed(Slash(token), steps[1..]);
      assert all[0] in all && forall t | t in all[1..] :: t in all;
      PrefixedAddressed(token, steps[1..]);
      AddressedBelow(token, steps[0]);
    }
  }

  // --- Steps about a member as a whole --------------------------------------------------

  /** The name comes back when its token is decoded in place. */
  predicate Restored(name: CString)
  {
    DecodeInPlace(Encode(name)) == name
  }

  lemma AddressedName(s: Step, name: CString)
    requires Addressed(s) && s.path == Slash(Encode(name))
    ensures Restored(name)
  {
    EncodeNoSlash(name);
    SlashToken(Encode(name));
    EncodeInjective(DecodeInPlace(Encode(name)), name);
  }

  lemma NotThere<T>(ms: seq<Entry<T>>, name: CString, cs: bool)
    requires KeyOf(cs, name) !in Keys(ms, cs)
    ensures IndexOf(ms, name, cs) == |ms|
  {
    if IndexOf(ms, name, cs) < |ms| {
      KeyInKeys(ms, IndexOf(ms, name, cs), cs);
    }
  }

  lemma DetachMember(ms: seq<Entry<Json>>, name: CString, cs: bool)
    requires Restored(name) && IndexOf(ms, name, false) < |ms|
    ensures var i := IndexOf(ms, name, false);
      DetachPath(Object(ms), Slash(Encode(name)), cs) == Some(Detached(ms[i].item, Object(RemoveAt(ms, i))))
  {
    EncodeNoSlash(name);
    hide DecodeInPlace, Slash, Encode, DetachPath, IndexOf;
    DetachDirectly(Object(ms), Encode(name), cs);
  }

  lemma PutMember(ms: seq<Entry<Json>>, e: Entry<Json>, cs: bool)
    requires Restored(e.key) && KeyOf(cs, e.key) !in Keys(ms, cs)
    requires Height(e.item) <= 10000
    ensures AddCopy(Object(ms), Slash(Encode(e.key)), Some(e.item), cs) == Outcome(0, Object(ms + [e]))
  {
    EncodeNoSlash(e.key);
    NotThere(ms, e.key, cs);
    hide DecodeInPlace, Slash, Encode, AddAt, IndexOf, Keys, KeyOf, Height, Duplicate;
    AddDirectly(Object(ms), Encode(e.key), e.item, cs);
    DuplicateIsCopy(e.item, 0);
  }

  lemma NameToken(name: CString)
    ensures '/' !in Encode(name) && Slash(Encode(name)) != []
  {
    EncodeNoSlash(name);
  }

  lemma RemoveMember(ms: seq<Entry<Json>>, name: CString, cs: bool)
    requires Restored(name) && IndexOf(ms, name, false) < |ms|
    ensures RunStep(Object(ms), Step(REMOVE, Slash(Encode(name)), None), cs)
         == Outcome(0, Object(RemoveAt(ms, IndexOf(ms, name, false))))
  {
    hide Restored, Slash, Encode, DetachPath, AddCopy, IndexOf;
    NameToken(name);
    DetachMember(ms, name, cs);
  }

  lemma AddMember(ms: seq<Entry<Json>>, e: Entry<Json>, cs: bool)
    requires Restored(e.key) && KeyOf(cs, e.key) !in Keys(ms, cs)
    requires Height(e.item) <= 10000
    ensures RunStep(Object(ms), Step(ADD, Slash(Encode(e.key)), Duplicate(e.item, 0)), cs)
         == Outcome(0, Object(ms + [e]))
  {
    hide Restored, Slash, Encode, DetachPath, AddCopy, Keys, KeyOf, Height, Duplicate;
    NameToken(e.key);
    DuplicateIsCopy(e.item, 0);
    PutMember(ms, e, cs);
  }

  lemma ReplaceMember(ms: seq<Entry<Json>>, name: CString, v: Json, cs: bool)
    requires Restored(name) && IndexOf(ms, name, false) < |ms| && Height(v) <= 10000
    requires KeyOf(cs, name) !in Keys(RemoveAt(ms, IndexOf(ms, name, false)), cs)
    ensures RunStep(Object(ms), Step(REPLACE, Slash(Encode(name)), Some(v)), cs)
         == Outcome(0, Object(RemoveAt(ms, IndexOf(ms, name, false)) + [Entry(name, v)]))
  {
    hide Restored, Slash, Encode, DetachPath, AddCopy, IndexOf, Keys, KeyOf, Height;
    NameToken(name);
    DetachMember(ms, name, cs);
    PutMember(RemoveAt(ms, IndexOf(ms, name, false)), Entry(name, v), cs);
  }

  // --- The domain ---------------------------------------------------------------------------

  /** The members that are removed or replaced. */
  function Detaching(a: seq<Entry<Json>>, b: seq<Entry<Json>>, cs: bool): seq<CString>
    decreases |a| + |b|
  {
    if a == [] && b == [] then []
    else if HeadsDiffer(a, b, cs) == 0 then
      (if Replaces(a[0].item, b[0].item) then [a[0].key] else []) + Detaching(a[1..], b[1..], cs)
    else if HeadsDiffer(a, b, cs) < 0 then [a[0].key] + Detaching(a[1..], b, cs)
    else Detaching(a, b[1..], cs)
  }

  /** A name comes before another in the list. */
  ghost predicate Precedes(ms: seq<Entry<Json>>, f: CString, k: CString)
  {
    exists p, q :: 0 <= p < q < |ms| && ms[p].key == f && ms[q].key == k
  }

  /**
   Whatever comes before a member that is to be detached, and has its name up to case,
   is detached before it: detaching, which ignores case, then hits the right member.
   */
  ghost predicate Reachable(ms: seq<Entry<Json>>, a: seq<Entry<Json>>, b: seq<Entry<Json>>, cs: bool)
  {
    forall f, k | k in Detaching(a, b, cs) && Precedes(ms, f, k) && Fold(f) == Fold(k) ::
      f in Detaching(a, b, cs) && Strcmp(KeyOf(cs, f), KeyOf(cs, k)) < 0
  }

  /**
   An old document fit for the operations that lead to the new one: the lookups of the
   call tell its members apart, and those that are detached can be reached.
   */
  ghost predicate Fit(from: Json, to: Json, cs: bool)
    decreases from
  {
    Replaces(from, to)
    || match from
       case Array(items) => forall i | 0 <= i < |items| && i < |to.items| :: Fit(items[i], to.items[i], cs)
       case Object(ms) =>
         && Distinct(ms, cs)
         && Reachable(ms, Sort(ms, cs), Sort(to.members, cs), cs)
         && forall x, y | x in ms && y in to.members && KeyOf(cs, x.key) == KeyOf(cs, y.key) :: Fit(x.item, y.item, cs)
       case _ => true
  }

  ghost predicate FitMembers(a: seq<Entry<Json>>, b: seq<Entry<Json>>, cs: bool)
  {
    forall x, y | x in a && y in b && KeyOf(cs, x.key) == KeyOf(cs, y.key) :: Fit(x.item, y.item, cs)
  }

  ghost predicate FitItems(a: seq<Json>, b: seq<Json>, cs: bool)
  {
    forall i | 0 <= i < |a| && i < |b| :: Fit(a[i], b[i], cs)
  }

  /** A tree whose members the lookup of the call tells apart, and that can be copied. */
  ghost predicate New(j: Json, cs: bool)
  {
    DistinctTree(j, cs) && Height(j) <= 10000
  }

  ghost predicate NewMembers(b: seq<Entry<Json>>, cs: bool)
  {
    forall e | e in b :: New(e.item, cs)
  }

  // --- What remains of the old members ------------------------------------------------------

  /** The lookup of the call finds this very member. */
  ghost predicate Found(ms: seq<Entry<Json>>, e: Entry<Json>, cs: bool)
  {
    IndexOf(ms, e.key, cs) < |ms| && ms[IndexOf(ms, e.key, cs)] == e
  }

  ghost predicate AllFound(ms: seq<Entry<Json>>, a: seq<Entry<Json>>, cs: bool)
  {
    forall e | e in a :: Found(ms, e, cs)
  }

  /** A lookup without regard to case finds this very member. */
  ghost predicate FirstByFold(ms: seq<Entry<Json>>, e: Entry<Json>)
  {
    IndexOf(ms, e.key, false) < |ms| && ms[IndexOf(ms, e.key, false)] == e
  }

  lemma IndexOfIs(ms: seq<Entry<Json>>, e: Entry<Json>, cs: bool, i: nat)
    requires i < |ms| && ms[i] == e
    requires forall k :: 0 <= k < i ==> KeyOf(cs, ms[k].key) != KeyOf(cs, e.key)
    ensures IndexOf(ms, e.key, cs) == i && Found(ms, e, cs)
  {
  }

  /** Other members stay where lookups find them. */
  lemma FoundRemove(ms: seq<Entry<Json>>, i: nat, e: Entry<Json>, cs: bool)
    requires Found(ms, e, cs) && i < |ms| && KeyOf(cs, ms[i].key) != KeyOf(cs, e.key)
    ensures Found(RemoveAt(ms, i), e, cs)
  {
    hide KeyOf;
    var k := IndexOf(ms, e.key, cs);
    IndexOfIs(RemoveAt(ms, i), e, cs, if k < i then k else k - 1);
  }

  lemma FoundAppend(ms: seq<Entry<Json>>, x: Entry<Json>, e: Entry<Json>, cs: bool)
    requires Found(ms, e, cs)
    ensures Found(ms + [x], e, cs)
  {
    hide KeyOf;
    IndexOfIs(ms + [x], e, cs, IndexOf(ms, e.key, cs));
  }

  lemma FoundUpdate(ms: seq<Entry<Json>>, i: nat, v: Json, e: Entry<Json>, cs: bool)
    requires Found(ms, e, cs) && i < |ms| && KeyOf(cs, ms[i].key) != KeyOf(cs, e.key)
    ensures Found(ms[i := Entry(ms[i].key, v)], e, cs)
  {
    hide KeyOf;
    IndexOfIs(ms[i := Entry(ms[i].key, v)], e, cs, IndexOf(ms, e.key, cs));
  }

  /** Names that are detached are names ahead. */
  lemma {:induction false} DetachingAmong(a: seq<Entry<Json>>, b: seq<Entry<Json>>, cs: bool, k: CString)
    requires k in Detaching(a, b, cs)
    ensures KeyOf(cs, k) in Keys(a, cs) && exists i :: 0 <= i < |a| && a[i].key == k
    decreases |a| + |b|
  {
    hide KeyOf, Strcmp, Replaces;
    assert a != [] || b != [];
    if HeadsDiffer(a, b, cs) == 0 {
      assert a != [] && b != [];
      if k in Detaching(a[1..], b[1..], cs) {
        DetachingAmong(a[1..], b[1..], cs, k);
      }
    } else if HeadsDiffer(a, b, cs) < 0 {
      assert a != [];
      if k in Detaching(a[1..], b, cs) {
        DetachingAmong(a[1..], b, cs, k);
      }
    } else {
      DetachingAmong(a, b[1..], cs, k);
    }
  }

  // --- The steps lead to the new document -----------------------------------------------------

  ghost predicate Became(r: Outcome, v: Value, cs: bool)
  {
    r.status == 0 && Meaning(r.doc, cs) == v
  }

  lemma ReplacedSteps(from: Json, to: Json, cs: bool)
    requires Replaces(from, to) && New(to, cs)
    ensures Steps(from, to, cs) == [Step(REPLACE, [], Some(to))] && Height(to) <= 10000
  {
    DuplicateIsCopy(to, 0);
  }

  lemma RunReplace(doc: Json, token: CString, to: Json, cs: bool)
    requires '/' !in token
    ensures Prefixed(Slash(token), [Step(REPLACE, [], Some(to))]) == [Step(REPLACE, Slash(token), Some(to))]
    ensures Run(doc, Prefixed(Slash(token), [Step(REPLACE, [], Some(to))]), cs)
         == RunStep(doc, Step(REPLACE, Slash(token), Some(to)), cs)
  {
    SlashToken(token);
    hide RunStep, Slash;
    assert Prefixed(Slash(token), [Step(REPLACE, [], Some(to))]) == [Step(REPLACE, Slash(token), Some(to))];
  }

  /** The steps between two paired elements make the old one mean the same as the new one. */
  lemma {:induction false} ItemLeads(items: seq<Json>, i: nat, to: Json, cs: bool) returns (x: Json)
    requires i < |items| && Fit(items[i], to, cs) && New(to, cs)
    requires AllAddressed(Prefixed(Slash(Decimal(i)), Steps(items[i], to, cs)))
    ensures Meaning(x, cs) == Meaning(to, cs)
    ensures Run(Array(items), Prefixed(Slash(Decimal(i)), Steps(items[i], to, cs)), cs)
         == Outcome(0, Array(items[i := x]))
    decreases Height(items[i]), 3, 0
  {
    hide Slash, Decimal, Meaning, Steps, New, Encode, DistinctTree, Prefixed, RunStep;
    DecimalToken(i);
    if Replaces(items[i], to) {
      ReplacedSteps(items[i], to, cs);
      RunReplace(Array(items), Decimal(i), to, cs);
      ReplaceItem(items, i, to, cs);
      x := to;
    } else {
      StepsEdit(items[i], to, cs);
      PrefixedAddressed(Decimal(i), Steps(items[i], to, cs));
      StepsLead(items[i], to, cs);
      ItemToken(items, i, cs);
      RunBelow(Array(items), Decimal(i), i, Steps(items[i], to, cs), cs);
      x := Run(items[i], Steps(items[i], to, cs), cs).doc;
    }
  }

  lemma SplitAddressed(s: seq<Step>, t: seq<Step>)
    requires AllAddressed(s + t)
    ensures AllAddressed(s) && AllAddressed(t)
  {
    hide Addressed;
    assert forall x | x in s :: x in s + t;
    assert forall x | x in t :: x in s + t;
  }

  lemma HeadAddressed(s: Step, t: seq<Step>)
    requires AllAddressed([s] + t)
    ensures Addressed(s) && AllAddressed(t)
  {
    hide Addressed;
    assert s in [s] + t;
    assert forall x | x in t :: x in [s] + t;
  }

  ghost predicate NewItems(b: seq<Json>, cs: bool)
  {
    forall x | x in b :: New(x, cs)
  }

  /** The elements before index `|done|` are already as they should be. */
  lemma {:induction false} ItemsLead(done: seq<Json>, a: seq<Json>, b: seq<Json>, cs: bool, h: nat)
    requires forall x :: x in a ==> Height(x) < h
    requires FitItems(a, b, cs) && NewItems(b, cs) && AllAddressed(ItemSteps(|done|, a, b, cs, h))
    ensures var r := Run(Array(done + a), ItemSteps(|done|, a, b, cs, h), cs);
      r.status == 0 && r.doc.Array? && ItemMeanings(r.doc.items, cs) == ItemMeanings(done, cs) + ItemMeanings(b, cs)
    decreases h, 1, |a| + |b|
  {
    hide Slash, Decimal, Meaning, Steps, Fit, New, Height, Prefixed, RunStep, AllAddressed, ItemMeanings;
    var i := |done|;
    if a != [] && b != [] {
      PairedItems(done, a, b, cs, h);
    } else if a != [] {
      HeadAddressed(Step(REMOVE, Slash(Decimal(i)), None), ItemSteps(i, a[1..], b, cs, h));
      RemoveItem(done + a, i, cs);
      RunOne(Array(done + a), Step(REMOVE, Slash(Decimal(i)), None), ItemSteps(i, a[1..], b, cs, h), cs);
      assert RemoveAt(done + a, i) == done + a[1..];
      ItemsLead(done, a[1..], b, cs, h);
    } else if b != [] {
      assert b[0] in b && New(b[0], cs);
      HeadAddressed(Step(ADD, "/-", Duplicate(b[0], 0)), ItemSteps(i + 1, a, b[1..], cs, h));
      NewHeight(b[0], cs);
      AppendItem(done + a, b[0], cs);
      RunOne(Array(done + a), Step(ADD, "/-", Duplicate(b[0], 0)), ItemSteps(i + 1, a, b[1..], cs, h), cs);
      assert (done + a) + [b[0]] == (done + [b[0]]) + a;
      ItemsLead(done + [b[0]], a, b[1..], cs, h);
      ItemDone(done, b[0], b, cs);
    } else {
    }
  }

  lemma NewHeight(j: Json, cs: bool)
    requires New(j, cs)
    ensures Height(j) <= 10000
  {
  }

  lemma ItemDone(done: seq<Json>, x: Json, b: seq<Json>, cs: bool)
    requires b != [] && Meaning(x, cs) == Meaning(b[0], cs)
    ensures ItemMeanings(done + [x], cs) + ItemMeanings(b[1..], cs) == ItemMeanings(done, cs) + ItemMeanings(b, cs)
  {
    hide Meaning;
    assert ItemMeanings(b, cs) == [Meaning(x, cs)] + ItemMeanings(b[1..], cs);
    hide ItemMeanings;
    AppendAssociates(ItemMeanings(done, cs), [Meaning(x, cs)], ItemMeanings(b[1..], cs));
  }

  lemma {:induction false} PairedItems(done: seq<Json>, a: seq<Json>, b: seq<Json>, cs: bool, h: nat)
    requires forall x :: x in a ==> Height(x) < h
    requires FitItems(a, b, cs) && NewItems(b, cs) && AllAddressed(ItemSteps(|done|, a, b, cs, h))
    requires a != [] && b != []
    ensures var r := Run(Array(done + a), ItemSteps(|done|, a, b, cs, h), cs);
      r.status == 0 && r.doc.Array? && ItemMeanings(r.doc.items, cs) == ItemMeanings(done, cs) + ItemMeanings(b, cs)
    decreases h, 1, |a| + |b|, 0
  {
    hide Slash, Decimal, Meaning, Steps, Fit, New, Prefixed, RunStep, AllAddressed, ItemMeanings;
    var i := |done|;
    assert a[0] in a && b[0] in b && Fit(a[0], b[0], cs) && New(b[0], cs) && Height(a[0]) < h;
    hide Height;
    var pair, rest := Prefixed(Slash(Decimal(i)), Steps(a[0], b[0], cs)), ItemSteps(i + 1, a[1..], b[1..], cs, h);
    SplitAddressed(pair, rest);
    assert (done + a)[i] == a[0];
    var x := ItemLeads(done + a, i, b[0], cs);
    RunAppend(Array(done + a), pair, rest, cs);
    assert (done + a)[i := x] == (done + [x]) + a[1..];
    ItemsLead(done + [x], a[1..], b[1..], cs, h);
    ItemDone(done, x, b, cs);
  }

  /** The steps between two members of the same name make the old one mean the same as the new one. */
  lemma {:induction false} MemberLeads(ms: seq<Entry<Json>>, x: Entry<Json>, to: Json, cs: bool)
    returns (ns: seq<Entry<Json>>)
    requires Found(ms, x, cs) && Distinct(ms, cs) && Fit(x.item, to, cs) && New(to, cs)
    requires Replaces(x.item, to) ==> FirstByFold(ms, x)
    requires AllAddressed(Prefixed(Slash(Encode(x.key)), Steps(x.item, to, cs)))
    ensures Run(Object(ms), Prefixed(Slash(Encode(x.key)), Steps(x.item, to, cs)), cs) == Outcome(0, Object(ns))
    ensures Distinct(ns, cs) && MapOf(ns, cs) == MapOf(ms, cs)[KeyOf(cs, x.key) := Meaning(to, cs)]
    ensures Keeps(ms, ns, x.key, Replaces(x.item, to), cs)
    decreases Height(x.item), 3, 0
  {
    hide Slash, Meaning, MapOf, Steps, New, Encode, DistinctTree, Prefixed, RunStep, KeyOf, Distinct, IndexOf, Restored;
    var i := IndexOf(ms, x.key, cs);
    var token := Encode(x.key);
    EncodeNoSlash(x.key);
    if Replaces(x.item, to) {
      ReplacedSteps(x.item, to, cs);
      RunReplace(Object(ms), token, to, cs);
      ns := MemberReplaced(ms, x, to, cs);
    } else {
      StepsEdit(x.item, to, cs);
      PrefixedAddressed(token, Steps(x.item, to, cs));
      StepsLead(x.item, to, cs);
      MemberToken(ms, i, cs);
      RunBelow(Object(ms), token, i, Steps(x.item, to, cs), cs);
      var v := Run(x.item, Steps(x.item, to, cs), cs).doc;
      ns := MemberChanged(ms, x, v, cs);
    }
  }

  lemma MemberToken(ms: seq<Entry<Json>>, i: nat, cs: bool)
    requires i < |ms| && Distinct(ms, cs)
    ensures Child(Object(ms), Encode(ms[i].key), cs) == Some(i)
  {
    hide Encode, IndexOf, MatchIndex, Distinct;
    MatchIndexEncoded(ms, ms[i].key, [], cs);
    assert Encode(ms[i].key) + [] == Encode(ms[i].key);
    DistinctIndexOf(ms, i, cs);
  }

  /**
   What the change of member `h` keeps: others are found where they were, and no name
   comes before another that did not; if the member was detached it comes before none.
   */
  ghost predicate Keeps(ms: seq<Entry<Json>>, ns: seq<Entry<Json>>, h: CString, detached: bool, cs: bool)
  {
    && (forall e | Found(ms, e, cs) && KeyOf(cs, e.key) != KeyOf(cs, h) :: Found(ns, e, cs))
    && (forall f, k | k != h && Precedes(ns, f, k) :: Precedes(ms, f, k) && (detached ==> f != h))
  }

  lemma PrecedesRemoved(ms: seq<Entry<Json>>, i: nat, f: CString, k: CString, cs: bool)
    requires i < |ms| && Distinct(ms, cs) && Precedes(RemoveAt(ms, i), f, k)
    ensures Precedes(ms, f, k) && f != ms[i].key && k != ms[i].key
  {
    hide Distinct, KeyOf;
    var ns := RemoveAt(ms, i);
    var p, q :| 0 <= p < q < |ns| && ns[p].key == f && ns[q].key == k;
    var p', q' := if p < i then p else p + 1, if q < i then q else q + 1;
    assert ms[p'].key == f && ms[q'].key == k;
    DistinctApart(ms, i, p', cs);
    DistinctApart(ms, i, q', cs);
  }

  lemma DistinctApart(ms: seq<Entry<Json>>, i: nat, j: nat, cs: bool)
    requires i < |ms| && j < |ms| && i != j && Distinct(ms, cs)
    ensures ms[i].key != ms[j].key
  {
    hide Distinct, KeyOf;
    DistinctIndices(ms, if i < j then i else j, if i < j then j else i, cs);
  }

  lemma PrecedesAppended(ms: seq<Entry<Json>>, e: Entry<Json>, f: CString, k: CString)
    requires Precedes(ms + [e], f, k) && k != e.key
    ensures Precedes(ms, f, k)
  {
    var ns := ms + [e];
    var p, q :| 0 <= p < q < |ns| && ns[p].key == f && ns[q].key == k;
    assert ms[p].key == f && ms[q].key == k;
  }

  lemma MemberChanged(ms: seq<Entry<Json>>, x: Entry<Json>, v: Json, cs: bool) returns (ns: seq<Entry<Json>>)
    requires Found(ms, x, cs) && Distinct(ms, cs)
    ensures ns == ms[IndexOf(ms, x.key, cs) := Entry(x.key, v)]
    ensures Distinct(ns, cs) && MapOf(ns, cs) == MapOf(ms, cs)[KeyOf(cs, x.key) := Meaning(v, cs)]
    ensures Keeps(ms, ns, x.key, false, cs)
  {
    var i := IndexOf(ms, x.key, cs);
    ns := ms[i := Entry(x.key, v)];
    hide KeyOf, Distinct, MapOf, Meaning, IndexOf;
    KeysUpdate(ms, i, v, cs);
    MapOfUpdate(ms, i, v, cs);
    forall e | Found(ms, e, cs) && KeyOf(cs, e.key) != KeyOf(cs, x.key) ensures Found(ns, e, cs) {
      FoundUpdate(ms, i, v, e, cs);
    }
    forall f, k | k != x.key && Precedes(ns, f, k) ensures Precedes(ms, f, k) {
    }
  }

  lemma MemberReplaced(ms: seq<Entry<Json>>, x: Entry<Json>, v: Json, cs: bool) returns (ns: seq<Entry<Json>>)
    requires FirstByFold(ms, x) && Distinct(ms, cs) && Height(v) <= 10000
    requires AllAddressed([Step(REPLACE, Slash(Encode(x.key)), Some(v))])
    ensures RunStep(Object(ms), Step(REPLACE, Slash(Encode(x.key)), Some(v)), cs) == Outcome(0, Object(ns))
    ensures Distinct(ns, cs) && MapOf(ns, cs) == MapOf(ms, cs)[KeyOf(cs, x.key) := Meaning(v, cs)]
    ensures Keeps(ms, ns, x.key, true, cs)
  {
    hide KeyOf, Distinct, MapOf, Meaning, IndexOf, Slash, Encode, RunStep, Height, Addressed, Restored, Keys;
    var i := IndexOf(ms, x.key, false);
    var s := Step(REPLACE, Slash(Encode(x.key)), Some(v));
    assert s in [s];
    AddressedName(s, x.key);
    var rest := RemoveAt(ms, i);
    ns := rest + [Entry(x.key, v)];
    KeysRemove(ms, i, cs);
    MapOfRemove(ms, i, cs);
    ReplaceMember(ms, x.key, v, cs);
    KeysAppend(rest, Entry(x.key, v), cs);
    MapOfAppend(rest, Entry(x.key, v), cs);
    forall e | Found(ms, e, cs) && KeyOf(cs, e.key) != KeyOf(cs, x.key) ensures Found(ns, e, cs) {
      FoundRemove(ms, i, e, cs);
      FoundAppend(rest, Entry(x.key, v), e, cs);
    }
    forall f, k | k != x.key && Precedes(ns, f, k) ensures Precedes(ms, f, k) && f != x.key {
      PrecedesAppended(rest, Entry(x.key, v), f, k);
      PrecedesRemoved(ms, i, f, k, cs);
    }
  }

  // --- Members ---------------------------------------------------------------------------------

  /** What the loop over sorted members relies on: `ms` are the members now, `a` and `b` those ahead. */
  ghost predicate Ahead(ms: seq<Entry<Json>>, a: seq<Entry<Json>>, b: seq<Entry<Json>>, cs: bool)
  {
    && Ascending(a, cs) && Ascending(b, cs) && Distinct(ms, cs)
    && AllFound(ms, a, cs) && Reachable(ms, a, b, cs) && FitMembers(a, b, cs) && NewMembers(b, cs)
    && Keys(b, cs) !! (Keys(ms, cs) - Keys(a, cs))
  }

  /** A member that is detached next is the one a lookup without regard to case finds. */
  lemma HeadFirst(ms: seq<Entry<Json>>, a: seq<Entry<Json>>, b: seq<Entry<Json>>, cs: bool)
    requires Ahead(ms, a, b, cs) && a != [] && a[0].key in Detaching(a, b, cs)
    ensures FirstByFold(ms, a[0]) && IndexOf(ms, a[0].key, false) == IndexOf(ms, a[0].key, cs)
  {
    hide Fit, New, Distinct, Strcmp, Keys, Detaching, Ascending;
    var k := a[0].key;
    assert a[0] in a && Found(ms, a[0], cs);
    var i, first := IndexOf(ms, k, cs), IndexOf(ms, k, false);
    assert ms[i].key == k && first <= i;
    if first < i {
      var f := ms[first].key;
      assert Precedes(ms, f, k) && Fold(f) == Fold(k);
      HeadLeast(a, b, cs, f);
    }
  }

  lemma HeadLeast(a: seq<Entry<Json>>, b: seq<Entry<Json>>, cs: bool, f: CString)
    requires a != [] && Ascending(a, cs) && f in Detaching(a, b, cs)
    ensures Strcmp(KeyOf(cs, f), KeyOf(cs, a[0].key)) >= 0
  {
    hide KeyOf, Ascending, Keys, Strcmp, Detaching;
    DetachingAmong(a, b, cs, f);
    HeadOf(a, cs);
    StrcmpZero(KeyOf(cs, f), KeyOf(cs, a[0].key));
    StrcmpAntisymmetric(KeyOf(cs, f), KeyOf(cs, a[0].key));
    if KeyOf(cs, f) in Keys(a[1..], cs) {
      AscendingHead(a, KeyOf(cs, f), cs);
    }
  }

  /** What is reachable stays so when the heads have been dealt with. */
  lemma ReachableNext(ms: seq<Entry<Json>>, ns: seq<Entry<Json>>, a: seq<Entry<Json>>, b: seq<Entry<Json>>,
                      c: seq<Entry<Json>>, d: seq<Entry<Json>>, h: CString, detached: bool, cs: bool)
    requires Reachable(ms, a, b, cs) && h !in Detaching(c, d, cs)
    requires Detaching(a, b, cs) == (if detached then [h] else []) + Detaching(c, d, cs)
    requires forall f, k | k != h && Precedes(ns, f, k) :: Precedes(ms, f, k) && (detached ==> f != h)
    ensures Reachable(ns, c, d, cs)
  {
    hide Detaching, Precedes, KeyOf, Strcmp, Fold;
  }

  ghost predicate MembersBecame(r: Outcome, ms: seq<Entry<Json>>, a: seq<Entry<Json>>, b: seq<Entry<Json>>, cs: bool)
  {
    && r.status == 0 && r.doc.Object?
    && MapOf(r.doc.members, cs) == (MapOf(ms, cs) - Keys(a, cs)) + MapOf(b, cs)
  }

  lemma {:induction false} MembersLead(ms: seq<Entry<Json>>, a: seq<Entry<Json>>, b: seq<Entry<Json>>, cs: bool, h: nat)
    requires forall e :: e in a ==> Height(e.item) < h
    requires Ahead(ms, a, b, cs) && AllAddressed(MemberSteps(a, b, cs, h))
    ensures MembersBecame(Run(Object(ms), MemberSteps(a, b, cs, h), cs), ms, a, b, cs)
    decreases h, 1, |a| + |b|, 1
  {
    hide Ahead, MembersBecame, AllAddressed, Height, Encode, Steps, Strcmp, KeyOf;
    if a == [] && b == [] {
      NothingAhead(ms, cs);
    } else if HeadsDiffer(a, b, cs) == 0 {
      HeadsPaired(ms, a, b, cs, h);
    } else if HeadsDiffer(a, b, cs) < 0 {
      HeadRemoved(ms, a, b, cs, h);
    } else {
      HeadAdded(ms, a, b, cs, h);
    }
  }

  lemma NothingAhead(ms: seq<Entry<Json>>, cs: bool)
    ensures MembersBecame(Outcome(0, Object(ms)), ms, [], [], cs)
  {
    hide KeyOf;
  }

  lemma {:induction false} HeadsPaired(ms: seq<Entry<Json>>, a: seq<Entry<Json>>, b: seq<Entry<Json>>, cs: bool, h: nat)
    requires forall e :: e in a ==> Height(e.item) < h
    requires Ahead(ms, a, b, cs) && AllAddressed(MemberSteps(a, b, cs, h))
    requires (a != [] || b != []) && HeadsDiffer(a, b, cs) == 0
    ensures MembersBecame(Run(Object(ms), MemberSteps(a, b, cs, h), cs), ms, a, b, cs)
    decreases h, 1, |a| + |b|, 0
  {
    assert a[0] in a && Height(a[0].item) < h;
    hide MembersBecame, AllAddressed, Height, Encode, Steps, Run, Prefixed, Slash, MemberSteps;
    hide Fit, New, Found, FirstByFold, MapOf, Meaning, Distinct, Ascending, Ahead;
    assert a[0] in a && b[0] in b;
    var pair := Prefixed(Slash(Encode(a[0].key)), Steps(a[0].item, b[0].item, cs));
    var rest := MemberSteps(a[1..], b[1..], cs, h);
    PairedSteps(a, b, cs, h);
    SplitAddressed(pair, rest);
    PairReady(ms, a, b, cs);
    var ns := MemberLeads(ms, a[0], b[0].item, cs);
    RunAppend(Object(ms), pair, rest, cs);
    AheadPaired(ms, ns, a, b, Meaning(b[0].item, cs), cs);
    MembersLead(ns, a[1..], b[1..], cs, h);
    BecamePaired(Run(Object(ns), rest, cs), ms, ns, a, b, cs);
  }

  /** What the steps about a pair of members rely on. */
  lemma PairReady(ms: seq<Entry<Json>>, a: seq<Entry<Json>>, b: seq<Entry<Json>>, cs: bool)
    requires Ahead(ms, a, b, cs) && (a != [] || b != []) && HeadsDiffer(a, b, cs) == 0
    ensures a != [] && b != [] && Found(ms, a[0], cs) && Distinct(ms, cs)
    ensures Fit(a[0].item, b[0].item, cs) && New(b[0].item, cs)
    ensures Replaces(a[0].item, b[0].item) ==> FirstByFold(ms, a[0])
  {
    hide Fit, New, Found, FirstByFold, Distinct, Ascending, Reachable, KeyOf, Strcmp, Keys;
    assert a != [] && b != [];
    StrcmpZero(KeyOf(cs, a[0].key), KeyOf(cs, b[0].key));
    assert a[0] in a && b[0] in b;
    if Replaces(a[0].item, b[0].item) {
      HeadFirst(ms, a, b, cs);
    }
  }

  lemma PairedSteps(a: seq<Entry<Json>>, b: seq<Entry<Json>>, cs: bool, h: nat)
    requires forall e :: e in a ==> Height(e.item) < h
    requires (a != [] || b != []) && HeadsDiffer(a, b, cs) == 0
    ensures a != [] && b != [] && KeyOf(cs, a[0].key) == KeyOf(cs, b[0].key)
    ensures MemberSteps(a, b, cs, h)
         == Prefixed(Slash(Encode(a[0].key)), Steps(a[0].item, b[0].item, cs)) + MemberSteps(a[1..], b[1..], cs, h)
  {
    hide Steps, Prefixed, Slash, Encode, KeyOf, Strcmp, Height;
    assert a != [] && b != [];
    StrcmpZero(KeyOf(cs, a[0].key), KeyOf(cs, b[0].key));
  }

  /** The head of an ascending list is not among the rest. */
  lemma HeadOf(a: seq<Entry<Json>>, cs: bool)
    requires a != [] && Ascending(a, cs)
    ensures Ascending(a[1..], cs)
    ensures KeyOf(cs, a[0].key) !in Keys(a[1..], cs)
    ensures Keys(a, cs) == Keys(a[1..], cs) + {KeyOf(cs, a[0].key)}
  {
    hide KeyOf;
    AscendingDistinct(a, cs);
  }

  lemma RestFound(ms: seq<Entry<Json>>, a: seq<Entry<Json>>, cs: bool)
    requires a != [] && Ascending(a, cs) && AllFound(ms, a, cs)
    ensures forall e | e in a[1..] :: Found(ms, e, cs) && KeyOf(cs, e.key) != KeyOf(cs, a[0].key)
  {
    hide KeyOf, Found, Ascending, Keys;
    HeadOf(a, cs);
    forall e | e in a[1..] ensures Found(ms, e, cs) && KeyOf(cs, e.key) != KeyOf(cs, a[0].key) {
      var k :| 0 <= k < |a[1..]| && a[1..][k] == e;
      KeyInKeys(a[1..], k, cs);
      assert e in a;
    }
  }

  lemma RestFit(a: seq<Entry<Json>>, b: seq<Entry<Json>>, cs: bool)
    requires FitMembers(a, b, cs)
    ensures a != [] ==> FitMembers(a[1..], b, cs)
    ensures b != [] ==> FitMembers(a, b[1..], cs)
    ensures a != [] && b != [] ==> FitMembers(a[1..], b[1..], cs)
  {
    hide Fit, KeyOf;
  }

  /** The name of the head is not among those detached later. */
  lemma HeadGone(a: seq<Entry<Json>>, c: seq<Entry<Json>>, cs: bool)
    requires a != [] && Ascending(a, cs)
    ensures a[0].key !in Detaching(a[1..], c, cs)
  {
    hide KeyOf, Ascending, Keys, Detaching;
    HeadOf(a, cs);
    if a[0].key in Detaching(a[1..], c, cs) {
      DetachingAmong(a[1..], c, cs, a[0].key);
    }
  }

  lemma RestNew(b: seq<Entry<Json>>, cs: bool)
    requires b != [] && NewMembers(b, cs)
    ensures New(b[0].item, cs) && NewMembers(b[1..], cs)
  {
    hide New;
    assert b[0] in b;
  }

  lemma AheadPaired(ms: seq<Entry<Json>>, ns: seq<Entry<Json>>, a: seq<Entry<Json>>, b: seq<Entry<Json>>, v: Value, cs: bool)
    requires a != [] && b != [] && Ahead(ms, a, b, cs) && HeadsDiffer(a, b, cs) == 0
    requires KeyOf(cs, a[0].key) == KeyOf(cs, b[0].key)
    requires Distinct(ns, cs)
    requires MapOf(ns, cs) == MapOf(ms, cs)[KeyOf(cs, a[0].key) := v]
    requires Keeps(ms, ns, a[0].key, Replaces(a[0].item, b[0].item), cs)
    ensures Ahead(ns, a[1..], b[1..], cs)
  {
    hide KeyOf, Found, Fit, FitMembers, New, Meaning, MapOf, Distinct, Ascending, Keys, Reachable, Detaching, Keeps, Strcmp;
    HeadOf(a, cs);
    HeadOf(b, cs);
    FoundPaired(ms, ns, a, b, cs);
    ReachablePaired(ms, ns, a, b, cs);
    RestFit(a, b, cs);
    RestNew(b, cs);
    MapOfKeys(ms, cs);
    MapOfKeys(ns, cs);
  }

  lemma FoundPaired(ms: seq<Entry<Json>>, ns: seq<Entry<Json>>, a: seq<Entry<Json>>, b: seq<Entry<Json>>, cs: bool)
    requires a != [] && b != [] && Ascending(a, cs) && AllFound(ms, a, cs)
    requires Keeps(ms, ns, a[0].key, Replaces(a[0].item, b[0].item), cs)
    ensures AllFound(ns, a[1..], cs)
  {
    hide KeyOf, Found, Ascending, Precedes, Replaces;
    RestFound(ms, a, cs);
  }

  lemma ReachablePaired(ms: seq<Entry<Json>>, ns: seq<Entry<Json>>, a: seq<Entry<Json>>, b: seq<Entry<Json>>, cs: bool)
    requires a != [] && b != [] && HeadsDiffer(a, b, cs) == 0 && Ascending(a, cs) && Reachable(ms, a, b, cs)
    requires Keeps(ms, ns, a[0].key, Replaces(a[0].item, b[0].item), cs)
    ensures Reachable(ns, a[1..], b[1..], cs)
  {
    assert Detaching(a, b, cs)
        == (if Replaces(a[0].item, b[0].item) then [a[0].key] else []) + Detaching(a[1..], b[1..], cs);
    hide KeyOf, Found, Ascending, Reachable, Detaching, Precedes, Replaces, Strcmp;
    HeadGone(a, b[1..], cs);
    ReachableNext(ms, ns, a, b, a[1..], b[1..], a[0].key, Replaces(a[0].item, b[0].item), cs);
  }

  lemma BecamePaired(r: Outcome, ms: seq<Entry<Json>>, ns: seq<Entry<Json>>,
                     a: seq<Entry<Json>>, b: seq<Entry<Json>>, cs: bool)
    requires a != [] && b != [] && Ascending(a, cs) && Ascending(b, cs)
    requires KeyOf(cs, a[0].key) == KeyOf(cs, b[0].key)
    requires MapOf(ns, cs) == MapOf(ms, cs)[KeyOf(cs, a[0].key) := Meaning(b[0].item, cs)]
    requires MembersBecame(r, ns, a[1..], b[1..], cs)
    ensures MembersBecame(r, ms, a, b, cs)
  {
    hide KeyOf, Meaning, MapOf, Ascending, Keys;
    HeadOf(a, cs);
    HeadOf(b, cs);
    MapOfHead(b, cs);
    MapOfKeys(b[1..], cs);
  }

  lemma {:induction false} HeadRemoved(ms: seq<Entry<Json>>, a: seq<Entry<Json>>, b: seq<Entry<Json>>, cs: bool, h: nat)
    requires forall e :: e in a ==> Height(e.item) < h
    requires Ahead(ms, a, b, cs) && AllAddressed(MemberSteps(a, b, cs, h))
    requires (a != [] || b != []) && HeadsDiffer(a, b, cs) < 0
    ensures MembersBecame(Run(Object(ms), MemberSteps(a, b, cs, h), cs), ms, a, b, cs)
    decreases h, 1, |a| + |b|, 0
  {
    hide MembersBecame, AllAddressed, Addressed, Height, Encode, Steps, Run, RunStep, Slash;
    hide Fit, New, MapOf, Meaning, Distinct, Ascending, IndexOf, Keys, KeyOf, Strcmp;
    RemovedFirst(ms, a, b, cs);
    var i := IndexOf(ms, a[0].key, false);
    var s, rest := Step(REMOVE, Slash(Encode(a[0].key)), None), MemberSteps(a[1..], b, cs, h);
    HeadAddressed(s, rest);
    AddressedName(s, a[0].key);
    RemoveMember(ms, a[0].key, cs);
    RunOne(Object(ms), s, rest, cs);
    BelowHead(b, KeyOf(cs, a[0].key), cs);
    AheadRemoved(ms, a, b, cs);
    MembersLead(RemoveAt(ms, i), a[1..], b, cs, h);
    BecameRemoved(Run(Object(RemoveAt(ms, i)), rest, cs), ms, a, b, cs);
  }

  lemma RemovedFirst(ms: seq<Entry<Json>>, a: seq<Entry<Json>>, b: seq<Entry<Json>>, cs: bool)
    requires Ahead(ms, a, b, cs) && (a != [] || b != []) && HeadsDiffer(a, b, cs) < 0
    ensures a != [] && FirstByFold(ms, a[0]) && IndexOf(ms, a[0].key, false) == IndexOf(ms, a[0].key, cs)
  {
    assert a[0].key in Detaching(a, b, cs);
    HeadFirst(ms, a, b, cs);
  }

  lemma AheadRemoved(ms: seq<Entry<Json>>, a: seq<Entry<Json>>, b: seq<Entry<Json>>, cs: bool)
    requires a != [] && Ahead(ms, a, b, cs) && HeadsDiffer(a, b, cs) < 0
    requires FirstByFold(ms, a[0]) && KeyOf(cs, a[0].key) !in Keys(b, cs)
    ensures Ahead(RemoveAt(ms, IndexOf(ms, a[0].key, false)), a[1..], b, cs)
  {
    assert Detaching(a, b, cs) == [a[0].key] + Detaching(a[1..], b, cs);
    hide KeyOf, Fit, FitMembers, New, Distinct, Ascending, Keys, IndexOf, Reachable, Detaching, Precedes, Found;
    var i := IndexOf(ms, a[0].key, false);
    var ns := RemoveAt(ms, i);
    HeadOf(a, cs);
    RestFound(ms, a, cs);
    RestFit(a, b, cs);
    HeadGone(a, b, cs);
    KeysRemove(ms, i, cs);
    forall e | e in a[1..] ensures Found(ns, e, cs) {
      FoundRemove(ms, i, e, cs);
    }
    forall f, k | k != a[0].key && Precedes(ns, f, k) ensures Precedes(ms, f, k) && f != a[0].key {
      PrecedesRemoved(ms, i, f, k, cs);
    }
    ReachableNext(ms, ns, a, b, a[1..], b, a[0].key, true, cs);
  }

  lemma BecameRemoved(r: Outcome, ms: seq<Entry<Json>>, a: seq<Entry<Json>>, b: seq<Entry<Json>>, cs: bool)
    requires a != [] && Ascending(a, cs) && Distinct(ms, cs) && FirstByFold(ms, a[0])
    requires MembersBecame(r, RemoveAt(ms, IndexOf(ms, a[0].key, false)), a[1..], b, cs)
    ensures MembersBecame(r, ms, a, b, cs)
  {
    hide KeyOf, MapOf, Ascending, Keys, Distinct, IndexOf;
    HeadOf(a, cs);
    MapOfRemove(ms, IndexOf(ms, a[0].key, false), cs);
  }

  lemma {:induction false} HeadAdded(ms: seq<Entry<Json>>, a: seq<Entry<Json>>, b: seq<Entry<Json>>, cs: bool, h: nat)
    requires forall e :: e in a ==> Height(e.item) < h
    requires Ahead(ms, a, b, cs) && AllAddressed(MemberSteps(a, b, cs, h))
    requires (a != [] || b != []) && HeadsDiffer(a, b, cs) > 0
    ensures MembersBecame(Run(Object(ms), MemberSteps(a, b, cs, h), cs), ms, a, b, cs)
    decreases h, 1, |a| + |b|, 0
  {
    hide MembersBecame, AllAddressed, Addressed, Height, Encode, Steps, Run, RunStep, Slash, Duplicate;
    hide Fit, New, MapOf, Meaning, Distinct, Ascending, IndexOf, Keys, KeyOf, Strcmp;
    var k := KeyOf(cs, b[0].key);
    if a != [] {
      StrcmpAntisymmetric(KeyOf(cs, a[0].key), k);
    }
    BelowHead(a, k, cs);
    KeyInKeys(b, 0, cs);
    RestNew(b, cs);
    NewHeight(b[0].item, cs);
    var s, rest := Step(ADD, Slash(Encode(b[0].key)), Duplicate(b[0].item, 0)), MemberSteps(a, b[1..], cs, h);
    HeadAddressed(s, rest);
    AddressedName(s, b[0].key);
    AddMember(ms, b[0], cs);
    RunOne(Object(ms), s, rest, cs);
    AheadAdded(ms, a, b, cs);
    MembersLead(ms + [b[0]], a, b[1..], cs, h);
    BecameAdded(Run(Object(ms + [b[0]]), rest, cs), ms, a, b, cs);
  }

  lemma AheadAdded(ms: seq<Entry<Json>>, a: seq<Entry<Json>>, b: seq<Entry<Json>>, cs: bool)
    requires b != [] && Ahead(ms, a, b, cs) && HeadsDiffer(a, b, cs) > 0
    requires KeyOf(cs, b[0].key) !in Keys(ms, cs) + Keys(a, cs)
    ensures Ahead(ms + [b[0]], a, b[1..], cs)
  {
    assert Detaching(a, b, cs) == [] + Detaching(a, b[1..], cs);
    hide KeyOf, Fit, FitMembers, New, Distinct, Ascending, Keys, Found, Reachable, Detaching, Precedes;
    HeadOf(b, cs);
    RestNew(b, cs);
    RestFit(a, b, cs);
    KeysAppend(ms, b[0], cs);
    forall e | e in a ensures Found(ms + [b[0]], e, cs) {
      FoundAppend(ms, b[0], e, cs);
    }
    if b[0].key in Detaching(a, b[1..], cs) {
      DetachingAmong(a, b[1..], cs, b[0].key);
    }
    forall f, k | k != b[0].key && Precedes(ms + [b[0]], f, k) ensures Precedes(ms, f, k) {
      PrecedesAppended(ms, b[0], f, k);
    }
    ReachableNext(ms, ms + [b[0]], a, b, a, b[1..], b[0].key, false, cs);
  }

  lemma BecameAdded(r: Outcome, ms: seq<Entry<Json>>, a: seq<Entry<Json>>, b: seq<Entry<Json>>, cs: bool)
    requires b != [] && Ascending(b, cs) && KeyOf(cs, b[0].key) !in Keys(ms, cs) + Keys(a, cs)
    requires MembersBecame(r, ms + [b[0]], a, b[1..], cs)
    ensures MembersBecame(r, ms, a, b, cs)
  {
    hide KeyOf, MapOf, Ascending, Keys, Meaning;
    HeadOf(b, cs);
    MapOfHead(b, cs);
    MapOfAppend(ms, b[0], cs);
    MapOfKeys(b[1..], cs);
  }

  // --- Documents -----------------------------------------------------------------------------------

  lemma Beginning(ms: seq<Entry<Json>>, ns: seq<Entry<Json>>, cs: bool)
    requires Fit(Object(ms), Object(ns), cs) && New(Object(ns), cs)
    ensures Ahead(ms, Sort(ms, cs), Sort(ns, cs), cs)
    ensures Keys(Sort(ms, cs), cs) == Keys(ms, cs) && MapOf(Sort(ns, cs), cs) == MapOf(ns, cs)
  {
    hide KeyOf, Ascending, Keys, Sort, MapOf, Fit, Reachable, Distinct, Height, Found;
    FitObject(ms, ns, cs);
    NewObject(ns, cs);
    SortedMembers(ms, cs);
    SortedMembers(ns, cs);
    MapOfPermutation(ns, Sort(ns, cs), cs);
    SortedFit(ms, ns, cs);
    SortedFound(ms, cs);
  }

  lemma NewObject(ns: seq<Entry<Json>>, cs: bool)
    requires New(Object(ns), cs)
    ensures Distinct(ns, cs) && NewMembers(ns, cs)
  {
    hide Distinct;
  }

  lemma SortedFit(ms: seq<Entry<Json>>, ns: seq<Entry<Json>>, cs: bool)
    requires FitMembers(ms, ns, cs) && NewMembers(ns, cs)
    ensures FitMembers(Sort(ms, cs), Sort(ns, cs), cs) && NewMembers(Sort(ns, cs), cs)
  {
    hide Sort, Fit, New, KeyOf;
    SortMembers(ms, cs);
    SortMembers(ns, cs);
  }

  lemma SortedFound(ms: seq<Entry<Json>>, cs: bool)
    requires Distinct(ms, cs)
    ensures AllFound(ms, Sort(ms, cs), cs)
  {
    hide Sort, Distinct, KeyOf;
    SortMembers(ms, cs);
    forall e | e in Sort(ms, cs) ensures Found(ms, e, cs) {
      var i :| 0 <= i < |ms| && ms[i] == e;
      DistinctIndexOf(ms, i, cs);
    }
  }

  lemma FitArray(a: seq<Json>, b: seq<Json>, cs: bool)
    requires Fit(Array(a), Array(b), cs)
    ensures FitItems(a, b, cs)
  {
  }

  lemma FitObject(ms: seq<Entry<Json>>, ns: seq<Entry<Json>>, cs: bool)
    requires Fit(Object(ms), Object(ns), cs)
    ensures Distinct(ms, cs) && Reachable(ms, Sort(ms, cs), Sort(ns, cs), cs) && FitMembers(ms, ns, cs)
  {
    hide Reachable, Distinct, Sort;
  }

  lemma MemberHeights(ms: seq<Entry<Json>>)
    ensures forall e | e in ms :: Height(e.item) < Height(Object(ms))
  {
  }

  lemma {:induction false} ObjectsLead(ms: seq<Entry<Json>>, ns: seq<Entry<Json>>, cs: bool)
    requires Fit(Object(ms), Object(ns), cs) && New(Object(ns), cs) && AllAddressed(Steps(Object(ms), Object(ns), cs))
    ensures Became(Run(Object(ms), Steps(Object(ms), Object(ns), cs), cs), Meaning(Object(ns), cs), cs)
    decreases Height(Object(ms)), 1
  {
    hide KeyOf, Ascending, Keys, Sort, Ahead, MemberSteps, Run, AllAddressed, ToMap, Fit, Height, DistinctTree;
    MemberHeights(ms);
    var a, b := Sort(ms, cs), Sort(ns, cs);
    Beginning(ms, ns, cs);
    SortMembers(ms, cs);
    MembersLead(ms, a, b, cs, Height(Object(ms)));
    MapOfKeys(ms, cs);
    assert MapOf(ms, cs) - Keys(a, cs) == map[];
  }

  lemma {:induction false} ArraysLead(a: seq<Json>, b: seq<Json>, cs: bool)
    requires FitItems(a, b, cs) && New(Array(b), cs) && AllAddressed(ItemSteps(0, a, b, cs, Height(Array(a))))
    ensures Became(Run(Array(a), Steps(Array(a), Array(b), cs), cs), Meaning(Array(b), cs), cs)
    decreases Height(Array(a)), 1
  {
    assert Steps(Array(a), Array(b), cs) == ItemSteps(0, a, b, cs, Height(Array(a)));
    hide Steps, ItemSteps, Run, AllAddressed, Fit, DistinctTree, ItemMeanings;
    assert [] + a == a && ItemMeanings([], cs) == [];
    assert [] + ItemMeanings(b, cs) == ItemMeanings(b, cs);
    ItemsLead([], a, b, cs, Height(Array(a)));
  }

  /** The steps make the old document mean the same as the new one. */
  lemma {:induction false} StepsLead(from: Json, to: Json, cs: bool)
    requires Fit(from, to, cs) && New(to, cs) && AllAddressed(Steps(from, to, cs))
    ensures Became(Run(from, Steps(from, to, cs), cs), Meaning(to, cs), cs)
    decreases Height(from), 2
  {
    hide Duplicate, Meaning, Height, DistinctTree, MemberSteps, ItemSteps, AllAddressed, Sort, Reachable, Distinct;
    if Replaces(from, to) {
      hide Steps, Fit;
      ReplacedSteps(from, to, cs);
      DuplicateIsCopy(to, 0);
      RunOne(from, Step(REPLACE, [], Some(to)), [], cs);
    } else {
      hide Run;
      match from
      case Array(items) =>
        FitArray(items, to.items, cs);
        ArraysLead(items, to.items, cs);
      case Object(ms) =>
        ObjectsLead(ms, to.members, cs);
      case _ =>
    }
  }

  // --- Names that decode ------------------------------------------------------------------------------

  /** Every member name of the tree comes back when its token is decoded in place. */
  predicate DecodableNames(j: Json)
  {
    match j
    case Array(items) => forall x | x in items :: DecodableNames(x)
    case Object(ms) => forall e | e in ms :: Decodable(e.key) && DecodableNames(e.item)
    case _ => true
  }

  ghost predicate DecodableMembers(ms: seq<Entry<Json>>)
  {
    forall e | e in ms :: Decodable(e.key) && DecodableNames(e.item)
  }

  ghost predicate DecodableItems(items: seq<Json>)
  {
    forall x | x in items :: DecodableNames(x)
  }

  lemma NameAddressed(s: Step, name: CString)
    requires s.path == Slash(Encode(name)) && Decodable(name)
    ensures Addressed(s)
  {
    DecodesIff(name);
    EncodeNoSlash(name);
    SlashToken(Encode(name));
  }

  lemma IndexAddressed(s: Step, i: nat)
    requires s.path == Slash(Decimal(i))
    ensures Addressed(s)
  {
    DecimalToken(i);
    SlashToken(Decimal(i));
  }

  lemma DashAddressed(s: Step)
    requires s.path == "/-"
    ensures Addressed(s)
  {
    DashToken();
    SlashToken("-");
  }

  lemma {:induction false} AddressedPrefixed(token: CString, steps: seq<Step>)
    requires '/' !in token && AllInner(steps) && AllAddressed(steps)
    ensures AllAddressed(Prefixed(Slash(token), steps))
  {
    hide Addressed, Inner, Slash;
    if steps != [] {
      assert steps[0] in steps && forall t | t in steps[1..] :: t in steps;
      AddressedPrefixed(token, steps[1..]);
      AddressedBelow(token, steps[0]);
    }
  }

  lemma {:induction false} KidAddressed(token: CString, from: Json, to: Json, cs: bool)
    requires DecodableNames(from) && DecodableNames(to) && '/' !in token
    requires forall s: Step :: s.path == Slash(token) ==> Addressed(s)
    ensures AllAddressed(Prefixed(Slash(token), Steps(from, to, cs)))
    decreases Height(from), 3, 0
  {
    hide Addressed, Slash;
    if Replaces(from, to) {
      var s := Step(REPLACE, Slash(token), Duplicate(to, 0));
      SlashToken(token);
      assert Addressed(s);
      assert Prefixed(Slash(token), Steps(from, to, cs)) == [s];
    } else {
      hide Steps;
      StepsEdit(from, to, cs);
      DecodableAddressed(from, to, cs);
      AddressedPrefixed(token, Steps(from, to, cs));
    }
  }

  lemma {:induction false} ItemsAddressed(i: nat, a: seq<Json>, b: seq<Json>, cs: bool, h: nat)
    requires forall x :: x in a ==> Height(x) < h
    requires DecodableItems(a) && DecodableItems(b)
    ensures AllAddressed(ItemSteps(i, a, b, cs, h))
    decreases h, 1, |a| + |b|
  {
    hide Addressed, Slash, Steps, DecodableNames, Duplicate, Decimal;
    forall s: Step | s.path == Slash(Decimal(i)) ensures Addressed(s) { IndexAddressed(s, i); }
    forall s: Step | s.path == "/-" ensures Addressed(s) { DashAddressed(s); }
    if a != [] && b != [] {
      assert a[0] in a && b[0] in b;
      DecimalToken(i);
      KidAddressed(Decimal(i), a[0], b[0], cs);
      ItemsAddressed(i + 1, a[1..], b[1..], cs, h);
    } else if a != [] {
      ItemsAddressed(i, a[1..], b, cs, h);
    } else if b != [] {
      ItemsAddressed(i + 1, a, b[1..], cs, h);
    }
  }

  lemma {:induction false} MembersAddressed(a: seq<Entry<Json>>, b: seq<Entry<Json>>, cs: bool, h: nat)
    requires forall e :: e in a ==> Height(e.item) < h
    requires DecodableMembers(a) && DecodableMembers(b)
    ensures AllAddressed(MemberSteps(a, b, cs, h))
    decreases h, 1, |a| + |b|
  {
    hide Addressed, Slash, Steps, DecodableNames, Duplicate, Encode, Strcmp, KeyOf;
    if a != [] || b != [] {
      var difference := HeadsDiffer(a, b, cs);
      if a != [] {
        assert a[0] in a && Decodable(a[0].key);
        EncodeNoSlash(a[0].key);
        forall s: Step | s.path == Slash(Encode(a[0].key)) ensures Addressed(s) { NameAddressed(s, a[0].key); }
      }
      if difference == 0 {
        assert b[0] in b;
        KidAddressed(Encode(a[0].key), a[0].item, b[0].item, cs);
        MembersAddressed(a[1..], b[1..], cs, h);
      } else if difference < 0 {
        MembersAddressed(a[1..], b, cs, h);
      } else {
        assert b[0] in b;
        NameAddressed(Step(ADD, Slash(Encode(b[0].key)), Duplicate(b[0].item, 0)), b[0].key);
        MembersAddressed(a, b[1..], cs, h);
      }
    }
  }

  /** Decodable names make all steps addressed. */
  lemma {:induction false} DecodableAddressed(from: Json, to: Json, cs: bool)
    requires DecodableNames(from) && DecodableNames(to)
    ensures AllAddressed(Steps(from, to, cs))
    decreases Height(from), 2, 0
  {
    if !Replaces(from, to) {
      hide Addressed, Sort, ItemSteps, MemberSteps;
      match from
      case Array(items) => ItemsAddressed(0, items, to.items, cs, Height(from));
      case Object(ms) =>
        SortMembers(ms, cs);
        SortMembers(to.members, cs);
        MembersAddressed(Sort(ms, cs), Sort(to.members, cs), cs, Height(from));
      case _ =>
    }
  }

  // --- Generating, then applying -------------------------------------------------------------------------

  /** Old documents the names of which differ by more than case are fit for any new one. */
  lemma {:induction false} DistinctFits(from: Json, to: Json, cs: bool)
    requires DistinctTree(from, false)
    ensures Fit(from, to, cs)
    decreases from
  {
    hide Reachable, Sort, Distinct;
    match from
    case Array(items) =>
      if to.Array? {
        forall i | 0 <= i < |items| && i < |to.items| ensures Fit(items[i], to.items[i], cs) {
          assert items[i] in items;
          DistinctFits(items[i], to.items[i], cs);
        }
      }
    case Object(ms) =>
      if to.Object? {
        if cs {
          FoldKeys(ms);
        }
        AllReachable(ms, Sort(ms, cs), Sort(to.members, cs), cs);
        forall x, y | x in ms && y in to.members ensures Fit(x.item, y.item, cs) {
          DistinctFits(x.item, y.item, cs);
        }
      }
    case _ =>
  }

  lemma AllReachable(ms: seq<Entry<Json>>, a: seq<Entry<Json>>, b: seq<Entry<Json>>, cs: bool)
    requires Distinct(ms, false)
    ensures Reachable(ms, a, b, cs)
  {
    hide Distinct, Detaching, Strcmp, Fold;
    forall f, k | Precedes(ms, f, k) ensures Fold(f) != Fold(k) {
      var p, q :| 0 <= p < q < |ms| && ms[p].key == f && ms[q].key == k;
      DistinctIndices(ms, p, q, false);
    }
  }

  /** All operations have succeeded, and have led to the document up to the order of members. */
  ghost predicate Achieves(r: Live.Result, to: Json, cs: bool)
  {
    r.Done? && r.status == 0 && Meaning(Live.Plain(r.doc), cs) == Meaning(to, cs)
  }

  lemma LiftedAchieves(o: Outcome, to: Json, cs: bool)
    ensures Achieves(LiveEdits.Lifted(o), to, cs) <==> Became(o, Meaning(to, cs), cs)
  {
    Live.PlainFresh(o.doc);
  }

  lemma PatchesDo(from: Json, to: Json, cs: bool)
    ensures Live.ApplyAll(Live.Fresh(from), Patches(Steps(from, to, cs)), cs) == LiveEdits.Lifted(Run(from, Steps(from, to, cs), cs))
  {
    StepsEdit(from, to, cs);
    PatchesRun(from, Steps(from, to, cs), cs);
  }

  /**
   Applying the generated operations in order to a copy of the old document
   succeeds at every one of them and gives the new document up to the order of
   members, provided that members to be detached can be reached (operations detach
   without regard to case), as they can when the old names differ by more than case;
   that the new names differ for the lookups of the call; that the new document is
   not too deep to copy; and that every operation ends in a token that decoding in
   place restores, as it does when all names decode.
   */
  lemma DiffThenApply(from: Json, to: Json, cs: bool)
    requires Fit(from, to, cs)
    requires DistinctTree(to, cs) && Height(to) <= 10000
    requires AllAddressed(Steps(from, to, cs)) || (DecodableNames(from) && DecodableNames(to))
    ensures Achieves(Live.ApplyAll(Live.Fresh(from), Patches(Steps(from, to, cs)), cs), to, cs)
  {
    if DecodableNames(from) && DecodableNames(to) {
      DecodableAddressed(from, to, cs);
    }
    hide Steps, AllAddressed, DistinctTree, Height, Meaning, Live.ApplyAll, Live.Fresh, Live.Plain, Run, DecodableNames;
    StepsLead(from, to, cs);
    PatchesDo(from, to, cs);
    LiftedAchieves(Run(from, Steps(from, to, cs), cs), to, cs);
  }
}
