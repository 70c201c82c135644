/**
 When generating and then applying a JSON Patch works: exactly when every operation
 ends in a token that decoding in place restores. `Diff` proves one direction;
 this is the other: if some name is not restored, then some member that had to
 change is never touched.
 */
module DiffExact {
  import opened Bytes
  import opened Sequences
  import opened Json
  import opened MergeSort
  import opened Pointer
  import InPlace
  import opened Patch
  import opened Diff
  import opened Names
  import Live

  // --- The names operations are about --------------------------------------------------

  /** The members that are added. */
  function Adding(a: seq<Entry<Json>>, b: seq<Entry<Json>>, cs: bool): seq<CString>
    decreases |a| + |b|
  {
    if a == [] && b == [] then []
    else if HeadsDiffer(a, b, cs) == 0 then Adding(a[1..], b[1..], cs)
    else if HeadsDiffer(a, b, cs) < 0 then Adding(a[1..], b, cs)
    else [b[0].key] + Adding(a, b[1..], cs)
  }

  /** The members that are changed inside. */
  function Entering(a: seq<Entry<Json>>, b: seq<Entry<Json>>, cs: bool): seq<CString>
    decreases |a| + |b|
  {
    if a == [] && b == [] then []
    else if HeadsDiffer(a, b, cs) == 0 then
      (if Replaces(a[0].item, b[0].item) then [] else [a[0].key]) + Entering(a[1..], b[1..], cs)
    else if HeadsDiffer(a, b, cs) < 0 then Entering(a[1..], b, cs)
    else Entering(a, b[1..], cs)
  }

  // --- What a step leaves alone ------------------------------------------------------------

  /** The member of that name is as it was. */
  ghost predicate SameAtKey(ms: seq<Entry<Json>>, ns: seq<Entry<Json>>, k: CString, cs: bool)
  {
    var m, n := MapOf(ms, cs), MapOf(ns, cs);
    (k in m <==> k in n) && (k in m ==> m[k] == n[k])
  }

  /** An outcome that fails, or leaves the members distinct and one of them as it was. */
  ghost predicate Spares(ms: seq<Entry<Json>>, o: Outcome, k: CString, cs: bool)
  {
    o.status == 0 ==> o.doc.Object? && Distinct(o.doc.members, cs) && SameAtKey(ms, o.doc.members, k, cs)
  }

  lemma SparesThen(ms: seq<Entry<Json>>, ns: seq<Entry<Json>>, o: Outcome, k: CString, cs: bool)
    requires SameAtKey(ms, ns, k, cs) && Spares(ns, o, k, cs)
    ensures Spares(ms, o, k, cs)
  {
    hide MapOf;
  }

  lemma RemoveSpares(ms: seq<Entry<Json>>, i: nat, k: CString, cs: bool)
    requires i < |ms| && Distinct(ms, cs) && KeyOf(cs, ms[i].key) != k
    ensures Distinct(RemoveAt(ms, i), cs) && SameAtKey(ms, RemoveAt(ms, i), k, cs)
  {
    KeysRemove(ms, i, cs);
    MapOfRemove(ms, i, cs);
    hide MapOf, KeyOf, Distinct, Keys;
  }

  lemma AppendSpares(ms: seq<Entry<Json>>, e: Entry<Json>, k: CString, cs: bool)
    requires Distinct(ms, cs) && KeyOf(cs, e.key) !in Keys(ms, cs) && KeyOf(cs, e.key) != k
    ensures Distinct(ms + [e], cs) && SameAtKey(ms, ms + [e], k, cs)
  {
    KeysAppend(ms, e, cs);
    MapOfAppend(ms, e, cs);
    hide MapOf, KeyOf, Distinct, Keys, Meaning;
  }

  /** Adding under a name, whatever it decodes to. */
  lemma PutSpares(ms: seq<Entry<Json>>, name: CString, v: Json, k: CString, cs: bool)
    requires Distinct(ms, cs) && KeyOf(cs, name) != k
    ensures Spares(ms, AddChild(Object(ms), name, v, cs), k, cs)
  {
    var i := IndexOf(ms, name, cs);
    hide MapOf, KeyOf, Distinct, Keys;
    var rest := if i < |ms| then RemoveAt(ms, i) else ms;
    SameItself(ms, k, cs);
    if i < |ms| {
      RemoveSpares(ms, i, k, cs);
      KeysRemove(ms, i, cs);
    } else {
      NotAmong(ms, name, cs);
    }
    AppendSpares(rest, Entry(name, v), k, cs);
    hide SameAtKey, IndexOf;
  }

  lemma SameItself(ms: seq<Entry<Json>>, k: CString, cs: bool)
    ensures SameAtKey(ms, ms, k, cs)
  {
  }

  lemma NotAmong(ms: seq<Entry<Json>>, name: CString, cs: bool)
    requires IndexOf(ms, name, cs) == |ms|
    ensures KeyOf(cs, name) !in Keys(ms, cs)
  {
    if KeyOf(cs, name) in Keys(ms, cs) {
      var i := KeysWitness(ms, KeyOf(cs, name), cs);
    }
  }

  lemma AddSpares(ms: seq<Entry<Json>>, name: CString, value: Option<Json>, r: CString, cs: bool)
    requires Distinct(ms, cs) && KeyOf(cs, Back(name)) != KeyOf(cs, r)
    ensures Spares(ms, AddCopy(Object(ms), Slash(Encode(name)), value, cs), KeyOf(cs, r), cs)
  {
    NameToken(name);
    hide Encode, InPlace.DecodeInPlace, Slash, AddAt, Duplicate, Spares, KeyOf, Distinct;
    var copy := if value.Some? then Duplicate(value.value, 0) else None;
    if copy.Some? {
      AddDirectly(Object(ms), Encode(name), copy.value, cs);
      PutSpares(ms, Back(name), copy.value, KeyOf(cs, r), cs);
    } else {
      FailureSpares(ms, AddCopy(Object(ms), Slash(Encode(name)), value, cs), KeyOf(cs, r), cs);
    }
  }

  lemma FailureSpares(ms: seq<Entry<Json>>, o: Outcome, k: CString, cs: bool)
    requires o.status != 0
    ensures Spares(ms, o, k, cs)
  {
  }

  /** Where detaching under a name takes place, if at all. */
  lemma DetachSpares(ms: seq<Entry<Json>>, name: CString, r: CString, cs: bool)
    requires Distinct(ms, cs) && !Hits(name, r)
    ensures var d := DetachPath(Object(ms), Slash(Encode(name)), cs);
      d.Some? ==> d.value.doc.Object? && Distinct(d.value.doc.members, cs)
                  && SameAtKey(ms, d.value.doc.members, KeyOf(cs, r), cs)
  {
    NameToken(name);
    hide Encode, InPlace.DecodeInPlace, Slash, DetachPath, SameAtKey, Distinct;
    DetachDirectly(Object(ms), Encode(name), cs);
    var i := IndexOf(ms, Back(name), false);
    if i < |ms| {
      RemoveSpares(ms, i, KeyOf(cs, r), cs);
    }
  }

  /** A step about a member as a whole spares every member it does not hit. */
  lemma DirectSpares(ms: seq<Entry<Json>>, s: Step, name: CString, r: CString, cs: bool)
    requires Distinct(ms, cs) && IsEdit(s) && s.path == Slash(Encode(name))
    requires if s.operation == ADD then KeyOf(cs, Back(name)) != KeyOf(cs, r) else !Hits(name, r)
    ensures Spares(ms, RunStep(Object(ms), s, cs), KeyOf(cs, r), cs)
  {
    NameToken(name);
    hide Encode, InPlace.DecodeInPlace, Slash, DetachPath, AddCopy, SameAtKey, Distinct, KeyOf;
    if s.operation == ADD {
      AddSpares(ms, name, s.value, r, cs);
    } else {
      DetachSpares(ms, name, r, cs);
      var d := DetachPath(Object(ms), Slash(Encode(name)), cs);
      if d.Some? && s.operation == REPLACE {
        FoldDiffersBack(name, r, cs);
        AddSpares(d.value.doc.members, name, s.value, r, cs);
        SparesThen(ms, d.value.doc.members, AddCopy(d.value.doc, Slash(Encode(name)), s.value, cs), KeyOf(cs, r), cs);
      }
    }
  }

  lemma FoldDiffersBack(name: CString, r: CString, cs: bool)
    requires !Hits(name, r)
    ensures KeyOf(cs, Back(name)) != KeyOf(cs, r)
  {
    hide Back;
  }

  // --- Steps below a member -------------------------------------------------------------------

  lemma ParentNowhere(j: Json, token: CString, q: CString, cs: bool)
    requires '/' !in token && Child(j, token, cs) == None && IsTail(q) && q != []
    ensures DetachPath(j, Patch.Below(token, q), cs) == None
    ensures forall v :: AddAt(j, Patch.Below(token, q), v, cs).status == 9
  {
    hide Locate, Child;
    var i := TailSlash(token, q);
    LocateNowhere(j, token, q[..i], cs);
    hide Patch.Below, LastSlash;
  }

  lemma TailSlash(token: CString, q: CString) returns (i: nat)
    requires '/' !in token && IsTail(q) && q != []
    ensures i < |q| && IsTail(q[..i])
    ensures LastSlash(Patch.Below(token, q)) == Some(|token| + 1 + i)
    ensures Patch.Below(token, q)[..|token| + 1 + i] == Patch.Below(token, q[..i])
  {
    BelowSlash(token, q);
    i := LastSlash(q).value;
  }

  /** A step below a member that is not there fails. */
  lemma StepNowhere(j: Json, token: CString, s: Step, cs: bool)
    requires '/' !in token && Child(j, token, cs) == None && Inner(s)
    ensures RunStep(j, s.(path := Slash(token) + s.path), cs).status != 0
  {
    SlashBelow(token, s.path);
    BelowLength(token, s.path);
    hide Patch.Below, Child, Slash, DetachPath, AddAt, Duplicate, Height, Locate;
    ParentNowhere(j, token, s.path, cs);
  }

  lemma LocateNowhere(j: Json, token: CString, q: CString, cs: bool)
    requires '/' !in token && IsTail(q) && Child(j, token, cs) == None
    ensures Locate(j, Patch.Below(token, q), cs) == None
  {
    assert token + [] == token;
    ChildByToken(j, token, [], q, cs);
    TokenThenTail(token, q);
    LocateStep(j, token + q, cs);
    assert Patch.Below(token, q) == "/" + (token + q);
  }

  lemma UpdateSpares(ms: seq<Entry<Json>>, i: nat, x: Json, k: CString, cs: bool)
    requires i < |ms| && Distinct(ms, cs) && KeyOf(cs, ms[i].key) != k
    ensures Distinct(ms[i := Entry(ms[i].key, x)], cs) && SameAtKey(ms, ms[i := Entry(ms[i].key, x)], k, cs)
  {
    KeysUpdate(ms, i, x, cs);
    MapOfUpdate(ms, i, x, cs);
    hide Distinct, MapOf, KeyOf, Meaning;
  }

  lemma TokenChild(ms: seq<Entry<Json>>, name: CString, cs: bool)
    ensures Child(Object(ms), Encode(name), cs)
         == if IndexOf(ms, name, cs) < |ms| then Some(IndexOf(ms, name, cs)) else None
  {
    MatchIndexEncoded(ms, name, [], cs);
    assert Encode(name) + [] == Encode(name);
    hide Encode, MatchIndex, IndexOf;
  }

  /** Steps below a member change that member only. */
  lemma BlockSpares(ms: seq<Entry<Json>>, name: CString, steps: seq<Step>, r: CString, cs: bool)
    requires Distinct(ms, cs) && AllInner(steps) && KeyOf(cs, name) != KeyOf(cs, r)
    ensures Spares(ms, Run(Object(ms), Prefixed(Slash(Encode(name)), steps), cs), KeyOf(cs, r), cs)
  {
    hide Encode, Slash, Distinct, SameAtKey, KeyOf, RunStep, Child, Inner;
    NameToken(name);
    TokenChild(ms, name, cs);
    var i := IndexOf(ms, name, cs);
    SameItself(ms, KeyOf(cs, r), cs);
    if i < |ms| {
      RunBelow(Object(ms), Encode(name), i, steps, cs);
      hide Run, Prefixed;
      UpdateSpares(ms, i, Run(ms[i].item, steps, cs).doc, KeyOf(cs, r), cs);
    } else if steps != [] {
      assert steps[0] in steps;
      StepNowhere(Object(ms), Encode(name), steps[0], cs);
    }
  }

  // --- What all steps leave alone --------------------------------------------------------------

  lemma PrefixedOne(token: CString, value: Option<Json>)
    requires '/' !in token
    ensures Prefixed(Slash(token), [Step(REPLACE, [], value)]) == [Step(REPLACE, Slash(token), value)]
  {
    SlashToken(token);
  }

  /** No operation of the list touches the member `r`. */
  ghost predicate Passes(a: seq<Entry<Json>>, b: seq<Entry<Json>>, r: CString, cs: bool)
  {
    && (forall k | k in Detaching(a, b, cs) :: !Hits(k, r))
    && (forall k | k in Adding(a, b, cs) :: KeyOf(cs, Back(k)) != KeyOf(cs, r))
    && (forall k | k in Entering(a, b, cs) :: KeyOf(cs, k) != KeyOf(cs, r))
  }

  lemma PassesPaired(a: seq<Entry<Json>>, b: seq<Entry<Json>>, r: CString, cs: bool)
    requires (a != [] || b != []) && HeadsDiffer(a, b, cs) == 0 && Passes(a, b, r, cs)
    ensures a != [] && b != [] && Passes(a[1..], b[1..], r, cs)
    ensures if Replaces(a[0].item, b[0].item) then !Hits(a[0].key, r) else KeyOf(cs, a[0].key) != KeyOf(cs, r)
  {
    hide Hits, KeyOf, Back, Replaces, Strcmp;
    assert a != [] && b != [];
    var x := a[0].key;
    assert Replaces(a[0].item, b[0].item) ==> Detaching(a, b, cs) == [x] + Detaching(a[1..], b[1..], cs);
    assert !Replaces(a[0].item, b[0].item) ==> Detaching(a, b, cs) == Detaching(a[1..], b[1..], cs);
    assert Replaces(a[0].item, b[0].item) ==> Entering(a, b, cs) == Entering(a[1..], b[1..], cs);
    assert !Replaces(a[0].item, b[0].item) ==> Entering(a, b, cs) == [x] + Entering(a[1..], b[1..], cs);
    assert Adding(a, b, cs) == Adding(a[1..], b[1..], cs);
  }

  lemma PassesRemoved(a: seq<Entry<Json>>, b: seq<Entry<Json>>, r: CString, cs: bool)
    requires (a != [] || b != []) && HeadsDiffer(a, b, cs) < 0 && Passes(a, b, r, cs)
    ensures a != [] && Passes(a[1..], b, r, cs) && !Hits(a[0].key, r)
  {
    hide Hits, KeyOf, Back, Replaces, Strcmp;
    assert Detaching(a, b, cs) == [a[0].key] + Detaching(a[1..], b, cs);
  }

  lemma PassesAdded(a: seq<Entry<Json>>, b: seq<Entry<Json>>, r: CString, cs: bool)
    requires (a != [] || b != []) && HeadsDiffer(a, b, cs) > 0 && Passes(a, b, r, cs)
    ensures b != [] && Passes(a, b[1..], r, cs) && KeyOf(cs, Back(b[0].key)) != KeyOf(cs, r)
  {
    hide Hits, KeyOf, Back, Replaces, Strcmp;
    assert Adding(a, b, cs) == [b[0].key] + Adding(a, b[1..], cs);
  }

  lemma {:induction false} MembersSpare(ms: seq<Entry<Json>>, a: seq<Entry<Json>>, b: seq<Entry<Json>>, cs: bool, h: nat,
                                        r: CString)
    requires forall e :: e in a ==> Height(e.item) < h
    requires Distinct(ms, cs) && Passes(a, b, r, cs)
    ensures Spares(ms, Run(Object(ms), MemberSteps(a, b, cs, h), cs), KeyOf(cs, r), cs)
    decreases |a| + |b|, 0
  {
    hide Passes, Hits, Back, KeyOf, Strcmp, Height, Distinct, SameAtKey, Encode, Steps, Replaces;
    if a == [] && b == [] {
      SameItself(ms, KeyOf(cs, r), cs);
    } else if HeadsDiffer(a, b, cs) == 0 {
      PassesPaired(a, b, r, cs);
      PairedSteps(a, b, cs, h);
      PairSpares(ms, a[0], b[0].item, r, cs);
      SparesRest(ms, Prefixed(Slash(Encode(a[0].key)), Steps(a[0].item, b[0].item, cs)), a[1..], b[1..], cs, h, r);
    } else if HeadsDiffer(a, b, cs) < 0 {
      PassesRemoved(a, b, r, cs);
      var s := Step(REMOVE, Slash(Encode(a[0].key)), None);
      DirectSpares(ms, s, a[0].key, r, cs);
      SparesRest(ms, [s], a[1..], b, cs, h, r);
    } else {
      PassesAdded(a, b, r, cs);
      var s := Step(ADD, Slash(Encode(b[0].key)), Duplicate(b[0].item, 0));
      DirectSpares(ms, s, b[0].key, r, cs);
      SparesRest(ms, [s], a, b[1..], cs, h, r);
    }
  }

  /** A beginning that spares a member, then the rest of the steps. */
  lemma {:induction false} SparesRest(ms: seq<Entry<Json>>, first: seq<Step>, a: seq<Entry<Json>>, b: seq<Entry<Json>>,
                                      cs: bool, h: nat, r: CString)
    requires forall e :: e in a ==> Height(e.item) < h
    requires Passes(a, b, r, cs) && Spares(ms, Run(Object(ms), first, cs), KeyOf(cs, r), cs)
    ensures Spares(ms, Run(Object(ms), first + MemberSteps(a, b, cs, h), cs), KeyOf(cs, r), cs)
    decreases |a| + |b|, 1
  {
    hide Passes, Distinct, SameAtKey, KeyOf, MemberSteps;
    var rest, o := MemberSteps(a, b, cs, h), Run(Object(ms), first, cs);
    RunAppend(Object(ms), first, rest, cs);
    if o.status == 0 {
      MembersSpare(o.doc.members, a, b, cs, h, r);
      SparesThen(ms, o.doc.members, Run(o.doc, rest, cs), KeyOf(cs, r), cs);
    }
  }

  /** The steps about a pair of members. */
  lemma PairSpares(ms: seq<Entry<Json>>, x: Entry<Json>, to: Json, r: CString, cs: bool)
    requires Distinct(ms, cs)
    requires if Replaces(x.item, to) then !Hits(x.key, r) else KeyOf(cs, x.key) != KeyOf(cs, r)
    ensures Spares(ms, Run(Object(ms), Prefixed(Slash(Encode(x.key)), Steps(x.item, to, cs)), cs), KeyOf(cs, r), cs)
  {
    hide Hits, KeyOf, Distinct, SameAtKey, Encode, Duplicate, Spares;
    if Replaces(x.item, to) {
      var s := Step(REPLACE, Slash(Encode(x.key)), Duplicate(to, 0));
      NameToken(x.key);
      PrefixedOne(Encode(x.key), Duplicate(to, 0));
      DirectSpares(ms, s, x.key, r, cs);
    } else {
      StepsEdit(x.item, to, cs);
      hide Steps;
      BlockSpares(ms, x.key, Steps(x.item, to, cs), r, cs);
    }
  }

  // --- A name that is not restored -------------------------------------------------------------

  lemma {:induction false} NamesAmong(a: seq<Entry<Json>>, b: seq<Entry<Json>>, cs: bool, k: CString)
    ensures k in Detaching(a, b, cs) ==> KeyOf(cs, k) in Keys(a, cs)
    ensures k in Adding(a, b, cs) ==> KeyOf(cs, k) in Keys(b, cs)
    ensures k in Entering(a, b, cs) ==> KeyOf(cs, k) in Keys(a, cs) && KeyOf(cs, k) in Keys(b, cs)
    decreases |a| + |b|
  {
    hide KeyOf, Strcmp, Replaces;
    if a != [] || b != [] {
      if HeadsDiffer(a, b, cs) == 0 {
        HeadsEqual(a, b, cs);
        NamesAmong(a[1..], b[1..], cs, k);
      } else if HeadsDiffer(a, b, cs) < 0 {
        NamesAmong(a[1..], b, cs, k);
      } else {
        NamesAmong(a, b[1..], cs, k);
      }
    }
  }

  lemma HeadsEqual(a: seq<Entry<Json>>, b: seq<Entry<Json>>, cs: bool)
    requires (a != [] || b != []) && HeadsDiffer(a, b, cs) == 0
    ensures a != [] && b != [] && KeyOf(cs, a[0].key) == KeyOf(cs, b[0].key)
  {
    hide KeyOf, Strcmp;
    assert a != [] && b != [];
    StrcmpZero(KeyOf(cs, a[0].key), KeyOf(cs, b[0].key));
  }

  /** The head that comes first is not in the other list. */
  lemma HeadOnlyHere(a: seq<Entry<Json>>, b: seq<Entry<Json>>, cs: bool)
    requires Ascending(a, cs) && Ascending(b, cs) && (a != [] || b != [])
    ensures HeadsDiffer(a, b, cs) < 0 ==> a != [] && KeyOf(cs, a[0].key) !in Keys(b, cs)
    ensures HeadsDiffer(a, b, cs) > 0 ==> b != [] && KeyOf(cs, b[0].key) !in Keys(a, cs)
  {
    hide KeyOf, Strcmp, Keys, Ascending;
    if HeadsDiffer(a, b, cs) < 0 {
      BelowHead(b, KeyOf(cs, a[0].key), cs);
    } else if HeadsDiffer(a, b, cs) > 0 {
      if a != [] {
        StrcmpAntisymmetric(KeyOf(cs, a[0].key), KeyOf(cs, b[0].key));
      }
      BelowHead(a, KeyOf(cs, b[0].key), cs);
    }
  }

  predicate Direct(a: seq<Entry<Json>>, b: seq<Entry<Json>>, k: CString, cs: bool)
  {
    k in Detaching(a, b, cs) || k in Adding(a, b, cs)
  }

  /** Members that are changed inside are others than those changed as a whole. */
  lemma {:induction false} EnteringApart(a: seq<Entry<Json>>, b: seq<Entry<Json>>, cs: bool, e: CString, r: CString)
    requires Ascending(a, cs) && Ascending(b, cs) && e in Entering(a, b, cs) && Direct(a, b, r, cs)
    ensures KeyOf(cs, e) != KeyOf(cs, r)
    decreases |a| + |b|
  {
    hide KeyOf, Strcmp, Replaces, Ascending, Keys;
    HeadOnlyHere(a, b, cs);
    if a != [] { HeadOf(a, cs); }
    if b != [] { HeadOf(b, cs); }
    if HeadsDiffer(a, b, cs) == 0 {
      HeadsEqual(a, b, cs);
      NamesAmong(a[1..], b[1..], cs, e);
      NamesAmong(a[1..], b[1..], cs, r);
      if e in Entering(a[1..], b[1..], cs) && Direct(a[1..], b[1..], r, cs) {
        EnteringApart(a[1..], b[1..], cs, e, r);
      }
    } else if HeadsDiffer(a, b, cs) < 0 {
      NamesAmong(a[1..], b, cs, e);
      if Direct(a[1..], b, r, cs) {
        EnteringApart(a[1..], b, cs, e, r);
      }
    } else {
      NamesAmong(a, b[1..], cs, e);
      if Direct(a, b[1..], r, cs) {
        EnteringApart(a, b[1..], cs, e, r);
      }
    }
  }

  /** The member of that name is not the same in both lists. */
  ghost predicate Changes(a: seq<Entry<Json>>, b: seq<Entry<Json>>, k: CString, cs: bool)
  {
    !SameAtKey(a, b, k, cs)
  }

  lemma HeadSame(a: seq<Entry<Json>>, k: CString, cs: bool)
    requires a != [] && Ascending(a, cs)
    ensures KeyOf(cs, a[0].key) in MapOf(a, cs) && MapOf(a, cs)[KeyOf(cs, a[0].key)] == Meaning(a[0].item, cs)
    ensures k != KeyOf(cs, a[0].key) ==> SameAtKey(a, a[1..], k, cs)
  {
    hide MapOf, KeyOf, Meaning, Ascending;
    MapOfHead(a, cs);
  }

  lemma ReplacesMeans(x: Json, y: Json, cs: bool)
    requires Replaces(x, y)
    ensures Meaning(x, cs) != Meaning(y, cs)
  {
  }

  lemma ChangesCompose(a: seq<Entry<Json>>, a': seq<Entry<Json>>, b: seq<Entry<Json>>, b': seq<Entry<Json>>, k: CString, cs: bool)
    requires SameAtKey(a, a', k, cs) && SameAtKey(b, b', k, cs) && Changes(a', b', k, cs)
    ensures Changes(a, b, k, cs)
  {
    hide MapOf;
  }

  /** A member that an operation is directly about is not the same before and after. */
  lemma {:induction false} DirectChanges(a: seq<Entry<Json>>, b: seq<Entry<Json>>, cs: bool, r: CString)
    requires Ascending(a, cs) && Ascending(b, cs) && Direct(a, b, r, cs)
    ensures Changes(a, b, KeyOf(cs, r), cs)
    decreases |a| + |b|
  {
    hide KeyOf, Strcmp, Replaces, Ascending, Keys, Meaning, MapOf, Changes;
    var k := KeyOf(cs, r);
    HeadOnlyHere(a, b, cs);
    SameItself(a, k, cs);
    SameItself(b, k, cs);
    if a != [] { HeadOf(a, cs); HeadSame(a, k, cs); }
    if b != [] { HeadOf(b, cs); HeadSame(b, k, cs); }
    hide SameAtKey;
    if HeadsDiffer(a, b, cs) == 0 {
      HeadsEqual(a, b, cs);
      NamesAmong(a[1..], b[1..], cs, r);
      if Direct(a[1..], b[1..], r, cs) {
        DirectChanges(a[1..], b[1..], cs, r);
        ChangesCompose(a, a[1..], b, b[1..], k, cs);
      } else {
        ReplacesMeans(a[0].item, b[0].item, cs);
        ValuesDiffer(a, b, k, cs);
      }
    } else if HeadsDiffer(a, b, cs) < 0 {
      NamesAmong(a[1..], b, cs, r);
      if Direct(a[1..], b, r, cs) {
        DirectChanges(a[1..], b, cs, r);
        ChangesCompose(a, a[1..], b, b, k, cs);
      } else {
        OnlyOne(a, b, k, cs);
      }
    } else {
      NamesAmong(a, b[1..], cs, r);
      if Direct(a, b[1..], r, cs) {
        DirectChanges(a, b[1..], cs, r);
        ChangesCompose(a, a, b, b[1..], k, cs);
      } else {
        OnlyOne(b, a, k, cs);
        ChangesSymmetric(b, a, k, cs);
      }
    }
  }

  lemma ValuesDiffer(a: seq<Entry<Json>>, b: seq<Entry<Json>>, k: CString, cs: bool)
    requires k in MapOf(a, cs) && k in MapOf(b, cs) && MapOf(a, cs)[k] != MapOf(b, cs)[k]
    ensures Changes(a, b, k, cs)
  {
    hide MapOf;
  }

  lemma OnlyOne(a: seq<Entry<Json>>, b: seq<Entry<Json>>, k: CString, cs: bool)
    requires k in MapOf(a, cs) && k !in Keys(b, cs)
    ensures Changes(a, b, k, cs)
  {
    MapOfKeys(b, cs);
    hide MapOf;
  }

  lemma ChangesSymmetric(a: seq<Entry<Json>>, b: seq<Entry<Json>>, k: CString, cs: bool)
    requires Changes(a, b, k, cs)
    ensures Changes(b, a, k, cs)
  {
    hide MapOf;
  }

  /** If a name that an operation is directly about is not restored, the steps miss their goal. */
  lemma MissedMembers(ms: seq<Entry<Json>>, ns: seq<Entry<Json>>, a: seq<Entry<Json>>, b: seq<Entry<Json>>, cs: bool,
                      h: nat, k: CString)
    requires forall e :: e in a ==> Height(e.item) < h
    requires Distinct(ms, cs) && Ascending(a, cs) && Ascending(b, cs)
    requires MapOf(a, cs) == MapOf(ms, cs) && MapOf(b, cs) == MapOf(ns, cs)
    requires Direct(a, b, k, cs) && Back(k) != k
    ensures !Became(Run(Object(ms), MemberSteps(a, b, cs, h), cs), Meaning(Object(ns), cs), cs)
  {
    hide KeyOf, MemberSteps, MapOf, Back, Hits, Height, Distinct, Ascending, Detaching, Adding, Run, Became, Passes;
    var names := Detaching(a, b, cs) + Adding(a, b, cs);
    var r := MissedName(names, k);
    AllPass(a, b, cs, r);
    MembersSpare(ms, a, b, cs, h, r);
    DirectChanges(a, b, cs, r);
    GoalNeedsChange(ms, ns, a, b, Run(Object(ms), MemberSteps(a, b, cs, h), cs), KeyOf(cs, r), cs);
  }

  lemma SortedMeans(ms: seq<Entry<Json>>, cs: bool)
    requires Distinct(ms, cs)
    ensures MapOf(Sort(ms, cs), cs) == MapOf(ms, cs)
  {
    SortedMembers(ms, cs);
    MapOfPermutation(ms, Sort(ms, cs), cs);
  }

  lemma AllPass(a: seq<Entry<Json>>, b: seq<Entry<Json>>, cs: bool, r: CString)
    requires Ascending(a, cs) && Ascending(b, cs) && Direct(a, b, r, cs)
    requires forall l | l in Detaching(a, b, cs) + Adding(a, b, cs) :: !Hits(l, r)
    ensures Passes(a, b, r, cs)
  {
    hide KeyOf, Back, Hits, Ascending;
    forall l | l in Detaching(a, b, cs) ensures !Hits(l, r) {
      assert l in Detaching(a, b, cs) + Adding(a, b, cs);
    }
    forall l | l in Adding(a, b, cs) ensures KeyOf(cs, Back(l)) != KeyOf(cs, r) {
      assert l in Detaching(a, b, cs) + Adding(a, b, cs);
      FoldDiffersBack(l, r, cs);
    }
    forall e | e in Entering(a, b, cs) ensures KeyOf(cs, e) != KeyOf(cs, r) {
      EnteringApart(a, b, cs, e, r);
    }
  }

  lemma GoalNeedsChange(ms: seq<Entry<Json>>, ns: seq<Entry<Json>>, a: seq<Entry<Json>>, b: seq<Entry<Json>>, o: Outcome,
                        k: CString, cs: bool)
    requires MapOf(a, cs) == MapOf(ms, cs) && MapOf(b, cs) == MapOf(ns, cs)
    requires Changes(a, b, k, cs) && Spares(ms, o, k, cs)
    ensures !Became(o, Meaning(Object(ns), cs), cs)
  {
  }

  // --- Operations at other levels ---------------------------------------------------------------

  /** All names that operations of these lists are directly about are restored. */
  ghost predicate DirectRestored(a: seq<Entry<Json>>, b: seq<Entry<Json>>, cs: bool)
  {
    forall k | Direct(a, b, k, cs) :: Back(k) == k
  }

  lemma RestoredPaired(a: seq<Entry<Json>>, b: seq<Entry<Json>>, cs: bool)
    requires (a != [] || b != []) && HeadsDiffer(a, b, cs) == 0 && DirectRestored(a, b, cs)
    ensures a != [] && b != [] && DirectRestored(a[1..], b[1..], cs)
    ensures Replaces(a[0].item, b[0].item) ==> Back(a[0].key) == a[0].key
  {
    hide KeyOf, Back, Replaces, Strcmp;
    assert a != [] && b != [];
    assert Replaces(a[0].item, b[0].item) ==> Direct(a, b, a[0].key, cs);
    forall k | Direct(a[1..], b[1..], k, cs) ensures Back(k) == k {
      assert Direct(a, b, k, cs);
    }
  }

  lemma RestoredRemoved(a: seq<Entry<Json>>, b: seq<Entry<Json>>, cs: bool)
    requires (a != [] || b != []) && HeadsDiffer(a, b, cs) < 0 && DirectRestored(a, b, cs)
    ensures a != [] && DirectRestored(a[1..], b, cs) && Back(a[0].key) == a[0].key
  {
    hide KeyOf, Back, Replaces, Strcmp;
    assert Direct(a, b, a[0].key, cs);
    forall k | Direct(a[1..], b, k, cs) ensures Back(k) == k {
      assert Direct(a, b, k, cs);
    }
  }

  lemma RestoredAdded(a: seq<Entry<Json>>, b: seq<Entry<Json>>, cs: bool)
    requires (a != [] || b != []) && HeadsDiffer(a, b, cs) > 0 && DirectRestored(a, b, cs)
    ensures b != [] && DirectRestored(a, b[1..], cs) && Back(b[0].key) == b[0].key
  {
    hide KeyOf, Back, Replaces, Strcmp;
    assert Direct(a, b, b[0].key, cs);
    forall k | Direct(a, b[1..], k, cs) ensures Back(k) == k {
      assert Direct(a, b, k, cs);
    }
  }

  lemma RestoredAddressed(s: Step, name: CString)
    requires Back(name) == name && s.path == Slash(Encode(name))
    ensures Addressed(s)
  {
    EncodeNoSlash(name);
    SlashToken(Encode(name));
  }

  /** The outcome has the members that are still to come as they should be. */
  ghost predicate Arrived(o: Outcome, b: seq<Entry<Json>>, cs: bool)
  {
    && o.status == 0 && o.doc.Object?
    && forall k :: k in MapOf(b, cs) ==> k in MapOf(o.doc.members, cs) && MapOf(o.doc.members, cs)[k] == MapOf(b, cs)[k]
  }

  lemma ArrivedRest(o: Outcome, b: seq<Entry<Json>>, cs: bool)
    requires b != [] && Ascending(b, cs) && Arrived(o, b, cs)
    ensures Arrived(o, b[1..], cs)
    ensures KeyOf(cs, b[0].key) in MapOf(o.doc.members, cs)
    ensures MapOf(o.doc.members, cs)[KeyOf(cs, b[0].key)] == Meaning(b[0].item, cs)
  {
    hide MapOf, KeyOf, Meaning, Keys, Ascending;
    HeadOf(b, cs);
    MapOfHead(b, cs);
    MapOfKeys(b[1..], cs);
  }

  /**
   When all direct names are restored, operations on other members leave a member
   alone, if they all succeed.
   */
  lemma {:induction false} RestSpares(ms: seq<Entry<Json>>, a: seq<Entry<Json>>, b: seq<Entry<Json>>, cs: bool, h: nat, k: CString)
    requires forall e :: e in a ==> Height(e.item) < h
    requires Ahead(ms, a, b, cs) && DirectRestored(a, b, cs)
    requires k !in Keys(a, cs) && k !in Keys(b, cs)
    requires Run(Object(ms), MemberSteps(a, b, cs, h), cs).status == 0
    ensures Spares(ms, Run(Object(ms), MemberSteps(a, b, cs, h), cs), k, cs)
    decreases |a| + |b|, 1
  {
    AheadMeans(ms, a, b, cs);
    hide Ahead, DirectRestored, Height, Encode, Steps, Strcmp, KeyOf, Keys, Spares, Run, MemberSteps, Distinct, Ascending;
    if a == [] && b == [] {
    } else if HeadsDiffer(a, b, cs) == 0 {
      RestPaired(ms, a, b, cs, h, k);
    } else if HeadsDiffer(a, b, cs) < 0 {
      RestRemoved(ms, a, b, cs, h, k);
    } else {
      RestAdded(ms, a, b, cs, h, k);
    }
  }

  lemma KeysOfTail(a: seq<Entry<Json>>, k: CString, cs: bool)
    requires a != [] && k !in Keys(a, cs)
    ensures k !in Keys(a[1..], cs) && k != KeyOf(cs, a[0].key)
  {
    hide KeyOf;
  }

  lemma {:induction false} RestRemoved(ms: seq<Entry<Json>>, a: seq<Entry<Json>>, b: seq<Entry<Json>>, cs: bool, h: nat, k: CString)
    requires forall e :: e in a ==> Height(e.item) < h
    requires Ahead(ms, a, b, cs) && DirectRestored(a, b, cs)
    requires (a != [] || b != []) && HeadsDiffer(a, b, cs) < 0
    requires k !in Keys(a, cs) && k !in Keys(b, cs)
    requires Run(Object(ms), MemberSteps(a, b, cs, h), cs).status == 0
    ensures Spares(ms, Run(Object(ms), MemberSteps(a, b, cs, h), cs), k, cs)
    decreases |a| + |b|, 0
  {
    AheadMeans(ms, a, b, cs);
    hide DirectRestored, Height, Encode, Steps, Run, RunStep, Slash, Back, Spares, SameAtKey, Detaching, Ahead;
    hide New, MapOf, Meaning, Distinct, Ascending, IndexOf, Keys, KeyOf, Strcmp;
    RestoredRemoved(a, b, cs);
    RemovedFirst(ms, a, b, cs);
    var i := IndexOf(ms, a[0].key, false);
    var s, rest := Step(REMOVE, Slash(Encode(a[0].key)), None), MemberSteps(a[1..], b, cs, h);
    BackRestores(a[0].key);
    RemoveMember(ms, a[0].key, cs);
    RunOne(Object(ms), s, rest, cs);
    BelowHead(b, KeyOf(cs, a[0].key), cs);
    AheadRemoved(ms, a, b, cs);
    KeysOfTail(a, k, cs);
    RestSpares(RemoveAt(ms, i), a[1..], b, cs, h, k);
    RemoveSpares(ms, i, k, cs);
    SparesThen(ms, RemoveAt(ms, i), Run(Object(RemoveAt(ms, i)), rest, cs), k, cs);
  }

  lemma {:induction false} RestAdded(ms: seq<Entry<Json>>, a: seq<Entry<Json>>, b: seq<Entry<Json>>, cs: bool, h: nat, k: CString)
    requires forall e :: e in a ==> Height(e.item) < h
    requires Ahead(ms, a, b, cs) && DirectRestored(a, b, cs)
    requires (a != [] || b != []) && HeadsDiffer(a, b, cs) > 0
    requires k !in Keys(a, cs) && k !in Keys(b, cs)
    requires Run(Object(ms), MemberSteps(a, b, cs, h), cs).status == 0
    ensures Spares(ms, Run(Object(ms), MemberSteps(a, b, cs, h), cs), k, cs)
    decreases |a| + |b|, 0
  {
    AheadMeans(ms, a, b, cs);
    AddedNew(ms, a, b, cs);
    hide DirectRestored, Height, Encode, Steps, Run, RunStep, Slash, Duplicate, Back, Spares, SameAtKey, Detaching, Ahead;
    hide New, MapOf, Meaning, Distinct, Ascending, IndexOf, Keys, KeyOf, Strcmp;
    RestoredAdded(a, b, cs);
    var s, rest := Step(ADD, Slash(Encode(b[0].key)), Duplicate(b[0].item, 0)), MemberSteps(a, b[1..], cs, h);
    BackRestores(b[0].key);
    AddMember(ms, b[0], cs);
    RunOne(Object(ms), s, rest, cs);
    AheadAdded(ms, a, b, cs);
    KeysOfTail(b, k, cs);
    RestSpares(ms + [b[0]], a, b[1..], cs, h, k);
    AppendSpares(ms, b[0], k, cs);
    SparesThen(ms, ms + [b[0]], Run(Object(ms + [b[0]]), rest, cs), k, cs);
  }

  lemma AddedNew(ms: seq<Entry<Json>>, a: seq<Entry<Json>>, b: seq<Entry<Json>>, cs: bool)
    requires Ahead(ms, a, b, cs) && (a != [] || b != []) && HeadsDiffer(a, b, cs) > 0
    ensures b != [] && KeyOf(cs, b[0].key) !in Keys(ms, cs) + Keys(a, cs) && Height(b[0].item) <= 10000
  {
    hide New, Distinct, Ascending, Keys, KeyOf, Strcmp, Reachable, FitMembers, AllFound;
    HeadOnlyHere(a, b, cs);
    KeyInKeys(b, 0, cs);
    RestNew(b, cs);
    NewHeight(b[0].item, cs);
  }

  lemma {:induction false} RestPaired(ms: seq<Entry<Json>>, a: seq<Entry<Json>>, b: seq<Entry<Json>>, cs: bool, h: nat, k: CString)
    requires forall e :: e in a ==> Height(e.item) < h
    requires Ahead(ms, a, b, cs) && DirectRestored(a, b, cs)
    requires (a != [] || b != []) && HeadsDiffer(a, b, cs) == 0
    requires k !in Keys(a, cs) && k !in Keys(b, cs)
    requires Run(Object(ms), MemberSteps(a, b, cs, h), cs).status == 0
    ensures Spares(ms, Run(Object(ms), MemberSteps(a, b, cs, h), cs), k, cs)
    decreases |a| + |b|, 0
  {
    hide DirectRestored, Height, Encode, Steps, Run, RunStep, Slash, Back, Replaces, Spares, SameAtKey, Detaching, Ahead;
    hide New, Found, FirstByFold, MapOf, Meaning, Distinct, Ascending, IndexOf, Keys, KeyOf, Strcmp, Prefixed, MemberSteps, Keeps;
    RestoredPaired(a, b, cs);
    PairedSteps(a, b, cs, h);
    PairReady(ms, a, b, cs);
    var x, to := a[0], b[0].item;
    var pair, rest := Prefixed(Slash(Encode(x.key)), Steps(x.item, to, cs)), MemberSteps(a[1..], b[1..], cs, h);
    RunAppend(Object(ms), pair, rest, cs);
    var ns, v := PairDone(ms, x, to, cs);
    AheadPaired(ms, ns, a, b, v, cs);
    KeysOfTail(a, k, cs);
    KeysOfTail(b, k, cs);
    RestSpares(ns, a[1..], b[1..], cs, h, k);
    UpdateSame(ms, ns, KeyOf(cs, x.key), v, k, cs);
    SparesThen(ms, ns, Run(Object(ns), rest, cs), k, cs);
  }

  /** What the steps about a pair do, whether it is replaced or changed inside, if they succeed. */
  lemma PairDone(ms: seq<Entry<Json>>, x: Entry<Json>, to: Json, cs: bool) returns (ns: seq<Entry<Json>>, v: Value)
    requires Found(ms, x, cs) && Distinct(ms, cs) && New(to, cs)
    requires Replaces(x.item, to) ==> FirstByFold(ms, x) && Back(x.key) == x.key
    requires Run(Object(ms), Prefixed(Slash(Encode(x.key)), Steps(x.item, to, cs)), cs).status == 0
    ensures Run(Object(ms), Prefixed(Slash(Encode(x.key)), Steps(x.item, to, cs)), cs) == Outcome(0, Object(ns))
    ensures Distinct(ns, cs) && MapOf(ns, cs) == MapOf(ms, cs)[KeyOf(cs, x.key) := v]
    ensures Keeps(ms, ns, x.key, Replaces(x.item, to), cs)
  {
    hide Slash, Meaning, MapOf, Steps, Encode, Prefixed, RunStep, KeyOf, Distinct, IndexOf, Keeps, New, Back, Addressed;
    hide Found, FirstByFold;
    if Replaces(x.item, to) {
      ReplacedSteps(x.item, to, cs);
      NameToken(x.key);
      RunReplace(Object(ms), Encode(x.key), to, cs);
      var s := Step(REPLACE, Slash(Encode(x.key)), Some(to));
      RestoredAddressed(s, x.key);
      OneAddressed(s);
      ns := MemberReplaced(ms, x, to, cs);
      v := Meaning(to, cs);
    } else {
      ns := EnteredBlock(ms, x, to, cs);
      v := Meaning(Run(x.item, Steps(x.item, to, cs), cs).doc, cs);
    }
  }

  lemma UpdateSame(ms: seq<Entry<Json>>, ns: seq<Entry<Json>>, h: CString, v: Value, k: CString, cs: bool)
    requires Distinct(ns, cs) && MapOf(ns, cs) == MapOf(ms, cs)[h := v] && k != h
    ensures SameAtKey(ms, ns, k, cs)
  {
    hide MapOf, Distinct;
  }

  lemma AppendAddressed(s: seq<Step>, t: seq<Step>)
    requires AllAddressed(s) && AllAddressed(t)
    ensures AllAddressed(s + t)
  {
    hide Addressed;
  }

  lemma OneAddressed(s: Step)
    requires Addressed(s)
    ensures AllAddressed([s])
  {
  }

  /** When all direct names are restored and the goal is reached, the steps below are in order, too. */
  lemma {:induction false} MembersOnly(ms: seq<Entry<Json>>, a: seq<Entry<Json>>, b: seq<Entry<Json>>, cs: bool, h: nat)
    requires forall e :: e in a ==> Height(e.item) < h
    requires Ahead(ms, a, b, cs) && DirectRestored(a, b, cs)
    requires Arrived(Run(Object(ms), MemberSteps(a, b, cs, h), cs), b, cs)
    ensures AllAddressed(MemberSteps(a, b, cs, h))
    decreases h, 1, |a| + |b|, 1
  {
    hide Ahead, DirectRestored, Arrived, AllAddressed, Height, Encode, Steps, Strcmp, KeyOf;
    if a == [] && b == [] {
      NoneAddressed();
    } else if HeadsDiffer(a, b, cs) == 0 {
      RestoredPaired(a, b, cs);
      if Replaces(a[0].item, b[0].item) {
        OnlyReplaced(ms, a, b, cs, h);
      } else {
        OnlyEntered(ms, a, b, cs, h);
      }
    } else if HeadsDiffer(a, b, cs) < 0 {
      OnlyRemoved(ms, a, b, cs, h);
    } else {
      OnlyAdded(ms, a, b, cs, h);
    }
  }

  lemma NoneAddressed()
    ensures AllAddressed([])
  {
  }

  lemma {:induction false} OnlyRemoved(ms: seq<Entry<Json>>, a: seq<Entry<Json>>, b: seq<Entry<Json>>, cs: bool, h: nat)
    requires forall e :: e in a ==> Height(e.item) < h
    requires Ahead(ms, a, b, cs) && DirectRestored(a, b, cs)
    requires (a != [] || b != []) && HeadsDiffer(a, b, cs) < 0
    requires Arrived(Run(Object(ms), MemberSteps(a, b, cs, h), cs), b, cs)
    ensures AllAddressed(MemberSteps(a, b, cs, h))
    decreases h, 1, |a| + |b|, 0
  {
    hide DirectRestored, Arrived, AllAddressed, Addressed, Height, Encode, Steps, Run, RunStep, Slash, Back;
    hide New, MapOf, Meaning, Distinct, Ascending, IndexOf, Keys, KeyOf, Strcmp, Detaching;
    RestoredRemoved(a, b, cs);
    RemovedFirst(ms, a, b, cs);
    var s, rest := Step(REMOVE, Slash(Encode(a[0].key)), None), MemberSteps(a[1..], b, cs, h);
    RestoredAddressed(s, a[0].key);
    OneAddressed(s);
    BackRestores(a[0].key);
    RemoveMember(ms, a[0].key, cs);
    RunOne(Object(ms), s, rest, cs);
    BelowHead(b, KeyOf(cs, a[0].key), cs);
    AheadRemoved(ms, a, b, cs);
    MembersOnly(RemoveAt(ms, IndexOf(ms, a[0].key, false)), a[1..], b, cs, h);
    AppendAddressed([s], rest);
  }

  lemma BackRestores(name: CString)
    ensures Back(name) == name <==> Diff.Restored(name)
  {
  }

  lemma {:induction false} OnlyAdded(ms: seq<Entry<Json>>, a: seq<Entry<Json>>, b: seq<Entry<Json>>, cs: bool, h: nat)
    requires forall e :: e in a ==> Height(e.item) < h
    requires Ahead(ms, a, b, cs) && DirectRestored(a, b, cs)
    requires (a != [] || b != []) && HeadsDiffer(a, b, cs) > 0
    requires Arrived(Run(Object(ms), MemberSteps(a, b, cs, h), cs), b, cs)
    ensures AllAddressed(MemberSteps(a, b, cs, h))
    decreases h, 1, |a| + |b|, 0
  {
    hide DirectRestored, Arrived, AllAddressed, Addressed, Height, Encode, Steps, Run, RunStep, Slash, Duplicate, Back;
    hide New, MapOf, Meaning, Distinct, Ascending, IndexOf, Keys, KeyOf, Strcmp;
    RestoredAdded(a, b, cs);
    HeadOnlyHere(a, b, cs);
    KeyInKeys(b, 0, cs);
    RestNew(b, cs);
    NewHeight(b[0].item, cs);
    var s, rest := Step(ADD, Slash(Encode(b[0].key)), Duplicate(b[0].item, 0)), MemberSteps(a, b[1..], cs, h);
    RestoredAddressed(s, b[0].key);
    OneAddressed(s);
    BackRestores(b[0].key);
    AddMember(ms, b[0], cs);
    RunOne(Object(ms), s, rest, cs);
    AheadAdded(ms, a, b, cs);
    ArrivedRest(Run(Object(ms + [b[0]]), rest, cs), b, cs);
    MembersOnly(ms + [b[0]], a, b[1..], cs, h);
    AppendAddressed([s], rest);
  }

  lemma {:induction false} OnlyReplaced(ms: seq<Entry<Json>>, a: seq<Entry<Json>>, b: seq<Entry<Json>>, cs: bool, h: nat)
    requires forall e :: e in a ==> Height(e.item) < h
    requires Ahead(ms, a, b, cs) && DirectRestored(a, b, cs)
    requires (a != [] || b != []) && HeadsDiffer(a, b, cs) == 0
    requires a != [] && b != [] && Replaces(a[0].item, b[0].item)
    requires Arrived(Run(Object(ms), MemberSteps(a, b, cs, h), cs), b, cs)
    ensures AllAddressed(MemberSteps(a, b, cs, h))
    decreases h, 1, |a| + |b|, 0
  {
    hide DirectRestored, Arrived, AllAddressed, Addressed, Height, Encode, Steps, Run, RunStep, Slash, Back, Replaces;
    hide New, Found, FirstByFold, MapOf, Meaning, Distinct, Ascending, IndexOf, Keys, KeyOf, Strcmp, Prefixed, MemberSteps;
    RestoredPaired(a, b, cs);
    PairedSteps(a, b, cs, h);
    PairReady(ms, a, b, cs);
    var to := b[0].item;
    ReplacedSteps(a[0].item, to, cs);
    var s, rest := Step(REPLACE, Slash(Encode(a[0].key)), Some(to)), MemberSteps(a[1..], b[1..], cs, h);
    NameToken(a[0].key);
    RunReplace(Object(ms), Encode(a[0].key), to, cs);
    RestoredAddressed(s, a[0].key);
    OneAddressed(s);
    var ns := MemberReplaced(ms, a[0], to, cs);
    RunOne(Object(ms), s, rest, cs);
    AheadPaired(ms, ns, a, b, Meaning(to, cs), cs);
    ArrivedRest(Run(Object(ns), rest, cs), b, cs);
    MembersOnly(ns, a[1..], b[1..], cs, h);
    AppendAddressed([s], rest);
  }

  lemma {:induction false} OnlyEntered(ms: seq<Entry<Json>>, a: seq<Entry<Json>>, b: seq<Entry<Json>>, cs: bool, h: nat)
    requires forall e :: e in a ==> Height(e.item) < h
    requires Ahead(ms, a, b, cs) && DirectRestored(a, b, cs)
    requires (a != [] || b != []) && HeadsDiffer(a, b, cs) == 0
    requires a != [] && b != [] && !Replaces(a[0].item, b[0].item)
    requires Arrived(Run(Object(ms), MemberSteps(a, b, cs, h), cs), b, cs)
    ensures AllAddressed(MemberSteps(a, b, cs, h))
    decreases h, 1, |a| + |b|, 0
  {
    assert a[0] in a && b[0] in b && Height(a[0].item) < h;
    hide DirectRestored, AllAddressed, Addressed, Height, Encode, Steps, Run, RunStep, Slash, Back, Replaces;
    hide New, Found, FirstByFold, MapOf, Meaning, Distinct, Ascending, IndexOf, Keys, KeyOf, Strcmp, Prefixed, MemberSteps;
    RestoredPaired(a, b, cs);
    PairedSteps(a, b, cs, h);
    PairReady(ms, a, b, cs);
    var x, to := a[0], b[0].item;
    var steps, rest := Steps(x.item, to, cs), MemberSteps(a[1..], b[1..], cs, h);
    var block, inner := Prefixed(Slash(Encode(x.key)), steps), Run(x.item, steps, cs);
    RunAppend(Object(ms), block, rest, cs);
    var ns := EnteredBlock(ms, x, to, cs);
    assert inner.status == 0;
    var o := Run(Object(ns), rest, cs);
    AheadPaired(ms, ns, a, b, Meaning(inner.doc, cs), cs);
    ArrivedRest(o, b, cs);
    HeadOf(a, cs);
    HeadOf(b, cs);
    RestSpares(ns, a[1..], b[1..], cs, h, KeyOf(cs, x.key));
    StepsOnly(x.item, to, cs);
    NameToken(x.key);
    StepsEdit(x.item, to, cs);
    AddressedPrefixed(Encode(x.key), steps);
    MembersOnly(ns, a[1..], b[1..], cs, h);
    AppendAddressed(block, rest);
  }

  /** The steps below a member, run on the object. */
  lemma EnteredBlock(ms: seq<Entry<Json>>, x: Entry<Json>, to: Json, cs: bool) returns (ns: seq<Entry<Json>>)
    requires Found(ms, x, cs) && Distinct(ms, cs) && !Replaces(x.item, to)
    ensures var inner := Run(x.item, Steps(x.item, to, cs), cs);
      && Run(Object(ms), Prefixed(Slash(Encode(x.key)), Steps(x.item, to, cs)), cs) == Outcome(inner.status, Object(ns))
      && Distinct(ns, cs) && MapOf(ns, cs) == MapOf(ms, cs)[KeyOf(cs, x.key) := Meaning(inner.doc, cs)]
    ensures Keeps(ms, ns, x.key, false, cs)
  {
    hide Slash, Meaning, MapOf, Steps, Encode, Prefixed, RunStep, KeyOf, Distinct, IndexOf;
    var i := IndexOf(ms, x.key, cs);
    NameToken(x.key);
    StepsEdit(x.item, to, cs);
    MemberToken(ms, i, cs);
    RunBelow(Object(ms), Encode(x.key), i, Steps(x.item, to, cs), cs);
    ns := MemberChanged(ms, x, Run(x.item, Steps(x.item, to, cs), cs).doc, cs);
  }

  // --- Elements -----------------------------------------------------------------------------------

  /** The elements before the first that is dealt with stay as they are. */
  ghost predicate Begins(o: Outcome, done: seq<Json>)
  {
    o.status == 0 ==> o.doc.Array? && |done| <= |o.doc.items| && o.doc.items[..|done|] == done
  }

  ghost predicate ItemsArrived(o: Outcome, done: seq<Json>, b: seq<Json>, cs: bool)
  {
    o.status == 0 && o.doc.Array? && ItemMeanings(o.doc.items, cs) == ItemMeanings(done, cs) + ItemMeanings(b, cs)
  }

  lemma BeginsLess(o: Outcome, done: seq<Json>, x: Json)
    requires Begins(o, done + [x])
    ensures Begins(o, done)
  {
    if o.status == 0 {
      assert o.doc.items[..|done|] == o.doc.items[..|done| + 1][..|done|];
    }
  }

  lemma FirstArrived(o: Outcome, done: seq<Json>, x: Json, b: seq<Json>, cs: bool)
    requires b != [] && Begins(o, done + [x]) && ItemsArrived(o, done, b, cs)
    ensures Meaning(x, cs) == Meaning(b[0], cs) && ItemsArrived(o, done + [x], b[1..], cs)
  {
    hide Meaning;
    var n := |done|;
    assert o.doc.items[..n + 1][n] == x;
    assert ItemMeanings(o.doc.items, cs)[n] == Meaning(x, cs);
    assert (ItemMeanings(done, cs) + ItemMeanings(b, cs))[n] == ItemMeanings(b, cs)[0];
    ItemDone(done, x, b, cs);
  }

  /** The steps about a pair of elements, run on the array. */
  lemma PairedItem(items: seq<Json>, i: nat, to: Json, cs: bool) returns (x: Json, status: nat)
    requires i < |items| && New(to, cs)
    ensures Run(Array(items), Prefixed(Slash(Decimal(i)), Steps(items[i], to, cs)), cs) == Outcome(status, Array(items[i := x]))
    ensures if Replaces(items[i], to) then x == to && status == 0
            else Outcome(status, x) == Run(items[i], Steps(items[i], to, cs), cs)
  {
    hide Slash, Decimal, Steps, New, Encode, Prefixed, RunStep;
    DecimalToken(i);
    if Replaces(items[i], to) {
      ReplacedSteps(items[i], to, cs);
      RunReplace(Array(items), Decimal(i), to, cs);
      ReplaceItem(items, i, to, cs);
      x, status := to, 0;
    } else {
      StepsEdit(items[i], to, cs);
      ItemToken(items, i, cs);
      RunBelow(Array(items), Decimal(i), i, Steps(items[i], to, cs), cs);
      var inner := Run(items[i], Steps(items[i], to, cs), cs);
      x, status := inner.doc, inner.status;
    }
  }

  lemma {:induction false} ItemsOnly(done: seq<Json>, a: seq<Json>, b: seq<Json>, cs: bool, h: nat)
    requires forall x :: x in a ==> Height(x) < h
    requires FitItems(a, b, cs) && NewItems(b, cs)
    ensures var o := Run(Array(done + a), ItemSteps(|done|, a, b, cs, h), cs);
      Begins(o, done) && (ItemsArrived(o, done, b, cs) ==> AllAddressed(ItemSteps(|done|, a, b, cs, h)))
    decreases h, 1, |a| + |b|
  {
    hide Slash, Decimal, Meaning, Steps, Fit, New, Prefixed, RunStep, AllAddressed, ItemMeanings;
    var i := |done|;
    if a != [] && b != [] {
      PairedOnly(done, a, b, cs, h);
    } else if a != [] {
      var s, rest := Step(REMOVE, Slash(Decimal(i)), None), ItemSteps(i, a[1..], b, cs, h);
      RemoveItem(done + a, i, cs);
      RunOne(Array(done + a), s, rest, cs);
      assert RemoveAt(done + a, i) == done + a[1..];
      ItemsOnly(done, a[1..], b, cs, h);
      IndexAddressed(s, i);
      OneAddressed(s);
      SomeAddressed([s], rest);
    } else if b != [] {
      var s, rest := Step(ADD, "/-", Duplicate(b[0], 0)), ItemSteps(i + 1, a, b[1..], cs, h);
      assert b[0] in b && New(b[0], cs);
      NewHeight(b[0], cs);
      AppendItem(done + a, b[0], cs);
      RunOne(Array(done + a), s, rest, cs);
      assert (done + a) + [b[0]] == (done + [b[0]]) + a;
      ItemsOnly(done + [b[0]], a, b[1..], cs, h);
      DashAddressed(s);
      OneAddressed(s);
      SomeAddressed([s], rest);
      AfterAppend(Run(Array(done + a), [s] + rest, cs), done, b, cs);
    } else {
      NoneAddressed();
      assert done + a == done;
    }
  }

  lemma SomeAddressed(s: seq<Step>, t: seq<Step>)
    requires AllAddressed(s)
    ensures AllAddressed(t) ==> AllAddressed(s + t)
  {
    hide Addressed;
  }

  lemma AfterAppend(o: Outcome, done: seq<Json>, b: seq<Json>, cs: bool)
    requires b != [] && Begins(o, done + [b[0]])
    ensures Begins(o, done) && (ItemsArrived(o, done, b, cs) ==> ItemsArrived(o, done + [b[0]], b[1..], cs))
  {
    hide Begins, ItemsArrived;
    BeginsLess(o, done, b[0]);
    if ItemsArrived(o, done, b, cs) {
      FirstArrived(o, done, b[0], b, cs);
    }
  }

  lemma {:induction false} PairedOnly(done: seq<Json>, a: seq<Json>, b: seq<Json>, cs: bool, h: nat)
    requires forall x :: x in a ==> Height(x) < h
    requires FitItems(a, b, cs) && NewItems(b, cs) && a != [] && b != []
    ensures var o := Run(Array(done + a), ItemSteps(|done|, a, b, cs, h), cs);
      Begins(o, done) && (ItemsArrived(o, done, b, cs) ==> AllAddressed(ItemSteps(|done|, a, b, cs, h)))
    decreases h, 1, |a| + |b|, 0
  {
    hide Slash, Decimal, Meaning, Steps, Fit, New, Prefixed, RunStep, AllAddressed, ItemsArrived, Replaces;
    var i := |done|;
    assert a[0] in a && b[0] in b && Fit(a[0], b[0], cs) && New(b[0], cs) && Height(a[0]) < h;
    hide Height;
    var pair, rest := Prefixed(Slash(Decimal(i)), Steps(a[0], b[0], cs)), ItemSteps(i + 1, a[1..], b[1..], cs, h);
    assert (done + a)[i] == a[0];
    var x, status := PairedItem(done + a, i, b[0], cs);
    RunAppend(Array(done + a), pair, rest, cs);
    assert (done + a)[i := x] == (done + [x]) + a[1..];
    if status == 0 {
      var o := Run(Array((done + [x]) + a[1..]), rest, cs);
      ItemsOnly(done + [x], a[1..], b[1..], cs, h);
      BeginsLess(o, done, x);
      if ItemsArrived(o, done, b, cs) {
        FirstArrived(o, done, x, b, cs);
        PairAddressed(i, a[0], b[0], cs);
        AppendAddressed(pair, rest);
      }
    } else {
      FailedShort(Outcome(status, Array((done + [x]) + a[1..])), done, b, cs);
    }
  }

  lemma FailedShort(o: Outcome, done: seq<Json>, b: seq<Json>, cs: bool)
    requires o.status != 0
    ensures Begins(o, done) && !ItemsArrived(o, done, b, cs)
  {
  }

  lemma {:induction false} PairAddressed(i: nat, from: Json, to: Json, cs: bool)
    requires Fit(from, to, cs) && New(to, cs)
    requires !Replaces(from, to) ==> Became(Run(from, Steps(from, to, cs), cs), Meaning(to, cs), cs)
    ensures AllAddressed(Prefixed(Slash(Decimal(i)), Steps(from, to, cs)))
    decreases Height(from), 3
  {
    hide Slash, Decimal, Meaning, Fit, New, Prefixed, RunStep, AllAddressed, Addressed, Steps, Became, Replaces;
    DecimalToken(i);
    if Replaces(from, to) {
      ReplacedSteps(from, to, cs);
      RunReplace(from, Decimal(i), to, cs);
      var s := Step(REPLACE, Slash(Decimal(i)), Some(to));
      IndexAddressed(s, i);
      OneAddressed(s);
    } else {
      StepsOnly(from, to, cs);
      StepsEdit(from, to, cs);
      AddressedPrefixed(Decimal(i), Steps(from, to, cs));
    }
  }

  // --- Documents -----------------------------------------------------------------------------------

  /** The generated steps are those of the sorted members. */
  lemma StepsOfMembers(ms: seq<Entry<Json>>, ns: seq<Entry<Json>>, cs: bool) returns (a: seq<Entry<Json>>, b: seq<Entry<Json>>)
    requires Fit(Object(ms), Object(ns), cs) && New(Object(ns), cs)
    ensures forall e :: e in a ==> Height(e.item) < Height(Object(ms))
    ensures Steps(Object(ms), Object(ns), cs) == MemberSteps(a, b, cs, Height(Object(ms)))
    ensures Ahead(ms, a, b, cs) && MapOf(a, cs) == MapOf(ms, cs) && MapOf(b, cs) == MapOf(ns, cs)
  {
    a, b := Sort(ms, cs), Sort(ns, cs);
    SortMembers(ms, cs);
    assert Steps(Object(ms), Object(ns), cs) == MemberSteps(a, b, cs, Height(Object(ms)));
    hide Steps, Sort, MemberSteps, MapOf, Fit, New, Ahead;
    Beginning(ms, ns, cs);
    SortedMeans(ms, cs);
  }

  lemma GoalRestores(ms: seq<Entry<Json>>, ns: seq<Entry<Json>>, a: seq<Entry<Json>>, b: seq<Entry<Json>>, cs: bool, h: nat)
    requires forall e :: e in a ==> Height(e.item) < h
    requires Ahead(ms, a, b, cs) && MapOf(a, cs) == MapOf(ms, cs) && MapOf(b, cs) == MapOf(ns, cs)
    requires Became(Run(Object(ms), MemberSteps(a, b, cs, h), cs), Meaning(Object(ns), cs), cs)
    ensures DirectRestored(a, b, cs)
  {
    hide Ahead, MapOf, Became, Run, MemberSteps, Meaning, Height, Back, Detaching, Adding, Ascending, Distinct;
    AheadMeans(ms, a, b, cs);
    forall k | Direct(a, b, k, cs) ensures Back(k) == k {
      if Back(k) != k {
        MissedMembers(ms, ns, a, b, cs, h, k);
      }
    }
  }

  lemma {:induction false} ObjectsOnly(ms: seq<Entry<Json>>, ns: seq<Entry<Json>>, cs: bool)
    requires Fit(Object(ms), Object(ns), cs) && New(Object(ns), cs)
    requires Became(Run(Object(ms), Steps(Object(ms), Object(ns), cs), cs), Meaning(Object(ns), cs), cs)
    ensures AllAddressed(Steps(Object(ms), Object(ns), cs))
    decreases Height(Object(ms)), 1
  {
    hide Steps, MemberSteps, Run, AllAddressed, MapOf, Fit, New, Ahead, Meaning, Became, DirectRestored, Height;
    var a, b := StepsOfMembers(ms, ns, cs);
    var h := Height(Object(ms));
    GoalRestores(ms, ns, a, b, cs, h);
    GoalArrived(Run(Object(ms), MemberSteps(a, b, cs, h), cs), ns, b, cs);
    MembersOnly(ms, a, b, cs, h);
  }

  lemma AheadMeans(ms: seq<Entry<Json>>, a: seq<Entry<Json>>, b: seq<Entry<Json>>, cs: bool)
    requires Ahead(ms, a, b, cs)
    ensures Distinct(ms, cs) && Ascending(a, cs) && Ascending(b, cs)
  {
  }

  lemma GoalArrived(o: Outcome, ns: seq<Entry<Json>>, b: seq<Entry<Json>>, cs: bool)
    requires Became(o, Meaning(Object(ns), cs), cs) && MapOf(b, cs) == MapOf(ns, cs)
    ensures Arrived(o, b, cs)
  {
  }

  lemma {:induction false} ArraysOnly(a: seq<Json>, b: seq<Json>, cs: bool)
    requires FitItems(a, b, cs) && New(Array(b), cs)
    requires Became(Run(Array(a), Steps(Array(a), Array(b), cs), cs), Meaning(Array(b), cs), cs)
    ensures AllAddressed(Steps(Array(a), Array(b), cs))
    decreases Height(Array(a)), 1
  {
    assert Steps(Array(a), Array(b), cs) == ItemSteps(0, a, b, cs, Height(Array(a)));
    hide Steps, ItemSteps, Run, AllAddressed, Fit, DistinctTree, ItemMeanings;
    assert [] + a == a && ItemMeanings([], cs) == [];
    assert [] + ItemMeanings(b, cs) == ItemMeanings(b, cs);
    ItemsOnly([], a, b, cs, Height(Array(a)));
  }

  /** If the steps lead to the new document, they all end in tokens that are restored. */
  lemma {:induction false} StepsOnly(from: Json, to: Json, cs: bool)
    requires Fit(from, to, cs) && New(to, cs)
    requires Became(Run(from, Steps(from, to, cs), cs), Meaning(to, cs), cs)
    ensures AllAddressed(Steps(from, to, cs))
    decreases Height(from), 2
  {
    hide Duplicate, MemberSteps, ItemSteps, Run, AllAddressed, Meaning, Sort, Reachable, Distinct, DistinctTree, Height;
    if Replaces(from, to) {
      ReplacedSteps(from, to, cs);
      OneAddressed(Step(REPLACE, [], Some(to)));
    } else {
      match from
      case Array(items) =>
        FitArray(items, to.items, cs);
        ArraysOnly(items, to.items, cs);
      case Object(ms) =>
        ObjectsOnly(ms, to.members, cs);
      case _ =>
        NoneAddressed();
    }
  }

  /**
   The exact condition: applying the generated operations to a copy of the old
   document succeeds at every one of them and gives the new document, up to the
   order of members, if and only if every operation ends in a token that decoding
   in place restores. Members of the old document that are detached can be reached,
   names of the new one differ for the lookups of the call, and the new one is not too
   deep to copy.
   */
  lemma DiffThenApplyIff(from: Json, to: Json, cs: bool)
    requires Fit(from, to, cs)
    requires DistinctTree(to, cs) && Height(to) <= 10000
    ensures Achieves(Live.ApplyAll(Live.Fresh(from), Patches(Steps(from, to, cs)), cs), to, cs)
       <==> AllAddressed(Steps(from, to, cs))
  {
    hide Steps, AllAddressed, DistinctTree, Height, Meaning, Live.ApplyAll, Live.Fresh, Live.Plain, Run, DecodableNames;
    PatchesDo(from, to, cs);
    LiftedAchieves(Run(from, Steps(from, to, cs), cs), to, cs);
    if AllAddressed(Steps(from, to, cs)) {
      DiffThenApply(from, to, cs);
    } else {
      var result := Run(from, Steps(from, to, cs), cs);
      if Became(result, Meaning(to, cs), cs) {
        StepsOnly(from, to, cs);
      }
    }
  }
}
