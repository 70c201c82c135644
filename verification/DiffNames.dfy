/**
 For which member names generating and then applying operations (RFC 6902) always
 gives the new document: the exact condition on a set of names.
 */
module DiffNames {
  import opened Bytes
  import opened Sequences
  import opened Json
  import opened MergeSort
  import opened Pointer
  import opened InPlace
  import opened Patch
  import opened Diff
  import DiffExact
  import Live

  /** Two documents with such names, the members of which the lookups of the call tell apart. */
  ghost predicate Suitable(from: Json, to: Json, names: set<CString>, cs: bool)
  {
    && Named(from, names) && Named(to, names)
    && DistinctTree(from, cs) && DistinctTree(to, cs) && Height(to) <= 10000
  }

  /** The operations generated for two documents lead from a copy of the one to the other. */
  ghost predicate Arrives(from: Json, to: Json, cs: bool)
  {
    Achieves(Live.ApplyAll(Live.Fresh(from), Patches(Steps(from, to, cs)), cs), to, cs)
  }

  /** Every name decodes, and in case-sensitive calls no two differ by case only. */
  ghost predicate Reliable(names: set<CString>, cs: bool)
  {
    && (forall k | k in names :: Decodable(k))
    && (cs ==> forall k, l | k in names && l in names && Fold(k) == Fold(l) :: k == l)
  }

  // --- Reliable names -------------------------------------------------------------------

  lemma {:induction false} NamedDecodable(j: Json, names: set<CString>)
    requires Named(j, names) && forall k | k in names :: Decodable(k)
    ensures DecodableNames(j)
  {
    hide Decodable;
    match j
    case Array(items) =>
      forall x | x in items ensures DecodableNames(x) {
        NamedDecodable(x, names);
      }
    case Object(ms) =>
      forall e | e in ms ensures DecodableNames(e.item) {
        NamedDecodable(e.item, names);
      }
    case _ =>
  }

  lemma {:induction false} NamedByFold(j: Json, names: set<CString>)
    requires Named(j, names) && DistinctTree(j, true)
    requires forall k, l | k in names && l in names && Fold(k) == Fold(l) :: k == l
    ensures DistinctTree(j, false)
  {
    hide Fold, Distinct;
    match j
    case Array(items) =>
      forall x | x in items ensures DistinctTree(x, false) {
        NamedByFold(x, names);
      }
    case Object(ms) =>
      forall e | e in ms ensures DistinctTree(e.item, false) {
        NamedByFold(e.item, names);
      }
      KeysByFold(ms, names);
    case _ =>
  }

  lemma {:induction false} KeysByFold(ms: seq<Entry<Json>>, names: set<CString>)
    requires Distinct(ms, true) && forall e | e in ms :: e.key in names
    requires forall k, l | k in names && l in names && Fold(k) == Fold(l) :: k == l
    ensures Distinct(ms, false)
  {
    hide Fold;
    if ms != [] {
      KeysByFold(ms[1..], names);
      if KeyOf(false, ms[0].key) in Keys(ms[1..], false) {
        var i := KeysWitness(ms[1..], KeyOf(false, ms[0].key), false);
        assert ms[i + 1] in ms && ms[0] in ms;
        DistinctIndices(ms, 0, i + 1, true);
      }
    }
  }

  lemma ReliableArrives(from: Json, to: Json, names: set<CString>, cs: bool)
    requires Reliable(names, cs) && Suitable(from, to, names, cs)
    ensures Arrives(from, to, cs)
  {
    hide Named, DistinctTree, Height, Fit, Decodable, DecodableNames, Steps, Fold;
    NamedDecodable(from, names);
    NamedDecodable(to, names);
    if cs {
      NamedByFold(from, names);
    }
    DistinctFits(from, to, cs);
    DiffThenApply(from, to, cs);
  }

  // --- Names that fail --------------------------------------------------------------------

  lemma OneName(e: Entry<Json>, cs: bool)
    ensures Sort([e], cs) == [e] && Distinct([e], cs)
    ensures e.item.Number? ==> DistinctTree(Object([e]), cs) && Height(Object([e])) == 1
  {
    assert [e][1..] == [] && HeightOfMembers([]) == 0;
  }

  /** A member under a name that does not decode is not added. */
  lemma NameMisleads(k: CString, cs: bool)
    requires !Decodable(k)
    ensures !Arrives(Object([]), Object([Entry(k, Number(1))]), cs)
  {
    var e := Entry(k, Number(1));
    var s := Step(ADD, Slash(Encode(k)), Some(Number(1)));
    OneName(e, cs);
    assert Duplicate(Number(1), 0) == Some(Number(1));
    assert Sort<Json>([], cs) == [];
    hide Sort, Decodable, Encode, Slash, Duplicate, Addressed, Fit, Achieves, Distinct, KeyOf, DecodeInPlace;
    assert [e][1..] == [];
    assert MemberSteps([], [e], cs, 0) == [s] + MemberSteps([], [], cs, 0);
    assert Steps(Object([]), Object([e]), cs) == MemberSteps([], [e], cs, Height(Object([])));
    DistinctFits(Object([]), Object([e]), cs);
    DiffExact.DiffThenApplyIff(Object([]), Object([e]), cs);
    if AllAddressed(Steps(Object([]), Object([e]), cs)) {
      assert s in Steps(Object([]), Object([e]), cs);
      AddressedName(s, k);
      DecodesIff(k);
    }
  }

  lemma CaseSorted(x: Entry<Json>, y: Entry<Json>)
    requires Strcmp(x.key, y.key) < 0
    ensures Sort([x, y], true) == [x, y] && Distinct([x, y], true)
    ensures x.item.Number? && y.item.Number? ==> DistinctTree(Object([x, y]), true) && Height(Object([x, y])) == 1
  {
    StrcmpZero(x.key, y.key);
    hide Strcmp;
    assert [x, y][1..] == [y] && [y][1..] == [];
    KeysAppend([], x, true);
    KeysAppend([x], y, true);
    assert [] + [x] == [x] && [x] + [y] == [x, y];
    assert HeightOfMembers([]) == 0 && HeightOfMembers([y]) == 1 + Height(y.item);
  }

  lemma CaseSteps(x: Entry<Json>, y: Entry<Json>)
    requires Strcmp(x.key, y.key) < 0 && x.item == Number(1) && y.item == Number(2)
    ensures Steps(Object([x, y]), Object([x]), true) == [Step(REMOVE, Slash(Encode(y.key)), None)]
  {
    var ms := [x, y];
    CaseSorted(x, y);
    OneName(x, true);
    StrcmpZero(x.key, x.key);
    SortMembers(ms, true);
    hide Encode, Slash, Sort, Strcmp, Distinct;
    assert ms[1..] == [y] && [x][1..] == [] && [y][1..] == [];
    assert Steps(Number(1), Number(1), true) == [];
    assert MemberSteps([y], [], true, Height(Object(ms))) == [Step(REMOVE, Slash(Encode(y.key)), None)];
    assert MemberSteps(ms, [x], true, Height(Object(ms))) == MemberSteps([y], [], true, Height(Object(ms)));
  }

  /**
   Two names that differ by case only, the later of which is to be detached: the
   operation that should remove it removes the other one, and every status is 0.
   */
  lemma CaseMisleads(k: CString, l: CString)
    requires Fold(k) == Fold(l) && Strcmp(k, l) < 0 && Decodable(l)
    ensures var from, to := Object([Entry(k, Number(1)), Entry(l, Number(2))]), Object([Entry(k, Number(1))]);
      Live.ApplyAll(Live.Fresh(from), Patches(Steps(from, to, true)), true)
        == Live.Done(0, Live.Fresh(Object([Entry(l, Number(2))])))
  {
    var x, y := Entry(k, Number(1)), Entry(l, Number(2));
    var ms, s := [x, y], Step(REMOVE, Slash(Encode(l)), None);
    DecodesIff(l);
    CaseSteps(x, y);
    assert IndexOf(ms, l, false) == 0;
    assert RemoveAt(ms, 0) == [y];
    hide Steps, Patches, RunStep, Live.ApplyAll, Live.Fresh, IndexOf, Slash, Encode, Fold, Decodable, DecodeInPlace;
    PatchesDo(Object(ms), Object([x]), true);
    RemoveMember(ms, l, true);
    RunOne(Object(ms), s, [], true);
    assert [s] + [] == [s];
  }

  lemma CaseFails(k: CString, l: CString)
    requires Fold(k) == Fold(l) && Strcmp(k, l) < 0 && Decodable(l)
    ensures !Arrives(Object([Entry(k, Number(1)), Entry(l, Number(2))]), Object([Entry(k, Number(1))]), true)
  {
    var x, y := Entry(k, Number(1)), Entry(l, Number(2));
    CaseMisleads(k, l);
    Live.PlainFresh(Object([y]));
    StrcmpZero(k, l);
    MapOfHead([x], true);
    MapOfHead([y], true);
    assert [x][1..] == [] && [y][1..] == [];
    assert k in MapOf([x], true);
    assert l in MapOf([y], true);
    hide Steps, Patches, Live.ApplyAll, Live.Fresh, Live.Plain, Fold, Decodable, Strcmp;
  }

  // --- The exact condition ------------------------------------------------------------------

  /**
   Generating and applying gives the new document for all suitable documents with names
   among `names` if and only if every one of these decodes and, in case-sensitive
   calls, no two of them differ by case only.
   */
  lemma ArrivesIff(names: set<CString>, cs: bool)
    ensures Reliable(names, cs) <==> forall from, to | Suitable(from, to, names, cs) :: Arrives(from, to, cs)
  {
    hide Suitable, Arrives, Decodable, Fold;
    if Reliable(names, cs) {
      forall from, to | Suitable(from, to, names, cs) ensures Arrives(from, to, cs) {
        ReliableArrives(from, to, names, cs);
      }
    } else {
      var from, to := Unreliable(names, cs);
    }
  }

  lemma Unreliable(names: set<CString>, cs: bool) returns (from: Json, to: Json)
    requires !Reliable(names, cs)
    ensures Suitable(from, to, names, cs) && !Arrives(from, to, cs)
  {
    assert DistinctTree(Object([]), cs) && Named(Object([]), names);
    hide Arrives, Decodable, Fold, Strcmp, DistinctTree, Height, Sort, Distinct, Named;
    if k :| k in names && !Decodable(k) {
      from, to := Object([]), Object([Entry(k, Number(1))]);
      OneName(Entry(k, Number(1)), cs);
      assert Named(to, names);
      NameMisleads(k, cs);
    } else {
      var k, l :| k in names && l in names && Fold(k) == Fold(l) && k != l;
      StrcmpZero(k, l);
      StrcmpAntisymmetric(k, l);
      if Strcmp(k, l) > 0 {
        k, l := l, k;
      }
      from, to := Object([Entry(k, Number(1)), Entry(l, Number(2))]), Object([Entry(k, Number(1))]);
      CaseSorted(from.members[0], from.members[1]);
      OneName(to.members[0], cs);
      assert Named(from, names);
      assert Named(to, names);
      CaseFails(k, l);
    }
  }
}
