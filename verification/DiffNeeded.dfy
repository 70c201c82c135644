/**
 Every operation of a generated patch is about a difference: where the two
 documents are alike there is none.
 */
module DiffNeeded {
  import opened Bytes
  import opened Json
  import opened MergeSort
  import opened Pointer
  import opened Patch
  import opened Diff

  /** Values that no operation below them can make alike. */
  predicate Unlike(from: Json, to: Json)
  {
    from != to && !(from.Array? && to.Array?) && !(from.Object? && to.Object?)
  }

  /**
   An operation that a difference calls for: the replacement of a value by one that
   it is unlike; the removal of the first element that is too many, or of a member
   whose name is gone; the addition of an element or member that is new; or one that
   the difference between two elements of one index, or two members of one name, calls for.
   */
  ghost predicate Needed(s: Step, from: Json, to: Json, cs: bool)
    decreases from, 1
  {
    || (Unlike(from, to) && s == Step(REPLACE, [], Some(to)))
    || (from.Array? && to.Array? &&
        (|| (|to.items| < |from.items| && s == Step(REMOVE, Slash(Decimal(|to.items|)), None))
         || (exists i :: |from.items| <= i < |to.items| && s == Step(ADD, "/-", Some(to.items[i])))
         || (exists i :: 0 <= i < |from.items| && i < |to.items| && NeededBelow(s, Decimal(i), from.items[i], to.items[i], cs))))
    || (from.Object? && to.Object? &&
        (|| (exists x :: x in from.members && KeyOf(cs, x.key) !in Keys(to.members, cs)
               && s == Step(REMOVE, Slash(Encode(x.key)), None))
         || (exists y :: y in to.members && KeyOf(cs, y.key) !in Keys(from.members, cs)
               && s == Step(ADD, Slash(Encode(y.key)), Some(y.item)))
         || (exists x, y :: x in from.members && y in to.members && KeyOf(cs, x.key) == KeyOf(cs, y.key)
               && NeededBelow(s, Encode(x.key), x.item, y.item, cs))))
  }

  ghost predicate NeededBelow(s: Step, token: CString, from: Json, to: Json, cs: bool)
    decreases from, 2
  {
    exists rest: CString :: s.path == Slash(token) + rest && Needed(s.(path := rest), from, to, cs)
  }

  ghost predicate AllNeeded(steps: seq<Step>, from: Json, to: Json, cs: bool)
  {
    forall s | s in steps :: Needed(s, from, to, cs)
  }

  lemma AllNeededAppend(a: seq<Step>, b: seq<Step>, from: Json, to: Json, cs: bool)
    requires AllNeeded(a, from, to, cs) && AllNeeded(b, from, to, cs)
    ensures AllNeeded(a + b, from, to, cs)
  {
    hide Needed;
  }

  /** Where a step with a path put before it comes from. */
  lemma {:induction false} PrefixedFrom(prefix: CString, steps: seq<Step>, s: Step) returns (t: Step)
    requires s in Prefixed(prefix, steps)
    ensures t in steps && s == t.(path := prefix + t.path)
  {
    if s == steps[0].(path := prefix + steps[0].path) {
      t := steps[0];
    } else {
      t := PrefixedFrom(prefix, steps[1..], s);
    }
  }

  lemma PrefixedNeeded(token: CString, steps: seq<Step>, from: Json, to: Json, cs: bool)
    requires AllNeeded(steps, from, to, cs)
    ensures forall s | s in Prefixed(Slash(token), steps) :: NeededBelow(s, token, from, to, cs)
  {
    hide Needed, Slash;
    forall s | s in Prefixed(Slash(token), steps) ensures NeededBelow(s, token, from, to, cs) {
      var t := PrefixedFrom(Slash(token), steps, s);
      assert s.(path := t.path) == t;
    }
  }

  // --- Arrays -------------------------------------------------------------------------

  lemma {:induction false} RemovalsNeeded(a: seq<Json>, from: seq<Json>, to: seq<Json>, cs: bool, h: nat)
    requires (forall x :: x in a ==> Height(x) < h) && (a != [] ==> |to| < |from|)
    ensures AllNeeded(ItemSteps(|to|, a, [], cs, h), Array(from), Array(to), cs)
    decreases |a|
  {
    if a != [] {
      RemovalsNeeded(a[1..], from, to, cs, h);
      assert Needed(Step(REMOVE, Slash(Decimal(|to|)), None), Array(from), Array(to), cs);
    }
  }

  lemma {:induction false} AdditionsNeeded(i: nat, b: seq<Json>, from: seq<Json>, to: seq<Json>, cs: bool, h: nat)
    requires |b| <= |to| && b == to[|to| - |b|..] && |from| <= |to| - |b|
    requires forall x | x in to :: Height(x) <= 10000
    ensures AllNeeded(ItemSteps(i, [], b, cs, h), Array(from), Array(to), cs)
    decreases |b|
  {
    if b != [] {
      AdditionsNeeded(i + 1, b[1..], from, to, cs, h);
      var k := |to| - |b|;
      assert b[0] == to[k] && to[k] in to;
      DuplicateIsCopy(b[0], 0);
      assert Needed(Step(ADD, "/-", Some(to[k])), Array(from), Array(to), cs);
    }
  }

  lemma {:induction false} ItemsNeeded(i: nat, from: seq<Json>, to: seq<Json>, cs: bool, h: nat)
    requires i <= |from| && i <= |to| && (forall x :: x in from[i..] ==> Height(x) < h)
    requires (forall x | x in from :: DistinctTree(x, cs)) && forall x | x in to :: New(x, cs)
    ensures AllNeeded(ItemSteps(i, from[i..], to[i..], cs, h), Array(from), Array(to), cs)
    decreases h, 1, |from| - i
  {
    var a, b := from[i..], to[i..];
    if a != [] && b != [] {
      assert a[0] == from[i] && from[i] in from && a[0] in a && b[0] == to[i] && to[i] in to;
      assert a[1..] == from[i + 1..] && b[1..] == to[i + 1..];
      ItemsNeeded(i + 1, from, to, cs, h);
      StepsNeeded(from[i], to[i], cs);
      PrefixedNeeded(Decimal(i), Steps(from[i], to[i], cs), from[i], to[i], cs);
      hide Steps, NeededBelow, New, DistinctTree, Height;
      var first := Prefixed(Slash(Decimal(i)), Steps(from[i], to[i], cs));
      forall s | s in first ensures Needed(s, Array(from), Array(to), cs) {
      }
      hide Needed;
      AllNeededAppend(first, ItemSteps(i + 1, a[1..], b[1..], cs, h), Array(from), Array(to), cs);
    } else if a != [] {
      assert i == |to|;
      RemovalsNeeded(a, from, to, cs, h);
    } else {
      AdditionsNeeded(i, b, from, to, cs, h);
    }
  }

  // --- Objects ------------------------------------------------------------------------

  ghost predicate Part(a: seq<Entry<Json>>, from: seq<Entry<Json>>)
  {
    forall x | x in a :: x in from
  }

  /** The walk has come to `a` and `b`, and has left no name behind that the other list still has. */
  ghost predicate Walking(a: seq<Entry<Json>>, b: seq<Entry<Json>>, from: seq<Entry<Json>>, to: seq<Entry<Json>>, cs: bool)
  {
    && Ascending(a, cs) && Ascending(b, cs) && Part(a, from) && Part(b, to)
    && Keys(a, cs) * Keys(to, cs) <= Keys(b, cs) && Keys(b, cs) * Keys(from, cs) <= Keys(a, cs)
  }

  /** The rest of an ascending list. */
  lemma Rest(s: seq<Entry<Json>>, from: seq<Entry<Json>>, cs: bool)
    requires s != [] && Ascending(s, cs) && Part(s, from)
    ensures s[0] in from && Ascending(s[1..], cs) && Part(s[1..], from)
    ensures KeyOf(cs, s[0].key) !in Keys(s[1..], cs) && Keys(s, cs) == {KeyOf(cs, s[0].key)} + Keys(s[1..], cs)
  {
    AscendingDistinct(s, cs);
    hide KeyOf;
  }

  /** Behind the heads with the lesser name, or with the same, the walk goes on. */
  lemma WalkingOn(a: seq<Entry<Json>>, b: seq<Entry<Json>>, from: seq<Entry<Json>>, to: seq<Entry<Json>>, cs: bool)
    requires Walking(a, b, from, to, cs) && (a != [] || b != [])
    ensures var d := HeadsDiffer(a, b, cs);
      && (d == 0 ==> a != [] && b != [] && KeyOf(cs, a[0].key) == KeyOf(cs, b[0].key)
                     && Walking(a[1..], b[1..], from, to, cs) && a[0] in from && b[0] in to)
      && (d < 0 ==> a != [] && KeyOf(cs, a[0].key) !in Keys(to, cs) && Walking(a[1..], b, from, to, cs) && a[0] in from)
      && (d > 0 ==> b != [] && KeyOf(cs, b[0].key) !in Keys(from, cs) && Walking(a, b[1..], from, to, cs) && b[0] in to)
  {
    var d := HeadsDiffer(a, b, cs);
    if a != [] {
      Rest(a, from, cs);
    }
    if b != [] {
      Rest(b, to, cs);
    }
    if a != [] && b != [] {
      StrcmpZero(KeyOf(cs, a[0].key), KeyOf(cs, b[0].key));
      StrcmpAntisymmetric(KeyOf(cs, a[0].key), KeyOf(cs, b[0].key));
    }
    if d < 0 {
      BelowHead(b, KeyOf(cs, a[0].key), cs);
    } else if d > 0 {
      BelowHead(a, KeyOf(cs, b[0].key), cs);
    }
    assert Keys<Json>([], cs) == {};
    hide KeyOf, Strcmp, Ascending, Part, Keys;
  }

  lemma {:induction false} MembersNeeded(a: seq<Entry<Json>>, b: seq<Entry<Json>>, from: seq<Entry<Json>>, to: seq<Entry<Json>>,
                                         cs: bool, h: nat)
    requires Walking(a, b, from, to, cs) && forall e :: e in a ==> Height(e.item) < h
    requires DistinctMembers(from, cs) && NewMembers(to, cs)
    ensures AllNeeded(MemberSteps(a, b, cs, h), Object(from), Object(to), cs)
    decreases h, 1, |a| + |b|
  {
    hide Walking, Steps, New, DistinctTree, Height, HeadsDiffer, Duplicate, Needed, Slash, Encode, KeyOf, Prefixed;
    if a != [] || b != [] {
      WalkingOn(a, b, from, to, cs);
      var d := HeadsDiffer(a, b, cs);
      if d == 0 {
        assert a[0] in a;
        MembersNeeded(a[1..], b[1..], from, to, cs, h);
        PairNeeded(a[0], b[0], from, to, cs, h);
        AllNeededAppend(Prefixed(Slash(Encode(a[0].key)), Steps(a[0].item, b[0].item, cs)), MemberSteps(a[1..], b[1..], cs, h),
                        Object(from), Object(to), cs);
      } else if d < 0 {
        MembersNeeded(a[1..], b, from, to, cs, h);
        RemovalNeeded(a[0], from, to, cs);
      } else {
        MembersNeeded(a, b[1..], from, to, cs, h);
        NewHeight(b[0].item, cs);
        AdditionNeeded(b[0], from, to, cs);
      }
    }
  }

  lemma RemovalNeeded(x: Entry<Json>, from: seq<Entry<Json>>, to: seq<Entry<Json>>, cs: bool)
    requires x in from && KeyOf(cs, x.key) !in Keys(to, cs)
    ensures Needed(Step(REMOVE, Slash(Encode(x.key)), None), Object(from), Object(to), cs)
  {
  }

  lemma AdditionNeeded(y: Entry<Json>, from: seq<Entry<Json>>, to: seq<Entry<Json>>, cs: bool)
    requires y in to && KeyOf(cs, y.key) !in Keys(from, cs) && Height(y.item) <= 10000
    ensures Needed(Step(ADD, Slash(Encode(y.key)), Duplicate(y.item, 0)), Object(from), Object(to), cs)
  {
    DuplicateIsCopy(y.item, 0);
  }

  lemma {:induction false} PairNeeded(x: Entry<Json>, y: Entry<Json>, from: seq<Entry<Json>>, to: seq<Entry<Json>>, cs: bool, h: nat)
    requires x in from && y in to && KeyOf(cs, x.key) == KeyOf(cs, y.key)
    requires DistinctTree(x.item, cs) && New(y.item, cs) && Height(x.item) < h
    ensures AllNeeded(Prefixed(Slash(Encode(x.key)), Steps(x.item, y.item, cs)), Object(from), Object(to), cs)
    decreases h, 0
  {
    hide Steps, NeededBelow, New, DistinctTree, Height;
    StepsNeeded(x.item, y.item, cs);
    PrefixedNeeded(Encode(x.key), Steps(x.item, y.item, cs), x.item, y.item, cs);
  }

  // --- Documents ------------------------------------------------------------------------

  /** Every generated operation is one that a difference calls for. */
  lemma {:induction false} StepsNeeded(from: Json, to: Json, cs: bool)
    requires DistinctTree(from, cs) && New(to, cs)
    ensures AllNeeded(Steps(from, to, cs), from, to, cs)
    decreases Height(from), 2
  {
    if Replaces(from, to) {
      ReplacedSteps(from, to, cs);
    } else {
      match from
      case Array(items) =>
        assert items[0..] == items && to.items[0..] == to.items;
        NewItemsOf(to.items, cs);
        ItemsNeeded(0, items, to.items, cs, Height(from));
      case Object(ms) =>
        SortMembers(ms, cs);
        NewMembersOf(to.members, cs);
        WalkBegins(ms, to.members, cs);
        MembersNeeded(Sort(ms, cs), Sort(to.members, cs), ms, to.members, cs, Height(from));
      case _ =>
    }
  }

  lemma NewItemsOf(items: seq<Json>, cs: bool)
    requires New(Array(items), cs)
    ensures forall x | x in items :: New(x, cs)
  {
  }

  lemma NewMembersOf(ms: seq<Entry<Json>>, cs: bool)
    requires New(Object(ms), cs)
    ensures Distinct(ms, cs) && NewMembers(ms, cs)
  {
  }

  lemma WalkBegins(from: seq<Entry<Json>>, to: seq<Entry<Json>>, cs: bool)
    requires Distinct(from, cs) && Distinct(to, cs)
    ensures Walking(Sort(from, cs), Sort(to, cs), from, to, cs)
  {
    hide Sort, Ascending, Distinct, Keys;
    SortedPart(from, cs);
    SortedPart(to, cs);
  }

  lemma SortedPart(ms: seq<Entry<Json>>, cs: bool)
    requires Distinct(ms, cs)
    ensures Ascending(Sort(ms, cs), cs) && Part(Sort(ms, cs), ms) && Keys(Sort(ms, cs), cs) == Keys(ms, cs)
  {
    hide Sort, Ascending, Distinct, Keys;
    SortedMembers(ms, cs);
    forall x | x in Sort(ms, cs) ensures x in ms {
      SortMember(ms, cs, x);
    }
  }

  // --- Documents that are alike -----------------------------------------------------------

  /** Two members of one name mean what the maps have for it. */
  lemma MembersAlike(from: seq<Entry<Json>>, to: seq<Entry<Json>>, x: Entry<Json>, y: Entry<Json>, cs: bool)
    requires Distinct(from, cs) && Distinct(to, cs) && MapOf(from, cs) == MapOf(to, cs)
    requires x in from && y in to && KeyOf(cs, x.key) == KeyOf(cs, y.key)
    ensures Meaning(x.item, cs) == Meaning(y.item, cs)
  {
    hide Distinct, MapOf, KeyOf, Meaning;
    InMap(from, x, cs);
    InMap(to, y, cs);
  }

  lemma InMap(ms: seq<Entry<Json>>, x: Entry<Json>, cs: bool)
    requires Distinct(ms, cs) && x in ms
    ensures KeyOf(cs, x.key) in MapOf(ms, cs) && MapOf(ms, cs)[KeyOf(cs, x.key)] == Meaning(x.item, cs)
  {
    hide Distinct, MapOf, KeyOf, Meaning;
    var i :| 0 <= i < |ms| && ms[i] == x;
    DistinctIndexOf(ms, i, cs);
    MapOfIndexOf(ms, x.key, cs);
  }

  lemma {:induction false} NoneNeededBelow(s: Step, token: CString, from: Json, to: Json, cs: bool)
    requires DistinctTree(from, cs) && DistinctTree(to, cs) && Meaning(from, cs) == Meaning(to, cs)
    ensures !NeededBelow(s, token, from, to, cs)
    decreases from, 1
  {
    forall rest: CString ensures !Needed(s.(path := rest), from, to, cs) {
      NoneNeeded(s.(path := rest), from, to, cs);
    }
    hide Needed;
  }

  lemma {:induction false} NoneNeeded(s: Step, from: Json, to: Json, cs: bool)
    requires DistinctTree(from, cs) && DistinctTree(to, cs) && Meaning(from, cs) == Meaning(to, cs)
    ensures !Needed(s, from, to, cs)
    decreases from, 0
  {
    match from {
      case Array(items) =>
        forall i | 0 <= i < |items| && i < |to.items| ensures !NeededBelow(s, Decimal(i), items[i], to.items[i], cs) {
          assert items[i] in items && to.items[i] in to.items;
          NoneNeededBelow(s, Decimal(i), items[i], to.items[i], cs);
        }
        hide NeededBelow, DistinctTree, Decimal, Slash;
      case Object(ms) =>
        forall x, y | x in ms && y in to.members && KeyOf(cs, x.key) == KeyOf(cs, y.key)
          ensures !NeededBelow(s, Encode(x.key), x.item, y.item, cs)
        {
          MembersAlike(ms, to.members, x, y, cs);
          NoneNeededBelow(s, Encode(x.key), x.item, y.item, cs);
        }
        ObjectsAlike(s, ms, to.members, cs);
      case _ =>
        hide NeededBelow, Decimal, Slash;
    }
  }

  lemma ObjectsAlike(s: Step, from: seq<Entry<Json>>, to: seq<Entry<Json>>, cs: bool)
    requires MapOf(from, cs) == MapOf(to, cs)
    requires forall x, y | x in from && y in to && KeyOf(cs, x.key) == KeyOf(cs, y.key) ::
      !NeededBelow(s, Encode(x.key), x.item, y.item, cs)
    ensures !Needed(s, Object(from), Object(to), cs)
  {
    SameNames(from, to, cs);
    hide NeededBelow, KeyOf, Keys, Encode, Decimal, Slash, MapOf;
  }

  lemma SameNames(from: seq<Entry<Json>>, to: seq<Entry<Json>>, cs: bool)
    requires MapOf(from, cs) == MapOf(to, cs)
    ensures forall x | x in from :: KeyOf(cs, x.key) in Keys(to, cs)
    ensures forall y | y in to :: KeyOf(cs, y.key) in Keys(from, cs)
  {
    hide MapOf;
    MapOfKeys(from, cs);
    MapOfKeys(to, cs);
    NamesAreKeys(from, cs);
    NamesAreKeys(to, cs);
  }

  lemma NamesAreKeys(ms: seq<Entry<Json>>, cs: bool)
    ensures forall x | x in ms :: KeyOf(cs, x.key) in Keys(ms, cs)
  {
    forall x | x in ms ensures KeyOf(cs, x.key) in Keys(ms, cs) {
      var i :| 0 <= i < |ms| && ms[i] == x;
      KeyInKeys(ms, i, cs);
    }
  }

  /** Between documents that are alike up to the order of members there is no operation. */
  lemma AlikeNeedsNothing(from: Json, to: Json, cs: bool)
    requires DistinctTree(from, cs) && New(to, cs) && Meaning(from, cs) == Meaning(to, cs)
    ensures Steps(from, to, cs) == []
  {
    hide Steps, Needed;
    StepsNeeded(from, to, cs);
    var steps := Steps(from, to, cs);
    if steps != [] {
      assert steps[0] in steps;
      NoneNeeded(steps[0], from, to, cs);
    }
  }
}
