/**
 The read planner: the ranges of all readable variables, sorted, are packed
 greedily into requests. The plan is legal, complete and has the fewest possible
 requests.
 */
module ReadPlan {
  import opened Sequences
  import opened Modbus

  // --- Sorting -------------------------------------------------------------------

  /** `compare_modbus_read_ranges`. */
  function Compare(a: Range, b: Range): int
  {
    if a.kind != b.kind then Rank(a.kind) - Rank(b.kind)
    else if a.start != b.start then a.start - b.start
    else a.end - b.end
  }

  predicate Leq(a: Range, b: Range)
  {
    Compare(a, b) <= 0
  }

  /** By type, then by the first address, then by the last. */
  lemma LeqMeans(a: Range, b: Range)
    ensures Leq(a, b) <==>
              ReadsBefore(a.kind, b.kind)
              || (a.kind == b.kind && (a.start < b.start || (a.start == b.start && a.end <= b.end)))
  {
  }

  ghost predicate Sorted(s: seq<Range>)
  {
    forall i, j :: 0 <= i < j < |s| ==> Leq(s[i], s[j])
  }

  /** The first of a sorted list is the least of any permutation of it. */
  lemma LeastFirst(s: seq<Range>, t: seq<Range>)
    requires Sorted(s) && multiset(s) == multiset(t) && t != []
    ensures s != [] && Leq(s[0], t[0])
  {
    assert t[0] in multiset(s);
    var i :| 0 <= i < |s| && s[i] == t[0];
    assert i == 0 || Leq(s[0], s[i]);
  }

  /** The order is total: there is one sorted list of the same ranges, whatever `qsort` does inside. */
  lemma {:induction false} SortedUnique(s: seq<Range>, t: seq<Range>)
    requires Sorted(s) && Sorted(t) && multiset(s) == multiset(t)
    ensures s == t
    decreases |s|
  {
    assert |multiset(s)| == |s| && |multiset(t)| == |t|;
    if s != [] {
      LeastFirst(s, t);
      LeastFirst(t, s);
      hide Sorted, Leq;
      SameRest(s, t);
      SortedUnique(s[1..], t[1..]);
      assert s == [s[0]] + s[1..] && t == [t[0]] + t[1..];
    }
  }

  lemma SameRest(s: seq<Range>, t: seq<Range>)
    requires multiset(s) == multiset(t) && s != [] && t != [] && s[0] == t[0]
    ensures multiset(s[1..]) == multiset(t[1..])
  {
    MultisetHead(s);
    MultisetHead(t);
    assert multiset(s[1..]) == multiset(s) - multiset{s[0]};
  }

  function Insert(s: seq<Range>, r: Range): seq<Range>
  {
    if s == [] || Leq(r, s[0]) then [r] + s else [s[0]] + Insert(s[1..], r)
  }

  /** The ranges in order. */
  function InOrder(s: seq<Range>): seq<Range>
  {
    if s == [] then [] else Insert(InOrder(s[1..]), s[0])
  }

  lemma {:induction false} InsertPermutes(s: seq<Range>, r: Range)
    ensures multiset(Insert(s, r)) == multiset(s) + multiset{r}
  {
    hide Leq;
    if s != [] && !Leq(r, s[0]) {
      InsertPermutes(s[1..], r);
      MultisetHead(s);
    }
  }

  lemma {:induction false} InsertSorts(s: seq<Range>, r: Range)
    requires Sorted(s)
    ensures Sorted(Insert(s, r))
  {
    if s != [] && !Leq(r, s[0]) {
      InsertSorts(s[1..], r);
      InsertPermutes(s[1..], r);
      forall x | x in Insert(s[1..], r) ensures Leq(s[0], x) {
        assert x in multiset(Insert(s[1..], r));
      }
    } else {
      forall x | x in s ensures Leq(r, x) {
        var i :| 0 <= i < |s| && s[i] == x;
        assert i == 0 || Leq(s[0], s[i]);
      }
    }
  }

  lemma {:induction false} InOrderSorts(s: seq<Range>)
    ensures Sorted(InOrder(s)) && multiset(InOrder(s)) == multiset(s)
  {
    if s != [] {
      InOrderSorts(s[1..]);
      InsertSorts(InOrder(s[1..]), s[0]);
      InsertPermutes(InOrder(s[1..]), s[0]);
      assert s == [s[0]] + s[1..];
    }
  }

  // --- Packing ---------------------------------------------------------------------

  /** The ranges packed into one request: the first of them, and the last address of all. */
  datatype Group = Group(first: Range, end: int)

  /** `fits_in_block`. */
  predicate Fits(first: Range, r: Range)
  {
    r.kind == first.kind && r.end - first.start + 1 <= MaxCount(first.kind)
  }

  function Later(a: int, b: int): int
  {
    if b > a then b else a
  }

  /** The loop over the sorted ranges. */
  function Groups(g: Group, rest: seq<Range>): (gs: seq<Group>)
    ensures gs != []
    decreases |rest|
  {
    if rest == [] then [g]
    else if Fits(g.first, rest[0]) then Groups(Group(g.first, Later(g.end, rest[0].end)), rest[1..])
    else [g] + Groups(Group(rest[0], rest[0].end), rest[1..])
  }

  function BlockOf(g: Group): Block
  {
    Block(g.first.kind, g.first.start, g.end - g.first.start + 1)
  }

  function BlocksOf(gs: seq<Group>): (bs: seq<Block>)
    ensures |bs| == |gs| && forall i :: 0 <= i < |gs| ==> bs[i] == BlockOf(gs[i])
  {
    seq(|gs|, i requires 0 <= i < |gs| => BlockOf(gs[i]))
  }

  /** The plan for a sorted list of ranges. */
  function Plan(s: seq<Range>): seq<Block>
  {
    if s == [] then [] else BlocksOf(Groups(Group(s[0], s[0].end), s[1..]))
  }

  /** A range as variables have it. */
  predicate Readable(r: Range)
  {
    && r.kind != UnknownRegister && 0 <= r.start <= r.end
    && r.end - r.start + 1 <= if IsBits(r.kind) then 1 else 4
  }

  ghost predicate AllReadable(s: seq<Range>)
  {
    forall r | r in s :: Readable(r)
  }

  ghost predicate Legal(g: Group, s: seq<Range>)
  {
    && g.first in s && Readable(g.first)
    && g.first.end <= g.end <= g.first.start + MaxCount(g.first.kind) - 1
    && exists r | r in s :: r.kind == g.first.kind && r.end == g.end
  }

  ghost predicate AllLegal(gs: seq<Group>, s: seq<Range>)
  {
    forall h | h in gs :: Legal(h, s)
  }

  /** Some request delivers the range. */
  ghost predicate Delivered(r: Range, bs: seq<Block>)
  {
    exists i :: 0 <= i < |bs| && Holds(bs[i], r)
  }

  lemma DeliveredAfter(r: Range, g: Group, gs: seq<Group>)
    ensures Holds(BlockOf(g), r) ==> Delivered(r, BlocksOf([g] + gs))
    ensures Delivered(r, BlocksOf(gs)) ==> Delivered(r, BlocksOf([g] + gs))
  {
    var all := BlocksOf([g] + gs);
    if Holds(BlockOf(g), r) {
      assert Holds(all[0], r);
    }
    if Delivered(r, BlocksOf(gs)) {
      var i :| 0 <= i < |gs| && Holds(BlocksOf(gs)[i], r);
      assert all[i + 1] == BlockOf(gs[i]);
      assert Holds(all[i + 1], r);
    }
  }

  /** Groups are legal. */
  lemma {:induction false} GroupsLegal(g: Group, rest: seq<Range>, s: seq<Range>)
    requires AllReadable(s) && Legal(g, s) && Sorted([g.first] + rest) && forall r | r in rest :: r in s
    ensures AllLegal(Groups(g, rest), s)
    decreases |rest|
  {
    if rest != [] {
      var h := Next(g, rest[0]);
      assert rest[0] in s && Leq(([g.first] + rest)[0], ([g.first] + rest)[1]);
      SortedTail(g.first, h.first, rest);
      GroupsLegal(h, rest[1..], s);
    }
  }

  /** The group that is being filled after a range has been dealt with. */
  function Next(g: Group, r: Range): Group
  {
    if Fits(g.first, r) then Group(g.first, Later(g.end, r.end)) else Group(r, r.end)
  }

  /** No range is left out of the groups, nor one that the group being filled has already. */
  lemma {:induction false} GroupsComplete(g: Group, rest: seq<Range>, r: Range)
    requires AllReadable([g.first] + rest) && Sorted([g.first] + rest)
    requires Holds(BlockOf(g), r) || r in rest
    ensures Delivered(r, BlocksOf(Groups(g, rest)))
    decreases |rest|
  {
    if rest == [] {
      assert Holds(BlocksOf([g])[0], r);
    } else {
      var h, all := Next(g, rest[0]), [g.first] + rest;
      assert all[1] in all && Leq(all[0], all[1]);
      SortedTail(g.first, h.first, rest);
      assert forall x | x in [h.first] + rest[1..] :: x in all;
      if Fits(g.first, rest[0]) {
        GroupsComplete(h, rest[1..], r);
      } else {
        DeliveredAfter(r, g, Groups(h, rest[1..]));
        if !Holds(BlockOf(g), r) {
          GroupsComplete(h, rest[1..], r);
        }
      }
    }
  }

  lemma SortedTail(first: Range, next: Range, rest: seq<Range>)
    requires rest != [] && Sorted([first] + rest) && (next == first || next == rest[0])
    ensures Sorted([next] + rest[1..])
  {
    var s, t := [first] + rest, [next] + rest[1..];
    forall i, j | 0 <= i < j < |t| ensures Leq(t[i], t[j]) {
      assert t[j] == s[j + 1];
      assert t[i] == (if i == 0 && next == first then s[0] else s[i + 1]);
    }
  }

  // --- No two first ranges can share a request ------------------------------------------

  /** No request within the limit holds both ranges. */
  predicate Apart(a: Range, b: Range)
  {
    a.kind != b.kind || b.end - a.start + 1 > MaxCount(a.kind)
  }

  /** Neighbouring groups: the first range of the next does not fit into this one, and starts close to the limit at the earliest. */
  predicate Follows(a: Group, b: Group)
  {
    Apart(a.first, b.first) && Leq(a.first, b.first)
  }

  lemma {:induction false} GroupsFollow(g: Group, rest: seq<Range>)
    requires Sorted([g.first] + rest)
    ensures var gs := Groups(g, rest);
      gs[0].first == g.first && forall i :: 0 <= i < |gs| - 1 ==> Follows(gs[i], gs[i + 1])
    decreases |rest|
  {
    if rest != [] {
      var r := rest[0];
      assert Leq(([g.first] + rest)[0], ([g.first] + rest)[1]);
      var h := if Fits(g.first, r) then Group(g.first, Later(g.end, r.end)) else Group(r, r.end);
      SortedTail(g.first, h.first, rest);
      GroupsFollow(h, rest[1..]);
    }
  }

  /** First ranges are pairwise apart, not only neighbours. */
  lemma {:induction false} AllApart(gs: seq<Group>, i: nat, j: nat)
    requires forall k :: 0 <= k < |gs| - 1 ==> Follows(gs[k], gs[k + 1])
    requires forall g | g in gs :: Readable(g.first)
    requires i < j < |gs|
    ensures Leq(gs[i].first, gs[j].first) && Apart(gs[i].first, gs[j].first)
    ensures gs[i].first.kind == gs[j].first.kind ==>
      gs[j].first.start - gs[i].first.start >= MaxCount(gs[i].first.kind) - 3
    decreases j
  {
    var a, c := gs[i].first, gs[j].first;
    assert gs[i] in gs && gs[j] in gs;
    assert Follows(gs[j - 1], gs[j]);
    if a.kind == c.kind && i == j - 1 {
    }
    if i < j - 1 {
      var b := gs[j - 1].first;
      assert gs[j - 1] in gs;
      AllApart(gs, i, j - 1);
      if a.kind == c.kind {
      }
    }
  }

  // --- The plan ------------------------------------------------------------------------

  /** A request within the limit that begins where a range begins and ends where a range ends. */
  ghost predicate LegalRequest(b: Block, s: seq<Range>)
  {
    && 1 <= b.count && b.kind != UnknownRegister && WithinLimit(b)
    && (exists r | r in s :: r.kind == b.kind && r.start == b.start)
    && (exists r | r in s :: r.kind == b.kind && r.end == b.start + b.count - 1)
  }

  /**
   An earlier and a later request: the types come in order; of one type they start as
   far apart as the limit allows, and share no bits and at most three registers.
   */
  predicate Spaced(a: Block, b: Block)
  {
    || ReadsBefore(a.kind, b.kind)
    || (a.kind == b.kind
        && if a.kind == DiscreteInput || a.kind == Coil then b.start - a.start >= 2000 && a.start + a.count <= b.start
           else b.start - a.start >= 122 && a.start + a.count <= b.start + 3)
  }

  /** Every range lies in a request of its type. */
  lemma PlanIsComplete(s: seq<Range>, r: Range)
    requires Sorted(s) && AllReadable(s) && r in s
    ensures Delivered(r, Plan(s))
  {
    assert r in [s[0]] + s[1..];
    GroupsComplete(Group(s[0], s[0].end), s[1..], r);
  }

  /** The groups behind a plan. */
  lemma PlanGroups(s: seq<Range>) returns (gs: seq<Group>)
    requires Sorted(s) && AllReadable(s)
    ensures Plan(s) == BlocksOf(gs) && AllLegal(gs, s)
    ensures forall k :: 0 <= k < |gs| - 1 ==> Follows(gs[k], gs[k + 1])
    ensures forall g | g in gs :: Readable(g.first) && g.first in s
  {
    if s == [] {
      gs := [];
      assert BlocksOf([]) == [];
    } else {
      var g := Group(s[0], s[0].end);
      gs := Groups(g, s[1..]);
      GroupsLegal(g, s[1..], s);
      GroupsFollow(g, s[1..]);
      forall h | h in gs ensures Readable(h.first) && h.first in s {
        assert Legal(h, s);
      }
    }
  }

  /**
   Every request is within the limit and exact at both ends; starts of requests
   of one type increase by at least the limit less three.
   */
  lemma PlanIsLegal(s: seq<Range>)
    requires Sorted(s) && AllReadable(s)
    ensures forall b | b in Plan(s) :: LegalRequest(b, s)
    ensures forall i, j :: 0 <= i < j < |Plan(s)| ==> Spaced(Plan(s)[i], Plan(s)[j])
  {
    var gs := PlanGroups(s);
    var bs := Plan(s);
    forall b | b in bs ensures LegalRequest(b, s) {
      var i :| 0 <= i < |bs| && bs[i] == b;
      assert gs[i] in gs && Legal(gs[i], s);
    }
    forall i, j | 0 <= i < j < |bs| ensures Spaced(bs[i], bs[j]) {
      assert gs[i] in gs && gs[j] in gs && Legal(gs[i], s) && Legal(gs[j], s);
      AllApart(gs, i, j);
      if bs[i].kind == bs[j].kind {
      }
    }
  }

  // --- No plan is shorter -----------------------------------------------------------------

  ghost predicate PairwiseApart(rs: seq<Range>)
  {
    forall i, j :: 0 <= i < j < |rs| ==> Apart(rs[i], rs[j]) && Leq(rs[i], rs[j])
  }

  ghost predicate WithinLimits(bs: seq<Block>)
  {
    forall i :: 0 <= i < |bs| ==> WithinLimit(bs[i])
  }

  function Without(bs: seq<Block>, i: nat): (r: seq<Block>)
    requires i < |bs|
    ensures |r| == |bs| - 1
    ensures forall k :: 0 <= k < |r| ==> r[k] == bs[if k < i then k else k + 1]
  {
    bs[..i] + bs[i + 1..]
  }

  /** Ranges that are pairwise apart need a request each. */
  lemma {:induction false} OneEach(rs: seq<Range>, bs: seq<Block>)
    requires PairwiseApart(rs) && WithinLimits(bs) && forall r | r in rs :: Delivered(r, bs)
    ensures |rs| <= |bs|
    decreases |rs|
  {
    if rs != [] {
      assert rs[0] in rs;
      var i :| 0 <= i < |bs| && Holds(bs[i], rs[0]);
      var rest := Without(bs, i);
      forall r | r in rs[1..] ensures Delivered(r, rest) {
        var k :| 0 <= k < |rs[1..]| && rs[1..][k] == r;
        assert rs[k + 1] == r && Apart(rs[0], rs[k + 1]) && r in rs;
        var j :| 0 <= j < |bs| && Holds(bs[j], r);
        assert Holds(rest[if j < i then j else j - 1], r);
      }
      OneEach(rs[1..], rest);
    }
  }

  /**
   No set of requests within the limits that delivers every range whole has fewer
   requests than the plan.
   */
  lemma PlanIsMinimal(s: seq<Range>, bs: seq<Block>)
    requires Sorted(s) && AllReadable(s)
    requires WithinLimits(bs) && forall r | r in s :: Delivered(r, bs)
    ensures |Plan(s)| <= |bs|
  {
    var gs := PlanGroups(s);
    var rs := seq(|gs|, i requires 0 <= i < |gs| => gs[i].first);
    forall i, j | 0 <= i < j < |rs| ensures Apart(rs[i], rs[j]) && Leq(rs[i], rs[j]) {
      AllApart(gs, i, j);
    }
    forall r | r in rs ensures Delivered(r, bs) {
      var i :| 0 <= i < |rs| && rs[i] == r;
      assert gs[i] in gs;
    }
    OneEach(rs, bs);
  }

  // --- Collecting the ranges ---------------------------------------------------------------

  function PointRanges(points: seq<Point>): seq<Range>
  {
    if points == [] then []
    else (if Planned(points[0]) then [RangeOf(points[0])] else []) + PointRanges(points[1..])
  }

  function DeviceRanges(devices: seq<seq<Point>>): seq<Range>
  {
    if devices == [] then [] else PointRanges(devices[0]) + DeviceRanges(devices[1..])
  }

  lemma {:induction false} PointRangesAppend(points: seq<Point>, p: Point)
    ensures PointRanges(points + [p]) == PointRanges(points) + if Planned(p) then [RangeOf(p)] else []
  {
    if points == [] {
      assert points + [p] == [p] && [p][1..] == [];
    } else {
      PointRangesAppend(points[1..], p);
      assert (points + [p])[1..] == points[1..] + [p];
    }
  }

  lemma {:induction false} DeviceRangesAppend(devices: seq<seq<Point>>, d: seq<Point>)
    ensures DeviceRanges(devices + [d]) == DeviceRanges(devices) + PointRanges(d)
  {
    hide PointRanges;
    if devices == [] {
      assert devices + [d] == [d] && [d][1..] == [];
    } else {
      DeviceRangesAppend(devices[1..], d);
      assert (devices + [d])[1..] == devices[1..] + [d];
      hide DeviceRanges;
      AppendAssociates(PointRanges(devices[0]), DeviceRanges(devices[1..]), PointRanges(d));
    }
  }

  lemma {:induction false} PointRangesAre(points: seq<Point>)
    ensures AllReadable(PointRanges(points))
    ensures forall p | p in points && Planned(p) :: RangeOf(p) in PointRanges(points)
  {
    if points != [] {
      PointRangesAre(points[1..]);
    }
  }

  lemma {:induction false} DeviceRangesReadable(devices: seq<seq<Point>>)
    ensures AllReadable(DeviceRanges(devices))
  {
    hide PointRanges, Readable;
    if devices != [] {
      PointRangesAre(devices[0]);
      DeviceRangesReadable(devices[1..]);
    }
  }

  lemma {:induction false} DeviceRangesInclude(devices: seq<seq<Point>>, d: seq<Point>, p: Point)
    requires d in devices && p in d && Planned(p)
    ensures RangeOf(p) in DeviceRanges(devices)
  {
    hide PointRanges, Planned, RangeOf;
    if d == devices[0] {
      PointRangesAre(d);
    } else {
      DeviceRangesInclude(devices[1..], d, p);
    }
  }

  /** The plan for the variables of all devices. */
  function PlanFor(devices: seq<seq<Point>>): seq<Block>
  {
    Plan(InOrder(DeviceRanges(devices)))
  }

  lemma InOrderReadable(s: seq<Range>)
    requires AllReadable(s)
    ensures Sorted(InOrder(s)) && AllReadable(InOrder(s)) && forall r :: r in s <==> r in InOrder(s)
  {
    InOrderSorts(s);
    forall r ensures r in s <==> r in InOrder(s) {
      assert r in multiset(s) <==> r in multiset(InOrder(s));
    }
  }

  /** Every variable that can be read is delivered whole by one request of its type. */
  lemma EveryPointDelivered(devices: seq<seq<Point>>, d: seq<Point>, p: Point)
    requires d in devices && p in d && Planned(p)
    ensures Delivered(RangeOf(p), PlanFor(devices))
  {
    var ranges := DeviceRanges(devices);
    DeviceRangesReadable(devices);
    DeviceRangesInclude(devices, d, p);
    InOrderReadable(ranges);
    PlanIsComplete(InOrder(ranges), RangeOf(p));
  }

  /** Some request reads the variable. */
  ghost predicate IsRead(p: Point, bs: seq<Block>)
  {
    exists i :: 0 <= i < |bs| && Reads(bs[i], p)
  }

  lemma DeliveredIsRead(p: Point, bs: seq<Block>)
    requires Planned(p)
    ensures Delivered(RangeOf(p), bs) <==> IsRead(p, bs)
  {
    hide Reads, Holds, Planned;
    forall i | 0 <= i < |bs| ensures Holds(bs[i], RangeOf(p)) <==> Reads(bs[i], p) {
      PlannedMeans(p, bs[i]);
    }
  }

  /** The requests read every variable that can be read. */
  ghost predicate ReadAll(devices: seq<seq<Point>>, bs: seq<Block>)
  {
    forall d, p | d in devices && p in d && Wanted(p) :: IsRead(p, bs)
  }

  /**
   The plan for all devices reads every variable that can be read, with requests
   within the limits, and no requests within the limits that do so are fewer.
   */
  lemma PlanForDevices(devices: seq<seq<Point>>, bs: seq<Block>)
    ensures ReadAll(devices, PlanFor(devices)) && WithinLimits(PlanFor(devices))
    ensures forall b | b in PlanFor(devices) :: 1 <= b.count && b.kind != UnknownRegister && b.start >= 0
    ensures forall i, j :: 0 <= i < j < |PlanFor(devices)| ==> Spaced(PlanFor(devices)[i], PlanFor(devices)[j])
    ensures WithinLimits(bs) && ReadAll(devices, bs) ==> |PlanFor(devices)| <= |bs|
  {
    var ranges := DeviceRanges(devices);
    var s := InOrder(ranges);
    DeviceRangesReadable(devices);
    InOrderReadable(ranges);
    PlanIsLegal(s);
    hide Wanted, Planned, IsRead, Delivered;
    forall b | b in PlanFor(devices) ensures b.start >= 0 && WithinLimit(b) {
      assert LegalRequest(b, s);
    }
    forall d, p | d in devices && p in d && Wanted(p) ensures IsRead(p, PlanFor(devices)) {
      PlannedMeans(p, Block(p.kind, 0, 0));
      EveryPointDelivered(devices, d, p);
      DeliveredIsRead(p, PlanFor(devices));
    }
    if WithinLimits(bs) && ReadAll(devices, bs) {
      forall r | r in s ensures Delivered(r, bs) {
        var d, p := OriginOf(devices, r);
        PlannedMeans(p, Block(p.kind, 0, 0));
        DeliveredIsRead(p, bs);
      }
      PlanIsMinimal(s, bs);
    }
  }

  lemma {:induction false} PointOf(points: seq<Point>, r: Range) returns (p: Point)
    requires r in PointRanges(points)
    ensures p in points && Planned(p) && RangeOf(p) == r
  {
    if Planned(points[0]) && RangeOf(points[0]) == r {
      p := points[0];
    } else {
      p := PointOf(points[1..], r);
    }
  }

  lemma {:induction false} OriginOf(devices: seq<seq<Point>>, r: Range) returns (d: seq<Point>, p: Point)
    requires r in DeviceRanges(devices)
    ensures d in devices && p in d && Planned(p) && RangeOf(p) == r
  {
    if r in PointRanges(devices[0]) {
      d := devices[0];
      p := PointOf(d, r);
    } else {
      d, p := OriginOf(devices[1..], r);
    }
  }

  // --- The builder -----------------------------------------------------------------------------

  /** A span cut into requests, as the loop of `flush_modbus_read_range` cuts it. */
  function Cut(kind: RegisterType, start: int, end: int): seq<Block>
    requires MaxCount(kind) > 0
    decreases end - start + 1
  {
    if start > end then []
    else
      var count := if end - start + 1 > MaxCount(kind) then MaxCount(kind) else end - start + 1;
      [Block(kind, start, count)] + Cut(kind, start + count, end)
  }

  class ModbusReadPlan {
    var blocks: array<Block>
    var blockCount: nat
    var blockCapacity: nat

    constructor ()
      ensures Valid() && Contents() == [] && fresh(blocks)
    {
      blocks := new Block[0];
      blockCount, blockCapacity := 0, 0;
    }

    ghost predicate Valid()
      reads this
    {
      blockCount <= blockCapacity == blocks.Length
    }

    ghost function Contents(): (s: seq<Block>)
      reads this, blocks
      requires Valid()
    {
      blocks[..blockCount]
    }

    /** `free_modbus_read_plan`. */
    method Clear()
      modifies this
      ensures Valid() && Contents() == [] && fresh(blocks)
    {
      blocks := new Block[0];
      blockCount, blockCapacity := 0, 0;
    }

    /** `append_modbus_read_block`, which refuses empty requests and doubles the array when it is full. */
    method Append(kind: RegisterType, start: int, count: int) returns (ok: bool)
      requires Valid()
      modifies this, blocks
      ensures Valid() && (blocks == old(blocks) || fresh(blocks))
      ensures ok == (count > 0)
      ensures Contents() == old(Contents()) + if ok then [Block(kind, start, count)] else []
      ensures blockCapacity == if !ok || old(blockCount < blockCapacity) then old(blockCapacity)
                               else if old(blockCapacity) == 0 then 16 else 2 * old(blockCapacity)
    {
      if count <= 0 {
        return false;
      }
      if blockCount >= blockCapacity {
        var newCapacity := if blockCapacity == 0 then 16 else blockCapacity * 2;
        var newBlocks := new Block[newCapacity](_ => Block(UnknownRegister, 0, 0));
        var i := 0;
        while i < blockCount
          invariant 0 <= i <= blockCount && newBlocks[..i] == blocks[..i]
          modifies newBlocks
        {
          newBlocks[i] := blocks[i];
          i := i + 1;
        }
        blocks, blockCapacity := newBlocks, newCapacity;
      }
      blocks[blockCount] := Block(kind, start, count);
      blockCount := blockCount + 1;
      return true;
    }

    /** `flush_modbus_read_range`. */
    method Flush(kind: RegisterType, start: int, end: int) returns (ok: bool)
      requires Valid()
      modifies this, blocks
      ensures Valid() && (blocks == old(blocks) || fresh(blocks))
      ensures ok == (MaxCount(kind) > 0 && start >= 0 && end >= start)
      ensures Contents() == old(Contents()) + if ok then Cut(kind, start, end) else []
    {
      var maxCount := MaxCount(kind);
      if maxCount <= 0 || start < 0 || end < start {
        return false;
      }
      var nextStart := start;
      ghost var goal := Contents() + Cut(kind, start, end);
      hide Cut;
      while nextStart <= end
        invariant Valid() && (blocks == old(blocks) || fresh(blocks))
        invariant goal == Contents() + Cut(kind, nextStart, end)
        decreases end - nextStart + 1
      {
        var remaining := end - nextStart + 1;
        var count := if remaining > maxCount then maxCount else remaining;
        CutStep(Contents(), kind, nextStart, end);
        ok := Append(kind, nextStart, count);
        nextStart := nextStart + count;
      }
      CutEnd(Contents(), kind, nextStart, end);
      return true;
    }
  }

  /** The requests of a span follow each other, all of them as long as the limit allows but the last. */
  lemma CutMeans(kind: RegisterType, start: int, end: int, k: nat)
    requires kind != UnknownRegister && start <= end && k < |Cut(kind, start, end)|
    ensures var m := if kind == DiscreteInput || kind == Coil then 2000 else 125;
      && Cut(kind, start, end)[k].kind == kind && Cut(kind, start, end)[k].start == start + k * m
      && if k < |Cut(kind, start, end)| - 1 then Cut(kind, start, end)[k].count == m
         else 1 <= Cut(kind, start, end)[k].count <= m && start + k * m + Cut(kind, start, end)[k].count == end + 1
  {
    CutInto(kind, start, end, k, if kind == DiscreteInput || kind == Coil then 2000 else 125);
  }

  lemma {:induction false} CutInto(kind: RegisterType, start: int, end: int, k: nat, m: nat)
    requires m == MaxCount(kind) > 0 && start <= end && k < |Cut(kind, start, end)|
    ensures var b := Cut(kind, start, end)[k];
      && b.kind == kind && b.start == start + k * m
      && if k < |Cut(kind, start, end)| - 1 then b.count == m else 1 <= b.count <= m && b.start + b.count == end + 1
    decreases end - start
  {
    if end - start + 1 <= m {
      assert Cut(kind, end + 1, end) == [];
    } else {
      var rest := Cut(kind, start + m, end);
      assert Cut(kind, start, end) == [Block(kind, start, m)] + rest;
      if k > 0 {
        CutInto(kind, start + m, end, k - 1, m);
        assert k * m == m + (k - 1) * m;
      } else {
        assert rest != [];
      }
      hide Cut, MaxCount;
    }
  }

  lemma CutStep(before: seq<Block>, kind: RegisterType, start: int, end: int)
    requires MaxCount(kind) > 0 && start <= end
    ensures var count := if end - start + 1 > MaxCount(kind) then MaxCount(kind) else end - start + 1;
      before + Cut(kind, start, end) == (before + [Block(kind, start, count)]) + Cut(kind, start + count, end)
  {
  }

  lemma CutEnd(before: seq<Block>, kind: RegisterType, start: int, end: int)
    requires MaxCount(kind) > 0 && start > end
    ensures before + Cut(kind, start, end) == before
  {
  }

  // --- Building the plan --------------------------------------------------------------------

  /** `qsort`; by `SortedUnique` nothing else can come of it. */
  method QuickSort(ranges: seq<Range>) returns (sorted: seq<Range>)
    ensures Sorted(sorted) && multiset(sorted) == multiset(ranges) && sorted == InOrder(ranges)
  {
    InOrderSorts(ranges);
    sorted := InOrder(ranges);
  }

  /** The loops over devices and their variables. */
  method CollectRanges(devices: seq<seq<Point>>) returns (ranges: seq<Range>)
    ensures ranges == DeviceRanges(devices)
  {
    ranges := [];
    var i := 0;
    assert devices[..0] == [];
    while i < |devices|
      invariant 0 <= i <= |devices| && ranges == DeviceRanges(devices[..i])
    {
      ghost var before := ranges;
      var device, j := devices[i], 0;
      assert device[..0] == [] && before + [] == before;
      while j < |device|
        invariant 0 <= j <= |device| && ranges == before + PointRanges(device[..j])
      {
        var p := device[j];
        PointRangesAppend(device[..j], p);
        assert device[..j + 1] == device[..j] + [p];
        if MaxCount(p.kind) > 0 && p.hasValue {
          var address := PduAddr(p.kind, p.reference);
          if address >= 0 {
            ranges := ranges + [Range(p.kind, address, address + PointWidth(p.kind, p.plc) - 1)];
          }
        }
        j := j + 1;
      }
      assert device[..j] == device;
      DeviceRangesAppend(devices[..i], device);
      assert devices[..i + 1] == devices[..i] + [device];
      i := i + 1;
    }
    assert devices[..i] == devices;
  }

  /** One round of the packing loop, seen from the plan that comes out. */
  lemma PlanStep(before: seq<Block>, g: Group, rest: seq<Range>)
    requires rest != []
    ensures before + BlocksOf(Groups(g, rest))
         == if Fits(g.first, rest[0]) then before + BlocksOf(Groups(Group(g.first, Later(g.end, rest[0].end)), rest[1..]))
            else (before + [BlockOf(g)]) + BlocksOf(Groups(Group(rest[0], rest[0].end), rest[1..]))
  {
    if !Fits(g.first, rest[0]) {
      var more := Groups(Group(rest[0], rest[0].end), rest[1..]);
      assert BlocksOf([g] + more) == [BlockOf(g)] + BlocksOf(more);
      AppendAssociates(before, [BlockOf(g)], BlocksOf(more));
    }
  }

  /** The group being filled, as the variables of the loop describe it. */
  ghost predicate Filling(first: Range, kind: RegisterType, start: int, end: int)
  {
    Readable(first) && first.kind == kind && first.start == start && first.end <= end <= start + MaxCount(kind) - 1
  }

  lemma FirstFills(r: Range)
    requires Readable(r)
    ensures Filling(r, r.kind, r.start, r.end)
  {
  }

  /** One request for the group being filled. Memory aside, this cannot fail. */
  method FlushGroup(plan: ModbusReadPlan, ghost first: Range, kind: RegisterType, start: int, end: int)
    requires plan.Valid() && Filling(first, kind, start, end)
    modifies plan, plan.blocks
    ensures plan.Valid() && (plan.blocks == old(plan.blocks) || fresh(plan.blocks))
    ensures plan.Contents() == old(plan.Contents()) + [BlockOf(Group(first, end))]
  {
    var ok := plan.Flush(kind, start, end);
    assert ok;
  }

  /** The packing loop of `build_modbus_read_plan`. */
  method PackRanges(plan: ModbusReadPlan, sorted: seq<Range>)
    requires plan.Valid() && plan.Contents() == [] && sorted != [] && AllReadable(sorted)
    modifies plan, plan.blocks
    ensures plan.Valid() && plan.Contents() == Plan(sorted)
  {
    hide BlocksOf, Groups, Plan, Readable, Filling;
    var currentKind, currentStart, currentEnd := sorted[0].kind, sorted[0].start, sorted[0].end;
    ghost var first := sorted[0];
    assert first in sorted;
    FirstFills(first);
    UnfoldPlan(sorted);
    var i := 1;
    while i < |sorted|
      invariant 1 <= i <= |sorted| && plan.Valid() && (plan.blocks == old(plan.blocks) || fresh(plan.blocks))
      invariant Filling(first, currentKind, currentStart, currentEnd)
      invariant Plan(sorted) == plan.Contents() + BlocksOf(Groups(Group(first, currentEnd), sorted[i..]))
    {
      var range := sorted[i];
      assert range in sorted;
      PlanStep(plan.Contents(), Group(first, currentEnd), sorted[i..]);
      StillFilling(first, currentKind, currentStart, currentEnd, range);
      FirstFills(range);
      assert sorted[i..][0] == range && sorted[i..][1..] == sorted[i + 1..];
      var maxCount := MaxCount(currentKind);
      var fitsInBlock := range.kind == currentKind && range.end - currentStart + 1 <= maxCount;
      if fitsInBlock {
        if range.end > currentEnd {
          currentEnd := range.end;
        }
      } else {
        FlushGroup(plan, first, currentKind, currentStart, currentEnd);
        currentKind, currentStart, currentEnd := range.kind, range.start, range.end;
        first := range;
      }
      i := i + 1;
    }
    LastGroup(plan.Contents(), Group(first, currentEnd), sorted[i..]);
    FlushGroup(plan, first, currentKind, currentStart, currentEnd);
  }

  lemma StillFilling(first: Range, kind: RegisterType, start: int, end: int, r: Range)
    requires Filling(first, kind, start, end)
    ensures Fits(first, r) <==> r.kind == kind && r.end - start + 1 <= MaxCount(kind)
    ensures Fits(first, r) ==> Filling(first, kind, start, Later(end, r.end))
  {
  }

  /** `build_modbus_read_plan`. */
  method BuildModbusReadPlan(plan: ModbusReadPlan, devices: seq<seq<Point>>) returns (ok: bool)
    modifies plan
    ensures ok && plan.Valid() && plan.Contents() == PlanFor(devices)
    ensures ReadAll(devices, plan.Contents()) && WithinLimits(plan.Contents())
  {
    PlanForDevices(devices, []);
    hide ReadAll, WithinLimits;
    plan.Clear();
    var ranges := CollectRanges(devices);
    DeviceRangesReadable(devices);
    InOrderReadable(ranges);
    hide InOrder, Plan;
    if ranges == [] {
      return true;
    }
    var sorted := QuickSort(ranges);
    assert |sorted| == |multiset(sorted)| == |multiset(ranges)|;
    PackRanges(plan, sorted);
    return true;
  }

  lemma UnfoldPlan(s: seq<Range>)
    requires s != []
    ensures Plan(s) == [] + BlocksOf(Groups(Group(s[0], s[0].end), s[1..]))
  {
    var bs := BlocksOf(Groups(Group(s[0], s[0].end), s[1..]));
    assert [] + bs == bs;
  }

  lemma LastGroup(before: seq<Block>, g: Group, rest: seq<Range>)
    requires rest == []
    ensures before + BlocksOf(Groups(g, rest)) == before + [BlockOf(g)]
  {
    assert BlocksOf([g]) == [BlockOf(g)];
  }
}
