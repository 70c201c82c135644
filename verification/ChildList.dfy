/**
 The doubly linked child lists of `cJSON` items on the heap: the list
 operations and the merge sort that relinks the children of an owner.

 `next` is NULL-terminated. In an intact list the `prev` of the first child
 points at the last child, which is how items are appended in constant time.
 */
module ChildList {
  import opened Bytes
  import opened Sequences
  import opened Json
  import opened MergeSort
  import opened Links

  class Node {
    const key: CString
    const value: Json
    var next: Node?
    var prev: Node?
    var child: Node?

    constructor (key: CString, value: Json)
      ensures next == null && prev == null && child == null
      ensures this.key == key && this.value == value
    {
      this.key, this.value := key, value;
      this.next, this.prev, this.child := null, null, null;
    }
  }

  // --- Shape ----------------------------------------------------------------

  ghost predicate Disjoint<T>(s: seq<T>, t: seq<T>)
  {
    forall x :: x in s ==> x !in t
  }

  /**
   `head` is the first node of a NULL-terminated list of exactly `nodes`, and
   every node but the first points back at its predecessor.
   */
  ghost predicate Linked(head: Node?, nodes: seq<Node>)
    reads set x | x in nodes
    decreases |nodes|
  {
    if nodes == [] then head == null
    else
      && head == nodes[0]
      && head !in nodes[1..]
      && (|nodes| > 1 ==> nodes[1].prev == head)
      && Linked(nodes[0].next, nodes[1..])
  }

  /** The same links, for a list that is still being built at its end. */
  ghost predicate Built(nodes: seq<Node>)
    reads set x | x in nodes
    decreases |nodes|
  {
    |nodes| > 1 ==>
      var last, before := nodes[|nodes| - 1], nodes[|nodes| - 2];
      && last !in nodes[..|nodes| - 1]
      && last.prev == before
      && before.next == last
      && Built(nodes[..|nodes| - 1])
  }

  /** The first node points back at the last. */
  ghost predicate Circular(nodes: seq<Node>)
    reads set x | x in nodes
  {
    nodes != [] ==> nodes[0].prev == nodes[|nodes| - 1]
  }

  /** The children of `parent` are exactly `nodes`, with all links intact. */
  ghost predicate Children(parent: Node, nodes: seq<Node>)
    reads parent, set x | x in nodes
  {
    && parent !in nodes
    && Linked(parent.child, nodes)
    && Circular(nodes)
  }

  /** Where the first node of a list points back. */
  ghost predicate PointsBack(nodes: seq<Node>, back: Back)
    reads set x | x in nodes
  {
    nodes != [] ==>
      match back
      case Nowhere => nodes[0].prev == null
      case At(b) => b < |nodes| && nodes[0].prev == nodes[b]
      case Elsewhere => nodes[0].prev != null && nodes[0].prev !in nodes
  }

  /** The children of `parent` are exactly `nodes`, the first of which points back anywhere. */
  ghost predicate Chained(parent: Node, nodes: seq<Node>, back: Back)
    reads parent, set x | x in nodes
  {
    && parent !in nodes
    && Linked(parent.child, nodes)
    && PointsBack(nodes, back)
  }

  /** The nodes of a list with their names, as the sort sees them. */
  ghost function Named(nodes: seq<Node>): (r: seq<Entry<Node>>)
    ensures |r| == |nodes|
    ensures forall i :: 0 <= i < |nodes| ==> r[i] == Entry(nodes[i].key, nodes[i])
  {
    seq(|nodes|, i requires 0 <= i < |nodes| => Entry(nodes[i].key, nodes[i]))
  }

  /** The merge of two lists of nodes by name. */
  ghost function MergeNodes(a: seq<Node>, b: seq<Node>, cs: bool): seq<Node>
    decreases |a| + |b|
  {
    if a == [] then b
    else if b == [] then a
    else if Less(a[0], b[0], cs) then [a[0]] + MergeNodes(a[1..], b, cs)
    else [b[0]] + MergeNodes(a, b[1..], cs)
  }

  ghost predicate Less(a: Node, b: Node, cs: bool)
  {
    Strcmp(KeyOf(cs, a.key), KeyOf(cs, b.key)) < 0
  }

  lemma {:induction false} MergeNodesNamed(a: seq<Node>, b: seq<Node>, cs: bool)
    ensures Named(MergeNodes(a, b, cs)) == Merge(Named(a), Named(b), cs)
    decreases |a| + |b|
  {
    hide KeyOf;
    var r := MergeNodes(a, b, cs);
    if a != [] && b != [] {
      if Less(a[0], b[0], cs) {
        MergeNodesNamed(a[1..], b, cs);
        assert Named(a[1..]) == Named(a)[1..];
        assert Named(r) == [Named(a)[0]] + Named(MergeNodes(a[1..], b, cs));
      } else {
        MergeNodesNamed(a, b[1..], cs);
        assert Named(b[1..]) == Named(b)[1..];
        assert Named(r) == [Named(b)[0]] + Named(MergeNodes(a, b[1..], cs));
      }
    }
  }

  method Compare(a: Node, b: Node, cs: bool) returns (difference: int)
    ensures difference < 0 <==> Less(a, b, cs)
  {
    difference := CompareStrings(a.key, b.key, cs);
  }

  // --- Sorting --------------------------------------------------------------

  /** Adds the smaller node to the end of the merged list; the unmerged rests `f` and `g` keep their links. */
  method Attach(resultTail: Node?, smaller: Node, ghost merged: seq<Node>,
                ghost first: Node?, ghost f: seq<Node>, ghost second: Node?, ghost g: seq<Node>)
    requires Built(merged) && smaller !in merged
    requires Linked(first, f) && smaller !in f && Disjoint(merged, f)
    requires Linked(second, g) && smaller !in g && Disjoint(merged, g)
    requires resultTail == if merged == [] then null else merged[|merged| - 1]
    modifies (if resultTail == null then {} else {resultTail})`next
    modifies (if resultTail == null then {} else {smaller})`prev
    ensures Built(merged + [smaller])
    ensures Linked(first, f) && Linked(second, g)
    ensures merged != [] ==> merged[0].prev == old(merged[0].prev)
    ensures resultTail != null ==> smaller.prev == resultTail && resultTail.next == smaller
  {
    assert (merged + [smaller])[..|merged|] == merged;
    if resultTail != null {
      label before:
      assert Built(merged[..|merged| - 1]);
      assert resultTail in merged;
      resultTail.next := smaller;
      smaller.prev := resultTail;
      BuiltFramed@before(merged);
    }
  }

  /** Only the link out of the last node of a list under construction may change. */
  twostate lemma BuiltFramed(nodes: seq<Node>)
    requires old(Built(nodes))
    requires forall i {:trigger nodes[i].next} :: 0 <= i < |nodes| - 1 ==> nodes[i].next == old(nodes[i].next)
    requires forall i {:trigger nodes[i].prev} :: 0 < i < |nodes| ==> nodes[i].prev == old(nodes[i].prev)
    ensures Built(nodes)
    decreases |nodes|
  {
    if |nodes| > 1 {
      var init := nodes[..|nodes| - 1];
      assert nodes[|nodes| - 2].next == old(nodes[|nodes| - 2].next);
      forall i | 0 <= i < |init| - 1 ensures init[i].next == old(init[i].next) {
        assert nodes[i].next == old(nodes[i].next);
      }
      forall i | 0 < i < |init| ensures init[i].prev == old(init[i].prev) {
        assert nodes[i].prev == old(nodes[i].prev);
      }
      BuiltFramed(init);
    }
  }

  /** How far the merge of `a` and `b` has come. */
  ghost predicate Merging(a: seq<Node>, b: seq<Node>, cs: bool, merged: seq<Node>, fa: seq<Node>, fb: seq<Node>)
  {
    && Disjoint(merged, fa) && Disjoint(merged, fb) && Disjoint(fa, fb)
    && (forall i :: 0 <= i < |merged| ==> merged[i] in a || merged[i] in b)
    && (forall i :: 0 <= i < |fa| ==> fa[i] in a)
    && (forall i :: 0 <= i < |fb| ==> fb[i] in b)
    && MergeNodes(a, b, cs) == merged + MergeNodes(fa, fb, cs)
  }

  lemma StartMerging(head: Node, a: seq<Node>, b: seq<Node>, cs: bool)
    requires Linked(head, a) && Disjoint(a, b)
    ensures Merging(a, b, cs, [], a, b) && Built([]) && a != []
  {
  }

  /** The head of `f` moves to `merged`; `g` is not concerned. */
  lemma MoveHead<T>(merged: seq<T>, f: seq<T>, g: seq<T>)
    requires f != [] && f[0] !in f[1..]
    requires Disjoint(merged, f) && Disjoint(merged, g) && Disjoint(f, g)
    ensures Disjoint(merged + [f[0]], f[1..]) && Disjoint(merged + [f[0]], g) && Disjoint(f[1..], g)
  {
    assert f[0] in f;
  }

  lemma TakeFirst(a: seq<Node>, b: seq<Node>, cs: bool, merged: seq<Node>, fa: seq<Node>, fb: seq<Node>)
    requires Merging(a, b, cs, merged, fa, fb)
    requires fa != [] && fb != [] && Less(fa[0], fb[0], cs) && fa[0] !in fa[1..]
    ensures Merging(a, b, cs, merged + [fa[0]], fa[1..], fb)
  {
    hide Disjoint, Less;
    MoveHead(merged, fa, fb);
    AppendAssociates(merged, [fa[0]], MergeNodes(fa[1..], fb, cs));
  }

  lemma TakeSecond(a: seq<Node>, b: seq<Node>, cs: bool, merged: seq<Node>, fa: seq<Node>, fb: seq<Node>)
    requires Merging(a, b, cs, merged, fa, fb)
    requires fa != [] && fb != [] && !Less(fa[0], fb[0], cs) && fb[0] !in fb[1..]
    ensures Merging(a, b, cs, merged + [fb[0]], fa, fb[1..])
  {
    hide Less;
    assert Disjoint(fb, fa) && Disjoint(fb[1..], fa) ==> Disjoint(fa, fb[1..]);
    MoveHead(merged, fb, fa);
    AppendAssociates(merged, [fb[0]], MergeNodes(fa, fb[1..], cs));
  }

  /** The state of the merge loop: what is merged, and what is left of each list. */
  ghost predicate MergeState(a: seq<Node>, b: seq<Node>, cs: bool, start: Node?, resultTail: Node?,
                             first: Node?, second: Node?, merged: seq<Node>, fa: seq<Node>, fb: seq<Node>)
    reads set x | x in merged + fa + fb
  {
    && Linked(first, fa) && Linked(second, fb) && Built(merged)
    && Merging(a, b, cs, merged, fa, fb)
    && start == (if merged == [] then null else merged[0])
    && resultTail == (if merged == [] then null else merged[|merged| - 1])
    && (fa != [] || fb != [])
    && (merged == [] ==> fa == a && fb == b)
  }

  /** One round of the merge loop. */
  method MergeStep(ghost a: seq<Node>, ghost b: seq<Node>, cs: bool, start: Node?, resultTail: Node?,
                   first: Node, second: Node, ghost merged: seq<Node>, ghost fa: seq<Node>, ghost fb: seq<Node>)
    returns (start': Node, smaller: Node, first': Node?, second': Node?,
             ghost merged': seq<Node>, ghost fa': seq<Node>, ghost fb': seq<Node>)
    requires MergeState(a, b, cs, start, resultTail, first, second, merged, fa, fb)
    modifies a`next, a`prev, b`next, b`prev
    ensures MergeState(a, b, cs, start', smaller, first', second', merged', fa', fb')
    ensures |fa'| + |fb'| < |fa| + |fb|
    ensures start' == if start != null then start else if smaller == first then first else second
    ensures start'.prev == old(start'.prev)
  {
    var difference := Compare(first, second, cs);
    smaller := if difference < 0 then first else second;
    assert resultTail != null ==> resultTail in merged;
    start' := if start == null then smaller else start;
    merged' := merged + [smaller];
    if difference < 0 {
      TakeFirst(a, b, cs, merged, fa, fb);
      fa', fb' := fa[1..], fb;
      first', second' := first.next, second;
    } else {
      TakeSecond(a, b, cs, merged, fa, fb);
      fa', fb' := fa, fb[1..];
      first', second' := first, second.next;
    }
    Attach(resultTail, smaller, merged, first', fa', second', fb');
  }

  /** The merge part of `sort_list`. */
  method MergeLists(head1: Node, head2: Node, ghost a: seq<Node>, ghost b: seq<Node>, cs: bool)
    returns (result: Node, ghost merged: seq<Node>)
    requires Linked(head1, a) && Linked(head2, b)
    requires Disjoint(a, b)
    modifies a`next, a`prev, b`next, b`prev
    ensures Linked(result, merged)
    ensures merged == MergeNodes(a, b, cs)
    ensures result == head1 || result == head2
    ensures result.prev == old(result.prev)
  {
    hide Linked, Merging, Built;
    var first: Node?, second: Node? := head1, head2;
    var resultTail: Node? := null;
    var start: Node? := null;
    merged := [];
    StartMerging(head1, a, b, cs);
    ghost var fa, fb := a, b;
    while first != null && second != null
      invariant MergeState(a, b, cs, start, resultTail, first, second, merged, fa, fb)
      invariant start == null ==> first == head1 && second == head2
      invariant start == null ==> head1.prev == old(head1.prev) && head2.prev == old(head2.prev)
      invariant start != null ==> (start == head1 || start == head2) && start.prev == old(start.prev)
      decreases |fa| + |fb|
    {
      start, resultTail, first, second, merged, fa, fb :=
        MergeStep(a, b, cs, start, resultTail, first, second, merged, fa, fb);
    }
    result := start;
    merged := FinishMerge(a, b, cs, start, resultTail, first, second, merged, fa, fb);
  }

  /** After the merge loop: the rest of the list that is left goes to the end. */
  method FinishMerge(ghost a: seq<Node>, ghost b: seq<Node>, cs: bool, start: Node, resultTail: Node,
                     first: Node?, second: Node?, ghost merged: seq<Node>, ghost fa: seq<Node>, ghost fb: seq<Node>)
    returns (ghost all: seq<Node>)
    requires MergeState(a, b, cs, start, resultTail, first, second, merged, fa, fb)
    requires first == null || second == null
    modifies a`next, a`prev, b`next, b`prev
    ensures Linked(start, all)
    ensures all == MergeNodes(a, b, cs)
    ensures start.prev == old(start.prev)
  {
    all := merged;
    if first != null {
      assert first == fa[0] && resultTail == merged[|merged| - 1];
      AppendRest(resultTail, first, merged, fa);
      all := merged + fa;
    }
    if second != null {
      assert second == fb[0] && resultTail == merged[|merged| - 1];
      AppendRest(resultTail, second, merged, fb);
      all := merged + fb;
    }
  }

  /** Links the rest of one list behind the merged part. */
  method AppendRest(resultTail: Node, rest: Node, ghost merged: seq<Node>, ghost f: seq<Node>)
    requires Built(merged) && merged != [] && resultTail == merged[|merged| - 1]
    requires Linked(rest, f) && Disjoint(merged, f)
    modifies {resultTail}`next, {rest}`prev
    ensures Linked(merged[0], merged + f)
    ensures merged[0].prev == old(merged[0].prev)
  {
    label before:
    assert Linked(rest.next, f[1..]);
    assert resultTail in merged && rest in f;
    resultTail.next := rest;
    rest.prev := resultTail;
    BuiltFramed@before(merged);
    JoinBuilt(merged, rest, f);
  }

  lemma {:induction false} JoinBuilt(merged: seq<Node>, rest: Node?, f: seq<Node>)
    requires Built(merged) && merged != [] && Linked(rest, f) && Disjoint(merged, f)
    requires merged[|merged| - 1].next == rest
    requires rest != null ==> rest.prev == merged[|merged| - 1]
    ensures Linked(merged[0], merged + f)
    decreases |merged|
  {
    var init, last := merged[..|merged| - 1], merged[|merged| - 1];
    assert last in merged;
    assert ([last] + f)[1..] == f;
    assert Linked(last, [last] + f);
    if init == [] {
      assert merged + f == [last] + f;
    } else {
      assert forall x :: x in init ==> x in merged;
      JoinBuilt(init, last, [last] + f);
      assert merged + f == init + ([last] + f);
    }
  }

  // --- Walking --------------------------------------------------------------

  /** What a linked list says about one of its nodes. */
  lemma {:induction false} LinkedAt(head: Node?, nodes: seq<Node>, i: nat)
    requires Linked(head, nodes) && i < |nodes|
    ensures Linked(nodes[i], nodes[i..])
    ensures nodes[i].next == if i + 1 < |nodes| then nodes[i + 1] else null
    ensures i > 0 ==> nodes[i].prev == nodes[i - 1]
    ensures forall k :: 0 <= k < |nodes| && k != i ==> nodes[k] != nodes[i]
    decreases |nodes|
  {
    if i > 0 {
      LinkedAt(head.next, nodes[1..], i - 1);
      assert nodes[1..][i - 1..] == nodes[i..];
      forall k | 0 <= k < |nodes| && k != i ensures nodes[k] != nodes[i] {
        assert k > 0 ==> nodes[k] == nodes[1..][k - 1];
        assert nodes[i] in nodes[1..];
      }
    }
  }

  /** The first loop of `sort_list`: is the list in strict order already? */
  method IsAscending(list: Node, ghost nodes: seq<Node>, cs: bool) returns (ascending: bool)
    requires Linked(list, nodes)
    ensures ascending == Ascending(Named(nodes), cs)
  {
    var currentItem: Node := list;
    ghost var rest := nodes;
    while currentItem.next != null
      invariant Linked(currentItem, rest)
      invariant Ascending(Named(nodes), cs) == Ascending(Named(rest), cs)
      decreases |rest|
    {
      assert Named(rest)[1..] == Named(rest[1..]);
      var difference := Compare(currentItem, currentItem.next, cs);
      if difference >= 0 {
        return false;
      }
      currentItem := currentItem.next;
      rest := rest[1..];
    }
    return true;
  }

  /** The second loop of `sort_list`: one pointer walks twice as fast as the other. */
  method FindMiddle(list: Node, ghost nodes: seq<Node>) returns (second: Node?)
    requires Linked(list, nodes)
    ensures second == if Middle(|nodes|) < |nodes| then nodes[Middle(|nodes|)] else null
  {
    second := list;
    var currentItem: Node? := list;
    ghost var slow, fast := 0, 0;
    while currentItem != null
      invariant 0 <= slow <= fast <= |nodes|
      invariant second == if slow < |nodes| then nodes[slow] else null
      invariant currentItem == if fast < |nodes| then nodes[fast] else null
      invariant fast == 2 * slow || (fast == |nodes| && fast == 2 * slow - 1)
      decreases |nodes| - fast
    {
      LinkedAt(list, nodes, slow);
      LinkedAt(list, nodes, fast);
      second := second.next;
      currentItem := currentItem.next;
      slow, fast := slow + 1, fast + 1;
      if currentItem != null {
        LinkedAt(list, nodes, fast);
        currentItem := currentItem.next;
        fast := fast + 1;
      }
    }
  }

  // --- Sorting --------------------------------------------------------------

  lemma {:induction false} PrefixBuilt(head: Node?, nodes: seq<Node>, h: nat)
    requires Linked(head, nodes) && h <= |nodes|
    ensures Built(nodes[..h])
    decreases h
  {
    if h > 1 {
      PrefixBuilt(head, nodes, h - 1);
      assert nodes[..h][..h - 1] == nodes[..h - 1];
      LinkedAt(head, nodes, h - 1);
      LinkedAt(head, nodes, h - 2);
    }
  }

  lemma SplitDisjoint(head: Node?, nodes: seq<Node>, h: nat)
    requires Linked(head, nodes) && h <= |nodes|
    ensures Disjoint(nodes[..h], nodes[h..])
  {
    forall x | x in nodes[..h] ensures x !in nodes[h..] {
      var i :| 0 <= i < h && nodes[i] == x;
      LinkedAt(head, nodes, i);
    }
  }

  /** Cuts a list in two before its node `second`. */
  method Split(list: Node, second: Node, ghost nodes: seq<Node>, ghost h: nat)
    requires Linked(list, nodes) && 0 < h < |nodes| && second == nodes[h]
    modifies {nodes[h - 1]}`next, {second}`prev
    ensures Linked(list, nodes[..h]) && Linked(second, nodes[h..])
    ensures second.prev == null
    ensures Disjoint(nodes[..h], nodes[h..])
  {
    LinkedAt(list, nodes, h);
    LinkedAt(list, nodes, h - 1);
    SplitDisjoint(list, nodes, h);
    assert nodes[h - 1] in nodes[..h];
    PrefixBuilt(list, nodes, h);
    label before:
    second.prev.next := null;
    second.prev := null;
    BuiltFramed@before(nodes[..h]);
    JoinBuilt(nodes[..h], null, []);
    assert nodes[..h] + [] == nodes[..h];
  }

  lemma SortKeepsNodes(nodes: seq<Node>, sorted: seq<Node>, cs: bool)
    requires Named(sorted) == Sort(Named(nodes), cs)
    ensures forall x :: x in sorted <==> x in nodes
  {
    SortMembers(Named(nodes), cs);
    forall x ensures x in sorted <==> x in nodes {
      if x in sorted {
        var i :| 0 <= i < |sorted| && sorted[i] == x;
        assert Named(sorted)[i] in Named(nodes);
      }
      if x in nodes {
        var i :| 0 <= i < |nodes| && nodes[i] == x;
        assert Named(nodes)[i] in Named(sorted);
      }
    }
  }

  lemma SortAscending(nodes: seq<Node>, cs: bool)
    ensures |nodes| <= 1 || Ascending(Named(nodes), cs) ==> Sort(Named(nodes), cs) == Named(nodes)
  {
  }

  /** Sorting the halves and merging them sorts the whole. */
  lemma SortNodes(nodes: seq<Node>, a: seq<Node>, b: seq<Node>, cs: bool)
    requires !Ascending(Named(nodes), cs)
    requires Named(a) == Sort(Named(nodes[..Middle(|nodes|)]), cs)
    requires Named(b) == Sort(Named(nodes[Middle(|nodes|)..]), cs)
    ensures Named(MergeNodes(a, b, cs)) == Sort(Named(nodes), cs)
    ensures forall x :: x in MergeNodes(a, b, cs) <==> x in nodes
  {
    var h := Middle(|nodes|);
    MergeNodesNamed(a, b, cs);
    assert Named(nodes[..h]) == Named(nodes)[..h];
    assert Named(nodes[h..]) == Named(nodes)[h..];
    SortKeepsNodes(nodes, MergeNodes(a, b, cs), cs);
  }

  lemma InHalves<T>(nodes: seq<T>, h: nat, s: seq<T>, t: seq<T>)
    requires h <= |nodes|
    requires forall x :: x in s <==> x in nodes[..h]
    requires forall x :: x in t <==> x in nodes[h..]
    ensures forall i :: 0 <= i < |s| ==> s[i] in nodes
    ensures forall i :: 0 <= i < |t| ==> t[i] in nodes
  {
    forall i | 0 <= i < |s| ensures s[i] in nodes { assert s[i] in nodes[..h]; }
    forall i | 0 <= i < |t| ensures t[i] in nodes { assert t[i] in nodes[h..]; }
  }

  /** The two recursive calls of `sort_list`. */
  method SortHalves(list: Node, second: Node, ghost a: seq<Node>, ghost b: seq<Node>, cs: bool)
    returns (first': Node, second': Node, ghost sortedA: seq<Node>, ghost sortedB: seq<Node>)
    requires Linked(list, a) && Linked(second, b) && Disjoint(a, b)
    requires second.prev == null
    modifies a`next, a`prev, b`next, b`prev
    ensures Linked(first', sortedA) && Linked(second', sortedB) && Disjoint(sortedA, sortedB)
    ensures Named(sortedA) == Sort(Named(a), cs) && Named(sortedB) == Sort(Named(b), cs)
    ensures forall x :: x in sortedA <==> x in a
    ensures forall x :: x in sortedB <==> x in b
    ensures first' in a && first'.prev == if first' == list then old(list.prev) else null
    ensures second' in b && second'.prev == null
    decreases |a| + |b|, 0
  {
    hide Sort, Named;
    assert list in a && second in b;
    var first: Node?, s: Node?;
    first, sortedA := SortList(list, a, cs);
    assert first in sortedA;
    s, sortedB := SortList(second, b, cs);
    assert s in sortedB;
    first', second' := first, s;
  }

  /**
   `sort_list`. The result visits the nodes of the input in the order of `Sort`,
   only links have changed, and the back pointer of the first node is the one it
   had if that node was first before, and NULL otherwise.
   */
  method SortList(list: Node?, ghost nodes: seq<Node>, cs: bool)
    returns (result: Node?, ghost sorted: seq<Node>)
    requires Linked(list, nodes)
    modifies nodes`next, nodes`prev
    ensures Linked(result, sorted)
    ensures Named(sorted) == Sort(Named(nodes), cs)
    ensures forall x :: x in sorted <==> x in nodes
    ensures result != null ==> result.prev == if result == list then old(list.prev) else null
    decreases |nodes|, 1
  {
    hide Sort, MergeNodes, Named, Ascending;
    result, sorted := list, nodes;
    SortAscending(nodes, cs);
    if list == null || list.next == null {
      return;
    }
    var ascending := IsAscending(list, nodes, cs);
    if ascending {
      return;
    }
    var second := FindMiddle(list, nodes);
    ghost var h := Middle(|nodes|);
    ghost var a, b := nodes[..h], nodes[h..];
    InHalves(nodes, h, a, b);
    assert list == a[0];
    Split(list, second, nodes, h);
    var first, second', sortedA, sortedB := SortHalves(list, second, a, b, cs);
    InHalves(nodes, h, sortedA, sortedB);
    result, sorted := MergeLists(first, second', sortedA, sortedB, cs);
    SortNodes(nodes, sortedA, sortedB, cs);
  }

  /**
   `sort_object`. The children come out in order; the first child still points
   where it did if it was first before, and at nothing otherwise. So the list of an
   intact object stays intact only when neither end has moved.
   */
  method SortObject(owner: Node, ghost nodes: seq<Node>, cs: bool, ghost back: Back) returns (ghost sorted: seq<Node>)
    requires Chained(owner, nodes, back)
    modifies owner`child, nodes`next, nodes`prev
    ensures Chained(owner, sorted, SortedBack(nodes, sorted, back))
    ensures Named(sorted) == Sort(Named(nodes), cs)
    ensures |sorted| == |nodes|
    ensures back == End(|nodes|) && nodes != [] ==>
      (Circular(sorted) <==> sorted[0] == nodes[0] && sorted[|nodes| - 1] == nodes[|nodes| - 1])
  {
    ghost var p := if nodes == [] then null else nodes[0].prev;
    owner.child, sorted := SortChildren(owner, nodes, cs, p);
  }

  method SortChildren(owner: Node, ghost nodes: seq<Node>, cs: bool, ghost p: Node?)
    returns (result: Node?, ghost sorted: seq<Node>)
    requires owner !in nodes && Linked(owner.child, nodes) && (nodes != [] ==> nodes[0].prev == p)
    modifies nodes`next, nodes`prev
    ensures Linked(result, sorted) && owner !in sorted
    ensures Named(sorted) == Sort(Named(nodes), cs)
    ensures |sorted| == |nodes| && forall x :: x in sorted <==> x in nodes
    ensures sorted != [] ==> sorted[0].prev == if sorted[0] == nodes[0] then p else null
  {
    hide Named, Sort;
    result, sorted := SortList(owner.child, nodes, cs);
    assert |Named(sorted)| == |Named(nodes)|;
  }

  /** What the first node pointed back at, as a node. */
  ghost predicate IsBack(nodes: seq<Node>, back: Back, p: Node?)
  {
    match back
    case Nowhere => p == null
    case At(b) => b < |nodes| && p == nodes[b]
    case Elsewhere => p != null && p !in nodes
  }

  // --- List operations --------------------------------------------------------

  /** The loop of `get_array_item` and its relatives; `left` is what is left to count at the end. */
  method Skip(parent: Node, index: nat, ghost nodes: seq<Node>) returns (child: Node?, left: nat)
    requires Linked(parent.child, nodes)
    ensures child == if index < |nodes| then nodes[index] else null
    ensures left == if index <= |nodes| then 0 else index - |nodes|
  {
    child, left := parent.child, index;
    ghost var at := 0;
    while child != null && left > 0
      invariant at + left == index && at <= |nodes|
      invariant child == if at < |nodes| then nodes[at] else null
      decreases left
    {
      LinkedAt(parent.child, nodes, at);
      left := left - 1;
      child := child.next;
      at := at + 1;
    }
  }

  /**
   `add_item_to_array`: links the item behind the node the first one points back at,
   which is the last one in an intact list. When the first node points at nothing the
   item is not added; when it points at an inner node, what follows that is cut off;
   when it points at a node that has left the list, the item ends up behind that node.
   */
  method AddItemToArray(parent: Node, item: Node, ghost nodes: seq<Node>, ghost back: Back) returns (ok: bool)
    requires Chained(parent, nodes, back) && item !in nodes && item.next == null
    modifies parent`child, item`prev, item`next, nodes`next, nodes`prev
    modifies (if nodes != [] && back == Elsewhere then {nodes[0].prev} else {})`next
    ensures ok <==> parent != item
    ensures ok ==> Chained(parent, Appended(nodes, back, item), AppendedBack(|nodes|, back))
    ensures !ok ==> Chained(parent, nodes, back)
    ensures !ok || (nodes != [] && back == Nowhere) ==> item.prev == old(item.prev) && item.next == old(item.next)
    ensures ok && nodes != [] && back == Elsewhere ==> item.prev == old(nodes[0].prev) && item.prev.next == item
  {
    if parent == item {
      return false;
    }
    var child := parent.child;
    if child == null {
      parent.child := item;
      item.prev := item;
      item.next := null;
    } else if child.prev != null {
      ghost var outside := back == Elsewhere;
      ghost var kept := if outside then nodes else nodes[..back.index + 1];
      assert nodes[0] in nodes && child == nodes[0] == kept[0];
      if !outside {
        assert nodes[back.index] in nodes;
        LinkedAt(child, nodes, back.index);
        PrefixBuilt(child, nodes, back.index + 1);
      }
      AddBehind(parent, item, kept, outside);
    }
    return true;
  }

  /** The same for an intact list, which stays intact. */
  method AddToIntact(parent: Node, item: Node, ghost nodes: seq<Node>) returns (ok: bool)
    requires Children(parent, nodes) && parent != item && item !in nodes && item.next == null
    modifies parent`child, item`prev, item`next, nodes`next, nodes`prev
    ensures ok && Children(parent, nodes + [item])
  {
    ok := AddItemToArray(parent, item, nodes, End(|nodes|));
    AppendedIff(nodes, End(|nodes|), item);
  }

  /**
   Links the item behind the last of the nodes that are kept, or behind a node outside
   the list, which then stays as it is.
   */
  method AddBehind(parent: Node, item: Node, ghost kept: seq<Node>, ghost outside: bool)
    requires kept != [] && parent.child == kept[0] && kept[0].prev != null
    requires item !in kept && parent !in kept && parent != item
    requires outside ==> Linked(parent.child, kept) && kept[0].prev !in kept
    requires !outside ==> Built(kept) && kept[0].prev == kept[|kept| - 1] && item.next == null
    modifies item`prev, {kept[0].prev}`next, {kept[0]}`prev
    ensures outside ==> Chained(parent, kept, Elsewhere) && item.prev == old(kept[0].prev) && item.prev.next == item
    ensures !outside ==> Chained(parent, kept + [item], At(|kept|))
  {
    assert kept[0] in kept && kept[|kept| - 1] in kept;
    if !outside {
      BuiltApart(kept);
    }
    label before:
    parent.child.prev.next := item;
    item.prev := parent.child.prev;
    parent.child.prev := item;
    if !outside {
      BuiltFramed@before(kept);
      JoinBuilt(kept, item, [item]);
    }
  }

  /** The nodes of a list under construction are different. */
  lemma {:induction false} BuiltApart(nodes: seq<Node>)
    requires Built(nodes)
    ensures NoDuplicates(nodes)
    decreases |nodes|
  {
    if |nodes| > 1 {
      BuiltApart(nodes[..|nodes| - 1]);
    }
  }

  /** A linked list, node by node. */
  ghost predicate Flat(nodes: seq<Node>)
    reads set x | x in nodes
  {
    && NoDuplicates(nodes)
    && (forall i {:trigger nodes[i].next} :: 0 <= i < |nodes| ==>
          nodes[i].next == if i + 1 < |nodes| then nodes[i + 1] else null)
    && (forall i {:trigger nodes[i].prev} :: 0 < i < |nodes| ==> nodes[i].prev == nodes[i - 1])
  }

  lemma LinkedFlat(head: Node?, nodes: seq<Node>)
    requires Linked(head, nodes)
    ensures Flat(nodes) && head == if nodes == [] then null else nodes[0]
  {
    forall i | 0 <= i < |nodes|
      ensures forall k :: 0 <= k < |nodes| && k != i ==> nodes[k] != nodes[i]
      ensures nodes[i].next == if i + 1 < |nodes| then nodes[i + 1] else null
      ensures i > 0 ==> nodes[i].prev == nodes[i - 1]
    {
      LinkedAt(head, nodes, i);
    }
  }

  lemma {:induction false} FlatLinked(nodes: seq<Node>)
    requires Flat(nodes)
    ensures Linked(if nodes == [] then null else nodes[0], nodes)
    decreases |nodes|
  {
    if nodes != [] {
      var tail := nodes[1..];
      forall i | 0 <= i < |tail| ensures tail[i].next == if i + 1 < |tail| then tail[i + 1] else null {
        assert nodes[i + 1].next == if i + 2 < |nodes| then nodes[i + 2] else null;
      }
      forall i | 0 < i < |tail| ensures tail[i].prev == tail[i - 1] {
        assert nodes[i + 1].prev == nodes[i];
      }
      FlatLinked(tail);
      assert nodes[0].next == if 1 < |nodes| then nodes[1] else null;
      assert 1 < |nodes| ==> nodes[1].prev == nodes[0];
    }
  }

  /** `Chained`, with the links spelled out node by node. */
  ghost predicate FlatChained(parent: Node, nodes: seq<Node>, back: Back)
    reads parent, set x | x in nodes
  {
    && parent !in nodes
    && Flat(nodes)
    && parent.child == (if nodes == [] then null else nodes[0])
    && PointsBack(nodes, back)
  }

  /** `Children`, with the links spelled out node by node. */
  ghost predicate FlatChildren(parent: Node, nodes: seq<Node>)
    reads parent, set x | x in nodes
  {
    && parent !in nodes
    && Flat(nodes)
    && parent.child == (if nodes == [] then null else nodes[0])
    && Circular(nodes)
  }

  lemma ToFlat(parent: Node, nodes: seq<Node>)
    requires Children(parent, nodes)
    ensures FlatChildren(parent, nodes)
  {
    LinkedFlat(parent.child, nodes);
  }

  lemma FromFlat(parent: Node, nodes: seq<Node>)
    requires FlatChildren(parent, nodes)
    ensures Children(parent, nodes)
  {
    FlatLinked(nodes);
  }

  lemma ToFlatChained(parent: Node, nodes: seq<Node>, back: Back)
    requires Chained(parent, nodes, back)
    ensures FlatChained(parent, nodes, back)
  {
    LinkedFlat(parent.child, nodes);
  }

  lemma FromFlatChained(parent: Node, nodes: seq<Node>, back: Back)
    requires FlatChained(parent, nodes, back)
    ensures Chained(parent, nodes, back)
  {
    FlatLinked(nodes);
  }

  /** The links of node `k` once node `i` has been taken out; `p` is what the first node pointed back at. */
  ghost function NextWithout(nodes: seq<Node>, i: nat, k: nat): Node?
    requires i < |nodes| && k < |nodes|
  {
    if k == i then null
    else
      var n := if k + 1 == i then i + 1 else k + 1;
      if n < |nodes| then nodes[n] else null
  }

  ghost function PrevWithout(nodes: seq<Node>, i: nat, k: nat, p: Node?): Node?
    requires i < |nodes| && k < |nodes|
  {
    if k == i then null
    else if k == (if i == 0 then 1 else 0) then (if i == |nodes| - 1 then nodes[i - 1] else p)
    else nodes[if k == i + 1 then k - 2 else k - 1]
  }

  ghost predicate Unlinked(parent: Node, nodes: seq<Node>, i: nat, p: Node?)
    requires i < |nodes|
    reads parent, set x | x in nodes
  {
    && (forall k {:trigger nodes[k].next} :: 0 <= k < |nodes| ==> nodes[k].next == NextWithout(nodes, i, k))
    && (forall k {:trigger nodes[k].prev} :: 0 <= k < |nodes| ==> nodes[k].prev == PrevWithout(nodes, i, k, p))
    && parent.child == (if i > 0 then nodes[0] else if |nodes| > 1 then nodes[1] else null)
  }

  lemma UnlinkedChained(parent: Node, nodes: seq<Node>, i: nat, p: Node?, back: Back)
    requires parent !in nodes && i < |nodes| && Unlinked(parent, nodes, i, p)
    requires NoDuplicates(nodes) && IsBack(nodes, back, p)
    ensures FlatChained(parent, RemoveAt(nodes, i), DetachedBack(|nodes|, back, i))
  {
    var rest := RemoveAt(nodes, i);
    if rest != [] {
      var first := if i == 0 then 1 else 0;
      assert nodes[first].prev == PrevWithout(nodes, i, first, p);
      hide Unlinked, Flat;
      if i < |nodes| - 1 {
      }
    }
  }

  /** `cJSON_DetachItemViaPointer`, for an item that is in the list. */
  method DetachItemViaPointer(parent: Node, item: Node, ghost nodes: seq<Node>, ghost i: nat, ghost back: Back)
    requires Chained(parent, nodes, back) && i < |nodes| && item == nodes[i]
    modifies parent`child, nodes`next, nodes`prev
    ensures Chained(parent, RemoveAt(nodes, i), DetachedBack(|nodes|, back, i))
    ensures item.next == null && item.prev == null
  {
    ToFlatChained(parent, nodes, back);
    ghost var p := nodes[0].prev;
    Unlink(parent, item, nodes, i, p);
    UnlinkedChained(parent, nodes, i, p, back);
    FromFlatChained(parent, RemoveAt(nodes, i), DetachedBack(|nodes|, back, i));
  }

  /** The forward links around `item` skip it. */
  method SkipForward(parent: Node, item: Node, ghost nodes: seq<Node>, ghost i: nat)
    requires Flat(nodes) && i < |nodes| && item == nodes[i] && parent !in nodes && parent.child == nodes[0]
    modifies nodes`next
    ensures forall k {:trigger nodes[k].next} :: 0 <= k < |nodes| ==>
      nodes[k].next == if k == i && i + 1 < |nodes| then nodes[i + 1] else NextWithout(nodes, i, k)
  {
    assert item.next == if i + 1 < |nodes| then nodes[i + 1] else null;
    if item != parent.child {
      assert item.prev == nodes[i - 1] && nodes[i - 1] in nodes;
      item.prev.next := item.next;
    }
  }

  /** The backward links around `item` skip it. */
  method SkipBackward(parent: Node, item: Node, ghost nodes: seq<Node>, ghost i: nat, ghost p: Node?)
    requires parent !in nodes && NoDuplicates(nodes) && i < |nodes| && item == nodes[i]
    requires forall k {:trigger nodes[k].prev} :: 0 <= k < |nodes| ==>
      nodes[k].prev == if k > 0 then nodes[k - 1] else p
    requires item.next == if i + 1 < |nodes| then nodes[i + 1] else null
    requires parent.child == nodes[0]
    modifies parent`child, nodes`prev
    ensures forall k {:trigger nodes[k].prev} :: 0 <= k < |nodes| && k != i ==>
      nodes[k].prev == PrevWithout(nodes, i, k, p)
    ensures parent.child == (if i > 0 then nodes[0] else if |nodes| > 1 then nodes[1] else null)
  {
    assert nodes[0] in nodes && (i + 1 < |nodes| ==> nodes[i + 1] in nodes);
    assert i > 0 ==> item != nodes[0];
    if item.next != null {
      item.next.prev := item.prev;
    }
    if item == parent.child {
      parent.child := item.next;
    } else if item.next == null {
      parent.child.prev := item.prev;
    }
  }

  method Unlink(parent: Node, item: Node, ghost nodes: seq<Node>, ghost i: nat, ghost p: Node?)
    requires Flat(nodes) && i < |nodes| && item == nodes[i] && parent !in nodes && parent.child == nodes[0]
    requires nodes[0].prev == p
    modifies parent`child, nodes`next, nodes`prev
    ensures Unlinked(parent, nodes, i, p)
    ensures item.next == null && item.prev == null
  {
    assert item in nodes;
    assert forall k {:trigger nodes[k].prev} :: 0 <= k < |nodes| ==>
      nodes[k].prev == if k > 0 then nodes[k - 1] else p;
    SkipForward(parent, item, nodes, i);
    assert item.next == if i + 1 < |nodes| then nodes[i + 1] else null;
    SkipBackward(parent, item, nodes, i, p);
    item.prev := null;
    item.next := null;
  }

  /** `detach_item_from_array`: counts to the item and detaches it. */
  method DetachItemFromArray(parent: Node, which: nat, ghost nodes: seq<Node>) returns (item: Node?)
    requires Children(parent, nodes)
    modifies parent`child, nodes`next, nodes`prev
    ensures item == if which < |nodes| then nodes[which] else null
    ensures Children(parent, if which < |nodes| then RemoveAt(nodes, which) else nodes)
    ensures item != null ==> item.next == null && item.prev == null
  {
    var left;
    item, left := Skip(parent, which, nodes);
    if item != null {
      DetachItemViaPointer(parent, item, nodes, which, End(|nodes|));
    }
  }

  /** The links of a list with `x` linked in before node `i`. */
  ghost predicate LinkedIn(parent: Node, nodes: seq<Node>, i: nat, x: Node)
    requires i < |nodes|
    reads parent, x, set y | y in nodes
  {
    && (forall k {:trigger nodes[k].next} :: 0 <= k < |nodes| ==>
          nodes[k].next == if k + 1 == i then x else if k + 1 < |nodes| then nodes[k + 1] else null)
    && (forall k {:trigger nodes[k].prev} :: 0 <= k < |nodes| ==>
          nodes[k].prev == if k == i then x else nodes[if k == 0 then |nodes| - 1 else k - 1])
    && x.next == nodes[i]
    && x.prev == nodes[if i == 0 then |nodes| - 1 else i - 1]
    && parent.child == if i == 0 then x else nodes[0]
  }

  lemma LinkedInChildren(parent: Node, nodes: seq<Node>, i: nat, x: Node)
    requires parent !in nodes && x != parent && x !in nodes && i < |nodes| && LinkedIn(parent, nodes, i, x)
    requires NoDuplicates(nodes)
    ensures FlatChildren(parent, InsertAt(nodes, i, x))
  {
    hide NoDuplicates;
    var all := InsertAt(nodes, i, x);
    InsertNoDuplicates(nodes, i, x);
    forall k | 0 <= k < |all|
      ensures all[k].next == if k + 1 < |all| then all[k + 1] else null
      ensures all[k].prev == all[if k == 0 then |all| - 1 else k - 1]
    {
      if k < i {
        assert all[k] == nodes[k];
        assert nodes[k].next == if k + 1 == i then x else nodes[k + 1];
        assert nodes[k].prev == nodes[if k == 0 then |nodes| - 1 else k - 1];
      } else if k > i {
        assert all[k] == nodes[k - 1];
        assert nodes[k - 1].next == if k < |nodes| then nodes[k] else null;
        assert nodes[k - 1].prev == if k - 1 == i then x else nodes[k - 2];
      }
    }
    assert parent !in all;
  }

  lemma InsertNoDuplicates<T>(s: seq<T>, i: nat, x: T)
    requires NoDuplicates(s) && i <= |s| && x !in s
    ensures NoDuplicates(InsertAt(s, i, x))
  {
  }

  /** `insert_item_in_array`: before the child at `which`, at the end, or not at all. */
  method InsertItemInArray(parent: Node, which: nat, newitem: Node, ghost nodes: seq<Node>) returns (ok: bool)
    requires Children(parent, nodes)
    requires newitem != parent && newitem !in nodes && newitem.next == null
    modifies parent`child, newitem`next, newitem`prev, nodes`next, nodes`prev
    ensures ok <==> which <= |nodes|
    ensures Children(parent, if ok then InsertAt(nodes, which, newitem) else nodes)
  {
    var child, left := Skip(parent, which, nodes);
    if left > 0 {
      return false;
    }
    if child == null {
      ok := AddToIntact(parent, newitem, nodes);
      assert InsertAt(nodes, which, newitem) == nodes + [newitem];
      return;
    }
    ToFlat(parent, nodes);
    LinkIn(parent, child, newitem, nodes, which);
    LinkedInChildren(parent, nodes, which, newitem);
    FromFlat(parent, InsertAt(nodes, which, newitem));
    return true;
  }

  method LinkIn(parent: Node, child: Node, newitem: Node, ghost nodes: seq<Node>, ghost i: nat)
    requires FlatChildren(parent, nodes) && i < |nodes| && child == nodes[i]
    requires newitem != parent && newitem !in nodes
    modifies parent`child, newitem`next, newitem`prev, nodes`next, nodes`prev
    ensures LinkedIn(parent, nodes, i, newitem)
  {
    assert child.prev == nodes[if i > 0 then i - 1 else |nodes| - 1];
    assert forall k :: 0 <= k < |nodes| ==> nodes[k] in nodes;
    newitem.next := child;
    newitem.prev := child.prev;
    child.prev := newitem;
    if child == parent.child {
      parent.child := newitem;
    } else {
      newitem.prev.next := newitem;
    }
  }

  /** The links of a list in which `x` has taken the place of node `i`. */
  ghost predicate Substituted(parent: Node, nodes: seq<Node>, i: nat, x: Node)
    requires i < |nodes|
    reads parent, x, set y | y in nodes
  {
    && (forall k {:trigger nodes[k].next} :: 0 <= k < |nodes| && k != i ==>
          nodes[k].next == if k + 1 == i then x else if k + 1 < |nodes| then nodes[k + 1] else null)
    && (forall k {:trigger nodes[k].prev} :: 0 <= k < |nodes| && k != i ==>
          nodes[k].prev == var p := if k == 0 then |nodes| - 1 else k - 1; if p == i then x else nodes[p])
    && x.next == (if i + 1 < |nodes| then nodes[i + 1] else null)
    && x.prev == (if |nodes| == 1 then x else nodes[if i == 0 then |nodes| - 1 else i - 1])
    && parent.child == if i == 0 then x else nodes[0]
  }

  lemma SubstitutedChildren(parent: Node, nodes: seq<Node>, i: nat, x: Node)
    requires parent !in nodes && x != parent && x !in nodes && i < |nodes| && Substituted(parent, nodes, i, x)
    requires NoDuplicates(nodes)
    ensures FlatChildren(parent, nodes[i := x])
  {
    var all := nodes[i := x];
    assert forall k :: 0 <= k < |nodes| ==> nodes[k] in nodes;
    forall k | 0 <= k < |all| ensures all[k].next == if k + 1 < |all| then all[k + 1] else null {
      if k != i {
        assert nodes[k].next == if k + 1 < |all| then all[k + 1] else null;
      }
    }
    forall k | 0 <= k < |all| ensures all[k].prev == all[if k == 0 then |all| - 1 else k - 1] {
      if k != i {
        assert nodes[k].prev == all[if k == 0 then |all| - 1 else k - 1];
      }
    }
  }

  /** `cJSON_ReplaceItemViaPointer`, for an item that is in the list. */
  method ReplaceItemViaPointer(parent: Node, item: Node, replacement: Node, ghost nodes: seq<Node>, ghost i: nat)
    requires Children(parent, nodes) && i < |nodes| && item == nodes[i]
    requires replacement != parent && (replacement != item ==> replacement !in nodes)
    modifies parent`child, replacement`next, replacement`prev, nodes`next, nodes`prev
    ensures Children(parent, nodes[i := replacement])
    ensures item != replacement ==> item.next == null && item.prev == null
  {
    if replacement == item {
      assert nodes[i := replacement] == nodes;
      return;
    }
    ToFlat(parent, nodes);
    Substitute(parent, item, replacement, nodes, i);
    SubstitutedChildren(parent, nodes, i, replacement);
    FromFlat(parent, nodes[i := replacement]);
  }

  /** The replacement takes over the links of the item, and its successor points back at it. */
  method TakeLinks(item: Node, replacement: Node, ghost nodes: seq<Node>, ghost i: nat)
    requires Flat(nodes) && Circular(nodes) && i < |nodes| && item == nodes[i] && replacement !in nodes
    modifies replacement`next, replacement`prev, nodes`prev
    ensures replacement.next == if i + 1 < |nodes| then nodes[i + 1] else null
    ensures replacement.prev == nodes[if i > 0 then i - 1 else |nodes| - 1]
    ensures forall k {:trigger nodes[k].prev} :: 0 <= k < |nodes| ==>
      nodes[k].prev == if k > 0 && k == i + 1 then replacement else nodes[if k > 0 then k - 1 else |nodes| - 1]
  {
    assert item.next == if i + 1 < |nodes| then nodes[i + 1] else null;
    assert item.prev == nodes[if i > 0 then i - 1 else |nodes| - 1];
    assert forall k :: 0 <= k < |nodes| ==> nodes[k] in nodes;
    replacement.next := item.next;
    replacement.prev := item.prev;
    if replacement.next != null {
      replacement.next.prev := replacement;
    }
  }

  method Substitute(parent: Node, item: Node, replacement: Node, ghost nodes: seq<Node>, ghost i: nat)
    requires FlatChildren(parent, nodes) && i < |nodes| && item == nodes[i]
    requires replacement != parent && replacement !in nodes
    modifies parent`child, replacement`next, replacement`prev, nodes`next, nodes`prev
    ensures Substituted(parent, nodes, i, replacement)
    ensures item.next == null && item.prev == null
  {
    assert forall k :: 0 <= k < |nodes| ==> nodes[k] in nodes;
    TakeLinks(item, replacement, nodes, i);
    if parent.child == item {
      if parent.child.prev == parent.child {
        replacement.prev := replacement;
      }
      parent.child := replacement;
    } else {
      if replacement.prev != null {
        replacement.prev.next := replacement;
      }
      if replacement.next == null {
        parent.child.prev := replacement;
      }
    }
    item.next := null;
    item.prev := null;
  }
}
