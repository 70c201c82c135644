/**
 Where the first child of an item points back: at the last child in an intact
 list, but sorting and detaching can leave it pointing anywhere. What appending,
 detaching and sorting make of it.
 */
module Links {
  import opened Sequences

  /** At nothing, at a child of the list, or at a node that has left the list. */
  datatype Back = Nowhere | At(index: nat) | Elsewhere

  /** The back pointer of an intact list. */
  function End(n: nat): Back
  {
    if n == 0 then Nowhere else At(n - 1)
  }

  /** What is in the list after an addition behind the child the first one points back at. */
  function Appended<T>(s: seq<T>, back: Back, x: T): seq<T>
  {
    if s == [] then [x]
    else
      match back
      case At(b) => if b < |s| then s[..b + 1] + [x] else s
      case _ => s
  }

  function AppendedBack(n: nat, back: Back): Back
  {
    if n == 0 then At(0)
    else
      match back
      case At(b) => At(b + 1)
      case _ => back
  }

  /** An addition does what it should exactly when the list is empty or its back pointer intact. */
  lemma AppendedIff<T>(s: seq<T>, back: Back, x: T)
    ensures Appended(s, back, x) == s + [x] <==> s == [] || back == At(|s| - 1)
    ensures |Appended(s, back, x)| == |s| + 1 <==> s == [] || back == At(|s| - 1)
  {
    if s != [] && back.At? && back.index < |s| {
      assert |s[..back.index + 1] + [x]| == back.index + 2;
      if back.index == |s| - 1 {
        assert s[..back.index + 1] == s;
      }
    }
  }

  /** The back pointer when child `i` of `n` has been detached: detaching the last child repairs it. */
  function DetachedBack(n: nat, back: Back, i: nat): Back
    requires i < n
  {
    if n == 1 then Nowhere
    else if i == n - 1 then At(n - 2)
    else
      match back
      case At(b) => if b == i then Elsewhere else if b > i then At(b - 1) else At(b)
      case _ => back
  }

  /** After sorting, the first child still points where it did if it is the one that was first, and nowhere otherwise. */
  function SortedBack<T(==)>(s: seq<T>, sorted: seq<T>, back: Back): Back
  {
    if s == [] || sorted == [] || sorted[0] != s[0] then Nowhere
    else
      match back
      case At(b) => if b < |s| then At(PositionOf(sorted, s[b])) else back
      case _ => back
  }
}
