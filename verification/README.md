# Verified model of an OPC UA gateway

The system is a gateway that polls devices over Modbus TCP and shows them as
OPC UA nodes, each node under an IPv6 address of its own; its configuration is
JSON, read and changed by an embedded JSON library. This project models the
four parts of it in which most can go wrong, in Dafny 4.11, and proves what they
are for. `dafny verify dfyconfig.toml` checks everything.

| part | files |
|---|---|
| JSON trees, child lists, sorting, comparison | `Bytes`, `Sequences`, `Json`, `MergeSort`, `Links`, `ChildList`, `Compare` |
| JSON pointers (RFC 6901) | `Pointer`, `InPlace`, `Names` |
| JSON patch: apply, wear by `test`, laws, generate, diff-then-apply (RFC 6902) | `Patch`, `Live`, `LiveEdits`, `Wear`, `Additions`, `Lost`, `PatchLaws`, `Diff`, `DiffExact`, `DiffNames`, `DiffNeeded`, `Generator` |
| JSON merge patch: apply, generate (RFC 7396) | `MergePatch`, `GenerateMerge` |
| JSON text: printer, parser, grammar, round trip (RFC 8259) | `JsonText`, `Printer`, `ParseText`, `Parser`, `Grammar`, `Language`, `RoundTrip`, `Unicode` |
| Modbus read planner, polling, writing | `Modbus`, `ReadPlan`, `Poll`, `WriteBack` |
| IPv6 addresses, pool, threads, cleanup | `Address`, `Pool`, `Threads`, `Calls`, `PoolLimits`, `Cleanup` |
| Devices: tables, coming online, going offline | `Startup`, `Lifecycle`, `Management` |

## How it is modelled

Code that changes things step by step is modelled that way: child lists are
`Node` objects whose links the methods change; the printer is a class with a
buffer, an offset and a length; the parser a class with an offset and a depth;
the read plan a class over an array that grows; addresses are arrays of bytes;
variables, the address pool, the network interface and the device table are
objects. Each such method is proved against a function, and what the code is for
is proved about the function. Strings are sequences of bytes without NUL
(`CString`); the buffers that hold them are arrays.

Two notions carry the JSON theorems. `Meaning(j, cs)` is the value of a tree up
to the order of members: objects become maps from names, folded to lower case
when the call ignores case. `Distinct` and `DistinctTree` say that sibling names
differ for such calls.

The grammar of JSON texts (`Grammar`) is written down apart from printer and parser:
a `Spelled` value says which blanks, digits and escapes stand where, `Spell` is its
text and `Meant` its tree. The parser accepts exactly these texts, and the printer
yields some of them.

Documents that are patched (`Live`) also know, for every object, where its first
child points back, because appending relies on that pointer and sorting spoils it.
`Links` says what appending, detaching and sorting make of it; the methods on nodes
in `ChildList` and the functions of `Live` share these definitions. On documents
whose lists are intact, as parsing and copying make them, all operations but `test`
are those of `Patch` on plain trees.

The IPv6 pool is modelled twice: as an object whose locked sections are methods,
and as a state machine (`Threads`) of any number of threads whose steps are those
locked sections; both share the functions `Find`, `CounterAfter` and
`AllocatedAfter`.

## Where the code does not do what one expects

Each of these is stated as a lemma, with the condition under which all is well
beside it; where that condition is not exact, "Left out" says so.

- `decode_pointer_inplace` does not decode: it restores a name exactly when
  `InPlace.Decodable` holds (`DecodesIff`; `SlashSpoils` and `TildeThenLetter`
  are examples). Generating a patch and applying it therefore works if and only
  if every generated operation ends in a token that it restores
  (`DiffThenApplyIff`).
- `detach_path` ignores case in case-sensitive calls (`DetachesIff`). For every two
  names that differ by case only there are documents of which the wrong member is
  removed (`CaseMisleads`). Generating and applying works for all documents with
  given names if and only if each name is restored by decoding in place and, in
  case-sensitive calls, no two differ by case only (`ArrivesIff`). A single document
  with such names still works when its members to be detached are reachable
  (`Diff.Reachable`): what comes before one and has its name up to case is detached
  before it.
- `generate_merge_patch` sorts with the case flag, walks with `strcmp`, and
  ignores case below the top (`CapitalsMislead`, `CapitalsMisleadBelow`). The
  round trip holds for exactly the names that `strcmp` orders as it does their
  lower-case forms (`ConsistentIff`), among them all names without capital letters.
- The parser takes a `\u` without four hexadecimal digits for U+0000, which ends the
  string (`ReadsMore`); otherwise it accepts what RFC 8259 does, with control
  characters as blanks and in strings, and with leading zeros (`AcceptsIff`).
- An empty token denotes the index 0 (`DecodeIndexIff`).
- Sorting reverses the order of members with one name (`SortReversesTies`).
- `move` to the root fails and loses the item (`MoveToRoot`).
- Sorting leaves the head's back pointer wrong unless neither end moves
  (`SortObject`), which appending relies on. `test` sorts what it compares, so that
  an addition or a replacement after it can be lost, or cut off another member, with
  status 0 (`NotAdded`, `CutOff`, `NotReplaced`), or write through a pointer to a
  member that has just been freed (`FollowsRemoved`; the result `Undefined` of the
  model). `TestThenAdd` and `TestThenReplace` say exactly which of the three
  happens, by the names of the members; without `test` none but the first does
  (`RunIntact`). Generating sorts both documents, hence diff-then-apply is about
  fresh copies.
- A device keeps an address that the interface refused, and gets its nodes under it
  the next time it is found online (`RefusedThenUsed`).
- The address counter starts over in pools as large as its range, and addresses
  start over behind the last one of all; in all such pools, and in no others, there
  are runs that return an address twice or one from outside (`SmallIsExact`).
- Records of one device that are not together give it two entries
  (`EachRecordOnce`).

## Model

| member | source | states |
|---|---|---|
| Bytes.CompareStrings | src/cJSON_Utils.c:83-109 | the loop of `compare_strings` returns the sign-carrying difference of the two names; it is 0 exactly for names that are the same byte for byte or, when case is ignored, letter for letter |
| Bytes.StrcmpOrders | src/cJSON_Utils.c:83-109 | the sign is that of the first bytes that differ, an ended string coming first; all orders below rest on it |
| Bytes.FoldMeans | src/cJSON_Utils.c:83-109 | two names are equal without regard to case exactly when they differ in the case of the 26 letters at most |
| Json.GetObjectItem | src/cJSON.c:1951-1981 | the lookup loop finds the first member whose name compares equal, or the end |
| Json.DuplicateIsCopy | src/cJSON.c:2789-2873 | a duplicate is the same tree, and there is one exactly when the tree has at most 10000 levels below it |
| MergeSort.SortPermutes | src/cJSON_Utils.c:484-593 | sorting loses and invents nothing |
| MergeSort.SortSorts | src/cJSON_Utils.c:484-593 | the names come out in non-decreasing order, for any input and either case flag |
| MergeSort.SortReversesTies | src/cJSON_Utils.c:534-592 | entries of one name come out in reversed order, so that one list is left that the sort may yield |
| MergeSort.SortedMembers | src/cJSON_Utils.c:484-593 | of distinct names the order is strict, which is what all walks over two sorted objects rely on |
| ChildList.IsAscending | src/cJSON_Utils.c:498-507 | the first loop recognises exactly the strictly ordered lists |
| ChildList.FindMiddle | src/cJSON_Utils.c:509-521 | the pointer that moves half as fast stops at the middle node, for every length |
| ChildList.MergeLists | src/cJSON_Utils.c:534-592 | the merge loop on nodes: from two disjoint linked lists it makes one linked list of the same nodes in merged order, changing links only |
| ChildList.SortList | src/cJSON_Utils.c:484-593 | the in-place sort: the result is NULL-terminated, visits the nodes of the input, once each and no others, in the order of `Sort`, every inner back pointer names the predecessor, only `next` and `prev` change, and the back pointer of the head is exactly what the code leaves there |
| ChildList.SortObject | src/cJSON_Utils.c:595-602 | the children are sorted; the first one points back where it did if it was first before, and at nothing otherwise, so that an intact list stays intact exactly when neither end has moved |
| ChildList.AddItemToArray | src/cJSON.c:2027-2058 | on any list, wherever its first node points back: the item goes behind that node and what followed is cut off, or is not added when there is none, or is linked behind a node that has left the list, which stays as it is; on an intact list this appends and keeps the list intact; adding an item to itself is refused |
| ChildList.DetachItemViaPointer | src/cJSON.c:2258-2292 | on any list: the item is taken out and loses its links, the other nodes stay linked, and where the first node then points back is stated exactly, also when that is the item taken out |
| ChildList.DetachItemFromArray | src/cJSON_Utils.c:393-427 | detaching by index takes the item at the index, or nothing when there is none |
| ChildList.InsertItemInArray | src/cJSON_Utils.c:693-728 | inserting keeps the invariant and refines insertion into a sequence; it succeeds exactly up to the length |
| ChildList.ReplaceItemViaPointer | src/cJSON.c:2368-2415 | replacing keeps the invariant and refines updating a sequence, the replaced item losing its links |
| Compare.CompareJson | src/cJSON_Utils.c:604-690 | the recursion and loops of `compare_json` decide `CompareSorted` |
| Compare.CompareSortedMeans | src/cJSON_Utils.c:604-690 | on trees with distinct sibling names the sorting comparison is equality of meanings: objects as maps, arrays as sequences |
| Compare.CompareItems | src/cJSON.c:3072-3195 | the recursion and loops of `cJSON_Compare` decide `CompareQuadratic` |
| Compare.CompareQuadraticMeans | src/cJSON.c:3072-3195 | on trees with distinct sibling names the two-way lookup comparison is equality of meanings, and fails on trees with an invalid item |
| Compare.ComparisonsAgree | src/cJSON_Utils.c:604-690 | both comparisons are equality up to the order of members, and differ exactly on equal trees that hold an invalid item |
| Compare.CopyComparesEqual | src/cJSON.c:2789-2873 | a duplicate compares equal to its source under both comparisons |
| Pointer.EncodedLength | src/cJSON_Utils.c:157-170 | the computed length is that of the escaped name |
| Pointer.EncodeStringAsPointer | src/cJSON_Utils.c:173-196 | the escaped name and its NUL are written where they belong and no other byte of the buffer changes |
| Pointer.StandardDecodes | src/cJSON_Utils.c:173-196 | replacing first `~1` and then `~0`, as RFC 6901, section 4, has it, undoes escaping, and no `/` is left in a token |
| Pointer.EncodeInjective | src/cJSON_Utils.c:173-196 | different names have different tokens (RFC 6901, section 3) |
| Pointer.ComparePointers | src/cJSON_Utils.c:120-154 | the loop over a name and a token decides whether the token is the escaped form of the name |
| Pointer.MatchesEncoded | src/cJSON_Utils.c:120-154 | a token made by escaping a name matches exactly the names that compare equal to it |
| Pointer.DecodeArrayIndex | src/cJSON_Utils.c:274-299 | digits without a leading zero are read as their number, everything else is refused |
| Pointer.DecodeIndexIff | src/cJSON_Utils.c:274-299 | the tokens that denote an index are exactly its numeral and, for 0, the empty token, which RFC 6901 does not have |
| Pointer.GetItemFromPointer | src/cJSON_Utils.c:301-346 | the walk down the tree arrives where the pointer leads, or nowhere; a pointer that does not begin with `/` leads to the root |
| Pointer.FindPointerPath | src/cJSON_Utils.c:198-259 | the search returns the path of the target exactly when the target lies below the item |
| Pointer.PointerRoundTrip | src/cJSON_Utils.c:198-259 | the pointer found for an item leads back to that item if and only if no step is shadowed by an earlier member of the same name, as always in trees with distinct sibling names; items outside the tree have no pointer |
| InPlace.DecodePointerInPlace | src/cJSON_Utils.c:359-390 | the loop over the buffer, byte for byte, including that it does not copy plain bytes to the front |
| InPlace.DecodedToken | src/cJSON_Utils.c:359-390 | what the loop makes of the token of any name, character by character |
| InPlace.DecodesIff | src/cJSON_Utils.c:359-390 | decoding in place undoes escaping if and only if the name has no `/` and its token agrees with it at every position where the name has no `~` |
| InPlace.SlashSpoils | src/cJSON_Utils.c:359-390 | no name with a `/` comes back |
| InPlace.TildeThenLetter | src/cJSON_Utils.c:359-390 | a name that does not come back |
| Names.StableGrows | src/cJSON_Utils.c:359-390 | a name that is not restored becomes one of which more is stable |
| Names.RestoredByFold | src/cJSON_Utils.c:359-390 | whether a name is restored can be seen from its lower-case form |
| Names.MissedName | src/cJSON_Utils.c:359-390 | among names not all restored there is one that no operation of the list touches |
| Live.ApplyPatches | src/cJSON_Utils.c:1038-1094 | the loop applies the operations in order up to the first that fails, with its status, to a document every object of which knows where its first child points back; an addition that follows a pointer to a node that has left its list is undefined (`DanglesIff` says exactly when it does, `RunIntact` that no run without `test` has one) |
| Live.AppliedInTurn | src/cJSON_Utils.c:1062-1094 | there is a run of documents of which each comes of the one before by the operation at its place with status 0; it covers all operations, or ends before the first that fails, the outcome of which is that of the list |
| Patch.GetItemMeans | src/cJSON_Utils.c:730-740 | an operation has the item of its first member with the name, compared as the call compares names |
| Patch.OperationNames | src/cJSON_Utils.c:742-784 | each of the six names, and no other text, is read as its operation |
| PatchLaws.Malformed | src/cJSON_Utils.c:817-830 | an operation without a path that is a string fails with status 2, one without a known name with status 3, and the document stays |
| PatchLaws.Lacking | src/cJSON_Utils.c:838-957 | `add` and `replace` fail with status 7 without a value and with 8 when it is too deep to copy, `move` and `copy` with 4 without a source; what `replace` has removed by then is lost |
| PatchLaws.NoPlace | src/cJSON_Utils.c:959-1023 | an addition for which there is no parent fails with status 9, at an index beyond the end with 10, at a token that is no index with 11 |
| Patch.DetachBelow | src/cJSON_Utils.c:430-481 | framing: detaching below a child changes that child only |
| Patch.AddBelow | src/cJSON_Utils.c:959-1023 | framing: adding below a child changes that child only |
| Wear.TestMeans | src/cJSON_Utils.c:831-836 | `test` succeeds exactly when the pointer leads to a value equal to the given one up to the order of members; it sorts what it compares, and the document still means the same (RFC 6902, section 4.6) |
| Wear.WornItemsAt | src/cJSON_Utils.c:628-649 | of two arrays `test` compares, and sorts, the elements before which all are equal, and leaves the others as they are |
| Wear.WornMembersAt | src/cJSON_Utils.c:651-684 | of two sorted objects it compares the members up to the first of another name or with another value |
| Wear.SortedPlain | src/cJSON_Utils.c:655-657 | the sort of the members with their links is the sort of the tree |
| Additions.AdditionFate | src/cJSON.c:2027-2058 | an addition to an object has one of three outcomes, given exactly by where the first member points back and which member is replaced: it takes effect; it loses the new member or others, with status 0; or it follows a pointer to a node that has left the list |
| Additions.DanglesIff | src/cJSON.c:2048-2053 | an addition at a path, in any document, follows a pointer to a node that has left the list if and only if the path leads to an object whose first member points at such a node or at the member that is replaced, and the last or only member is not the one replaced |
| Additions.AfterFate | src/cJSON_Utils.c:484-602 | the outcome for an intact list that has been sorted, by names alone: an addition takes effect if there was at most one member, if neither end has moved, or if it replaces the member sorted last; it follows the freed member if the old first one is still first and the replaced one was the old last; otherwise it loses members |
| Additions.PassedIsOrdered | src/cJSON_Utils.c:604-690 | a `test` that succeeds has sorted every object it compared |
| Additions.TestThenAdd | src/cJSON_Utils.c:807-1036 | an addition to any object that a successful `test` has compared takes effect, loses members with status 0, or follows a freed member, exactly as `AfterFate` says of the members the object had |
| Additions.TestThenReplace | src/cJSON_Utils.c:807-1036 | a replacement in any object that a successful `test` has compared fails with status 13 and changes nothing if no member has the name up to case; otherwise it takes effect, loses members with status 0, or follows a freed member, exactly as detaching the one and adding the other to the sorted list says |
| Additions.ReplacedOnce | src/cJSON_Utils.c:807-1036 | if no other member has the name, the outcome of the replacement is that of an addition in place of the member that is detached |
| Lost.NotAdded | src/cJSON_Utils.c:831-836 | a document to which a member is not added after an equal `test`, with status 0 throughout |
| Lost.CutOff | src/cJSON_Utils.c:831-836 | a document that loses another member by an addition after an equal `test` |
| Lost.NotReplaced | src/cJSON_Utils.c:831-836 | a document in which a replacement after an equal `test` removes the member |
| Lost.FollowsRemoved | src/cJSON.c:2048-2053 | a document in which, after an equal `test`, adding a name that is there, replacing it, or adding another once it is removed follows a pointer to the member that has just been freed |
| Lost.Instances | src/cJSON_Utils.c:807-836 | the same runs with given values: nothing is asked of them |
| LiveEdits.ApplyIsEdit | src/cJSON_Utils.c:807-1036 | on documents with intact lists every other operation does to the document what it does to the tree, and leaves the lists intact |
| LiveEdits.RunIntact | src/cJSON_Utils.c:1038-1094 | no run without `test` on a document with intact lists follows a pointer out of a list: after any number of operations all lists are intact |
| PatchLaws.ReplaceIsRemoveThenAdd | src/cJSON_Utils.c:838-957 | on any document, `replace` is `remove` and then `add`, statuses included; at the root it is `add` (section 4.3) |
| PatchLaws.MoveIsRemoveThenAdd | src/cJSON_Utils.c:905-940 | on any document, `move` below the root of an item with intact lists is `remove` and then `add` of it (section 4.4) |
| PatchLaws.MoveToRoot | src/cJSON_Utils.c:959-980 | moving to the root fails with status 9, and what was detached is lost, unlike section 4.4 of RFC 6902 has it |
| PatchLaws.CopyIsAdd | src/cJSON_Utils.c:905-940 | `copy` below the root is `add` of what the source pointer leads to (section 4.5) |
| PatchLaws.AddThenRemove | src/cJSON_Utils.c:430-481 | on intact lists, removing at a path undoes an addition at that path if and only if the addition inserted an element at an index or added a member whose name is new without regard to case |
| PatchLaws.RemoveThenAdd | src/cJSON_Utils.c:959-1017 | on intact lists, adding what was removed at the same path succeeds; it restores arrays exactly, and objects up to order if and only if the path spells the name as the object did |
| Diff.StepBelow | src/cJSON_Utils.c:807-1036 | framing of whole operations: an operation under a child does to the tree what it does to the child, status included (RFC 6902, section 4) |
| Diff.RunBelow | src/cJSON_Utils.c:807-1036 | the same for whole runs of operations, also when one of them fails |
| Diff.PatchesRun | src/cJSON_Utils.c:1038-1094 | operations written as JSON objects are read back, whatever the case flag, and do on a fresh document what they say |
| Diff.DecodableAddressed | src/cJSON_Utils.c:1141-1279 | when all names survive decoding in place, every generated operation ends in a token that does |
| Diff.DistinctFits | src/cJSON_Utils.c:462-467 | old documents the names of which differ by more than case are fit for any new document |
| Diff.HeadFirst | src/cJSON_Utils.c:462-467 | in fit documents, a member whose turn it is to be detached is the one a lookup without regard to case finds |
| Diff.DiffThenApply | src/cJSON_Utils.c:1141-1279 | if members to be detached can be reached in spite of the lookup that ignores case, and all names that operations are about survive decoding in place, applying the generated operations to a fresh copy of the old document gives status 0 at every one and the new document up to member order |
| DiffExact.MembersSpare | src/cJSON_Utils.c:807-1036 | operations on other members leave a member's value alone, even when some of them fail or go astray |
| DiffExact.MissedMembers | src/cJSON_Utils.c:1141-1279 | if one name that an operation is about is not restored, the operations miss their goal |
| DiffExact.RestSpares | src/cJSON_Utils.c:807-1036 | operations that are about other members and hit them leave a member alone |
| DiffExact.DiffThenApplyIff | src/cJSON_Utils.c:1141-1279 | the exact condition, for the same documents: generating and applying reaches the new document with status 0 if and only if every generated operation ends in a token that decoding in place restores |
| DiffNeeded.StepsNeeded | src/cJSON_Utils.c:1141-1279 | every generated operation is one that a difference calls for: it replaces a value by one it is unlike, removes an element that is too many or a member whose name is gone, or adds an element or member that is new, at a path that spells names and indices of the two documents |
| DiffNeeded.AlikeNeedsNothing | src/cJSON_Utils.c:1141-1279 | between documents equal up to the order of members no operation is generated |
| Generator.ChildPath | src/cJSON_Utils.c:1241-1253 | the path of a child fills the allocated buffer exactly, no byte too many or too few |
| Generator.IndexFits | src/cJSON_Utils.c:1170-1191 | the 20 bytes reserved for an index hold every 64-bit index |
| Generator.ComposePatch | src/cJSON_Utils.c:1096-1134 | one operation object is appended, with the escaped suffix behind the path |
| Generator.CreatePatches | src/cJSON_Utils.c:1141-1279 | the recursion appends exactly the steps from one item to the other, under the path it is given |
| Generator.CreateItemPatches | src/cJSON_Utils.c:1170-1213 | the three loops over array elements append the steps for arrays |
| Generator.CreateMemberPatches | src/cJSON_Utils.c:1215-1274 | the walk over two sorted objects appends the steps for objects |
| Generator.GeneratePatches | src/cJSON_Utils.c:1281-1309 | the whole generator |
| Generator.GenerateThenApply | src/cJSON_Utils.c:1281-1309 | generating and applying, as a caller does it, arrives at the new document when members to be detached can be reached and all names survive decoding in place |
| Generator.DetachesIff | src/cJSON_Utils.c:462-467 | detaching takes the member that was asked for exactly when no earlier one has its name up to case |
| Generator.AddsIff | src/cJSON_Utils.c:1005-1017 | adding gives a member the name that was meant exactly when the name survives decoding in place |
| DiffNames.CaseMisleads | src/cJSON_Utils.c:462-467 | for every two names that differ by case only, a pair of documents for which the wrong member goes, and every status is 0 |
| DiffNames.NameMisleads | src/cJSON_Utils.c:1005-1017 | for every name that does not survive decoding in place, a pair of documents for which generating and applying misses the new one |
| DiffNames.ArrivesIff | src/cJSON_Utils.c:1281-1309 | the condition on names is exact: all documents with given names come back, their members being distinct for the lookups of the call and the new one not too deep to copy, if and only if every name survives decoding in place and, in case-sensitive calls, no two of them differ by case only |
| MergePatch.MergePatch | src/cJSON_Utils.c:1321-1379 | the recursion and loop of `merge_patch` |
| MergePatch.MergeMeans | src/cJSON_Utils.c:1321-1379 | the result means the MergePatch function of RFC 7396, section 2, for every target and patch with distinct sibling names; it fails exactly when a value is too deep to copy |
| GenerateMerge.GenerateMergePatch | src/cJSON_Utils.c:1391-1471 | the recursion and walk of `generate_merge_patch` |
| GenerateMerge.LowerConsistent | src/cJSON_Utils.c:1411-1423 | names without capital letters are among those on which all orders of the generator agree |
| GenerateMerge.SortSame | src/cJSON_Utils.c:1406-1407 | on names ordered alike with and without case, sorting does not depend on the flag |
| GenerateMerge.CompareSame | src/cJSON_Utils.c:1450-1454 | nor does the comparison of trees |
| GenerateMerge.MergePatchSame | src/cJSON_Utils.c:1321-1379 | nor does merging |
| GenerateMerge.GenerateMeans | src/cJSON_Utils.c:1391-1471 | for names on which all orders of the generator agree the patch is the difference of the two documents; there is none exactly for two objects equal up to member order |
| GenerateMerge.MergeDifference | src/cJSON_Utils.c:1391-1471 | merging the difference gives the new value if and only if a merge patch can express the change |
| GenerateMerge.GenerateThenMerge | src/cJSON_Utils.c:1391-1471 | for the same names, merging the generated patch into a copy of the old document succeeds, and gives the new one if and only if the change can be expressed, as it always can when the new document has no null member |
| GenerateMerge.InconsistentMisleads | src/cJSON_Utils.c:1391-1471 | for any two names ordered differently, and each pair of flags, two documents with these names that do not come back |
| GenerateMerge.ConsistentIff | src/cJSON_Utils.c:1391-1471 | the condition on names is exact, for each pair of flags: all documents with such names, the difference of which can be expressed, come back if and only if `strcmp` orders the names as it does their lower-case forms |
| GenerateMerge.CapitalsMislead | src/cJSON_Utils.c:1411-1423 | with a capital letter the sort order and `strcmp` disagree, and the patch deletes a member both documents have |
| GenerateMerge.CapitalsMisleadBelow | src/cJSON_Utils.c:1450-1454 | the case-sensitive generator does the same below the top, where it ignores case |
| Printer.PrintBuffer.Ensure | src/cJSON.c:490-573 | room for the bytes asked for and one more is found exactly within the limit; what was written stays, and nothing outside the buffer is touched |
| Printer.EscapeCharacters | src/cJSON.c:981-1005 | the counted extra bytes are exactly those that escaping adds |
| Printer.PrintBuffer.PrintStringPtr | src/cJSON.c:954-1073 | a string is printed with its quotation marks, escapes and NUL, exactly when they fit |
| Printer.PrintBuffer.PrintNumber | src/cJSON.c:596-663 | an integer in the range of `int` is printed in decimal, exactly when it fits |
| Printer.PrintBuffer.PrintValue | src/cJSON.c:1423-1494 | a value is printed as `Text` says exactly when its depth and the limit allow it; failure touches nothing outside |
| Printer.PrintBuffer.PrintArray | src/cJSON.c:1595-1659 | the same for arrays, with the separators of both formats |
| Printer.PrintBuffer.PrintObject | src/cJSON.c:1780-1896 | the same for objects, with indentation, colons and line ends |
| Printer.PrintPreallocated | src/cJSON.c:1348-1365 | printing into a fixed buffer succeeds if and only if the length is at least that of the text plus 2; the buffer then holds the text and a NUL, and bytes from the length on never change |
| Printer.Print | src/cJSON.c:1239-1304 | the growing buffer yields the same text, up to INT_MAX |
| Printer.PrintBuffered | src/cJSON.c:1317-1346 | so does a buffer that starts with a given size |
| Parser.ParseHex4 | src/cJSON.c:666-699 | four hexadecimal digits are read as their number, anything else as 0 |
| Parser.WriteUtf8 | src/cJSON.c:766-815 | the bytes of a code point are written from last to first into their place and nowhere else |
| Parser.Utf16Literal | src/cJSON.c:703-765 | one escape, or a pair, gives its code point; lone halves and truncated pairs are refused |
| Parser.SkipsSix | src/cJSON.c:838-870 | at most half of the bytes of a `\uXXXX` begin escapes, so that what the escape yields is within the reserved output |
| Parser.ParseBuffer.FindClosingQuote | src/cJSON.c:838-860 | the first loop finds the closing quotation mark and counts the skipped bytes |
| Parser.ParseBuffer.ParseString | src/cJSON.c:824-951 | the string is decoded as specified, and no input makes the second loop write past the allocated output |
| Parser.ParseBuffer.ParseNumber | src/cJSON.c:307-408 | an integer in the range of `int` is read as `strtod` reads it, and the offset moves behind it |
| Parser.ParseBuffer.ParseValue | src/cJSON.c:1368-1420 | the recursion parses as the specification does and stops where it does |
| Parser.ParseBuffer.ParseArray | src/cJSON.c:1497-1592 | arrays, with the nesting limit |
| Parser.ParseBuffer.ParseObject | src/cJSON.c:1662-1777 | objects, with the nesting limit |
| Parser.ParseWithLengthOpts | src/cJSON.c:1147-1224 | the whole parser, with byte order mark and the check for a NUL behind |
| Grammar.PiecesRead | src/cJSON.c:824-951 | a string written with any of the forms of RFC 8259, section 7, for each character, itself, the eight two-character escapes, and `\uXXXX` in digits of either case, alone or as a pair, is read as the bytes it stands for, in UTF-8 |
| Grammar.ValueReads | src/cJSON.c:1368-1777 | every text of a value of RFC 8259, with any blanks and at most 1000 levels of nesting, its numbers being integers of 32 bits, is read as the tree it stands for, and nothing behind it |
| Grammar.DocumentReads | src/cJSON.c:1147-1224 | so is every text with blanks around it and perhaps a byte order mark before it, whether or not the call asks for nothing but the NUL behind it |
| Language.DocumentBack | src/cJSON.c:1147-1777 | the converse: what the parser accepts is the text of such a document, and the tree is the one it stands for |
| Language.AcceptsIff | src/cJSON.c:1147-1777 | the parser accepts exactly these documents, each as the tree it stands for, among the texts every `\u` of which has four hexadecimal digits |
| Language.ReadsMore | src/cJSON.c:666-699 | a `\u` without them is accepted as U+0000, which ends the string |
| Unicode.Utf8RoundTrip | src/cJSON.c:766-815 | every code point comes back from its UTF-8 form, which has the lengths and byte ranges of RFC 3629, section 3 |
| Unicode.CodepointRoundTrip | src/cJSON.c:703-821 | the escape of every code point that is not a surrogate is read back, alone or as a pair (RFC 8259, section 7) |
| Unicode.LoneSurrogate | src/cJSON.c:722-765 | half a pair that stands alone is refused |
| RoundTrip.EscapedRoundTrip | src/cJSON.c:824-951 | decoding undoes the printer's escapes, `\u00XX` included |
| RoundTrip.NumberRoundTrip | src/cJSON.c:307-408 | an integer in the range of `int` is read back |
| RoundTrip.PrintedLayout | src/cJSON.c:1595-1896 | the text of a tree is a text of RFC 8259 that stands for the tree: formatted it has a blank behind each comma of an array, a line, tabs and a tab behind the colon for each member, and unformatted nothing outside string literals |
| RoundTrip.LayoutCompact | src/cJSON.c:1595-1896 | the unformatted text has no blank outside string literals |
| RoundTrip.PrintThenParse | src/cJSON.c:1368-1896 | parsing the text of a tree, formatted or not, gives the same tree and stops exactly at the end of the text |
| RoundTrip.PrintThenParseBefore | src/cJSON.c:1368-1896 | the same when other bytes follow the text |
| Modbus.PduAddrMeans | src/opcua_server.c:214-256 | a reference has the address it denotes in the notations of its type, six digits from 200001, 100001, 300001 or 400001 on, five from 20001, 10001, 30001 or 40001 on, or counted from 1, and none exactly when it is below 1 or the type is unknown |
| Modbus.PduAddrFits | src/opcua_server.c:421-424 | none of the sums over an address overflows `int` |
| Modbus.PlannedMeans | src/opcua_server.c:408-428 | what the planner collects are the variables with memory whose reference denotes an address, and a request holds the range of one exactly when it is of its type and has all of its 1, 2 or 4 bits or registers |
| ReadPlan.LeqMeans | src/opcua_server.c:294-306 | ranges are ordered by type, discrete inputs, coils, input and holding registers, then by first and by last address |
| ReadPlan.SortedUnique | src/opcua_server.c:294-306 | the order of ranges is total: whatever `qsort` does there is one sorted list |
| ReadPlan.ModbusReadPlan.Append | src/opcua_server.c:308-330 | a block is appended, the array growing from 16 on by doubling, or refused when it is empty |
| ReadPlan.ModbusReadPlan.Flush | src/opcua_server.c:361-379 | a span is cut into blocks within the limit |
| ReadPlan.CutMeans | src/opcua_server.c:361-379 | its requests follow each other from the first address to the last, all of 125 registers or 2000 bits but the last one |
| ReadPlan.ModbusReadPlan.Clear | src/opcua_server.c:381-391 | the plan is emptied |
| ReadPlan.CollectRanges | src/opcua_server.c:405-428 | the loops over devices and variables collect the ranges of exactly the planned variables |
| ReadPlan.PackRanges | src/opcua_server.c:437-471 | the packing loop with its running start and end appends the greedy plan |
| ReadPlan.BuildModbusReadPlan | src/opcua_server.c:393-487 | the whole builder leaves the greedy plan of the sorted ranges, which reads every variable that can be read, with at most 125 registers or 2000 bits a request |
| ReadPlan.PlanIsComplete | src/opcua_server.c:435-473 | every range lies whole in one request of its type |
| ReadPlan.PlanIsLegal | src/opcua_server.c:361-379 | every request has between 1 and 125 registers or 2000 bits and is exact at both ends; types come in order, and starts of one type increase by at least 2000 bits or 122 registers |
| ReadPlan.OneEach | src/opcua_server.c:446-473 | ranges of which no two fit into one request need a request each (pigeonhole) |
| ReadPlan.PlanIsMinimal | src/opcua_server.c:435-473 | no set of requests within the limits that holds every range whole is smaller than the plan |
| ReadPlan.EveryPointDelivered | src/opcua_server.c:393-487 | the same in terms of variables: each planned one is delivered whole |
| ReadPlan.PlanForDevices | src/opcua_server.c:393-487 | the plan reads every variable of all devices that has memory and a reference that denotes an address, within the limits, and no requests within the limits that do so are fewer |
| Poll.UpdateFromBlock | src/opcua_server.c:538-591 | a reply is scattered to exactly the variables it holds whole |
| Poll.PolledReflects | src/opcua_server.c:489-536 | what a poll leaves in a variable are the registers of the device: word k of the value is register k behind the address, up to the width of the type; BOOL and bits are 1 or 0, USINT the low byte; the bytes above stay |
| Poll.NoGuardSkips | src/opcua_server.c:489-536 | no length guard of the update skips a variable that the request delivers, which becomes the decoding of its own words |
| Poll.Scattered | src/opcua_server.c:538-591 | however many overlapping requests deliver a variable, the outcome is that of reading it on its own |
| Poll.BatchedIsSeparate | src/opcua_server.c:538-642 | batched polling refines separate reads: exactly the variables that can be read change, each to the words at its own address |
| Poll.PollPlan | src/opcua_server.c:2417-2432 | the reading part of a round: when all requests are answered every variable that can be read has the words at its address, and no other changed; otherwise exactly those have that a request before the first failure reads |
| WriteBack.PollAfterWrite | src/opcua_server.c:1564-1723 | what has been written is what a poll of the device finds, and the cached value is what it leaves |
| WriteBack.WriteToDevice | src/opcua_server.c:1604-1673 | which writes are made, what the device then holds, also when only the first word of a float arrives, and that it holds what it held elsewhere |
| WriteBack.FindVariable | src/opcua_server.c:1581-1595 | the loops over devices and variables find the first entry with the node, if there is one |
| WriteBack.WriteVariable | src/opcua_server.c:1564-1723 | a write that is no echo of polling is good exactly when the first variable with that node has an address, is a BOOL coil or a BOOL, USINT, UINT or REAL holding register, the value is of the type that goes with it, and the device answers; it then reaches that variable only and leaves a value that the next poll reproduces; a failed one leaves every value alone |
| Address.Increment | src/ipv6_manager.c:887-897 | the loop over the bytes adds one modulo 2 to the power of 128 |
| Address.CompareAddresses | src/ipv6_manager.c:842-852 | the byte order is the numeric order, and equality is equality of all bytes |
| Address.GuidRoundTrip | src/opcua_server.c:662-692 | formatting an address as eight groups and converting the text gives back its 16 bytes |
| Address.FormatLayout | src/ipv6_manager.c:942-946 | the text of an address has 39 characters, eight groups of four lower-case hexadecimal digits, those of its bytes in order, with colons between them |
| Address.AddressesDiffer | src/opcua_server.c:662-692 | different addresses have different texts and different node identifiers |
| Address.TextRoundTrip | src/ipv6_manager.c:942-946 | numbers below 2 to the power of 128 and texts of addresses correspond |
| Pool.AddressPool.CountUp | src/ipv6_manager.c:905-935 | the counted increments arrive at start plus counter |
| Pool.AddressPool.Generate | src/ipv6_manager.c:900-986 | the locked section does what `Find` says |
| Pool.AddressPool.GenerateAddress | src/ipv6_manager.c:900-986 | with its retry: the next address, strictly in order, until the pool is exhausted |
| Pool.AddressPool.Forget | src/ipv6_manager.c:814-839 | exactly one entry of the address goes from the list |
| Pool.RemoveOne | src/ipv6_manager.c:814-839 | of several entries of one address one goes |
| Pool.NeverTaken | src/ipv6_manager.c:948-975 | the address the counter stands at is never on the list, so that the retry is never due |
| Pool.AddressWraps | src/ipv6_manager.c:925-940 | only a pool that reaches the last of all addresses starts over at zero |
| PoolLimits.ReturnsTwice | src/ipv6_manager.c:900-986 | in every pool as large as the range of the counter, whatever addresses are present, a run of one thread with one release in which an address is returned twice |
| PoolLimits.WrapsToZero | src/ipv6_manager.c:900-986 | in every smaller pool that ends at the last of all addresses, a run of one thread in which zero, which is not of the pool, is returned |
| PoolLimits.SmallIsExact | src/ipv6_manager.c:900-986 | the pools safe in every run of any number of threads are exactly those in which neither counter nor address can wrap around |
| Calls.AllocateAlone | src/ipv6_manager.c:1389-1444 | an allocation that no thread interrupts: an exhausted pool changes nothing; a refused address is dropped and on no list; any other is returned, entered for its owner, and tracked when it was not there before |
| Calls.ReleaseAlone | src/ipv6_manager.c:1446-1467 | a release that no thread interrupts: refused, it changes nothing; otherwise the address leaves the interface and the lists, and the owner the map |
| Calls.ReleaseUndoes | src/ipv6_manager.c:1389-1467 | a release undoes the allocation before it, except that the counter has moved on |
| Calls.GoneForGood | src/ipv6_manager.c:1389-1467 | in every run of any number of threads, an address that was returned and then deleted from the interface is never on it again |
| Threads.StepKeeps | src/ipv6_manager.c:1389-1467 | every locked section, of any thread, keeps the invariant, with refused additions and releases |
| Threads.RunKeeps | src/ipv6_manager.c:1389-1467 | so does every run |
| Threads.NeverTwice | src/ipv6_manager.c:900-986 | in every interleaving of any number of threads: addresses strictly increase, lie in the pool, are never handed out twice, even after release, nor held by two threads at once, and the counter never passes the size of the pool |
| Cleanup.InRangeIff | src/ipv6_manager.c:869-885 | the range test on texts is the range test on numbers |
| Cleanup.CopyUnique | src/ipv6_manager.c:1494-1508 | the addresses of a list join the list to be cleaned, without doubles |
| Cleanup.CopyInRange | src/ipv6_manager.c:1511-1526 | so do those of the interface that lie in the pool |
| Cleanup.RemoveAll | src/ipv6_manager.c:1470-1571 | exactly the addresses that are tracked, in use or reported and in the pool, and that the system does not refuse, leave the interface, and both lists end empty |
| Cleanup.CleanupIsExact | src/ipv6_manager.c:1470-1571 | when nothing is refused, no address of the pool remains and every other one does |
| Cleanup.CleanupAfterRun | src/ipv6_manager.c:1470-1571 | the same after any run of any number of threads, whatever addresses the interface had before |
| Startup.CreateDeviceNodes | src/opcua_server.c:1777-1930 | the tables made from the records, by the loops that count and enter; the fleet begins untouched |
| Startup.EnteredFit | src/opcua_server.c:1786-1839 | the table of devices has room for every name that is entered |
| Startup.EachRecordOnce | src/opcua_server.c:1777-1930 | every named record is a variable of its device, an entry has a variable for each record of its name and no other, and no device has two entries if and only if the records of each device are together |
| Lifecycle.ManageMeans | src/opcua_server.c:2588-2645 | addresses once set stay, also one that the interface refused; a device's nodes exist afterwards exactly when it is online and had an address before, or is allocated one that is accepted |
| Lifecycle.VariablesGet | src/opcua_server.c:2165-2192 | when nodes are made every variable gets one, keeps the address it has, and is given the next of the pool otherwise, if there is one and the interface accepts it |
| Lifecycle.RefusedThenUsed | src/opcua_server.c:2619-2635 | a device whose address is refused keeps it without nodes, and gets its nodes under that address when it is found online again, whatever the interface says then |
| Lifecycle.PassMeans | src/opcua_server.c:2588-2645 | the same for every device of a pass, with the counter as it stands when the pass comes to it |
| Lifecycle.PassGrows | src/opcua_server.c:2020-2274 | a pass hands out addresses between its first and last counter only, none twice, refused addresses of devices included |
| Lifecycle.PollsKeep | src/opcua_server.c:2588-2645 | every run of polls keeps distinctness, every address, and that a device has all its nodes or none |
| Lifecycle.EveryRun | src/opcua_server.c:2588-2645 | over every run: no two owners share an address, none is from outside the pool or from before, none ever changes, and after each pass nodes exist exactly when the status reads online and the device had an address or was allocated an accepted one |
| Management.DeviceManager.Allocate | src/ipv6_manager.c:1389-1444 | the next address of the pool is written for the caller whether or not the interface accepts it; success is acceptance; a refused address leaves the list |
| Management.DeviceManager.AddVariableNodes | src/opcua_server.c:2165-2192 | every variable keeps its address or gets one, and a node |
| Management.DeviceManager.AddDeviceNodes | src/opcua_server.c:2020-2274 | the nodes of a device and of its variables |
| Management.DeviceManager.DeleteDeviceNodes | src/opcua_server.c:1976-2017 | the nodes go, the addresses stay |
| Management.DeviceManager.ReadStatus | src/opcua_server.c:2594-2611 | a device is online exactly when its first variable called like the device and `_status` has a value of which the low 16 bits are 0 |
| Management.PassFollowsStatus | src/opcua_server.c:2588-2645 | after a pass the nodes of a device exist exactly when that status is 0 and the device had an address or was given the next of the pool, accepted by the interface |
| Management.DeviceManager.ManageDevice | src/opcua_server.c:2613-2644 | what the pass does with one device |
| Management.DeviceManager.ManagementPass | src/opcua_server.c:2588-2645 | the loop over the devices is `Pass`, whose meaning `PassMeans` and `EveryRun` state |

## Left out

- DiffThenApplyIff: asks that members to be detached can be reached (`Fit`), that names of the new document differ for the lookups of the call, and that it can be copied. The first is not necessary for a single document: two operations that each hit the member of the other can still leave the right members. `ArrivesIff` is exact, about all documents with given names.
- DiffThenApply: asks the same; that generating sorts the two documents in place is not modelled, the operations are applied to a fresh copy of the old one.
- GenerateThenApply: asks the same.
- AddItemToArray: that the node the item is linked behind, when it has left the list, may have been freed, is not captured on the heap; `Live` calls the outcome of such an addition undefined.
- TestThenAdd: sorting the value of the `test` operation itself is not modelled; it does not change later operations of the same list.
- TestThenReplace: the same; `move` and `copy` after `test` are covered by `DanglesIff` and by the outcome of an addition in any document (`AddToFate`), not by a theorem of their own.
- GenerateMergePatch: `compare_json` sorts the two members it compares in place before the nested generator sorts them again; the sort is not stable for names equal up to case, so that the order in which the model walks these can differ from the source's. The theorems, which are about names that are told apart, are not affected.
- ConsistentIff: is about all documents with given names; which single documents with other names come back is not stated.
- CompareSortedMeans: trees with repeated sibling names are outside the theorems on meanings, here and for patches and merge patches; the functions themselves cover them.
- Sort: `create_patches`, `compare_json` and `generate_merge_patch` call the function `Sort` on values; the same sort on nodes, with its links, is `ChildList.SortList`.
- Live.ApplyPatch: `apply_patch`, `detach_path` and `overwrite_item` are functions from the old document to a status and the new document, so that sharing of nodes and freeing are not captured; the list operations they use are methods on nodes in `ChildList`.
- Json.Duplicate: `cJSON_Duplicate_rec` is a function on values; that all nodes of the copy are new is not captured.
- ChildList.Node: key and value of a node do not change in the model, and a list holds each node once.
- CompareItems: the shortcut of `cJSON_Compare` for one and the same pointer is not modelled; it matters only for trees with an invalid item.
- DecodeArrayIndex: an index too large for `size_t` is not cut off.
- ParseNumber: numbers outside the range of `int`, for which the source saturates its integer field, numbers with a fraction or an exponent, and what else `strtod` accepts, lead to the result `Unmodelled`; floating point and decimal points of other locales are not part of this model.
- AcceptsIff: is about C strings, integers in the range of `int`, and texts in which every `\u` has four hexadecimal digits; `ReadsMore` says what becomes of others that do not hide a quotation mark or a backslash among the four bytes.
- ParseWithLengthOpts: where a failed parse points to, and the global error pointer, are not modelled.
- Print: numbers are integers in the range of `int`, printed with `%d`; raw items and references are not part of this model; the extra reallocation that trims the text is not modelled, and the buffer length is within `int`.
- Failing memory allocation and allocation hooks are not modelled, for any part.
- `cJSON_Minify`, number helpers, and the constructors and getters of items: they would only add easy members.
- Modbus.PduAddr: references are integers within `int`.
- BuildModbusReadPlan: growth of the temporary array of ranges is a sequence that grows; logging is left out.
- PollPlan: connecting, reconnecting and waiting are left out; the replies come from a memory that does not change during the round.
- Decoded: a status variable declared `undefined` has two bytes of memory whatever its type; the model takes the memory of a variable to be large enough for its type.
- UpdateFromRegisters: is proved against the function that says it case by case; `NoGuardSkips` and `BatchedIsSeparate` state what that means.
- WriteVariable: the locked section is one step; what the OPC UA library does with a status is not modelled.
- GuidRoundTrip: `sscanf` is modelled for addresses written out in eight groups, as the allocator writes them; signs, white space, `0x` and `::` are not.
- CleanupIsExact: the text of an address on the interface is the form the allocator writes; other spellings of it are not modelled. The branch for other systems, which has no list of the interface, is `RemoveAll` with no system list.
- RemoveAll: what the operating system does with a deletion is the outcome given for it.
- NeverTwice: is about pools for which neither the 32-bit counter nor the address wraps around (`Small`); `SmallIsExact` is about the others. Locks are steps that nothing interrupts.
- EveryRun: allocation fails only when the pool is exhausted or the interface refuses, and node creation succeeds; variables without an address get a node under a fixed address, which has no place in the count of owned addresses.
- AddDeviceNodes: values, access levels and status texts of nodes are left out, and so is memory for values that fails; the OPC UA library is not part of this model.
- Take: the map from owners to addresses is part of `Threads`, and the delay after several additions is left out.
- EachRecordOnce: names are no longer than the fields that hold them, as the reader of the records ensures.
- Sockets, signals, files, log rotation, configuration loading, CSV reading, the ADDP protocol and the copies of sources for other systems: input and output, or other versions of the same.
