# Verified model of lprofile and of the Dyninst trees it uses

lprofile is a profiler built on Dyninst. This project models, in Dafny, the parts whose state is hard to
keep right, and proves what they promise.

- **Interval tree** (`RedBlack`, `IbsMarks`, `IbsTree`, `IbsRun`, `Counting`): Dyninst's interval binary search tree,
  a red-black tree over interval endpoints whose nodes carry three sets of marks. The meaning of the marks
  is "the live intervals that contain x"; every insertion, rotation and removal keeps it. Insertion marks
  an interval in two halves with a rebalancing in between; the proof says what the half-inserted state is
  and why the halves meet. Inside the limits of the endpoint type the marks are also minimal: their places are
  a function of the tree's shape, on the search paths of the endpoints only, which gives the O(N log N)
  storage the class promises.
- **Address-range tree** (`RedBlack`, `RedBlackDelete`, `AddrRanges`, `AddrRangeTree`, `AddrRun`): the
  red-black tree with deletion, parent pointers and one shared sentinel whose parent is written during
  deletion. It refines a finite map; lookups agree with a linear scan.
- **Circular lists** (`CircularList`): the intrusive lists, each operation with its meaning on sequences.
- **Counter page** (`PerfPage`): the retry loop that reads a perf counter while the kernel updates the page.
- **Probe runtime** (`EventList`, `ThreadSlots`, `RunFacts`, `Profile`): the table of thread slots, the record buffers
  and their files, over whole runs.
- **Function map** (`FuncMap`): names, ids and the cache file.

Mutable structures are classes with the fields of the original. `RedBlack.Node` is shared by the two trees,
which differ in what a node carries. Besides the original's fields it has ghost fields for the open region
of keys its subtree may hold and for its black height; `Valid` ties them to the links and colours. With
them all invariants are statements about single nodes and their neighbours, and a rotation or a deletion
step is a statement about the few nodes it touches.

Four promises do not hold for all inputs. The code is modelled as it is, and each has a counterexample and
the condition under which it holds:

- Point lookup and range lookup in the address-range tree compute the end of a range in a machine word. A
  range that ends at the top of the address space wraps around to 0 and is missed
  (`AddrRanges.TopRangeIsMissed`, `AddrRanges.FoundIsStored`, `AddrRanges.TopRangeIsUnlisted`,
  `AddrRanges.ListsAllMeeting`).
- `find` in the interval tree, at the greatest value of the endpoint type, can report a live interval that
  ends there (`IbsRun.TopIsOverstated`), because that value also stands for infinity. It reports nothing
  else wrongly, in particular no removed interval, and it is exact if no live interval reaches that value
  (`IbsTree.IBSTree.StabIsContaining`).
- Cutting and splicing back is not the identity on an empty list (`CircularList.CutThenSpliceEmpty`).
- A function name of 255 characters comes back from the cache followed by an empty name
  (`FuncMap.LongNameAddsEmpty`, `FuncMap.RoundTrip`).

Two more things a reader of the code may not expect are proved: a thread that hits a probe before its
registration is ignored for good (`ThreadSlots.IgnoredForever`), and if setting up the first thread fails,
the buffered records of the other threads are never written (`ThreadSlots.FailedStartLosesRest`). The second
holds of a run that gets that far: on the failing path the code first closes the log file
(probe/profile.c:309), which is a null pointer since no code opens it, and the model takes that call to return.

What the environment does is a parameter: which page version each access sees and what the counter register
reads, which directory entries the start-up scan finds, whether files open and events start, what the
counters and the clock read. Writing to a file is assumed to write everything. Registrations are atomic
steps, as under the lock. Where the code would use a null pointer or leave a buffer, the model says so in its
result and stops: start-up uses the result of its own lookup unchecked (probe/profile.c:290-291), and loading
the cache looks at the character before an empty string (utils/funcmap.cc:337-338).

`dafny verify dfyconfig.toml` checks everything.

## Model

| member | source | states |
|---|---|---|
| `RedBlack.Shape.NestedBelow` | Dyninst-8.2.1/common/src/addrRange.h:296-310 | in a linked search tree the regions of any two nodes are nested or apart, and a node whose key lies in another's region is below it |
| `RedBlack.Shape.GapIsEmpty` | Dyninst-8.2.1/common/h/IBSTree.h:638-653 | a key in a node's region on a side without a child does not occur in the tree; the reason why a descent that runs off the tree has missed nothing |
| `RedBlack.Shape.EmptyPosition` | Dyninst-8.2.1/common/src/addrRange.h:245-271 | the position a descent ends at is in no node's way: no node has the key that was looked for |
| `RedBlack.Shape.HeightIsLogarithmic` | Dyninst-8.2.1/common/h/IBSTree.h:574-616 | 2^height <= (n+1)^2 in every red-black tree of n nodes, that is, height at most 2*log2(n+1) |
| `RedBlack.Shape.PathIsShort` | Dyninst-8.2.1/common/h/IBSTree.h:638-653 | a search visits no more nodes than the tree is high |
| `RedBlack.RotateRight` | Dyninst-8.2.1/common/h/IBSTree.h:267-331 | the pointer moves of a right rotation, including the parent's link and the root: the result is the rotated tree and nothing else moved |
| `RedBlack.RotateLeft` | Dyninst-8.2.1/common/h/IBSTree.h:334-389 | the mirror image |
| `RedBlack.TurnedRightLinked` | Dyninst-8.2.1/common/src/addrRange.h:155-175 | a right rotation keeps the search order and all parent links |
| `RedBlack.TurnedLeftLinked` | Dyninst-8.2.1/common/src/addrRange.h:131-151 | a left rotation keeps the search order and all parent links |
| `RedBlack.FixRecolour` | Dyninst-8.2.1/common/src/addrRange.h:467-472 | recolouring moves the only possible red-red edge two levels up and keeps black heights |
| `RedBlack.FixInnerLeft` | Dyninst-8.2.1/common/src/addrRange.h:474-477 | turning an inner grandchild outwards keeps the only possible red-red edge where it is |
| `RedBlack.FixOuterRight` | Dyninst-8.2.1/common/src/addrRange.h:478-480 | the final rotation of an insertion removes the red-red edge and keeps black heights |
| `RedBlack.FixInnerRight` | Dyninst-8.2.1/common/src/addrRange.h:492-495 | the mirror image of `FixInnerLeft` |
| `RedBlack.FixOuterLeft` | Dyninst-8.2.1/common/src/addrRange.h:496-498 | the mirror image of `FixOuterRight` |
| `RedBlack.FixRoot` | Dyninst-8.2.1/common/h/IBSTree.h:615-615 | blackening the root when no red-red edge is left gives a red-black tree |
| `RedBlack.HangLeaf` | Dyninst-8.2.1/common/src/addrRange.h:258-270 | hanging a new red leaf at an empty position keeps order and black heights; the only possible red-red edge is at the leaf |
| `IbsMarks.GivesIsSound` | Dyninst-8.2.1/common/h/IBSTree.h:638-653 | a mark that a search for x meets belongs to an interval that claims x, whatever the tree's shape |
| `IbsMarks.RightTurnKeeps` | Dyninst-8.2.1/common/h/IBSTree.h:293-330 | for all sound mark sets and regions, the rewriting of the marks by a right rotation is sound for the new regions and gives every point every mark it had |
| `IbsMarks.LeftTurnKeeps` | Dyninst-8.2.1/common/h/IBSTree.h:361-388 | the mirror image |
| `IbsMarks.RightTurnOnly` | Dyninst-8.2.1/common/h/IBSTree.h:293-330 | the rewriting invents no mark of a dead interval |
| `IbsMarks.LeftTurnOnly` | Dyninst-8.2.1/common/h/IBSTree.h:361-388 | the same, unless the node of the greatest value of the type is lifted, which no rotation of `insertFixup` does |
| `IbsMarks.RightTurnStarts` | Dyninst-8.2.1/common/h/IBSTree.h:293-330 | the rewriting does not touch `equal` marks at an interval's lower endpoint |
| `IbsMarks.LeftTurnStarts` | Dyninst-8.2.1/common/h/IBSTree.h:361-388 | the mirror image |
| `IbsMarks.RightTurnForm` | Dyninst-8.2.1/common/h/IBSTree.h:293-330 | the rewriting keeps an interval marked on the search paths of its endpoints only and everywhere there where that is sound; for a half-inserted interval on the path of its lower endpoint |
| `IbsMarks.LeftTurnForm` | Dyninst-8.2.1/common/h/IBSTree.h:361-388 | the mirror image for an interval that is inserted completely |
| `IbsMarks.LeftTurnHalf` | Dyninst-8.2.1/common/h/IBSTree.h:361-388 | the same for a half-inserted interval that starts above the pivot |
| `IbsTree.IBSTree.TurnMarksRight` | Dyninst-8.2.1/common/h/IBSTree.h:293-330 | the loop over the marks computes the rewriting `RightTurn` |
| `IbsTree.IBSTree.TurnMarksLeft` | Dyninst-8.2.1/common/h/IBSTree.h:361-388 | the loop over the marks computes the rewriting `LeftTurn` |
| `IbsTree.IBSTree.RightRotate` | Dyninst-8.2.1/common/h/IBSTree.h:267-331 | for every linked tree with sound marks, also one with a half-inserted interval: the rotated tree is linked, all marks are sound for their new regions, no covered point is uncovered, the search path of a point left of the pivot only loses nodes, and the marks keep their form |
| `IbsTree.IBSTree.LeftRotate` | Dyninst-8.2.1/common/h/IBSTree.h:334-389 | the mirror image, for every linked tree; no dead interval is marked unless the greatest value of the type is lifted |
| `IbsTree.IBSTree.InsertFixup` | Dyninst-8.2.1/common/h/IBSTree.h:574-616 | terminates (decreasing measure: the region grows or the loop ends) with a red-black tree with sound marks of live intervals; nothing is uncovered; the new node's search path gains no node; the marks keep their form |
| `IbsTree.IBSTree.RightUp` | Dyninst-8.2.1/common/h/IBSTree.h:541-555 | the least key above the subtree, or the greatest value of the type |
| `IbsTree.IBSTree.LeftUp` | Dyninst-8.2.1/common/h/IBSTree.h:557-571 | the greatest key below the subtree, or the least value of the type |
| `IbsTree.IBSTree.AddLeft` | Dyninst-8.2.1/common/h/IBSTree.h:393-461 | all marks stay sound, nothing is uncovered, a node for the lower endpoint exists, and the left half of the interval is marked; a new node is a red leaf and is counted |
| `IbsTree.IBSTree.AddRight` | Dyninst-8.2.1/common/h/IBSTree.h:463-539 | the same for the upper endpoint and the right half |
| `IbsTree.IBSTree.LeftMarkedOk` | Dyninst-8.2.1/common/h/IBSTree.h:393-461 | the marks of the whole left descent are sound and cover the left half |
| `IbsTree.IBSTree.RightMarkedOk` | Dyninst-8.2.1/common/h/IBSTree.h:463-539 | the marks of the whole right descent are sound and cover the right half |
| `IbsTree.IBSTree.LeftDoneIsHalfDone` | Dyninst-8.2.1/common/h/IBSTree.h:731-747 | after `addLeft` each point of the interval is covered or beyond every node of the path to the lower endpoint that the interval contains |
| `IbsTree.IBSTree.HalfDoneKept` | Dyninst-8.2.1/common/h/IBSTree.h:574-616 | rebalancing between the two halves keeps this, as the path to the lower endpoint only loses nodes |
| `IbsTree.IBSTree.HalvesMeet` | Dyninst-8.2.1/common/h/IBSTree.h:731-747 | the two halves then cover every point of the interval |
| `IbsTree.IBSTree.InsertLow` | Dyninst-8.2.1/common/h/IBSTree.h:737-740 | the first half with its rebalancing leaves a red-black tree in which only the new interval may be incomplete |
| `IbsTree.IBSTree.InsertHigh` | Dyninst-8.2.1/common/h/IBSTree.h:741-744 | the second half completes it |
| `IbsTree.IBSTree.Insert` | Dyninst-8.2.1/common/h/IBSTree.h:731-747 | the tree is again valid (red-black, marks sound and complete for every live interval), the live set gains exactly the interval and the endpoint set exactly its endpoints |
| `IbsTree.IBSTree.StabIsContaining` | Dyninst-8.2.1/common/h/IBSTree.h:638-653 | in every valid tree the marks on the search path of x name exactly the live intervals that contain x, for x below the greatest value of the type or if no live interval reaches it; at that value they name those and possibly live intervals that end there, never a removed one |
| `IbsTree.IBSTree.FindIntervals` | Dyninst-8.2.1/common/h/IBSTree.h:638-653 | the search adds exactly the marks on the path |
| `IbsTree.IBSTree.FindPoint` | Dyninst-8.2.1/common/h/IBSTree.h:773-779 | `find(X)` adds exactly the live intervals with low <= X < high (or low == high == X) and returns the number newly added; at the greatest value of the type live intervals that end there may be added as well, and none is if none is live |
| `IbsTree.IBSTree.TakenOverlap` | Dyninst-8.2.1/common/h/IBSTree.h:666-689 | every mark set the interval query takes whole holds overlapping live intervals only, and for a query of length zero what the point query reports |
| `IbsTree.IBSTree.FindIntervalsIn` | Dyninst-8.2.1/common/h/IBSTree.h:666-689 | the recursion adds only what is to be reported, and all marks that a search for a point of the query would meet in the visited subtree |
| `IbsTree.IBSTree.ReportedIsOverlapping` | Dyninst-8.2.1/common/h/IBSTree.h:666-689 | what is to be reported are the overlapping live intervals, except for a query of length zero at the greatest value of the type while a live interval reaches it |
| `IbsTree.IBSTree.FindOverlapping` | Dyninst-8.2.1/common/h/IBSTree.h:781-787 | the interval query adds exactly the overlapping live intervals and returns the number newly added; a query of length zero adds exactly what the point query adds, everywhere |
| `IbsTree.IBSTree.SkippedHasNone` | Dyninst-8.2.1/common/h/IBSTree.h:692-717 | a subtree that removal prunes holds no mark it would erase |
| `IbsTree.IBSTree.RemoveInterval` | Dyninst-8.2.1/common/h/IBSTree.h:692-717 | although subtrees are pruned, the marks of the interval are erased at every node below the argument, and nothing else changes |
| `IbsTree.IBSTree.ErasedInv` | Dyninst-8.2.1/common/h/IBSTree.h:750-771 | marks stay sound and complete for all other intervals |
| `IbsTree.IBSTree.Remove` | Dyninst-8.2.1/common/h/IBSTree.h:750-771 | exactly the interval leaves the live set, the tree stays valid, and no mark of it is left anywhere if its endpoints are inside the limits of the type |
| `IbsTree.IBSTree.Clear` | Dyninst-8.2.1/common/h/IBSTree.h:847-852 | an empty valid tree of size 0 |
| `IbsTree.IBSTree.SizeAndHeight` | Dyninst-8.2.1/common/h/IBSTree.h:401-422 | in every valid tree `treeSize` is the number of distinct endpoints inserted since the last clear, and 2^height <= (treeSize+1)^2 |
| `IbsTree.IBSTree.MarksDetermined` | Dyninst-8.2.1/common/h/IBSTree.h:289-304 | the maximality of the marks: in every reachable tree its shape alone determines where a live interval inside the limits is marked, whatever the history of insertions, removals and rotations |
| `IbsTree.IBSTree.FewMarks` | Dyninst-8.2.1/common/h/IBSTree.h:57-61 | a live interval is marked at most 4 times the height of the tree: once per node of each kind, on the search paths of its endpoints |
| `IbsTree.IBSTree.StorageBound` | Dyninst-8.2.1/common/h/IBSTree.h:61-61 | the storage is O(N log N): at most 4 N h marks for N live intervals, with 2^h <= (number of endpoints + 1)^2 |
| `IbsTree.IBSTree.CountMarks` | Dyninst-8.2.1/common/h/IBSTree.h:884-888 | the number of all marks |
| `IbsTree.IBSTree.CountMarksBelow` | Dyninst-8.2.1/common/h/IBSTree.h:719-726 | the number of marks in a subtree |
| `Counting.PairsColumns` | Dyninst-8.2.1/common/h/IBSTree.h:719-726 | marks counted by node are at most the intervals times the most that name one |
| `IbsTree.IBSTree.DownOk` | Dyninst-8.2.1/common/h/IBSTree.h:823-830 | a step down of the traversal keeps the pending nodes and the current subtree in key order |
| `IbsTree.IBSTree.DropLast` | Dyninst-8.2.1/common/h/IBSTree.h:807-818 | a step to the right of the top pending node does, too |
| `IbsTree.IBSTree.Examined` | Dyninst-8.2.1/common/h/IBSTree.h:800-806 | what the traversal finds at the next pending node are all live intervals starting there, and no live interval starts between X and it |
| `IbsTree.IBSTree.Successors` | Dyninst-8.2.1/common/h/IBSTree.h:790-833 | terminates; from an empty set: exactly the live intervals whose low is the least live low above X; otherwise the intervals starting at the least endpoint above X are added |
| `IbsTree.IBSTree.Successor` | Dyninst-8.2.1/common/h/IBSTree.h:835-844 | with distinct lower endpoints at most one interval is found, so the assertion holds, and it is the next one |
| `IbsRun.Step` | Dyninst-8.2.1/common/h/IBSTree.h:731-852 | one operation on a valid tree answers and changes the abstract state as the plain set does |
| `IbsRun.Run` | Dyninst-8.2.1/common/h/IBSTree.h:731-852 | for every sequence of inserts, removes, clears and queries on a new tree, the answers are those of a plain set of intervals; only a point query at the greatest value of the type, while a live interval ends there, may name such intervals too |
| `IbsRun.TopIsOverstated` | Dyninst-8.2.1/common/h/IBSTree.h:547-555 | a valid tree whose only interval ends at the greatest value of the type, and `find` at that value reports it although it does not contain the value |
| `RedBlackDelete.ShortRedSiblingLeft` | Dyninst-8.2.1/common/src/addrRange.h:185-191 | deletion with a red sibling: one black node is still missing at x, and the new sibling is a black node, never the sentinel |
| `RedBlackDelete.ShortUpLeft` | Dyninst-8.2.1/common/src/addrRange.h:192-196 | black nephews: the missing black node moves to the parent |
| `RedBlackDelete.ShortInnerLeft` | Dyninst-8.2.1/common/src/addrRange.h:198-203 | red inner nephew: it becomes the sibling, with a red outer child |
| `RedBlackDelete.ShortOuterLeft` | Dyninst-8.2.1/common/src/addrRange.h:204-208 | red outer nephew: the tree is red-black again |
| `RedBlackDelete.ShortRedSiblingRight` | Dyninst-8.2.1/common/src/addrRange.h:212-218 | mirror image |
| `RedBlackDelete.ShortUpRight` | Dyninst-8.2.1/common/src/addrRange.h:219-223 | mirror image |
| `RedBlackDelete.ShortInnerRight` | Dyninst-8.2.1/common/src/addrRange.h:225-230 | mirror image |
| `RedBlackDelete.ShortOuterRight` | Dyninst-8.2.1/common/src/addrRange.h:231-235 | mirror image |
| `RedBlackDelete.ShortEnd` | Dyninst-8.2.1/common/src/addrRange.h:239-239 | blackening a red or root node supplies the missing black node |
| `RedBlackDelete.SpliceOut` | Dyninst-8.2.1/common/src/addrRange.h:516-525 | unlinking a node with at most one child, possibly setting the sentinel's parent, keeps order and links; the tree is red-black if the node was red and one black node short at x otherwise |
| `RedBlackDelete.MoveKey` | Dyninst-8.2.1/common/src/addrRange.h:526-529 | moving the contents of the next entry to a node keeps the search order of the whole tree and its colours |
| `AddrRangeTree.Tree.LeftRotate` | Dyninst-8.2.1/common/src/addrRange.h:131-151 | on a linked tree: nothing without a right child, otherwise the rotated linked tree |
| `AddrRangeTree.Tree.RightRotate` | Dyninst-8.2.1/common/src/addrRange.h:155-175 | the mirror image |
| `AddrRangeTree.Tree.InsertFixup` | Dyninst-8.2.1/common/src/addrRange.h:464-502 | terminates with a red-black tree and a black sentinel |
| `AddrRangeTree.Tree.TreeInsert` | Dyninst-8.2.1/common/src/addrRange.h:245-271 | null and no change exactly when the key is there; otherwise one new red leaf with key and value |
| `AddrRangeTree.Tree.AddedMaps` | Dyninst-8.2.1/common/src/addrRange.h:245-271 | the entries are then the map with the new key |
| `AddrRangeTree.Tree.Insert` | Dyninst-8.2.1/common/src/addrRange.h:456-503 | every red-black property is kept; the map gains the value unless its key is present (the first insert wins) |
| `AddrRangeTree.Tree.DeleteLeftSide` | Dyninst-8.2.1/common/src/addrRange.h:184-210 | one round of the loop on the left: ends with a red-black tree, or one black node short at the parent; the sibling read is always a real node, also when x is the sentinel |
| `AddrRangeTree.Tree.DeleteRightSide` | Dyninst-8.2.1/common/src/addrRange.h:211-237 | the mirror image |
| `AddrRangeTree.Tree.DeleteFixup` | Dyninst-8.2.1/common/src/addrRange.h:179-240 | from any tree one black node short at x, x the sentinel or not: terminates with a red-black tree and a black sentinel |
| `AddrRangeTree.Tree.TreeSuccessor` | Dyninst-8.2.1/common/src/addrRange.h:277-292 | the entry with the least greater key, null if there is none |
| `AddrRangeTree.Tree.FindInternal` | Dyninst-8.2.1/common/src/addrRange.h:296-310 | the entry with the key, null exactly when there is none |
| `AddrRangeTree.Tree.RemovedMaps` | Dyninst-8.2.1/common/src/addrRange.h:516-533 | the map loses exactly the removed key although another entry's node goes |
| `AddrRangeTree.Tree.UnlinkEntry` | Dyninst-8.2.1/common/src/addrRange.h:516-529 | one node goes, the contents of the next entry move if needed, all other entries stay; the result is red-black or one black node short |
| `AddrRangeTree.Tree.Remove` | Dyninst-8.2.1/common/src/addrRange.h:508-534 | every red-black property is kept; the map loses exactly the key |
| `AddrRangeTree.Tree.Clear` | Dyninst-8.2.1/common/src/addrRange.h:637-643 | the empty tree and map |
| `AddrRangeTree.Tree.PrecessorInternal` | Dyninst-8.2.1/common/src/addrRange.h:359-389 | the entry with the greatest key at most the argument; fails exactly when there is none |
| `AddrRangeTree.Tree.SuccessorInternal` | Dyninst-8.2.1/common/src/addrRange.h:393-421 | the entry with the least key at least the argument; fails exactly when there is none |
| `AddrRangeTree.Tree.FindPoint` | Dyninst-8.2.1/common/src/addrRange.h:540-557 | for disjoint ranges the answer is a range containing the key, and agrees with a linear scan if and only if no stored range at or below the key ends beyond the machine word |
| `AddrRangeTree.Tree.Collect` | Dyninst-8.2.1/common/src/addrRange.h:572-582 | the loop lists all entries from a key up to the end, ascending, once each |
| `AddrRangeTree.Tree.FindRange` | Dyninst-8.2.1/common/src/addrRange.h:563-583 | appends, in ascending order and once each, exactly the entries `Listed` describes |
| `AddrRangeTree.Tree.Traverse` | Dyninst-8.2.1/common/src/addrRange.h:329-338 | appends the entries of the subtree, ascending, once each |
| `AddrRangeTree.Tree.Elements` | Dyninst-8.2.1/common/src/addrRange.h:629-634 | appends the whole map in strictly ascending key order; as many as `size`; false exactly for the empty map |
| `AddrRanges.PredDecides` | Dyninst-8.2.1/common/src/addrRange.h:540-557 | for disjoint ranges only the predecessor can contain a key, and the code's test of it is right unless its end wraps around |
| `AddrRanges.FoundIsStored` | Dyninst-8.2.1/common/src/addrRange.h:540-557 | for disjoint ranges, point lookup succeeds exactly when a stored range contains the key, if and only if no stored range at or below the key ends beyond the machine word; it never succeeds wrongly, and the containing range is unique |
| `AddrRanges.ListedIsMeeting` | Dyninst-8.2.1/common/src/addrRange.h:563-583 | for disjoint ranges and start < end, the listed ranges are those that meet [start, end) and possibly the predecessor ending exactly at start |
| `AddrRanges.ListsAllMeeting` | Dyninst-8.2.1/common/src/addrRange.h:563-583 | all ranges that meet [start, end) are listed if and only if the first candidate's end does not wrap below start |
| `AddrRanges.AscendingCount` | Dyninst-8.2.1/common/src/addrRange.h:618-634 | an ascending listing names as many keys as it is long |
| `AddrRun.Run` | Dyninst-8.2.1/common/src/addrRange.h:442-643 | for every sequence of operations on a new tree each answer is right for the plain map after the operations before it: values, listings, order and `size` |
| `AddrRanges.TopRangeIsUnlisted` | Dyninst-8.2.1/common/src/addrRange.h:574-575 | a stored range that meets [start, end) and is not listed, for the same reason |
| `AddrRanges.TopRangeIsMissed` | Dyninst-8.2.1/common/src/addrRange.h:550-551 | a stored range that contains an address for which point lookup fails, because its end wraps around to 0 |
| `CircularList.InitListHead` | probe/list.h:19-23 | an empty list |
| `CircularList.AddBetween` | probe/list.h:25-33 | inserting between neighbours of a ring keeps next and prev mutually inverse; the ring gains exactly the entry, there |
| `CircularList.ListAdd` | probe/list.h:43-46 | the entry is first, the others follow in order |
| `CircularList.ListAddTail` | probe/list.h:57-60 | the entry is last |
| `CircularList.Unlink` | probe/list.h:69-73 | the ring without the entry, in order |
| `CircularList.ListDel` | probe/list.h:86-91 | the list without the entry |
| `CircularList.ListDelInit` | probe/list.h:120-124 | the list without the entry, which is an empty list of its own |
| `CircularList.ListReplace` | probe/list.h:100-107 | the new entry has the place of the old one |
| `CircularList.ListReplaceInit` | probe/list.h:109-114 | the same, and the old entry is an empty list |
| `CircularList.ListMove` | probe/list.h:131-135 | the entry leaves its list and is first in the given one, which may be another list or the same |
| `CircularList.ListMoveTail` | probe/list.h:142-147 | the entry leaves its list and is last in the given one, which may be another list or the same |
| `CircularList.ListIsLast` | probe/list.h:154-158 | whether the entry is the last |
| `CircularList.ListEmpty` | probe/list.h:164-167 | whether there are no entries |
| `CircularList.ListEmptyCareful` | probe/list.h:182-186 | whether there are no entries |
| `CircularList.ListRotateLeft` | probe/list.h:192-200 | the first entry becomes the last |
| `CircularList.RotateFully` | probe/list.h:192-200 | rotating as often as the list is long is the identity |
| `CircularList.ListIsSingular` | probe/list.h:206-209 | whether there is exactly one entry |
| `CircularList.CutAfter` | probe/list.h:211-221 | the entries up to the given one form the new list, the rest stay, both in order |
| `CircularList.ListCutPosition` | probe/list.h:237-249 | the same for any position, with the guards for empty and singular lists |
| `CircularList.SpliceAt` | probe/list.h:251-263 | the spliced ring: entries of both in order, next and prev mutually inverse |
| `CircularList.ListSplice` | probe/list.h:270-275 | the entries of the first list come before those of the second |
| `CircularList.ListSpliceTail` | probe/list.h:282-287 | the entries of the first list come after those of the second |
| `CircularList.ListSpliceInit` | probe/list.h:296-303 | the same as `ListSplice`, and the first list is empty |
| `CircularList.ListSpliceTailInit` | probe/list.h:313-320 | the same as `ListSpliceTail`, and the first list is empty |
| `CircularList.CutThenSplice` | probe/list.h:237-303 | cutting a non-empty list anywhere and splicing the part back is the identity |
| `CircularList.CutThenSpliceEmpty` | probe/list.h:237-303 | on an empty list it is not: the head then holds what the other list held before, so it is the identity exactly when that was empty |
| `CircularList.DeleteAll` | probe/evlist.c:36-41 | the safe iteration of probe/list.h:497-501 with deletion visits every entry once, in order, and leaves the list empty and each entry on its own |
| `PerfPage.ShiftsSignExtend` | probe/evsel.c:357-370 | for every 64-bit value and width the two shifts give the two's complement value of the low bits |
| `PerfPage.LockCounts` | probe/evsel.c:311-320 | the lock word counts page updates modulo 2^32 |
| `PerfPage.SameLockSameVersion` | probe/evsel.c:385-385 | equal lock words and fewer than 2^32 updates in between: the page was the same version all along |
| `PerfPage.LockWordWraps` | probe/evsel.c:385-385 | without that bound the test can pass on a changed page |
| `PerfPage.Pass` | probe/evsel.c:310-385 | one pass: it gives up exactly if the page as read does not allow rdpmc or has no index, and is repeated exactly if the lock word differs; otherwise the count is offset plus counter, both sign-extended, all fields from the one version current throughout the pass |
| `PerfPage.MmapReadSelf` | probe/evsel.c:298-391 | in every interleaving of the field reads with atomic page updates, a returned count comes from one version that was current during the whole last pass; the loop ends with the first pass in which the lock word stays or rdpmc is not allowed, and falls back only then |
| `PerfPage.ReadsQuietPage` | probe/evsel.c:310-390 | if the page always allows rdpmc with a valid index and no update falls into some pass, the result is a count |
| `EventList.EventList.Add` | probe/evlist.c:47-71 | an accepted event gets the next number, which is its position; a rejected item takes none |
| `EventList.EventList.AddAll` | probe/evlist.c:47-71 | after any items the list holds its names and then those of the items that parse: the name of an item stands, and is numbered, at the length before plus the number of such items before it; the result is the number of all such items |
| `EventList.AcceptedAre` | probe/evlist.c:47-71 | the accepted names are those of the items that parse, each at the number of such items before it |
| `EventList.AcceptedJoin` | probe/evlist.c:47-71 | items are accepted one by one |
| `ThreadSlots.RecordsNameEvents` | probe/profile.c:374-394 | every record's event number is the number of the event it was read from if and only if there are at most 256 events |
| `ThreadSlots.RecordsNameHit` | probe/profile.h:30-37 | every record names the function, the side and the time of its hit if and only if the function index fits in 16 bits |
| `ThreadSlots.AllOccupied` | probe/profile.c:76-94 | the count equals the table size exactly when no slot is free |
| `ThreadSlots.TakenAgrees` | probe/profile.c:76-94 | the slot found by the circular search keeps count and next slot in agreement with the table |
| `ThreadSlots.IgnoredForever` | probe/profile.c:408-425 | a thread that hits a probe before it is registered is never measured, even if it gets a slot later |
| `ThreadSlots.NoSlotNoTrace` | probe/profile.c:413-419 | a thread without a slot has no records |
| `ThreadSlots.FailedHasNoTrace` | probe/profile.c:424-427 | a thread whose set-up failed has no records |
| `ThreadSlots.FailedStartLosesRest` | probe/profile.c:350-357 | after a start-up that sets the error flag, exit writes nothing: the files are complete exactly when no partly filled buffer is left |
| `ThreadSlots.ScanFinds` | probe/profile.c:209-252 | the scan registers the process itself exactly when the directory cannot be read or lists the process among its first 64 entries |
| `ThreadSlots.NextInOrder` | probe/profile.c:86-93 | in a table filled from the start the circular search takes the next slot |
| `ThreadSlots.LookUp` | probe/profile.c:96-106 | lookup by id finds the slot registered for it, and only then |
| `ThreadSlots.FollowsRegister` | probe/profile.c:165-187 | a registration step keeps the whole-run description of the table: the k-th registration is in slot k, the 65th and later ones change nothing |
| `ThreadSlots.FollowsCall` | probe/profile.c:408-450 | a probe hit keeps it: exactly the records of that hit are added to the trace of that thread |
| `RunFacts.RegisteredAre` | probe/profile.c:165-187 | the registrations that get a slot are the first 64, each in the slot of the number of registrations before it, and every slot comes from one |
| `RunFacts.IgnoredIs` | probe/profile.c:408-423 | a thread is ignored exactly when one of its hits came before it was registered with a slot |
| `RunFacts.StartedIs` | probe/profile.c:108-163 | a slot runs exactly when the three set-up steps succeed, with the events that parse |
| `RunFacts.AfterHitIs` | probe/profile.c:374-406 | a hit adds one record per event at the end of the trace |
| `RunFacts.HitReaches` | probe/profile.c:408-450 | a hit of a thread whose slot is running and that is not ignored adds its records to that slot |
| `RunFacts.TraceIs` | probe/profile.c:374-450 | a thread registered before its first hit, with successful set-up, has exactly (hits times events) records: the record of event e at a hit stands at (hits before) times events plus e, with the time, function, side and count of that hit |
| `RunFacts.OtherTraceIs` | probe/profile.c:408-425 | every other thread has none |
| `RunFacts.ScannedAre` | probe/profile.c:209-252 | the scan registers the ids among the first 64 entries, in directory order, and no others |
| `RunFacts.ScanTable` | probe/profile.c:209-252 | the table after the scan |
| `RunFacts.StartFailsIs` | probe/profile.c:290-294 | start-up fails exactly when a set-up step of the process itself does |
| `RunFacts.RunLeft` | probe/profile.c:165-450 | the files of a run are what its steps, counted, say |
| `Profile.ThreadInfo.InitThread` | probe/profile.c:108-163 | a thread runs exactly when the event string, the start of the events and the file succeed, with one numbered event per item that parses and an empty open file; otherwise it is in the error state |
| `Profile.ThreadInfo.Append` | probe/profile.c:386-404 | the record goes to a place inside the buffer; file contents followed by the buffered records gain exactly that record, also when the buffer is flushed; there is room again afterwards |
| `Profile.ThreadInfo.ReadCount` | probe/profile.c:374-406 | file contents followed by the buffer gain one record per event, in order, with the time, function and side of the hit and that event's count; only full buffers are written |
| `Profile.ThreadInfo.Destroy` | probe/profile.c:327-346 | the file holds the whole trace and is closed |
| `Profile.Probe.UpdateThreadNid` | probe/profile.c:76-94 | the next slot is the first free one after the current, around the table; UINT_MAX exactly when the table is full, so the search never fails while a slot is free |
| `Profile.Probe.FindTinfo` | probe/profile.c:96-106 | the first slot with the id, none exactly when no slot has it |
| `Profile.Probe.TakeSlot` | probe/profile.c:180-185 | the free slot is set up for the id; count and next slot agree with the table again |
| `Profile.Probe.ThreadInit` | probe/profile.c:165-187 | a full table stays as it is; otherwise the next slot is taken |
| `Profile.Probe.ScanThreads` | probe/profile.c:209-252 | never writes outside the table, also for entries that are no ids; registers the process alone if the directory cannot be read, else every id among the first 64 entries: the slot of an entry is the number of ids before it, set up for it; every taken slot comes from such an entry, and the others are free |
| `Profile.Probe.Init` | probe/profile.c:254-315 | the scan, the caller's own slot, and the error flag exactly when the caller's set-up failed; the lookup whose result is used unchecked fails exactly when the scan did not register the caller |
| `Profile.Probe.FuncHit` | probe/profile.c:408-450 | a thread looks itself up once and remembers the slot, or remembers that it has none; a running thread's trace gains one record per event with the data of the hit, on entry and on exit alike, and nothing else changes |
| `Profile.Probe.Exit` | probe/profile.c:348-372 | unless start-up failed, every running thread's file is its trace |
| `Profile.Probe.ScanEntry` | probe/profile.c:234-246 | the id is written to the next slot, which is in the table; it is registered if positive, and otherwise nothing changes |
| `Profile.Run` | probe/profile.c:165-450 | for every run of start-up, registrations, probe hits in any order and exit, told by counting its steps: the ids among the first 64 directory entries and then the later registrations have the files, up to 64; the file of a thread whose set-up steps succeed and that was registered before its first hit holds, for each of its hits in order, one record per event with the data of that hit, and nothing else; every other file is empty; or after a failed start-up the longest prefix of full buffers; the run gets past start-up exactly when the process is among the first 64 entries or the directory cannot be read |
| `FuncMap.FuncMap.AddFunction` | utils/funcmap.cc:123-143 | the list and the map stay mutually inverse; a new name gets the next id; a known or skipped one changes nothing |
| `FuncMap.FuncMap.GetFunctionID` | utils/funcmap.cc:491-499 | the position of the name, none exactly when it is not listed |
| `FuncMap.FuncMap.UpdateCache` | utils/funcmap.cc:375-397 | the file is the names, one per line |
| `FuncMap.FuncMap.LoadFromCache` | utils/funcmap.cc:320-344 | the names read in pieces of at most 255 characters, each up to a NUL, are added in order; the buffer is left exactly when a piece starts with a NUL |
| `FuncMap.AddedAllIs` | utils/funcmap.cc:123-143 | names are added one after the other, each unless known or skipped |
| `FuncMap.PrintedIs` | utils/funcmap.cc:393-394 | the text is each name followed by a newline, in order |
| `FuncMap.LinesStep` | utils/funcmap.cc:335-342 | the first piece read gives the name before its first NUL, without its newline; a piece that starts with a NUL ends the reading |
| `FuncMap.LinesOfPiece` | utils/funcmap.cc:335-342 | a last line without newline is read, and so is a line that fills the buffer |
| `FuncMap.PrintedIsSafe` | utils/funcmap.cc:337-339 | a cache that was written is read within the buffer |
| `FuncMap.AddedAllExtends` | utils/funcmap.cc:123-143 | no sequence of additions changes an id that was given |
| `FuncMap.LinesAreShort` | utils/funcmap.cc:335-342 | no piece that is read holds a newline or more than 255 characters |
| `FuncMap.LinesOfPrinted` | utils/funcmap.cc:335-342 | names without newline and of at most 255 characters are read back, each of 255 characters followed by an empty line |
| `FuncMap.LoadsRest` | utils/funcmap.cc:320-344 | reading the rest of the names restores the list exactly when each empty line is harmless |
| `FuncMap.RoundTrip` | utils/funcmap.cc:320-397 | loading the written cache restores the list if and only if each name is free of newlines, has at most 255 characters, and, if it has 255, the empty name is skipped, listed before it or next |
| `FuncMap.RoundTripShort` | utils/funcmap.cc:320-397 | so it does for all names without newline of at most 254 characters |
| `FuncMap.LongNameAddsEmpty` | utils/funcmap.cc:335-342 | a name of 255 characters comes back with an extra empty name |
| `FuncMap.SameIds` | utils/funcmap.cc:136-138 | the list determines the ids and the ids the list |
| `FuncMap.AddWriteLoad` | utils/funcmap.cc:123-397 | any additions, then a write, then a load under the same skip list: the same names have the same ids if and only if the list is cacheable |

## Left out

- IbsTree.IBSTree.FindPoint: at the greatest value of the endpoint type, while a live interval ends there, which of those intervals are reported depends on the history of rotations; that it is exact otherwise, misses nothing and reports live intervals only is stated
- IbsTree.IBSTree.Remove: `less` marks of an interval that starts at the least value of the type may stay at the node of that value, and `greater` marks of one that ends at the greatest value at the node of that one; no query reads them
- IbsTree.IBSTree.FewMarks: intervals with an endpoint at a limit of the type are not counted, since for them the limit doubles as infinity; their marks are shown to be sound and complete only
- Intervals with low above high: the interval tree does not check for them and nothing is claimed about them
- PerfPage.MmapReadSelf: the times `enabled` and `running` are not modelled; the loop is cut off after any given number of passes, since the original need not terminate
- FuncMap.FuncMap.AddFunction: an id is a natural number; the sentinel UINT_MAX is `None`, and a list of 2^32 names is not modelled
- Profile.Probe.ThreadInit: the check for a full table before the lock is taken is part of the atomic step
- Profile.Probe.ScanThreads: directory names that read as negative numbers are excluded; the thread directory of a process holds none
- EventList.EventList.AddAll: how the event string is split at commas is not modelled; the items are given
- Profile.Probe.Init: a failing start-up closes the log file, which no code opens; that call is taken to return
- Two threads that get the same id one after the other: ids are assumed distinct, as the slot of the first would be reused
- The set a traversal of the interval tree collects at a node is taken at once rather than element by element
- The size counters of both trees are unbounded integers
- `height` and `PrintPreorder` of the interval tree; `precessor`, `successor` and the pointer-buffer form of `elements` of the address-range tree: thin wrappers or diagnostics
- Freeing of memory, beyond what it does to the abstract contents
- The hash-list half of probe/list.h and the other iteration macros
- Opening, enabling and closing perf events, and the event state flags
- Loading functions from an ELF file, wrapper generation, file time stamps and cache directories
- The Dyninst API, process control, instrumentation, reports and option parsing
