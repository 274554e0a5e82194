# APR rings, brigades, hooks and alignment in Dafny

The Apache Portable Runtime keeps its executable logic in header macros. This project models four of
them and proves what they are for.

**Rings** (`apr_ring.h`) are circular doubly linked lists that live inside the elements they link. A
head is an entry too: it is seen as a phantom element, the sentinel. There are two layers.

* A *store* maps every element to its next and prev pointer through one link. Each macro is a
  function on stores that makes the writes of the macro in source order, reading again what the macro
  reads again (`RingOps`). A *ring* is a sequence of distinct elements whose pointers go round it both
  ways; a *chain* is such a sequence with its two outer pointers left open. The theorems are about
  stores: the contract of splicing at every gap, removal and its undo, the exact meaning of the
  consistency check on arbitrary memory, and safety of whole runs of macro calls.
* `AprRing` has the elements as objects with two links, and the macros as methods that assign the
  pointers in place. Every method names exactly the objects it may write and is proved to change the
  store of its link as the function says, and not to change the store of the other link. An element
  on two rings through two links can therefore be moved on the one without any effect on the other.
  Where a contract says `OnlyWithin`, the elements outside the listed ones keep their pointers, and
  by `AprRing.RingsKept` every ring that shares no element with those keeps its sequence.

Whole runs (`RingRuns`) are refinement: the program holds pointers, and what it means is a partition
of the elements into rings and loose runs. Every legal run of pointer calls ends in a memory that
spells out the partition computed without pointers. An element that was initialised is a ring of one,
and may be spliced in from there. `RingRunsExact` shows that the partition is the one reading of the
pointers, that every arrangement into rings is reached, and that every documented call on rings and
loose runs is made by some legal run.

**Brigades** (`apr_buckets.h`) are rings of buckets. Each brigade method ends with the consistency
check that `APR_BUCKET_DEBUG` compiles in and reports what the check said; it is proved to pass.
`BrigadeRuns` says it of whole runs: started on any memory, as long as each macro is given brigades and
buckets that meet its documentation, every check on the way passes. `BrigadeRunsExact` shows that the
state is the one reading of the pointers, that every tidy state is reached, and that no legal run
names or writes a bucket once it is deleted.

**Hooks** (`apr_hooks.h`, `apr_optional_hooks.h`): hook functions transform an arbitrary state and
return a value. What each runner promises is stated of its result, final state and sequence of calls,
and the runner loops are compared.

**Alignment** (`apr_general.h`): `APR_ALIGN` bit by bit, with the addition wrapping at any word width.

Where code and documentation disagree the model follows the code:

* The warnings at `apr_ring.h` lines 221 and 238 say that `SPLICE_BEFORE` does not work before the
  first element, nor `SPLICE_AFTER` after the last. The code handles both, since the neighbour there
  is the sentinel: position 1 and position |c| of `RingOps.SpliceAnywhere`.
* `apr_bucket_delete` is documented to remove the bucket from its brigade "if any". The code writes
  through the two pointers of the bucket whether it is on a ring or not. That changes nothing if and
  only if its two neighbours are each other's (`RingOps.RemoveIsHarmless`), as after
  `APR_BUCKET_INIT` or right after the bucket was removed. A ring that the bucket is not on stays a
  ring if and only if the neighbours it names there are still adjacent (`RingOps.RemoveOffRing`); if
  both are on it, `NEXT` of the old predecessor tells. `RingMisuse.RemoveAgainDrops` is a run that
  loses a bucket.

Macro arguments that are elements are taken by value, as the bucket macros that insert arrange by
copying them. `RingMisuse` treats three kinds of call that the macros do not guard against: a ring
joined with itself, `REMOVE` with an argument that reads a pointer (`LAST` and `PREV` are safe, `FIRST`
and `NEXT` are not), and an element removed twice.

Files: `Links` (stores, chains, rings), `RingOps`, `RingCheck`, `RingRuns`, `RingRunsExact`, `RingUndo`,
`RefRing`, `RingMisuse`, `RingMove`, `AprRing`, `Brigades`, `BrigadeRuns`, `BrigadeRunsExact`, `Options`,
`Hooks`, `HookTable`, `Align`.

## Model

| member | source | states |
|---|---|---|
| `Links.RingUnique` | bin/15-apache_2.4.52_x64/include/apr_ring.h:97-153 | The pointers determine the ring: two rings of one memory that share an element, wherever on each it stands, are the same sequence when both are read from that element |
| `Links.RingsDisjointOrSame` | bin/15-apache_2.4.52_x64/include/apr_ring.h:97-153 | Two rings of one memory share no element, or the one is a rotation of the other |
| `Links.RingRotate` | bin/15-apache_2.4.52_x64/include/apr_ring.h:43-45 | A ring can be handled without knowing where its head is: every rotation of it is a ring |
| `Links.RingCells` | bin/15-apache_2.4.52_x64/include/apr_ring.h:106-129 | A ring fixes both pointers of each of its elements |
| `RingOps.SpliceSidesAgree` | bin/15-apache_2.4.52_x64/include/apr_ring.h:228-250 | SPLICE_BEFORE the follower of a gap and SPLICE_AFTER its leader leave the same memory, at every gap of every ring |
| `RingOps.SpliceAnywhere` | bin/15-apache_2.4.52_x64/include/apr_ring.h:228-250 | The one contract of both splices: the whole chain stands at the gap, the result is a ring, nothing else is written |
| `RingOps.SpliceWrites` | bin/15-apache_2.4.52_x64/include/apr_ring.h:228-233 | SPLICE_BEFORE changes just the outer two pointers of the chain and the two that met at the gap |
| `RingOps.UnspliceRing` | bin/15-apache_2.4.52_x64/include/apr_ring.h:364-369 | The others remain a ring in order; the run taken out stays linked inside and keeps all its pointers, the dangling ones included |
| `RingOps.UnspliceUndo` | bin/15-apache_2.4.52_x64/include/apr_ring.h:364-369 | Splicing a run back beside either neighbour it still names restores the memory pointer for pointer, whatever the aliasing |
| `RingOps.UnspliceWhole` | bin/15-apache_2.4.52_x64/include/apr_ring.h:364-369 | Unsplicing a ring from its first to its last element leaves the memory as it is |
| `RingOps.RemoveIsHarmless` | bin/15-apache_2.4.52_x64/include/apr_ring.h:377-378 | REMOVE of any element, on a ring or not, changes nothing if and only if the two neighbours it names are each other's neighbours |
| `RingOps.RemoveOffRing` | bin/15-apache_2.4.52_x64/include/apr_ring.h:377-378 | REMOVE of an element that is not on a ring leaves that ring a ring if and only if the stale pointers that lead into it are still adjacent; if both do, next of the old predecessor decides |
| `RingOps.RemoveIsNoOp` | bin/15-apache_2.4.52_x64/include/apr_ring.h:377-378 | REMOVE of a linked element changes nothing if and only if it is its own neighbour |
| `RingOps.RemoveAt` | bin/15-apache_2.4.52_x64/include/apr_ring.h:377-378 | REMOVE at every position of a ring, the first and the only element included |
| `RingOps.ByNameIsByValue` | bin/15-apache_2.4.52_x64/include/apr_ring.h:332-355 | CONCAT and PREPEND, which read FIRST(h2) and LAST(h2) again at every write, agree with reading them once before |
| `RingOps.ConcatRings` | bin/15-apache_2.4.52_x64/include/apr_ring.h:332-339 | CONCAT: h1 becomes h1 then h2, h2 becomes empty, no other element is written; for empty rings too |
| `RingOps.PrependRings` | bin/15-apache_2.4.52_x64/include/apr_ring.h:348-355 | PREPEND: h1 becomes h2 then h1, h2 becomes empty, no other element is written; for empty rings too |
| `RingOps.ElemInitRing` | bin/15-apache_2.4.52_x64/include/apr_ring.h:192-195 | INIT and ELEM_INIT make a ring of one |
| `RingCheck.Progress` | bin/15-apache_2.4.52_x64/include/apr_ring.h:451-455 | Why the walk ends on any memory: a step whose assertion held returns to the start or reaches an element not seen before |
| `RingCheck.CheckIsExact` | bin/15-apache_2.4.52_x64/include/apr_ring.h:448-456 | The check passes if and only if the start lies on a proper ring, and then it has gone once round exactly that ring |
| `RingCheck.CheckPassesOnRing` | bin/15-apache_2.4.52_x64/include/apr_ring.h:444-456 | Started at any element of a ring the check passes |
| `RingCheck.ClosedIsTame` | bin/15-apache_2.4.52_x64/include/apr_ring.h:448-456 | On memory closed under its pointers the walk never leaves it, however corrupt it is |
| `RingCheck.FaultIsReal` | bin/15-apache_2.4.52_x64/include/apr_ring.h:448-456 | Where the check does not pass it names an element that the walk came to, and the pointers there are at fault in just the way the failed assertion says |
| `RingCheck.SecondCheckOnlyAtStart` | bin/15-apache_2.4.52_x64/include/apr_ring.h:452-453 | The second assertion can fail only at the first element visited |
| `RingRuns.StepInsert` | bin/15-apache_2.4.52_x64/include/apr_ring.h:228-250 | One splice call, on either side, refines insertion of a loose run into a ring of the partition |
| `RingRuns.StepTake` | bin/15-apache_2.4.52_x64/include/apr_ring.h:364-369 | One UNSPLICE call refines taking a run out of a ring of the partition |
| `RingRuns.StepTakeAll` | bin/15-apache_2.4.52_x64/include/apr_ring.h:364-378 | UNSPLICE of a whole ring without a head writes nothing, and its elements are then loose |
| `RingRuns.StepReset` | bin/15-apache_2.4.52_x64/include/apr_ring.h:192-195 | INIT of an entry that still has elements writes only that entry: it is a ring of one and the others are loose |
| `RingRuns.StepAppend` | bin/15-apache_2.4.52_x64/include/apr_ring.h:332-339 | One CONCAT call refines joining two rings of the partition |
| `RingRuns.StepFront` | bin/15-apache_2.4.52_x64/include/apr_ring.h:348-355 | One PREPEND call refines joining them the other way round |
| `RingRuns.RunRefines` | bin/15-apache_2.4.52_x64/include/apr_ring.h:192-378 | Any legal run of calls, insertion of initialised elements and INIT of a head with elements included, dereferences entries only, and the pointers it leaves spell out the partition computed without pointers |
| `RingRuns.PartsDisjoint` | bin/15-apache_2.4.52_x64/include/apr_ring.h:192-378 | No element is on two rings, or on a ring and loose |
| `RingRuns.RunsAreSafe` | bin/15-apache_2.4.52_x64/include/apr_ring.h:192-378 | From unlinked elements with arbitrary pointers, after any legal run: every ring is a ring, all are disjoint, each element is in exactly one part once, and the check passes from everywhere on every ring |
| `RingRunsExact.ApplyIsTheReading` | bin/15-apache_2.4.52_x64/include/apr_ring.h:192-378 | Partner of the refinement: the partition after a move is the only one that the pointers spell out with the heads and loose runs where the documentation puts them; an if-and-only-if for every call |
| `RingRunsExact.EveryArrangement` | bin/15-apache_2.4.52_x64/include/apr_ring.h:159-274 | Runs make rings: any rings that share no element are what some legal run from unlinked elements leaves in memory |
| `RingRunsExact.AnyStretchGoesIn` | bin/15-apache_2.4.52_x64/include/apr_ring.h:217-250 | What is legal leaves nothing out: any stretch of a loose run is spliced in at any gap of any ring, by the very call of either macro |
| `RingRunsExact.AnyArcComesOut` | bin/15-apache_2.4.52_x64/include/apr_ring.h:357-378 | Any run of a ring from any position, the whole ring included, is taken out by the very UNSPLICE call |
| `RingRunsExact.AnyTwoJoin` | bin/15-apache_2.4.52_x64/include/apr_ring.h:325-355 | Any two rings of a partition are joined by the very CONCAT and PREPEND calls, whichever of their elements are the heads |
| `RingRunsExact.AnyElementInits` | bin/15-apache_2.4.52_x64/include/apr_ring.h:185-215 | Any element, loose or on a ring, is made a ring of its own by the very INIT call |
| `RingUndo.UndoRestores` | bin/15-apache_2.4.52_x64/include/apr_ring.h:261-378 | Any elements, each in place when its turn to be removed came, restore the whole memory when put back in reverse order before the neighbour each still names; no ring is asked for |
| `RingUndo.RemovalsUndone` | bin/15-apache_2.4.52_x64/include/apr_ring.h:261-378 | Any elements of a ring, the first and the last one left included, removed in any order leave the ring of the others, and that undo restores the whole memory |
| `RingUndo.RemovedKeepPointers` | bin/15-apache_2.4.52_x64/include/apr_ring.h:371-378 | No later removal writes the pointers of an element that is already out |
| `RefRing.DropAnywhere` | bin/15-apache_2.4.52_x64/include/apr_ring.h:377-378 | REMOVE from a ring without a head, at any position; of the last member it writes nothing |
| `RefRing.CountIsLive` | bin/15-apache_2.4.52_x64/include/apr_mmap.h:83-85 | Members alive are those at the start plus insertions minus removals |
| `RefRing.ActsAsRefCount` | bin/15-apache_2.4.52_x64/include/apr_mmap.h:83-85 | After ELEM_INIT and any run of INSERT_AFTER and REMOVE, the live members are one ring, and NEXT(e) is e if and only if the count has come down to one |
| `RefRing.EveryMembership` | bin/15-apache_2.4.52_x64/include/apr_mmap.h:83-85 | Any distinct nodes in any order are the live members after some run from ELEM_INIT of the first of them |
| `RefRing.ShrinkToFirst` | bin/15-apache_2.4.52_x64/include/apr_mmap.h:83-85 | From any live members a run of REMOVE alone, one for each of the others, leaves the first |
| `RingMisuse.SelfJoinDetaches` | bin/15-apache_2.4.52_x64/include/apr_ring.h:332-355 | CONCAT or PREPEND of a ring with itself empties the head and leaves the elements a ring of their own; it is the ring it was if and only if it was empty |
| `RingMisuse.RemoveFirstNeedsCopy` | bin/15-apache_2.4.52_x64/include/apr_ring.h:364-378 | REMOVE(FIRST(h)) with the argument substituted by name leaves a consistent ring if and only if the ring was empty |
| `RingMisuse.RemoveFirstLeaves` | bin/15-apache_2.4.52_x64/include/apr_ring.h:364-378 | The memory that REMOVE(FIRST(h)) by name leaves: the head skips the first element, but the second write lands on the entry after its follower |
| `RingMisuse.RemoveLastNeedsNoCopy` | bin/15-apache_2.4.52_x64/include/apr_ring.h:364-378 | REMOVE(LAST(h)) and REMOVE(PREV(e)) substituted by name agree with removing the element by value, on any memory |
| `RingMisuse.RemoveAgainDrops` | bin/15-apache_2.4.52_x64/include/apr_ring.h:377-378 | The failing run of a second REMOVE: remove e, insert x where it had been, remove e again; x is off the ring and the check from x fails |
| `RingMove.FilterMembers` | bin/15-apache_2.4.52_x64/include/apr_ring.h:400-403 | Moved are exactly the elements the condition holds of |
| `RingMove.FilterPartitions` | bin/15-apache_2.4.52_x64/include/apr_ring.h:400-403 | What is kept and what is moved make up the original elements, each as often |
| `RingMove.FilterConcat` | bin/15-apache_2.4.52_x64/include/apr_ring.h:400-403 | Stability of the partition: selected elements keep their order |
| `RingMove.Current` | bin/15-apache_2.4.52_x64/include/apr_ring.h:400-403 | Halfway through, the cursor is at the next original element and its next pointer names the one after |
| `RingMove.MoveOne` | bin/15-apache_2.4.52_x64/include/apr_ring.h:322-323 | REMOVE from one ring then INSERT_TAIL on a disjoint one, with both rings and everything else accounted for |
| `AprRing.RingsKept` | bin/15-apache_2.4.52_x64/include/apr_ring.h:61-74 | Frame of every macro: rings elsewhere on the same link, and all rings on the other link, keep their sequence |
| `AprRing.ElemInit` | bin/15-apache_2.4.52_x64/include/apr_ring.h:212-215 | The two writes of ELEM_INIT, on one link only |
| `AprRing.SpliceBefore` | bin/15-apache_2.4.52_x64/include/apr_ring.h:228-233 | The four writes in place refine RingOps.SpliceBefore; the other link and every other object are untouched |
| `AprRing.SpliceAfter` | bin/15-apache_2.4.52_x64/include/apr_ring.h:245-250 | The four writes in place refine RingOps.SpliceAfter; the other link and every other object are untouched |
| `AprRing.InsertBefore` | bin/15-apache_2.4.52_x64/include/apr_ring.h:261-262 | SPLICE_BEFORE of one element |
| `AprRing.InsertAfter` | bin/15-apache_2.4.52_x64/include/apr_ring.h:273-274 | SPLICE_AFTER of one element |
| `AprRing.Unsplice` | bin/15-apache_2.4.52_x64/include/apr_ring.h:364-369 | The two writes in place refine RingOps.Unsplice; the other link and every other object are untouched |
| `AprRing.Remove` | bin/15-apache_2.4.52_x64/include/apr_ring.h:377-378 | UNSPLICE of one element |
| `AprRing.CheckElemConsistency` | bin/15-apache_2.4.52_x64/include/apr_ring.h:448-456 | The loop ends on every finite memory, and its assertions all hold if and only if the start is on a proper ring |
| `AprRing.Head.Init` | bin/15-apache_2.4.52_x64/include/apr_ring.h:192-195 | INIT leaves an empty ring |
| `AprRing.Head.Ends` | bin/15-apache_2.4.52_x64/include/apr_ring.h:159-205 | FIRST and LAST are the ends of the sequence, or the sentinel; EMPTY is true exactly of the empty ring |
| `AprRing.Head.SpliceHead` | bin/15-apache_2.4.52_x64/include/apr_ring.h:286-288 | The chain comes before all elements, on empty rings too |
| `AprRing.Head.SpliceTail` | bin/15-apache_2.4.52_x64/include/apr_ring.h:299-301 | The chain comes after all elements, on empty rings too |
| `AprRing.Head.InsertHead` | bin/15-apache_2.4.52_x64/include/apr_ring.h:311-312 | The element comes first |
| `AprRing.Head.InsertTail` | bin/15-apache_2.4.52_x64/include/apr_ring.h:322-323 | The element comes last |
| `AprRing.Head.ConcatWrites` | bin/15-apache_2.4.52_x64/include/apr_ring.h:332-339 | The writes of CONCAT, each reading FIRST(h2) or LAST(h2) afresh, refine RingOps.Concat |
| `AprRing.Head.Concat` | bin/15-apache_2.4.52_x64/include/apr_ring.h:332-339 | h1 is extended by h2 and h2 is empty; rings elsewhere on this link and all rings on the other are unchanged |
| `AprRing.Head.PrependWrites` | bin/15-apache_2.4.52_x64/include/apr_ring.h:348-355 | The writes of PREPEND, each reading FIRST(h2) or LAST(h2) afresh, refine RingOps.Prepend |
| `AprRing.Head.Prepend` | bin/15-apache_2.4.52_x64/include/apr_ring.h:348-355 | h2 is put in front of h1 and h2 is empty; rings elsewhere on this link and all rings on the other are unchanged |
| `AprRing.Head.Foreach` | bin/15-apache_2.4.52_x64/include/apr_ring.h:387-390 | The loop ends and visits each element once, in order |
| `AprRing.Head.Backwards` | bin/15-apache_2.4.52_x64/include/apr_ring.h:166-183 | Following PREV from LAST visits the reverse |
| `AprRing.ReverseAt` | bin/15-apache_2.4.52_x64/include/apr_ring.h:166-183 | The reverse, element by element |
| `AprRing.Head.ForeachSafeMove` | bin/15-apache_2.4.52_x64/include/apr_ring.h:400-403 | Removing the current element inside the loop: every original element is visited once in order, the source keeps those not selected, the other ring gains the selected ones at its tail in order, nothing else is written |
| `Brigades.BytesSplit` | bin/15-apache_2.4.52_x64/include/apr_buckets.h:683-700 | Cutting a brigade at any bucket conserves its bytes |
| `Brigades.BytesOfOne` | bin/15-apache_2.4.52_x64/include/apr_buckets.h:142-156 | One data bucket adds its data to the content of a brigade, one metadata bucket nothing |
| `Brigades.BytesAt` | bin/15-apache_2.4.52_x64/include/apr_buckets.h:142-156 | The data of every data bucket stands in the content, right behind that of the buckets before it |
| `Brigades.OnlyDataCounts` | bin/15-apache_2.4.52_x64/include/apr_buckets.h:142-156 | The content is exactly as long as the data of the data buckets together |
| `Brigades.BytesConcat` | bin/15-apache_2.4.52_x64/include/apr_buckets.h:376-383 | The bytes of a concatenation are the bytes of the one, then of the other |
| `Brigades.Brigade.CheckConsistency` | bin/15-apache_2.4.52_x64/include/apr_buckets.h:291-292 | The trailing check never aborts on a brigade |
| `Brigades.Brigade.InsertHead` | bin/15-apache_2.4.52_x64/include/apr_buckets.h:358-362 | The bucket comes first and the trailing check passes |
| `Brigades.Brigade.InsertTail` | bin/15-apache_2.4.52_x64/include/apr_buckets.h:369-373 | The bucket comes last and the trailing check passes |
| `Brigades.Brigade.Concat` | bin/15-apache_2.4.52_x64/include/apr_buckets.h:380-383 | Buckets and bytes are appended, b is empty, the trailing check passes |
| `Brigades.Brigade.Prepend` | bin/15-apache_2.4.52_x64/include/apr_buckets.h:390-393 | Buckets and bytes are put in front, b is empty, the trailing check passes |
| `Brigades.Brigade.MoveTail` | bin/15-apache_2.4.52_x64/include/apr_buckets.h:683-700 | The buckets from e on move to an empty brigade, in order, the bytes conserved |
| `Brigades.Brigade.Cleanup` | bin/15-apache_2.4.52_x64/include/apr_buckets.h:670-681 | Every bucket is destroyed and freed, in order, each after it has left the brigade, which ends empty |
| `Brigades.DeathsAt` | bin/15-apache_2.4.52_x64/include/apr_buckets.h:999-1018 | The calls of a clean-up one by one: for the i-th bucket first the destruction of its data, then its freeing |
| `Brigades.Brigade.SplitTail` | bin/15-apache_2.4.52_x64/include/apr_buckets.h:683-700 | The buckets from e on, in order, are all that the target holds: a new brigade if it was NULL, one cleared of its own buckets if it was not empty; the bytes split are conserved |
| `Brigades.Brigade.SplitAndRejoin` | bin/15-apache_2.4.52_x64/include/apr_buckets.h:683-700 | Tail split then CONCAT is the identity on both brigades and on every pointer of the memory, for every e |
| `Brigades.BucketInsertBefore` | bin/15-apache_2.4.52_x64/include/apr_buckets.h:400-404 | The bucket is inserted at its place in any ring and the check from the neighbour passes |
| `Brigades.BucketInsertAfter` | bin/15-apache_2.4.52_x64/include/apr_buckets.h:411-415 | The bucket is inserted at its place in any ring and the check from the neighbour passes |
| `Brigades.BucketInit` | bin/15-apache_2.4.52_x64/include/apr_buckets.h:440 | An initialised bucket is a ring of its own |
| `Brigades.BucketDelete` | bin/15-apache_2.4.52_x64/include/apr_buckets.h:1015-1018 | For any ring and any bucket: a ring it is on loses just that bucket, alone on it nothing is written, and a ring it is not on stays one if and only if the neighbours it names there are still adjacent; data destroyed first, then the bucket freed |
| `BrigadeRuns.StepKeeps` | bin/15-apache_2.4.52_x64/include/apr_buckets.h:291-440 | Each brigade or bucket macro whose arguments a caller can check before the call dereferences entries only, refines its pointer-free meaning, and its trailing check passes |
| `BrigadeRuns.RunKeeps` | bin/15-apache_2.4.52_x64/include/apr_buckets.h:291-440 | The same through every legal run from any consistent state |
| `BrigadeRuns.EveryCheckPasses` | bin/15-apache_2.4.52_x64/include/apr_buckets.h:285-440 | Over any memory, in every legal run of INIT, insertions, joins, removals and deletions every trailing check passes, and the brigades are the sequences computed without pointers |
| `BrigadeRuns.InitialisedGoesIn` | bin/15-apache_2.4.52_x64/include/apr_buckets.h:369-440 | INIT of a brigade, BUCKET_INIT and INSERT_TAIL make a legal run, which ends with the brigade of that bucket |
| `BrigadeRunsExact.ApplyIsTheReading` | bin/15-apache_2.4.52_x64/include/apr_buckets.h:358-440 | Partner of the refinement: the state after a macro is the only one that the pointers spell out with the brigades named as before and nothing freed but what apr_bucket_delete was given; an if-and-only-if for every macro |
| `BrigadeRunsExact.LooseAfter` | bin/15-apache_2.4.52_x64/include/apr_buckets.h:358-440 | Which buckets are on no ring after each macro: removed ones and those that INIT leaves behind are, inserted, initialised and deleted ones are not |
| `BrigadeRunsExact.StepFrame` | bin/15-apache_2.4.52_x64/include/apr_buckets.h:358-440 | A macro writes only to what it is given and to elements of rings |
| `BrigadeRunsExact.FreedStays` | bin/15-apache_2.4.52_x64/include/apr_buckets.h:999-1018 | Through any legal run a freed bucket stays freed, is given to no macro and is never written |
| `BrigadeRunsExact.DeletedForGood` | bin/15-apache_2.4.52_x64/include/apr_buckets.h:999-1018 | apr_bucket_delete frees just its bucket, and for every legal run after it: the freed buckets only grow, none of the macros names it, its entry is what it was when it was freed |
| `BrigadeRunsExact.InsertChecks` | bin/15-apache_2.4.52_x64/include/apr_buckets.h:358-373 | INSERT_HEAD and INSERT_TAIL end with a check from the brigade, which goes once round it with the new bucket in its place |
| `BrigadeRunsExact.JoinChecks` | bin/15-apache_2.4.52_x64/include/apr_buckets.h:380-393 | CONCAT and PREPEND end with a check from a, which goes once round a with the buckets of both |
| `BrigadeRunsExact.BesideChecks` | bin/15-apache_2.4.52_x64/include/apr_buckets.h:400-415 | INSERT_BEFORE and INSERT_AFTER end with a check from the neighbour, which goes once round its ring with the new bucket last or next |
| `BrigadeRunsExact.DocumentedUseIsLegal` | bin/15-apache_2.4.52_x64/include/apr_buckets.h:353-434 | The runs leave out no documented use: any two brigades can be joined, whatever is neither loose nor deleted can be removed, deleted or stood beside, whatever is single can be inserted |
| `BrigadeRunsExact.ReachableIsTidy` | bin/15-apache_2.4.52_x64/include/apr_buckets.h:358-440 | A state is the outcome of some legal run if and only if no bucket is in two places and every one is somewhere |
| `Hooks.RunIsExact` | bin/15-apache_2.4.52_x64/include/apr_hooks.h:233-249 | The runner outcome is characterised without recursion: each call has what the registered function returns and leaves in the state before it, stopped by the first stopping value and by no other |
| `Hooks.RunFirstIsExact` | bin/15-apache_2.4.52_x64/include/apr_hooks.h:267-295 | RUN_FIRST and its promise, both ways: every call but the last returned decline; if the last did not its value is the result, otherwise all were called and the result is decline |
| `Hooks.RunAllIsExact` | bin/15-apache_2.4.52_x64/include/apr_hooks.h:222-250 | RUN_ALL and its promise, both ways: every call but the last returned ok or decline; if the last did not its value is the result, otherwise all were called and the result is ok |
| `Hooks.RunConcat` | bin/15-apache_2.4.52_x64/include/apr_hooks.h:222-295 | Running xs then ys is running xs and, if and only if it did not stop, ys from the state reached |
| `Hooks.AllVersusFirst` | bin/15-apache_2.4.52_x64/include/apr_hooks.h:222-295 | Exactly when RUN_ALL and RUN_FIRST agree in result, state and calls; always when ok is decline |
| `Hooks.RunAllExternal` | bin/15-apache_2.4.52_x64/include/apr_hooks.h:222-250 | The loop that breaks and resets rv computes RunAll and keeps the promise of RUN_ALL; ok when nothing is registered |
| `Hooks.RunAllOptional` | bin/15-apache_2.4.52_x64/include/apr_optional_hooks.h:90-110 | The loop that returns early computes the same RunAll and keeps the same promise, so the two agree on result, state and calls |
| `Hooks.RunFirstExternal` | bin/15-apache_2.4.52_x64/include/apr_hooks.h:267-295 | The loop computes RunFirst and keeps the promise of RUN_FIRST; decline when nothing is registered |
| `Hooks.RunVoid` | bin/15-apache_2.4.52_x64/include/apr_hooks.h:179-202 | Every registered function is called once, in array order, each in the state the one before it left |
| `HookTable.HookStruct.Hook` | bin/15-apache_2.4.52_x64/include/apr_hooks.h:143-161 | Registration creates the array and tells the sorter on first use, then pushes one record with the given fields and the current name |
| `HookTable.HookStruct.Get` | bin/15-apache_2.4.52_x64/include/apr_hooks.h:162-165 | After any registrations: NULL if none was for this hook, otherwise the array of exactly its own records in call order |
| `HookTable.ArraysAreExact` | bin/15-apache_2.4.52_x64/include/apr_hooks.h:143-161 | After any run over many hooks each array holds exactly its own records in call order |
| `HookTable.SortedOnce` | bin/15-apache_2.4.52_x64/include/apr_hooks.h:148-152 | The sorter hears of each hook exactly at its first registration, in that order |
| `HookTable.SortedNamesDistinct` | bin/15-apache_2.4.52_x64/include/apr_hooks.h:148-152 | The sorter never hears of the same hook twice |
| `HookTable.RunUnsorted` | bin/15-apache_2.4.52_x64/include/apr_hooks.h:179-202 | A VOID run before sorting calls the functions in registration order, once each |
| `Align.AndIsBitwise` | bin/15-apache_2.4.52_x64/include/apr_general.h:136-137 | The bits of x & y are those that both have, at every position |
| `Align.NotIsBitwise` | bin/15-apache_2.4.52_x64/include/apr_general.h:136-137 | The bits of ~x are those below the word width that x lacks |
| `Align.MaskClears` | bin/15-apache_2.4.52_x64/include/apr_general.h:136-137 | The mask with the complement of 2^k - 1 takes off the remainder, on every word width |
| `Align.AlignIsLeastMultiple` | bin/15-apache_2.4.52_x64/include/apr_general.h:136-137 | For every word width, power of two and size: the least multiple not below size if it fits, else exactly zero |
| `Align.OverflowIsVisible` | bin/15-apache_2.4.52_x64/include/apr_general.h:136-137 | The result is below size if and only if the least multiple does not fit |
| `Align.NestedAlign` | bin/15-apache_2.4.52_x64/include/apr_general.h:136-137 | Aligning twice is aligning to the larger boundary, even when a sum wraps |
| `Align.PowersOfTwoOnly` | bin/15-apache_2.4.52_x64/include/apr_general.h:135-137 | APR_ALIGN meets that law at every size if and only if the boundary is a power of two |
| `Align.NarrowValue` | bin/15-apache_2.4.52_x64/include/apr_general.h:136-137 | With a boundary of a narrower unsigned type the result is the low bits of the sum with their remainder taken off |
| `Align.NarrowBoundary` | bin/15-apache_2.4.52_x64/include/apr_general.h:136-137 | A boundary of a narrower unsigned type aligns as one of full width if and only if the sum fits its type |
| `Align.DefaultIsEight` | bin/15-apache_2.4.52_x64/include/apr_general.h:140 | APR_ALIGN_DEFAULT is the least multiple of eight that fits, else zero |

## Left out

- Pointer arithmetic of `APR_RING_SENTINEL` and `offsetof`: the sentinel is an element object that belongs to the head; `volatile` is ignored.
- Null and wild pointers: a reference in `AprRing` always names an element. In `RingCheck` a pointer may lead to no entry; the walk then ends as `Wild`, where C is undefined.
- Uninitialised memory in `AprRing`: a new element starts as its own neighbour. No contract relies on it, and `RingRuns.RunsAreSafe` starts from arbitrary pointers.
- Joining a ring with itself and arguments by name: preconditions everywhere but in `RingMisuse`. Overlapping chains are a precondition throughout.
- BrigadeRuns.EveryCheckPasses: `REMOVE` and `apr_bucket_delete` of a bucket that is on no ring are not in its runs; `RingOps.RemoveOffRing` says of one such call when it is safe.
- Align.NarrowBoundary: for a boundary narrower than `int`, which C promotes to a signed type first, nothing is stated.
- RingMove.Current: the body of the safe loop is one that removes the current element or leaves it; bodies that touch other elements are not covered.
- Brigades.Brigade.SplitTail: `apr_brigade_split_ex` is only declared in the header; the method composes the ring macros as its documentation describes. The same goes for Brigades.Brigade.Cleanup, which deletes from the front.
- Brigades.BucketDelete: `destroy` and `free` are function pointers of which only the calls and their order are recorded; reference counts of shared data are not part of this model. The bucket has pointers that lead to entries; null ones are not modelled.
- Reading, splitting, copying and setting aside buckets: those are functions without a body here.
- `apr_hook_sort_all` and `apr_optional_hook_get` have no body here: hooks run in array order, and the array is a parameter.
- Registering hooks while a runner is active, hook probes, and the signed 32-bit array counter.
- Hooks.RunAllExternal: the arguments of a hook are part of the state it runs in, and hook functions always return.
- `APR_RING_CHECK`, `APR_RING_CHECK_ELEM`: they print what the consistency check asserts.
- Type tests such as `APR_BUCKET_IS_EOS`, and all the other headers: constants, tables and declarations only.
