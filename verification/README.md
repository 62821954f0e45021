# Verified models of the QEMU block graph, jobs, image tools and exclusive sections

This project models four stateful parts of QEMU in Dafny and proves what they keep over whole runs.

**Block graph** (`block.c`). Nodes and `BdrvChild` edges form a graph that must stay acyclic. Every operation edits
edges first, then recomputes permissions in one topologically ordered pass, and rolls back through a transaction log
when something fails.

* `BlockPerms` has the default permission functions and `BlockGraph` reachability, the two cycle checks and redirection.
* `BlockTopo` has the topological sort, `BlockRefresh` the permission fixpoint.
* `BlockTransaction` has the undoable edits and the `bs->backing`/`bs->file` slots, `BlockInherits` the clearing of
  `inherits_from`.
* `BlockEdits` says what the edits do to a graph and which nodes they leave safe, `BlockExact` when they keep the
  permission fixpoint everywhere, and `BlockInstances` has two graphs where they do not.
* `BlockOps` says what each whole operation makes of a graph, and exactly when it keeps a valid graph valid and the
  fixpoint everywhere. `BlockLayer` is the mutable graph with its log, reference counts and all operations.
* `AioContext` moves a connected part of the graph to another AioContext.

**Exclusive sections** (`cpu-common.c`). `ExclusiveSection` is an interleaving transition system over any number of
CPUs. One atomic load or store, or one call under the CPU list lock, is one step, and memory is sequentially consistent.

**Image tools** (`qemu-img.c`). `Rebase`, `ImgCompare`, `ImgMap`, `Sparse` and `Convert` are the chunked loops, proved
against byte-by-byte meanings. `ConvertCoroutines` is the protocol of the parallel copy. `Bytes` and `Buffers` are
shared. What drivers answer about allocation is any answer that their contract allows.

**Jobs** (`job.c`, `blockjob.c`). `JobStatus` has the transition and verb tables. `JobPause` is one job with its
coroutine: pausing, waking, cancelling. `JobTxn` is a transactional group of jobs.

`Basics` has a few definitions that all parts share.

## What was found

* Permission refresh is exact. The pass finds the only permissions that settle the listed nodes, and fails exactly when
  there are none (`DoRefreshPerms`).
* `bdrv_set_backing_hd` does not refresh the subtree of the node it detaches, so that subtree can keep stronger
  permissions than needed. `DetachedKeepsStrong` is an instance with default permissions. The fixpoint stays everywhere
  exactly when the detached node is still below the parent or needs the same from its children without it
  (`SetLinkExactExactly`, `SetBackingHd`). What all operations keep is that every edge carries at least what its parent
  needs.
* Replacing or covering a node with forced sharing by one without leaves the moved edges sharing more than their
  parents allow, because those parents are not refreshed. `RedirectSafeExactly` gives the exact condition and
  `ForcedSharingCanBeLost` an instance with default permissions.
* The copy loop of a safe rebase always makes progress exactly when the write alignment does not exceed the 2 MiB buffer
  (`ProgressExactlyWhen`). With a larger one it can stall at the buffer size: it does when the image is larger than the
  buffer, its first block is unallocated, the backings agree over the first buffer and the new backing is not part of
  the old chain (`StalledTurn`). If the backings differ there, the write allocates the block and the loop goes on. The
  assertion in the loop holds exactly when that alignment is an allocation granularity of the overlay
  (`AssertionExactlyWhen`).
* The comment on `is_allocated_sectors` says that it is true if the first sector is not zero. The code also answers true
  for a zero first sector in front of unaligned data (`ZeroHeadIsData`). The comment is right for every buffer exactly
  when the first sector is the last one of its block (`CommentHoldsExactlyWhen`). The code is followed.
* When the `prepare` callback of a job other than the one that finalises the group fails first, the finalising job is
  committed while all others are aborted (`MixedRun`). In every other case a decided group is uniform
  (`UniformExactlyWhen`).

## Model

| member | source | states |
|---|---|---|
| BlockPerms.DefaultPermsMonotone | block.c:2773-2921 | If the parents need less, then a node needs less from its children, for every role and node state |
| BlockPerms.DefaultPermsMeaning | block.c:2784-2898 | A backing file is never written, a written node gets a writable and resizable data child, and nobody else may resize data or write metadata below an active node |
| BlockGraph.OneMoreKeepsAcyclic | block.c:3218-3222 | A link from `u` to `v` keeps an acyclic graph acyclic if `v` does not reach `u` |
| BlockGraph.CycleOtherwise | block.c:3218-3222 | It closes a cycle if `v` reaches `u`, so the check in front of attaching is exact |
| BlockGraph.HasChildIsReach | block.c:4341-4356 | The recursive search terminates on an acyclic graph and decides reachability |
| BlockGraph.ShouldUpdateChild | block.c:5241-5318 | The breadth-first search answers yes exactly when the edge may move and lies nowhere in the subtree of the new node |
| BlockGraph.RedirectSameBelow | block.c:5241-5318 | An accepted redirection leaves all links below the new node as they are |
| BlockGraph.RedirectSameMovable | block.c:5372-5388 | So it does not change which other edges are accepted |
| BlockGraph.RedirectKeepsAcyclic | block.c:5372-5388 | And it closes no cycle |
| BlockTopo.TopologicalDfs | block.c:2313-2335 | Puts the subtree of a node in front of a sorted duplicate-free list, sharing the found set, and keeps it sorted |
| BlockTopo.TopologicalList | block.c:2633-2644 | The list holds exactly the nodes reachable from the roots, once each, every parent before its children |
| BlockRefresh.GetCumulativePerm | block.c:2646-2662 | The union of what the parents need and the intersection of what they share |
| BlockRefresh.ParentPermsConflict | block.c:2227-2281 | True exactly when one parent needs what a different one does not share |
| BlockRefresh.DefaultConfigMonotone | block.c:2773-2921 | Drivers that use the default permission functions meet the monotonicity that loosening needs |
| BlockRefresh.AfterNodeFrame | block.c:2580-2588 | Updating the children's edges of a node disturbs no node that is not its child |
| BlockRefresh.AfterNodeSettled | block.c:2522-2591 | A node that passed its checks is settled once its children's edges are updated |
| BlockRefresh.SolutionSees | block.c:2601-2622 | When a node's turn comes it sees what it sees in any assignment that settles the list |
| BlockRefresh.HalfwayStep | block.c:2601-2622 | One turn of the pass settles the next node, keeps the earlier ones settled, and agrees with every solution |
| BlockRefresh.NoSolution | block.c:2601-2622 | If a node fails its checks at its turn, no permissions whatever settle the list |
| BlockRefresh.PassSolves | block.c:2601-2622 | A finished pass is a solution, and the only one |
| BlockRefresh.SolutionUnique | block.c:2601-2622 | No two assignments of permissions settle the same list |
| BlockRefresh.RefreshSafeExactly | block.c:2601-2644 | After a refresh the whole graph is safe exactly when the nodes outside the list were |
| BlockRefresh.LooserNode | block.c:2720-2752 | A safe node that loses users, or whose users ask for less, stays safe |
| BlockRefresh.LooserEverywhere | block.c:3326-3340 | In a graph that only loosens a safe one no node has a conflict or a read-only error |
| BlockRefresh.AfterNodeLooser | block.c:3326-3340 | Refreshing a node of a loosened graph leaves it pointwise weaker than before |
| BlockTransaction.ReplaceChildKeepsSlots | block.c:1441-1499 | Redirecting, emptying or filling an edge keeps the backing and file slots equal to the attached edges that belong there |
| BlockTransaction.UndoReplace | block.c:2436-2512 | Undoing a replaced child restores edges and slots, and trips none of its assertions |
| BlockTransaction.InsertKeepsSlots | block.c:3092-3190 | A new edge takes exactly the slot of its role |
| BlockTransaction.UndoInsert | block.c:3033-3068 | Undoing an attached child restores edges and slots, and trips none of its assertions |
| BlockTransaction.UndoSetPerm | block.c:2343-2374 | Undoing a permission change restores the edge |
| BlockTransaction.UndoSetInherits | block.c:3358-3387 | Undoing a change of inherits_from restores it, whether it was set or not |
| BlockTransaction.UndoLast | util/transactions.c:47-79 | Adding an undoable entry does not change what an abort leads to and keeps the log undoable |
| BlockInherits.AllVisited | block.c:3395-3418 | Visiting all children of an edge clears exactly the nodes to which an edge at or below it leads but no other edge of the root itself |
| BlockEdits.RedirectSafeExactly | block.c:5404-5441 | Moving all movable edges of a node keeps the rest of the graph safe if and only if no forced sharing is lost |
| BlockExact.RefreshExactExactly | block.c:2601-2644 | After a refresh every node's edges are exact if and only if those of the nodes outside the list were |
| BlockExact.AttachKeepsExact | block.c:3288-3319 | A successful attach keeps the permission fixpoint everywhere |
| BlockExact.RootAttachKeepsExact | block.c:3247-3276 | The same for users that are not nodes |
| BlockExact.UnrefKeepsExact | block.c:3326-3351 | Taking a user away keeps it if the refresh succeeds |
| BlockExact.SetPermKeepsExact | block.c:2720-2752 | Setting permissions keeps it if and only if they are what the edge's parent needs |
| BlockExact.ReplaceKeepsExact | block.c:5404-5441 | Replacing a node keeps it if and only if both nodes agree on forced sharing or the moved edges' parents share everything anyway |
| BlockExact.AppendKeepsExact | block.c:5481-5517 | The same when a node is put on top of another one |
| BlockExact.SetLinkExactExactly | block.c:3494-3607 | Setting a link keeps it outside the parent's subtree if and only if the node behind the old link is still in that subtree or needs the same from its children |
| BlockExact.SetLinkKeepsExact | block.c:3586-3607 | So a successful call keeps it everywhere under that condition and no other |
| BlockInstances.ChainValid | block.c:2784-2818 | A reader on a backing chain with default permissions is a valid graph at its fixpoint |
| BlockInstances.DetachedKeepsStrong | block.c:3586-3607 | Detaching the backing file there succeeds and the condition fails |
| BlockInstances.ForcedValid | block.c:2284-2299 | A node with default permissions above one that forces sharing is a valid graph at its fixpoint |
| BlockInstances.ForcedSharingCanBeLost | block.c:2284-2299 | Replacing the forcing node there is accepted and both conditions on sharing fail |
| BlockEdits.MovedParentOutside | block.c:5404-5441 | The parent of a moved edge lies below neither node, so no refresh reaches it |
| BlockEdits.SetPermSafeExactly | block.c:2720-2752 | Changing one edge keeps the rest of the graph safe if and only if the edge still covers what its parent needs |
| BlockEdits.RemoveSafe | block.c:3326-3351 | Taking an edge away leaves every node safe |
| BlockEdits.AppendSafeExactly | block.c:5481-5517 | The same exact condition when a node is put on top of another one |
| BlockEdits.SetLinkSafe | block.c:3494-3607 | The detached subtree that is not refreshed stays safe |
| BlockLayer.BlockLayer.SetPermTran | block.c:2343-2374 | Sets the permissions of an edge; an abort still leads back to the same graph, references are unaffected |
| BlockLayer.BlockLayer.NodeRefreshPerm | block.c:2522-2591 | Which error it reports in which order, and that success updates exactly the children's edges |
| BlockLayer.BlockLayer.VisitNode | block.c:2608-2619 | Passes exactly when no parents conflict and all checks hold; never conflicts while loosening |
| BlockLayer.BlockLayer.DoRefreshPerms | block.c:2601-2622 | One pass reaches the unique fixpoint, fails exactly when there is none, and reports neither a conflict nor a read-only error while loosening |
| BlockLayer.BlockLayer.RefreshPerms | block.c:2633-2718 | The same for the subtrees of the roots, with the exact effect on the safety of the whole graph |
| BlockLayer.BlockLayer.ReplaceChildNoperm | block.c:2947-3007 | The edge's target and slots change as specified, and so do the in-degrees |
| BlockLayer.BlockLayer.AbortReplaced | block.c:2444-2470 | The reference moves from the log back to the edge and the new target loses one |
| BlockLayer.BlockLayer.AbortAttached | block.c:3033-3068 | The edge is gone and its reference is scheduled to be dropped |
| BlockLayer.BlockLayer.Abort | util/transactions.c:60-79 | Restores every edge target, permission, slot and inherits_from; no outside reference is gained or lost |
| BlockLayer.BlockLayer.CommitEntry | block.c:2436-2442 | The old target's reference is given up, a removed edge is freed |
| BlockLayer.BlockLayer.Commit | util/transactions.c:81-100 | Exactly the removed edges go; no outside reference is gained or lost |
| BlockLayer.BlockLayer.ReplaceChildTran | block.c:2492-2512 | The edge is redirected, the old target's reference is held by the log |
| BlockLayer.BlockLayer.AttachChildCommon | block.c:3092-3190 | Attaches unless the node is inactive and more than reading is asked for |
| BlockLayer.BlockLayer.AttachChildNoperm | block.c:3205-3236 | Attaches exactly when no cycle results and activity fits, and keeps the graph acyclic |
| BlockLayer.BlockLayer.RemoveChild | block.c:5320-5350 | Empties the edge and marks it to be freed on commit |
| BlockLayer.BlockLayer.ReplaceNodeNoperm | block.c:5360-5391 | Walking the shrinking parent list moves exactly the edges that could be moved at the start; fails exactly when one of them is frozen or one may not be skipped |
| BlockLayer.BlockLayer.AttachChild | block.c:3288-3319 | Succeeds exactly when attaching and settling are possible; failure restores everything; validity is kept; the caller's reference is consumed either way |
| BlockLayer.BlockLayer.RootAttachChild | block.c:3247-3276 | The same for users that are not nodes |
| BlockLayer.BlockLayer.SetInheritsFrom | block.c:3371-3387 | Records and sets inherits_from |
| BlockLayer.BlockLayer.UnsetInheritsFrom | block.c:3395-3418 | Terminates, and of the nodes that inherit from the root clears exactly those to which an edge at or below this one leads but no other edge of the root itself |
| BlockEdits.LinkFits | block.c:3521-3545 | The role chosen for a new link puts it into the slot that was asked for, or into the other one for a filter that keeps its child there |
| BlockLayer.BlockLayer.SetFileOrBackingNoperm | block.c:3494-3578 | Replaces the file or backing link exactly when that is allowed, keeping the graph acyclic; the slot that was asked for then holds the new link, or nothing |
| BlockLayer.BlockLayer.SetBackingHd | block.c:3586-3607 | Succeeds exactly when the link may be set and the graph below settled; failure restores everything; validity is kept; the fixpoint is kept everywhere exactly when the detached node is still below or needs the same |
| BlockLayer.BlockLayer.ReplaceNode | block.c:5404-5441 | Succeeds exactly when the edges can move and both subtrees can be settled; validity is kept exactly when no forced sharing is lost; failure restores everything |
| BlockLayer.BlockLayer.Append | block.c:5481-5517 | The new node is on top, its own link stays, all movable users moved; exact success and validity conditions; failure restores everything |
| BlockLayer.BlockLayer.SetPermAndRefresh | block.c:2720-2733 | Takes effect exactly when the graph below can be settled; a request that only loosens makes every edge weaker or stays as it was, and fails only on an unaligned node or a refusing driver |
| BlockLayer.BlockLayer.ChildTrySetPerm | block.c:2720-2752 | An error is hidden exactly from callers that only loosen |
| BlockLayer.BlockLayer.RootUnrefChild | block.c:3326-3351 | The graph stays valid even if the refresh is rolled back, every edge is weaker than before, and the graph below is settled exactly when it can be, which only an unaligned node or a refusing driver prevents |
| BlockLayer.BlockLayer.Finalize | util/transactions.c:60-100 | Commit or abort, with the exact effect on safety |
| BlockLayer.BlockLayer.Perform | block.c:2720-5517 | Any single operation, with any drivers, leaves the edited edges with the only permissions that settle what lies below them, or what was there if there are none or the edit is refused; the graph stays acyclic, the slots right and the references accounted for; it keeps a valid graph valid if and only if no forced sharing is lost and an edge gets at least what its parent needs, and the permission fixpoint everywhere if and only if it meets its condition for that |
| BlockLayer.BlockLayer.Run | block.c:2720-5517 | So does any sequence of operations, up to the first one whose entry assertion fails, whatever each of them answers; a valid graph is valid in the end, and the permission fixpoint reached everywhere, if each operation met its condition in the state before it |
| BlockOps.StepUnique | block.c:2720-5517 | The edges and permissions after an operation are determined by the graph before it |
| BlockOps.StepExactly | block.c:2720-5517 | Every operation, successful or not, keeps the permission fixpoint everywhere if and only if it meets its condition in the state before it |
| BlockOps.LeaveExactly | block.c:3326-3351 | A user that goes away without a refresh keeps it if and only if the node needs the same from its children |
| BlockOps.KeepsAlways | block.c:2720-5517 | If no node forces sharing and permissions are set on the edges of users that are not nodes only, every operation meets its condition for validity in every graph |
| BlockOps.RunValidExactly | block.c:2720-5517 | A run from a valid graph goes through valid graphs only if and only if every operation meets its condition in the state before it |
| BlockOps.RunExactExactly | block.c:2720-5517 | A run from a graph at its permission fixpoint goes through such graphs only if and only if every operation meets its condition for that |
| BlockOps.RunAlwaysValid | block.c:2720-5517 | Conditions on the calls alone that are enough for the former |
| AioContext.CollectedExactly | block.c:7654-7689 | When the recursion ends, exactly the connected entities are collected and every user met can follow |
| AioContext.SameContext | block.c:7691-7739 | Connected entities share one context if the two ends of every edge do |
| AioContext.StayTogether | block.c:7691-7739 | Moving exactly the connected entities separates the ends of no edge |
| AioContext.Recursion.ChangeNode | block.c:7654-7689 | Terminates, as each edge is entered once; success has collected the node; failure names an edge whose user cannot follow |
| AioContext.Recursion.ParentChange | block.c:7570-7595 | The same for one parent: node, backend, job or a user without the callback |
| AioContext.Recursion.ChildChange | block.c:7608-7618 | The same for one child |
| AioContext.Recursion.ChangeJob | blockjob.c:148-171 | The same for the sibling edges of a job |
| AioContext.AioLayer.Commit | block.c:7627-7635 | Exactly the collected entities are in the new context |
| AioContext.AioLayer.TryChange | block.c:7702-7739 | All or nothing: succeeds exactly when the node is there already or every connected user can follow; then exactly the connected entities move; on failure nothing does |
| ExclusiveSection.StepKeeps | cpu-common.c:192-325 | Every step of every thread keeps the protocol invariant |
| ExclusiveSection.EveryStateInv | cpu-common.c:192-325 | The invariant holds in every state of every run |
| ExclusiveSection.MutualExclusion | cpu-common.c:192-247 | From the end of the wait in start_exclusive to the reset of pending_cpus no other CPU runs guest code or is exclusive |
| ExclusiveSection.PendingCounts | cpu-common.c:205-230 | With the lock free pending_cpus is 0 without waiters, or 1 plus the marked CPUs, each of which still owes its decrement |
| ExclusiveSection.NoMissedSignal | cpu-common.c:219-246 | With the lock free a sleeping start_exclusive waits for a CPU whose decrement is ahead, and a sleeper in exclusive_idle for a section under way |
| ExclusiveSection.MarkedCpuAdvances | cpu-common.c:292-325 | Nobody sets a marked CPU back, its own steps bring it closer to the decrement, and it takes exactly its own unit |
| ExclusiveSection.StepRefines | cpu-common.c:183-325 | Every step is a step of abstract readers and exclusive sections, or invisible there |
| ExclusiveSection.RunRefines | cpu-common.c:183-325 | So a run of the protocol is a run of the abstract sections |
| Buffers.CompareBuffers | qemu-img.c:1264-1289 | The answer holds for every chunk of the returned prefix, which ends at a chunk that differs from it, or at the end |
| Buffers.SameChunksSameBytes | qemu-img.c:1264-1289 | A run of equal chunks is a run of equal bytes |
| Buffers.FindNonzero | qemu-img.c:1133-1147 | -1 exactly for an all-zero buffer, else the first sector with a non-zero byte |
| Rebase.CopyTurn | qemu-img.c:4122-4146 | One run of chunks is settled; only bytes of differing blocks are copied |
| Rebase.CopyDiffering | qemu-img.c:4088-4146 | The whole buffer is settled by positive aligned steps |
| Rebase.ProgressExactlyWhen | qemu-img.c:4081-4084 | Aligning the offset backwards never stalls the loop if and only if a block fits into the buffer |
| Rebase.StallsAtBufferSize | qemu-img.c:4081-4084 | With larger blocks a turn from 0 that is not skipped leads to the buffer size, and so does every such turn from there |
| Rebase.StalledTurn | qemu-img.c:4026-4146 | If in addition the first block is unallocated and the backings agree over the first buffer, such a turn leaves the overlay as it is and ends at the buffer size again, or fails |
| Rebase.NextRange | qemu-img.c:4030-4069 | A range that is skipped is allocated or reads the same through both backings; the other ranges are unallocated |
| Rebase.ExtensionUnallocated | qemu-img.c:4081-4086 | With whole blocks allocated, the extension of an unallocated range is unallocated |
| Rebase.AssertionExactlyWhen | qemu-img.c:4081-4086 | The assertion about that never fails if and only if the alignment is an allocation granularity |
| Rebase.SafeRebase | qemu-img.c:4026-4148 | Content through the old backing is unchanged at any exit; after success content through the new backing equals it at every byte |
| ImgCompare.CheckEmptySectors | qemu-img.c:1308-1329 | 0, 1 or 4 exactly for zero, non-zero and unreadable ranges |
| ImgCompare.CompareChunk | qemu-img.c:1541-1584 | Skipping by block status gives the same answer as comparing the bytes |
| ImgCompare.CompareCommon | qemu-img.c:1507-1587 | 0 exactly if the common part agrees, in strict mode with its allocation |
| ImgCompare.CheckTail | qemu-img.c:1602-1625 | 0 exactly if the longer image is zero beyond the shorter one |
| ImgCompare.ImgCompare | qemu-img.c:1507-1627 | 0 only for identical and 1 only for different images, and nothing else if everything can be read |
| ImgCompare.CommonAndTail | qemu-img.c:1507-1627 | Equality up to zero padding is equality of the common part and a zero tail |
| ImgMap.MergeIsContinue | qemu-img.c:3313-3334 | Two adjacent entries are mergeable exactly when the second continues the run of bytes of the first |
| ImgMap.MapJson | qemu-img.c:3452-3477 | The printed entries are the runs of the range; after an error, a prefix of them |
| ImgMap.RunsAreMaximal | qemu-img.c:3452-3477 | Those entries partition the range, describe every byte with its host offset, and no two adjacent ones are mergeable |
| ImgMap.MaximalIsUnique | qemu-img.c:3452-3477 | There is only one such list, however the drivers cut their answers |
| Sparse.IsAllocatedSectors | qemu-img.c:1159-1210 | A zero answer covers zero sectors only and as many as alignment allows; answers end aligned; data is reported exactly for a non-zero first sector or a zero head that reaches no aligned boundary |
| Sparse.ZeroHeadIsData | qemu-img.c:1149-1158 | A buffer with a zero first sector that is reported as data, against the comment |
| Sparse.CommentHoldsExactlyWhen | qemu-img.c:1149-1158 | The comment is right for every buffer at a position if and only if its first sector is the last one of its block |
| Sparse.IsAllocatedSectorsMin | qemu-img.c:1217-1254 | The same with a minimum length of zero runs: the answer is data exactly when the first sector is not zero or unaligned data follows it |
| Convert.ConvertState.SelectPart | qemu-img.c:1700-1710 | The source that holds a sector, and where it starts |
| Convert.ConvertState.IterationSectors | qemu-img.c:1713-1817 | Steps are positive and inside the image, zero is only said of zero sectors, data fits the buffer, compressed copies go by whole clusters |
| Convert.ConvertState.CoRead | qemu-img.c:1819-1870 | Reads the concatenation across source boundaries |
| Convert.ConvertState.CoWrite | qemu-img.c:1873-1935 | The range reads as wanted whether data or zeros are written or zeros are skipped, and nothing else changes |
| Convert.ConvertState.Copy | qemu-img.c:2091-2152 | A successful conversion reproduces the concatenated sources |
| ConvertCoroutines.StepKeeps | qemu-img.c:1986-2089 | Every step of every coroutine keeps the invariant |
| ConvertCoroutines.EveryStateInv | qemu-img.c:1986-2089 | It holds in every state of every run, for any number of coroutines |
| ConvertCoroutines.Disjoint | qemu-img.c:1992-2014 | Pieces of different coroutines do not overlap |
| ConvertCoroutines.SuccessCopiesAll | qemu-img.c:1986-2089 | A run that ends with success has copied the whole image |
| ConvertCoroutines.WritesInOrder | qemu-img.c:2036-2067 | With ordered writes at most one coroutine writes, at the frontier of what is copied |
| ConvertCoroutines.WaiterIsWoken | qemu-img.c:2036-2079 | A waiting coroutine stands behind a piece that is still owned, and finishing that piece wakes it, also after an error |
| ConvertCoroutines.SomeoneMoves | qemu-img.c:2036-2079 | While one coroutine waits, one with an earlier piece does not |
| JobPause.StaysPaused | job.c:609-649 | In every trace a paused job stays paused while somebody asks for it and nobody force-cancels |
| JobPause.Job.constructor | job.c:391-456 | A new job meets the invariants |
| JobPause.Job.QuiescentIsPaused | blockjob.c:99-121 | During a drain a job that is not busy and not completed is paused |
| JobPause.Job.EnterCond | job.c:538-561 | Exactly when a job is woken, and that its timer is then off |
| JobPause.Job.Start | job.c:1128-1142 | Starting keeps the pause count accounted for |
| JobPause.Job.PausePoint | job.c:609-630 | Goes on if nobody asks for a pause or the job is force-cancelled, else pauses |
| JobPause.Job.PauseReally | job.c:623-640 | Rechecks after the driver's callback before it becomes paused |
| JobPause.Job.WakeInPause | job.c:638-642 | Yields again while a pause is wanted; else restores the status it came from |
| JobPause.Job.Yield | job.c:657-689 | Yields only if nobody asks for a pause, so no request is slept over |
| JobPause.Job.DrainBegin | blockjob.c:93-97 | One more drain is counted and the job is woken to see it |
| JobPause.Job.DrainEnd | blockjob.c:123-127 | One drain less, never below zero, and a paused job without further requests is woken |
| JobPause.Job.UserPause | job.c:729-740 | Accepted exactly when the verb is allowed and the user has not paused it |
| JobPause.Job.UserResume | job.c:747-765 | Accepted exactly when the user has paused it and the verb is allowed; clears the I/O status |
| JobPause.Job.IostatusReset | blockjob.c:555-563 | Its assertion holds |
| JobPause.Job.ErrorStop | blockjob.c:578-622 | An I/O error is a user pause |
| JobPause.Job.CancelAsync | job.c:895-931 | Takes back a user pause, never un-cancels, and force implies cancelled |
| JobPause.Job.Cancel | job.c:1144-1170 | A concluded job is dismissed; otherwise a forced request sticks, and a job that was started and has not been deferred to the main loop is busy afterwards, so it has been woken |
| JobPause.Job.Run | job.c:538-765 | After every event of any interleaving the pause count is accounted for, no wake-up is lost, and a started job leaves the pause only at count 0 or when force-cancelled |
| JobTxn.UniformExactlyWhen | job.c:936-1015 | A decided group is all committed or all aborted, each once and then cleaned, if and only if it was aborted before anybody finalised it, or no prepare callback fails, or the first to fail is the finalising job's |
| JobTxn.ForcedNeverCommits | job.c:811-822 | A force-cancelled job never runs commit |
| JobTxn.JobTxn.UpdateRc | job.c:811-822 | A forced or failed job is aborting; the transition is allowed |
| JobTxn.JobTxn.FinalizeSingle | job.c:853-890 | Commit or abort, then clean, then concluded and maybe dismissed; all transitions are allowed |
| JobTxn.JobTxn.CancelOthers | job.c:947-961 | Afterwards every other job can only abort |
| JobTxn.JobTxn.TxnAbort | job.c:936-976 | Every job of the group is aborted and cleaned, except an initiator that is neither failed nor cancelled; a nested call does nothing |
| JobTxn.JobTxn.FinishSync | job.c:1249-1277 | Waiting terminates for started jobs, in whatever order they finish |
| JobTxn.JobTxn.Exit | job.c:1071-1103 | A failed or forced job aborts the whole group, a successful one waits for the others, makes all pending or decides the group; while the group is being aborted it only records the failure |
| JobTxn.JobTxn.TxnSuccess | job.c:1044-1068 | Waits while another job is at work; the last job to succeed makes all pending, and decides the group unless one needs manual finalisation |
| JobTxn.JobTxn.PrepareAll | job.c:979-1011 | Succeeds exactly when all prepare callbacks do; otherwise stops at the first failing job of the list, which alone is aborting then |
| JobTxn.JobTxn.DoFinalize | job.c:1003-1015 | All commit if no prepare callback fails, all abort if the initiator's is the first to fail, and otherwise all but the initiator abort |
| JobTxn.JobTxn.Cancel | job.c:1144-1170 | Forcing a job whose coroutine is done aborts the whole group; a verdict never changes |
| JobTxn.JobTxn.Finalize | job.c:1017-1024 | Accepted exactly when pending, and then the group is decided |
| JobTxn.JobTxn.Dismiss | job.c:781-792 | Accepted exactly when concluded |
| JobTxn.JobTxn.Happen | job.c:936-1170 | Any single call or coroutine step; which one finalises the group is known before it |
| JobTxn.JobTxn.Run | job.c:59-72 | In any run no transition assertion trips, a verdict is final, and a decided group is uniform exactly when its prepare callbacks and finalising job say so, in particular if no callback fails |
| JobTxn.MixedRun | job.c:1003-1015 | A run of two successful jobs that ends with one committed and one aborted |

## Left out

- BlockLayer: `open_flags`, drain counters and graph locks, and closing a node whose last reference goes away; AioContexts are taken to agree when an edge is attached.
- BlockLayer.BlockLayer.SetFileOrBackingNoperm: what `bdrv_inherits_from_recursive` answers is a parameter, and the slot a new child of a filter goes to has to be free, as the attach callback asserts.
- BlockLayer.BlockLayer.NodeRefreshPerm: the reopen queue is not modelled.
- BlockLayer.BlockLayer.AttachChildCommon: moving the child or the parent to the other's AioContext is not modelled.
- BlockLayer.BlockLayer.AbortAttached: moving AioContexts back is not modelled.
- BlockLayer.BlockLayer.SetBackingHd: does not state which inherits_from entries a successful call changes; `UnsetInheritsFrom` does.
- BlockLayer.BlockLayer.UnsetInheritsFrom: is modelled with a transaction only.
- BlockRefresh: the reopen queue, and `bdrv_child_perm` of drivers that look at more than the role and the parents' needs; drivers have to be monotone for the claims about loosening and validity, and only for those.
- BlockGraph: `bdrv_replace_child_bs`, which has no cycle check and relies on its caller.
- AioContext: registering notifiers, and the drained sections the calls are made in; a backend has one root edge.
- ExclusiveSection: adding or removing CPUs during a section; weaker memory models than sequential consistency.
- Rebase.SafeRebase: the write alignment is at most the buffer size, since the loop can stall otherwise, and an allocation granularity of the overlay, since its assertion fails otherwise.
- Rebase: opening the images, compressed rebase and progress output; the old and new backing do not change meanwhile.
- Convert: copy offloading, salvage retries, a target with a backing file; block status is reported for whole sectors.
- Convert.ConvertState.IterationSectors: does not model salvage and a target backing file.
- Convert.ConvertState.CoRead: does not model salvage retries.
- Convert.ConvertState.CoWrite: does not model ranges left to a target backing file.
- Convert.ConvertState.Copy: one coroutine, without the closing write of a compressed image; the parallel protocol is `ConvertCoroutines`.
- ImgCompare: strict mode compares sizes and block status as the loop does; opening the images and messages are not modelled.
- ImgMap: human-readable output.
- JobTxn: groups with a job that has not been started, for which the waiting loop of an abort would never end; drivers whose cancel callback ignores force; reference counts.
- JobTxn.JobTxn.FinishSync: turns of the waiting loop in which no job of the group moves are not modelled.
- JobPause.Job.UserResume: one step, though the lock is released around the driver's user_resume callback.
- JobPause.Job.CancelAsync: one step, though the lock is released around the driver's cancel and user_resume callbacks.
- JobPause.Job.Cancel: completing a job that was never started is a later event.
- JobPause.Job.Run: does not interleave anything with those callbacks.
- JobPause: adding and removing jobs, progress, and moving the coroutine between AioContexts; a driver gets ready at most once.
- Job verbs `set-speed`, `complete` and `change`, and the events sent to the monitor.
- Option parsing, help texts, JSON and QMP output, format probing, `bdrv_open` and reopen.
- `blockdev.c`, `job-qmp.c`, `iothread.c`, `replication.c`, `qemu-io-cmds.c` and the `os-*.c` files, whose claims are simple ones.
