# A verified model of the YFS RPC library and extent store

This project models, in Dafny, the two hard parts of the system and the machinery that the first of
them rests on, and proves what they promise for every input, every run and every reachable state.

**At-most-once RPC.** `RpcProtocol` is a step system: any number of clients and server instances, a
network that may lose, duplicate and reorder every message, and servers whose dispatch threads
interleave freely. The atomic steps are the sections that the code protects with a lock: starting a
call and stamping its request, classifying a request against the reply window, running the handler,
recording the reply, sending it, taking a reply, finishing a call, binding. `RpcTheorems` derives the
guarantees from one invariant over both sides; `RpcLimits` gives concrete runs where they end, and
`RpcProgress` proves what does happen: replies go out, the first one is taken, every call can be completed.
`XidWindow`, `ReplyWindow`, `RpcClient` and `RpcServer` are the mutable objects of the code (the list of
finished calls, the per-client reply lists, the two endpoints), each proved to take the step of the
protocol.

**The block and inode store.** `DiskFormat` is the byte layout, `FileStore` the store as a value
(disk bytes and marked blocks) with its ownership invariant, `Bitmap`, `BlockLayer`, `InodeLayer` and
`ExtentServer` the objects that change bitmap bytes, disk blocks and packed inodes in place.
`ExtentSpec` is the plain map from inode number to type and bytes that users see. The main theorem is
that any sequence of create, put, get, getattr and remove gives the answers of that map, with an exact
account of the free blocks; `ExtentLaws` states what those answers mean to a user, each operation by its
relation to the others.

**Supporting machines.** `Codec` and `Message` (marshalling, growing buffers, headers), `Framing` and
`Connection` (packets over a byte stream that splits reads and writes anywhere), `PollRemoval`,
`SelectAio` and `PollMgr` (the poll thread and `block_remove_fd`), `ThreadPool` (the bounded queue and
the poison-pill shutdown), `RetryTimer` (the retry loop and its time arithmetic).

`FramingProgress` and `PollProgress` show that packets arrive and that removals return.

Concurrent machines follow one pattern: a value for the state, a datatype of steps, `Enabled`, `Apply`,
`Run` over a sequence of steps, an invariant that every step keeps, and theorems over every run.
Objects are classes whose methods are tied to those functions.

Where comments and code of the system disagree, the model follows the code.

- The comment before `checkduplicate_and_update` says that calls up to and including `xid_rep` are
  deleted; the code keeps `xid_rep` itself, and `AnchoredAccept` needs it to.
- The comment on `block_remove_fd` promises that callbacks are never called again after its return. The
  wait in it is not in a loop, and the poll thread tests for a callback and calls it without the lock.
  `PromiseBreaksIff` says exactly when the promise fails, `WokenByBroadcast` when it holds, and
  `SpuriousWakeCallsAfterReturn` is a run in which the call comes after the return.
- `add_timespec` leaves a fraction of exactly one second uncarried. The bound on the rounds holds all the
  same, but a final deadline of that form is refused by `pthread_cond_timedwait`, and the loop, which
  leaves only on a timeout, then hangs (`Wait`, `RefusedIff`, `HangingCall`).

## Model

| member | source | states |
|---|---|---|
| `XidWindow.FrontIsUnique` | rpc/rpc.cc:386-408 | the acknowledgement of a set of finished calls is the only number with every predecessor finished and its successor not |
| `XidWindow.HeadIsFront` | rpc/rpc.cc:208-214 | the head of any list that stands for the finished calls is that acknowledgement, so the list carries no more than the set |
| `XidWindow.Window.constructor` | rpc/rpc.cc:124-125 | the window starts as the list holding 0 |
| `XidWindow.Window.Insert` | rpc/rpc.cc:394-400 | insertion keeps the list sorted, keeps its head and adds exactly the one call, repeats included |
| `XidWindow.Window.Compress` | rpc/rpc.cc:402-407 | the one-pass loop terminates and is complete: afterwards the head is the largest n with 0..n all finished and the list is the finished calls not below it |
| `XidWindow.Window.UpdateXidRep` | rpc/rpc.cc:386-408 | after any call, duplicates and any order included, the list stands for the finished calls with the new one added |
| `ReplyWindow.RepeatedNewIff` | rpc/rpc.cc:659-707 | a repeated request is classified new again exactly when it acknowledges itself away and nothing newer is left: why the server alone is not enough |
| `ReplyWindow.FrontDecidesAge` | rpc/rpc.cc:682-685 | comparing with the list's front is the same as being older than everything remembered |
| `ReplyWindow.InsertHolds` | rpc/rpc.cc:687-697 | placing an entry before the first newer one keeps the list ordered and adds exactly that entry to the table |
| `ReplyWindow.EraseHolds` | rpc/rpc.cc:699-704 | erasing from the front keeps exactly the entries that are not below the acknowledgement |
| `ReplyWindow.RecordHolds` | rpc/rpc.cc:715-728 | filling in a reply changes that entry of the table and no other |
| `ReplyWindow.Search` | rpc/rpc.cc:670-680 | finds the entry of a call, or shows that the table has none |
| `ReplyWindow.InsertOrdered` | rpc/rpc.cc:687-697 | the insertion loop refines adding an entry to the table |
| `ReplyWindow.EraseBelow` | rpc/rpc.cc:699-704 | the erasing loop refines forgetting everything strictly below the acknowledgement |
| `ReplyWindow.CheckList` | rpc/rpc.cc:659-707 | search, age test, insertion and erasure on the list give the verdict and the table of the specification |
| `ReplyWindow.RecordInList` | rpc/rpc.cc:715-728 | the loop over the whole list records the reply of one call only |
| `ReplyWindow.ReplyWindows.constructor` | rpc/rpc.cc:411-431 | no client is known |
| `ReplyWindow.ReplyWindows.CheckDuplicateAndUpdate` | rpc/rpc.cc:659-707 | one client's window takes the step of the specification, every other client's stays |
| `ReplyWindow.ReplyWindows.AddReply` | rpc/rpc.cc:715-728 | one client's window records the reply, every other client's stays |
| `RpcProtocol.StampOk` | rpc/rpc.cc:208-214 | the stamp of a new request lies below its own number, acknowledges finished calls only, and no earlier request has the same number |
| `RpcProtocol.BindNonce` | rpc/rpc.cc:146-160 | what a successful bind returned is one number, not zero, and it is the nonce of an instance whose handler produced it |
| `RpcProtocol.NewIsFresh` | rpc/rpc.cc:659-707 | a request that is classified new has no job on that instance yet |
| `RpcProtocol.KeepBegin` | rpc/rpc.cc:196-215 | starting a call keeps the invariant |
| `RpcProtocol.KeepGotReply` | rpc/rpc.cc:349-382 | taking a reply, stale and duplicate ones included, keeps the invariant |
| `RpcProtocol.KeepEnd` | rpc/rpc.cc:286-298 | finishing a call, answered or timed out, keeps the invariant |
| `RpcProtocol.KeepBindDone` | rpc/rpc.cc:146-160 | binding keeps the invariant |
| `RpcProtocol.KeepCancel` | rpc/rpc.cc:164-186 | cancelling keeps the invariant |
| `RpcProtocol.KeepDispatch` | rpc/rpc.cc:522-643 | classifying any request at any instance, with all its answers, keeps the invariant |
| `RpcProtocol.KeepMove` | rpc/rpc.cc:591-599 | running the handler keeps the invariant |
| `RpcProtocol.KeepAddReply` | rpc/rpc.cc:601-611 | recording a reply keeps the invariant, also when the call was forgotten meanwhile |
| `RpcProtocol.KeepSendReply` | rpc/rpc.cc:613-628 | sending a reply keeps the invariant |
| `RpcProtocol.StepKeepsInv` | rpc/rpc.cc:499-728 | every step of every party keeps the invariant of the whole system |
| `RpcProtocol.RunKeepsInv` | rpc/rpc.cc:499-728 | the invariant holds after every run |
| `RpcTheorems.AcceptedAtMostOnce` | rpc/rpc.cc:659-707 | in every run an instance classifies a call of a client with a non-zero nonce as new at most once, and afterwards the call is remembered or too old |
| `RpcTheorems.AcceptedAtMostOnceAcrossRestarts` | rpc/rpc.cc:522-531 | over all instances together a call other than bind is accepted at most once, and only by the instance its client bound to |
| `RpcTheorems.ExecutionsAreCounted` | rpc/rpc.cc:585-599 | the number of handler executions during a run, counted step by step, is the number of jobs that got past acceptance |
| `RpcTheorems.ExecutedAtMostOnce` | rpc/rpc.cc:585-599 | in every run the handler of a call is executed at most once: a bind at most once at each instance, any other call at most once over all instances together |
| `RpcTheorems.ExactlyOnceOnSuccess` | rpc/rpc.cc:349-382 | if a call other than bind returns a code that is not negative, its handler ran exactly once over all instances and what was returned, code and data, is what that execution produced |
| `RpcTheorems.BindRanOnceWhereItBound` | rpc/rpc.cc:146-160 | a bind that succeeds returned the nonce of an instance and ran exactly once at that instance |
| `RpcTheorems.RepliesAreRetained` | rpc/rpc.cc:670-704 | while the client waits for an accepted call, every duplicate is answered "in progress" or with the reply of its one execution, never "new" and never "forgotten" |
| `RpcTheorems.TooOldAfterNew` | rpc/rpc.cc:682-704 | exactly which calls are too old after a request was accepted |
| `RpcTheorems.FalselyForgetsIff` | rpc/rpc.cc:682-685 | an instance answers "forgotten" to some unfinished call exactly when the oldest unfinished call is too old |
| `RpcTheorems.AcceptForgetsIff` | rpc/rpc.cc:682-704 | accepting a request makes an unfinished call forgotten exactly when the oldest unfinished call is below the request and the window keeps nothing between the acknowledgement and that call |
| `RpcTheorems.FalseForgottenIff` | rpc/rpc.cc:659-707 | in every run, "forgotten" comes to be the answer to an unfinished call exactly when some accepted request met that condition |
| `RpcTheorems.AnchoredAccept` | rpc/rpc.cc:682-704 | a request whose acknowledgement was itself accepted overtakes an unfinished call only where that was forgotten before; this rests on erasing strictly below the acknowledgement |
| `RpcTheorems.StampIsAnchored` | rpc/rpc.cc:208-214 | a client that finishes only accepted calls stamps its requests with accepted calls |
| `RpcTheorems.TameNeverOvertakes` | rpc/rpc.cc:208-214 | a client that binds once and finishes only accepted calls never sends a request that meets the condition |
| `RpcTheorems.NoFalseForgotten` | rpc/rpc.cc:682-704 | for a client that binds once and finishes only accepted calls, "forgotten" is answered only for calls it has finished |
| `RpcLimits.NonceZeroRunsTwice` | rpc/rpc.cc:580-591 | a run in which a client with nonce zero has its handler executed twice |
| `RpcLimits.BindRunsAtTwoInstances` | rpc/rpc.cc:522-531 | a run in which one bind call is executed at two instances |
| `RpcLimits.FalseForgotten` | rpc/rpc.cc:682-704 | a run in which a finished but never accepted call makes the server forget a younger call that the client still waits for |
| `RpcProgress.SentIsOnTheWire` | rpc/rpc.cc:613-628 | in every run, the result of every job that has been sent is on its way to the client |
| `RpcProgress.DuplicateGetsTheReply` | rpc/rpc.cc:629-633 | while the client waits, a duplicate of a call whose reply is recorded is answered with it |
| `RpcProgress.DeliveryIsAnswered` | rpc/rpc.cc:522-643 | in every reachable state, exactly what a delivered request puts on the wire and whether it gets a thread: failure for another instance or an old call, the recorded reply, a new job, or nothing |
| `RpcProgress.FailuresAreExplained` | rpc/rpc.cc:522-643 | in every run, a failure on the wire is "old instance" for a call that was addressed to one, or "forgotten" |
| `RpcProgress.NoFalseFailure` | rpc/rpc.cc:634-640 | a client that binds once and finishes only accepted calls is sent "forgotten" only for calls it has finished |
| `RpcProgress.TakenReplyStays` | rpc/rpc.cc:369-380 | in every run, once a call has taken a reply no later reply changes it, and short of a cancel it is what the call returns |
| `RpcProgress.WaitingTakesReply` | rpc/rpc.cc:360-380 | a call that waits takes exactly the reply that arrives, and one that ends without a reply times out |
| `RpcProgress.EndReturns` | rpc/rpc.cc:286-298 | a call that has taken a reply and ends has returned it |
| `RpcProgress.EveryReplyAcknowledges` | rpc/rpc.cc:360-362 | every reply acknowledges its call, whether or not anybody waits for it |
| `RpcProgress.CancelFailsCalls` | rpc/rpc.cc:164-186 | cancelling fails every outstanding call for good and closes the client |
| `RpcProgress.CancelOfIdleClient` | rpc/rpc.cc:181-184 | cancelling a client without outstanding calls changes nothing |
| `RpcProgress.ClosedClientRefuses` | rpc/rpc.cc:204-206 | in every run, a client that is closing stays closing and starts no call any more |
| `RpcProgress.BoundWhereBindRan` | rpc/rpc.cc:146-160 | in every run, a bound client is bound to an instance that executed its bind call |
| `RpcProgress.AcceptedCallCompletes` | rpc/rpc.cc:585-628 | from every reachable state, a call that waits and that an instance has accepted can be completed and then returns what its handler produced |
| `RpcProgress.FreshCallCompletes` | rpc/rpc.cc:188-298 | from every reachable state, a client that may start a call, bound to a live instance or about to bind, can complete it with any result that the handler may produce |
| `RpcProgress.ClientCanBind` | rpc/rpc.cc:146-160 | from every reachable state, a client that is neither bound nor closing can bind to any live instance |
| `RpcProgress.StampIsExact` | rpc/rpc.cc:208-214 | calls are numbered one after the other, and a new request acknowledges all that is finished without a gap, and no more |
| `RpcProgress.AcceptingForgetsAcknowledged` | rpc/rpc.cc:687-704 | accepting a request leaves exactly the remembered calls that it does not acknowledge, and itself |
| `RpcClient.Rpcc.constructor` | rpc/rpc.cc:101-129 | a new client is the initial client of the protocol |
| `RpcClient.Rpcc.Begin` | rpc/rpc.cc:196-215 | numbers and stamps a call as the protocol does, or refuses it with the right code and no change |
| `RpcClient.Rpcc.GotReply` | rpc/rpc.cc:349-382 | takes the protocol's step: only the first reply counts, every reply acknowledges |
| `RpcClient.Rpcc.End` | rpc/rpc.cc:286-298 | takes the protocol's step and returns the reply or a timeout |
| `RpcClient.Rpcc.BindDone` | rpc/rpc.cc:146-160 | takes the protocol's step |
| `RpcClient.Rpcc.Cancel` | rpc/rpc.cc:164-186 | takes the protocol's step |
| `RpcServer.Rpcs.constructor` | rpc/rpc.cc:411-431 | a new instance remembers nothing |
| `RpcServer.Rpcs.Dispatch` | rpc/rpc.cc:522-643 | the server object answers any request as the protocol does, and its reply lists follow the protocol's windows |
| `RpcServer.Rpcs.Classify` | rpc/rpc.cc:578-579 | the verdict and the windows of the protocol |
| `RpcServer.Rpcs.Executed` | rpc/rpc.cc:601-611 | after the handler the reply is recorded as the protocol does, for clients with a nonce only |
| `DiskFormat.InodeBlockIsReserved` | inode_manager.h:73-83 | for every geometry, the block of every valid inode number lies in the range that the constructor reserves |
| `DiskFormat.InodePlacesDiffer` | inode_manager.h:73-83 | for every geometry, different inode numbers have different places |
| `DiskFormat.ReadAfterWriteInode` | inode_manager.cc:223-265 | reading an inode slot after writing one gives the inode written, and every other slot what it had |
| `DiskFormat.ReadAfterWriteTable` | inode_manager.cc:371-387 | a pointer table read back from its block is the table written |
| `BitmapModule.Bitmap.constructor` | inode_manager.cc:9-14 | no bit is marked |
| `BitmapModule.Bitmap.Mark` | inode_manager.cc:20-25 | on packed bytes, adds exactly one bit to the marked set, nothing when out of range |
| `BitmapModule.Bitmap.Clear` | inode_manager.cc:27-32 | removes exactly one bit from the marked set |
| `BitmapModule.Bitmap.Test` | inode_manager.cc:34-39 | answers membership |
| `BitmapModule.Bitmap.Find` | inode_manager.cc:41-55 | the lowest clear bit, or 0 exactly when every bit is marked |
| `BlockLayer.RamDisk.ReadBlock` | inode_manager.cc:64-71 | the block, or the caller's buffer unchanged for an id outside the disk |
| `BlockLayer.RamDisk.WriteBlock` | inode_manager.cc:73-80 | changes one block, or nothing for an id outside the disk |
| `BlockLayer.BlockManager.constructor` | inode_manager.cc:113-137 | exactly the blocks below the first data block are marked and the disk is zero |
| `BlockLayer.BlockManager.MarkNext` | inode_manager.cc:121-130 | the two loops mark consecutive blocks |
| `BlockLayer.BlockManager.AllocBlock` | inode_manager.cc:85-97 | takes the lowest unmarked block |
| `BlockLayer.BlockManager.FreeBlock` | inode_manager.cc:99-109 | gives back exactly one block |
| `BlockLayer.RamDisk.constructor` | inode_manager.cc:59-62 | every block is zero |
| `BlockLayer.BlockManager.ReadBlock` | inode_manager.cc:139-143 | the block of the disk |
| `BlockLayer.BlockManager.WriteBlock` | inode_manager.cc:145-149 | changes one block of the disk and no mark |
| `FileStore.GetAfterPut` | inode_manager.cc:223-265 | putting an inode changes that inode and no other, and no mark |
| `FileStore.OtherFile` | inode_manager.cc:337-413 | a change that touches only one file's blocks leaves pointers, size and contents of every other file |
| `FileStore.OnlyFileKeepsInv` | inode_manager.cc:337-413 | such a change keeps ownership, provided the file's own blocks are marked, distinct and nobody else's |
| `FileStore.CreateDone` | inode_manager.cc:165-196 | creating keeps ownership, adds exactly one empty file to the map, and loses nothing nor finds anything again |
| `FileStore.WriteOne` | inode_manager.cc:358-384 | writing the next block, in an old or a new place, extends the written part of the file and disturbs nothing else |
| `FileStore.TakeExtra` | inode_manager.cc:373-377 | a new indirect block is nobody's |
| `FileStore.WriteDone` | inode_manager.cc:337-413 | after any put, growing or shrinking across the direct and indirect boundary, ownership holds, the map has exactly the new bytes in that one place, the blocks that become lost are exactly those the smaller file does not use, and nothing is lost exactly when nothing was lost before and the file did not shrink |
| `FileStore.ShrinkingDrops` | inode_manager.cc:392-407 | a write leaves blocks behind exactly when the file gets fewer blocks |
| `FileStore.ZeroBreaksOwnership` | inode_manager.cc:41-55 | a file with a pointer to block 0, which a full disk hands out, breaks ownership whatever the store holds |
| `FileStore.TooManyBlocks` | inode_manager.cc:379-389 | after a write of MAXFILE blocks or more the indirect block holds what it held before |
| `FileStore.PointersOfBefore` | inode_manager.cc:379-389 | each pointer beyond the direct ones is then whatever stood in that block |
| `FileStore.TooBigIsNotReadBack` | inode_manager.cc:315-329 | on a new disk, for every size of MAXFILE blocks or more, the first byte beyond the direct blocks then reads as zero |
| `FileStore.CountFreed` | inode_manager.cc:440-473 | removal gives back exactly as many blocks as the file has, its indirect block included |
| `FileStore.RemoveDone` | inode_manager.cc:440-473 | removal keeps ownership, takes exactly one file out of the map, and loses nothing nor finds anything again |
| `InodeLayer.InodeManager.constructor` | inode_manager.cc:153-161 | the store starts with the root directory as inode 1 and every data block free |
| `InodeLayer.InodeManager.GetInode` | inode_manager.cc:223-249 | the inode, or missing for a number out of range or of type 0 |
| `InodeLayer.InodeManager.PutInode` | inode_manager.cc:251-265 | writes one packed inode |
| `InodeLayer.InodeManager.AllocInode` | inode_manager.cc:165-196 | the lowest unused number, or 0 when there is none, and the map with that empty file |
| `InodeLayer.InodeManager.FirstMissing` | inode_manager.cc:177-184 | the scan stops at the lowest unused number |
| `InodeLayer.InodeManager.ReadFile` | inode_manager.cc:271-334 | exactly the bytes of the file, through direct and indirect pointers; nothing for a missing file |
| `InodeLayer.InodeManager.ReadDirect` | inode_manager.cc:302-312 | the first blocks, the last one cut to size |
| `InodeLayer.InodeManager.ReadIndirect` | inode_manager.cc:315-329 | the rest, through the table stored on the same disk |
| `InodeLayer.InodeManager.WriteDirect` | inode_manager.cc:358-368 | the direct loop writes and allocates the first blocks and disturbs nothing else |
| `InodeLayer.InodeManager.StoreBlock` | inode_manager.cc:359-364 | one block written in its old place or in the lowest free one; on a full disk the block is 0 |
| `InodeLayer.InodeManager.OpenTable` | inode_manager.cc:371-377 | the old pointer table, or a new indirect block with an empty one |
| `InodeLayer.InodeManager.StoreIndirect` | inode_manager.cc:379-384 | one more block behind the direct ones, its pointer in the table |
| `InodeLayer.InodeManager.WriteIndirect` | inode_manager.cc:379-389 | the indirect loop writes the rest and stores the table back exactly when it meets an unused index |
| `InodeLayer.InodeManager.WriteBlocks` | inode_manager.cc:358-390 | both loops together: every block is written, or block 0 was handed out on the way, and the table is stored exactly below MAXFILE blocks |
| `InodeLayer.InodeManager.WriteFile` | inode_manager.cc:337-413 | for every buffer: ownership survives exactly when the file stays below MAXFILE blocks and there is room; then the map changes in one place to the bytes written, free blocks drop by exactly what the growth needs, and nothing is lost exactly when the file did not shrink; with too many blocks the pointer table is not stored |
| `InodeLayer.InodeManager.FreeInode` | inode_manager.cc:198-218 | takes exactly one inode out |
| `InodeLayer.InodeManager.RemoveFile` | inode_manager.cc:440-473 | the map loses one file and every block of it becomes free |
| `InodeLayer.InodeManager.FreeFile` | inode_manager.cc:453-468 | frees exactly the blocks that the file owns |
| `InodeLayer.InodeManager.FreeIndirect` | inode_manager.cc:460-468 | frees the blocks behind the direct ones and the indirect block itself |
| `InodeLayer.InodeManager.FreeEntries` | inode_manager.cc:463-465 | frees the blocks that the entries of the table point to |
| `InodeLayer.InodeManager.GetAttr` | inode_manager.cc:415-438 | type, times and size of the file, or the untouched zeros for a missing one |
| `ExtentSpec.LowestUnused` | inode_manager.cc:177-195 | the number chosen is unused and everything below it is used, or all numbers are used |
| `ExtentServerModule.ExtentServer.constructor` | extent_server.cc:12-15 | the server starts as the map with the root directory, and every data block free |
| `ExtentServerModule.ExtentServer.Create` | extent_server.cc:17-24 | the step of the plain map, no block taken and none lost |
| `ExtentServerModule.ExtentServer.Put` | extent_server.cc:26-35 | for every buffer: the server stays valid exactly when the put fits, and then takes the step of the plain map with the free blocks exact and nothing lost exactly when the file does not shrink |
| `ExtentServerModule.ExtentServer.Get` | extent_server.cc:37-55 | the answer of the plain map, empty for a missing file |
| `ExtentServerModule.ExtentServer.GetAttr` | extent_server.cc:57-69 | the answer of the plain map, zeros for a missing file |
| `ExtentServerModule.ExtentServer.Remove` | extent_server.cc:71-79 | the step of the plain map, free blocks exact, nothing lost |
| `ExtentServerModule.ExtentServer.Do` | extent_server.cc:17-79 | any one operation refines the plain map, and the server stays valid exactly when it fits |
| `ExtentServerModule.ExtentServer.Serve` | extent_server.cc:17-79 | any sequence of operations up to the first that does not fit refines the plain map; block ownership survives exactly when all of them fit, the number of free blocks is exactly accounted for, and the marked blocks are exactly the reserved and the owned ones exactly when no put ever shrank a file |
| `ExtentServerModule.ShrinkingLosesABlock` | inode_manager.cc:392-407 | a put of one byte and then of none leaves an empty file and one free block fewer |
| `ExtentLaws.PutThenGet` | extent_server.cc:26-55 | over every table and history, what was put is what is got, whatever happens to other files in between |
| `ExtentLaws.PutOfMissing` | extent_server.cc:26-35 | a put to a file that is not there is answered like any other and changes nothing |
| `ExtentLaws.RemoveThenGet` | extent_server.cc:71-79 | a removed file reads as empty, with all attributes zero, until it is created again |
| `ExtentLaws.CreateThenGet` | extent_server.cc:17-24 | a create that is answered with a number made that file: empty until put or removed, and of the type asked for, as a signed 16-bit number, until removed |
| `ExtentLaws.CreateAnswers` | inode_manager.cc:177-195 | a create is answered with 0 exactly when all numbers are in use, and else with the lowest free one |
| `ExtentLaws.RemovedIsReused` | inode_manager.cc:177-195 | a removed number is given out again by the next create when all below it are in use |
| `ExtentLaws.SizeIsLength` | inode_manager.cc:430-434 | the size that getattr reports is the number of bytes that get returns, and a missing file has neither |
| `ExtentLaws.TypeStays` | inode_manager.cc:337-413 | a file keeps its type through every put until it is removed |
| `ExtentLaws.FileStays` | extent_server.cc:17-79 | a file stays as it is until it is put or removed itself |
| `ExtentLaws.LowBitsCount` | extent_server.cc:26-79 | ids that agree in their low 31 bits get the same answers and have the same effect |
| `ExtentLaws.OtherIdsAreOtherFiles` | extent_server.cc:26-79 | ids that differ in their low 31 bits do not touch each other's file |
| `ExtentLaws.ReadingChangesNothing` | extent_server.cc:37-69 | get and getattr change nothing |
| `Codec.BitsRoundTrip` | rpc/rpc.cc:780-868 | the bit pattern of a number of any width, signed or not, gives the number back |
| `Codec.NumberRoundTrip` | rpc/rpc.cc:780-868 | the bytes of a number, most significant first, read back as the number |
| `Codec.NumberReads` | rpc/rpc.cc:890-968 | a number is read in full or leaves the reader not ok, for every input |
| `Codec.MergeDistinct` | rpc/marshall.h:245-259 | storing decoded entries one by one loses none when the keys are distinct |
| `Codec.RoundTrip` | rpc/rpc.cc:780-990 | for every value of every type, nested vectors and maps included, unmarshalling the marshalled bytes gives the value back and stops right behind it |
| `Codec.PrefixFails` | rpc/rpc.cc:890-990 | any strict prefix of an encoding leaves the reader not ok |
| `Codec.RawBytesStraysIff` | rpc/rpc.cc:979-990 | a read of n bytes leaves the buffer exactly when they are not there and cursor plus n, modulo 2^32, is not beyond the size |
| `Codec.StraysWhenSumWraps` | rpc/rpc.cc:979-990 | inside a buffer below 2^31 bytes that is exactly when cursor plus length reaches 2^32 |
| `Codec.StringStraysIff` | rpc/rpc.cc:969-990 | on arbitrary bytes, reading a string leaves the buffer exactly when the announced length plus the cursor reaches 2^32 |
| `Codec.DecodeStraysIff` | rpc/rpc.cc:890-990 | on arbitrary bytes, decoding a value of any type leaves the buffer exactly when one of its string reads does |
| `Codec.StrayingMessage` | rpc/rpc.cc:979-990 | a message of 28 bytes that makes the code read beyond it with ok still true |
| `Message.ItemsRoundTrip` | rpc/marshall.h:211-259 | every sequence of values is read back value for value |
| `Message.ItemsPrefixFails` | rpc/marshall.h:211-259 | every sequence of values, cut anywhere, is noticed |
| `Message.PacketRoundTrip` | rpc/marshall.h:83-108 | header and values of a whole packet come back, `okdone` holds at the end, whatever the connection put into the length field |
| `Message.PacketPrefixFails` | rpc/marshall.h:175-198 | a packet cut anywhere, header included, never ends with `okdone` |
| `Message.WireFormat` | rpc/rpc.cc:780-849 | a number of each width and sign, byte by byte, the most significant first |
| `Message.Marshall.constructor` | rpc/marshall.h:53-58 | an empty body behind room for the header |
| `Message.Marshall.RawByte` | rpc/rpc.cc:755-765 | one byte more and every other byte kept; doubling is always room enough |
| `Message.Marshall.RawBytes` | rpc/rpc.cc:767-778 | all bytes appended and every other byte kept; either way of growing is room enough, and the capacity stays within twice the need |
| `Message.Marshall.Pack` | rpc/rpc.cc:851-858 | four bytes written in place, everything behind them kept |
| `Message.Marshall.PackRequestHeader` | rpc/marshall.h:83-96 | the header fills the bytes in front of a body that is already there and changes neither body nor size |
| `Message.Marshall.PackRequestFields` | rpc/marshall.h:90-94 | the five numbers in place, everything behind them kept |
| `Message.Marshall.PackReplyHeader` | rpc/marshall.h:98-108 | the same for the shorter reply header, bytes between it and the body kept |
| `Message.Marshall.PutDigits` | rpc/rpc.cc:780-849 | a number of 1, 2, 4 or 8 bytes is appended, most significant byte first |
| `Message.Marshall.Put` | rpc/marshall.h:211-243 | appends exactly the encoding of any value |
| `Message.Marshall.PutCounted` | rpc/marshall.h:211-243 | the vector and map loops append a count and the elements |
| `Message.Unmarshall.RawByte` | rpc/rpc.cc:890-899 | the next byte, or zero and not ok past the end |
| `Message.Unmarshall.RawBytes` | rpc/rpc.cc:979-990 | the next bytes, or not ok, or the record of a read beyond the buffer |
| `Message.Unmarshall.constructor` | rpc/marshall.h:136-136 | the cursor at the start, ok |
| `Message.Unmarshall.ReadInt` | rpc/rpc.cc:939-957 | the next four bytes as one number |
| `Message.Unmarshall.Unpack` | rpc/rpc.cc:860-867 | the next four bytes as a signed number |
| `Message.Unmarshall.UnpackUnsigned` | rpc/rpc.cc:860-867 | the next four bytes as an unsigned number |
| `Message.Unmarshall.GetNumber` | rpc/rpc.cc:901-967 | reads a number of any width as the specification does |
| `Message.Unmarshall.GetDigits` | rpc/rpc.cc:901-967 | one, two, four or eight bytes as one number |
| `Message.Unmarshall.Get` | rpc/rpc.cc:901-990 | reads a value of any type as the specification does |
| `Message.Unmarshall.GetAll` | rpc/marshall.h:220-231 | the vector loop reads the announced number of elements |
| `Message.Unmarshall.GetEntries` | rpc/marshall.h:245-259 | the map loop: later entries replace earlier ones with the same key |
| `Message.Unmarshall.OkDone` | rpc/rpc.cc:880-888 | true exactly when all reads were good and the end is reached |
| `Message.Unmarshall.UnpackRequestHeader` | rpc/marshall.h:175-187 | reads the five header numbers and stands at the body, on any input |
| `Message.Unmarshall.UnpackReplyHeader` | rpc/marshall.h:189-198 | reads the two header numbers and stands at the body, on any input |
| `Framing.InsideFrame` | rpc/connection.cc:222-244 | what follows the first frames in any prefix of the stream is a part of the next frame |
| `Framing.FrameAnnounces` | rpc/connection.cc:229-232 | the length field that a frame starts with announces its size to the reader |
| `Framing.WriteKeepsSending` | rpc/connection.cc:222-244 | a partial write of any size keeps the slot in step with the stream |
| `Framing.KeepStart` | rpc/connection.cc:123-160 | beginning a send keeps the invariant, whether the packet goes out at once, in part, not at all or fails |
| `Framing.KeepHeader` | rpc/connection.cc:246-296 | reading a length field and then part of a body keeps the invariant |
| `Framing.KeepOffer` | rpc/connection.cc:213-219 | offering a full packet, accepted or refused, keeps the invariant |
| `Framing.StepKeepsInv` | rpc/connection.cc:123-296 | every step of either end keeps the invariant |
| `Framing.RunKeepsInv` | rpc/connection.cc:123-296 | the invariant holds after every run |
| `Framing.ConsumedIsPrefixOfSent` | rpc/connection.cc:123-296 | for any number of senders and any splitting, the packets consumed are the first ones sent, in order, each once, byte for byte with the length filled in, refusals and retries included |
| `Framing.SuccessfulSendIsInStream` | rpc/connection.cc:161-166 | a packet whose send returned true stands in the stream from its first byte to its last, not interleaved with any other |
| `Framing.QuietLinkLostNothing` | rpc/connection.cc:123-296 | on a connection that stays up, once nothing is under way every packet sent has been consumed |
| `FramingProgress.HandsUpIff` | rpc/connection.cc:202-219 | in every run, a read callback hands up a packet exactly when it is accepted and the bytes of the next packet are complete; it is then the next packet, and the slot is free; refused, it stays |
| `FramingProgress.ReadEndsIff` | rpc/connection.cc:246-296 | in every run, exactly when a read callback ends a live connection |
| `FramingProgress.FailedWrite` | rpc/connection.cc:234-241 | a failed write ends the connection and its send returns false; "not now" changes nothing |
| `FramingProgress.PieceIsWritten` | rpc/connection.cc:233-243 | the socket may take any number of the bytes that are left, and exactly those go out |
| `FramingProgress.PieceIsRead` | rpc/connection.cc:283-295 | and may give any number of the bytes of a packet that are there |
| `FramingProgress.LinkCanDrain` | rpc/connection.cc:123-296 | from every reachable state of a live link, some finite sequence of callbacks brings every packet sent to the other end, and the send under way succeeds |
| `FramingProgress.PacketArrives` | rpc/connection.cc:123-296 | a packet that is sent on a live link with a free slot can arrive, byte for byte, behind all others |
| `FramingProgress.LiveSendsSucceed` | rpc/connection.cc:161-166 | in every run, a send returns false only on a connection that has died |
| `ConnectionModule.Connection.WritePdu` | rpc/connection.cc:222-244 | the object's outgoing slot and the bytes written are those of the link |
| `ConnectionModule.Connection.constructor` | rpc/connection.cc:21-37 | alive, with both slots empty |
| `ConnectionModule.Connection.StartSend` | rpc/connection.cc:123-160 | the object refuses on a dead connection and else takes the link's step |
| `ConnectionModule.Connection.FinishSend` | rpc/connection.cc:161-166 | the object takes the link's step and returns its result |
| `ConnectionModule.Connection.WriteCallback` | rpc/connection.cc:169-190 | the object takes the link's step, and does nothing when the slot is empty |
| `ConnectionModule.Connection.ReadPdu` | rpc/connection.cc:246-296 | the object's incoming slot is that of the link, all failures included |
| `ConnectionModule.Connection.ReadCallback` | rpc/connection.cc:192-220 | the object takes the link's step, and offers a packet exactly when the slot holds all announced bytes after the read |
| `PollRemoval.RoundsShrink` | rpc/pollmgr.cc:104-124 | a round of the poll thread never comes to a descriptor that its snapshot did not have |
| `PollRemoval.StepKeepsInv` | rpc/pollmgr.cc:45-126 | every step keeps: a descriptor being removed is not watched, a waiting remover has a pending broadcast, and past its wait the current round cannot come to its descriptor |
| `PollRemoval.NoCallbackAfterRemoval` | rpc/pollmgr.cc:57-68 | without a spurious wake-up of that thread and without a new watch: once `block_remove_fd` is past its wait, the poll thread neither is in, nor will come to, a callback of the descriptor, for any interleaving with snapshots, rounds and other removers |
| `PollRemoval.CallbackAfterReturnIff` | rpc/pollmgr.cc:57-68 | in every run without a new watch after the return, spurious wake-ups included: a callback of the descriptor is running at the return, or is invoked later, or is about to be, exactly when at the return the poll thread stands between the test and the call, or in the callback |
| `PollRemoval.PromiseBreaksIff` | rpc/pollmgr.cc:111-124 | so the promise can be broken after a return exactly when the poll thread stands there |
| `PollRemoval.WokenByBroadcast` | rpc/pollmgr.cc:57-103 | a thread that was woken by the broadcast returns with the poll thread in neither place, and the promise holds |
| `PollRemoval.SpuriousWakeCallsAfterReturn` | rpc/pollmgr.cc:60-68 | a run in which a spurious wake-up lets the call return between the test and the call, and the callback is invoked afterwards |
| `PollRemoval.WatchedAgainCalledAgain` | rpc/pollmgr.cc:45-68 | a run in which a descriptor that is watched again is called again after its removal returned |
| `PollProgress.RoundCallsAll` | rpc/pollmgr.cc:111-124 | left to itself, the poll thread calls every ready descriptor that has a callback, each once and in order, and comes back to the top of its loop |
| `PollProgress.ComesAround` | rpc/pollmgr.cc:96-124 | from wherever it stands, the poll thread comes around without anybody's help |
| `PollProgress.RemoverCanReturn` | rpc/pollmgr.cc:60-68 | from every reachable state, a thread that waits in `block_remove_fd` can return without waking by itself, and then its descriptor has no callback |
| `PollProgress.WatchedCanBeCalled` | rpc/pollmgr.cc:45-55 | a watched descriptor with a callback can be called by some round |
| `PollProgress.AddedIsWatched` | rpc/pollmgr.cc:45-55 | in every run, exactly what is watched and has a callback after adding |
| `PollProgress.DeletedIsNotWatched` | rpc/pollmgr.cc:70-77 | in every run, exactly what is watched after deleting, and that the callback goes with the last direction |
| `PollMgrModule.PollMgr.constructor` | rpc/pollmgr.cc:28-37 | the object starts in the initial state of the model |
| `PollMgrModule.PollMgr.AddCallback` | rpc/pollmgr.cc:45-55 | the object takes the two steps of adding |
| `PollMgrModule.PollMgr.DelCallback` | rpc/pollmgr.cc:70-77 | the object takes the two steps of deleting; the callback goes only with the last flag |
| `PollMgrModule.PollMgr.BeginRemoval` | rpc/pollmgr.cc:60-66 | the object takes the steps up to the wait: unwatched and a change pending |
| `PollMgrModule.PollMgr.FinishRemoval` | rpc/pollmgr.cc:66-68 | the object takes the step after the wait: no callback left |
| `PollMgrModule.PollMgr.TopOfLoop` | rpc/pollmgr.cc:96-103 | broadcasts exactly when a change is pending, and then nobody is left waiting |
| `SelectAioModule.SelectAio.constructor` | rpc/pollmgr.cc:128-142 | only the pipe is watched |
| `SelectAioModule.SelectAio.WatchFd` | rpc/pollmgr.cc:149-167 | the watched sets take the step of the model and the bound is the largest watched descriptor |
| `SelectAioModule.SelectAio.UnwatchFd` | rpc/pollmgr.cc:182-215 | the same for unwatching, with the search for the new largest descriptor; tells exactly whether the descriptor is gone from both sets |
| `SelectAioModule.SelectAio.Scan` | rpc/pollmgr.cc:243-256 | every ready descriptor once and in ascending order, the pipe's wake-up apart, all of them from the snapshot |
| `ThreadPool.StepKeepsInv` | rpc/thr_pool.cc:7-68 | every step keeps: accepted = taken + queued in order, taken = finished + running, pills behind jobs, one pill per exit |
| `ThreadPool.TakenInOrder` | rpc/fifo.h:56-92 | in every run jobs are taken in the order accepted, each once, and each taken job is finished or in one worker's hands |
| `ThreadPool.DrainedWhenAllExited` | rpc/thr_pool.cc:36-51 | when all workers have exited each has swallowed one pill, and the queue is empty with every accepted job run to completion exactly when the pool has workers or never accepted a job |
| `ThreadPool.NoWorkersNoWork` | rpc/thr_pool.cc:23-34 | a pool of size zero accepts jobs and never runs them |
| `ThreadPool.ShutdownAdvances` | rpc/thr_pool.cc:36-51 | during shutdown every step lowers the amount of work left |
| `ThreadPool.ShutdownNeverStuck` | rpc/thr_pool.cc:36-51 | during shutdown some step is possible until every worker has exited |
| `ThreadPool.ShutdownEnds` | rpc/thr_pool.cc:36-51 | however a shutdown proceeds it takes a bounded number of steps, and where it cannot go on every worker has exited |
| `ThreadPool.JobAcceptedIff` | rpc/thr_pool.cc:53-61 | in every run, a job is accepted exactly when the pool is not shutting down and its queue has room for it |
| `ThreadPool.PoolCanDrain` | rpc/thr_pool.cc:36-51 | from every reachable state of a pool with workers, shutting down can be completed, and then every job ever accepted has run to its end |
| `ThreadPool.Fifo.Enq` | rpc/fifo.h:56-72 | to the back if there is room, unchanged otherwise |
| `ThreadPool.Fifo.Deq` | rpc/fifo.h:74-92 | takes the front element |
| `ThreadPool.ThrPool.AddJob` | rpc/thr_pool.cc:53-61 | the queue takes the step of the pool and the answer tells whether the job was accepted |
| `ThreadPool.ThrPool.TakeJob` | rpc/thr_pool.cc:63-68 | the queue takes the step of the pool; false exactly for a pill |
| `ThreadPool.ThrPool.PutPill` | rpc/thr_pool.cc:40-44 | the queue takes the step of the pool |
| `ThreadPool.ThrPool.constructor` | rpc/thr_pool.cc:23-34 | an empty queue with room for a hundred jobs per worker |
| `ThreadPool.Fifo.constructor` | rpc/fifo.h:32-38 | an empty queue with the given bound |
| `RetryTimer.SumIsExact` | rpc/rpc.cc:1057-1068 | the sum stands for the right instant, with a fraction of at most one full second |
| `RetryTimer.AddTimespec` | rpc/rpc.cc:1057-1068 | the carrying loop computes that sum |
| `RetryTimer.CompareIsSound` | rpc/rpc.cc:1040-1055 | a later instant always compares as greater, and only an instant that is not earlier does |
| `RetryTimer.CompareIsExactIff` | rpc/rpc.cc:1040-1055 | the comparison is that of the instants exactly when neither time is the other without its carry |
| `RetryTimer.SumLacksCarryIff` | rpc/rpc.cc:1057-1068 | a sum comes out without its carry exactly when the fractions add up to one second |
| `RetryTimer.SecondsCarry` | rpc/rpc.cc:1057-1068 | adding whole seconds never does |
| `RetryTimer.CompareIsNotExact` | rpc/rpc.cc:1040-1068 | half a second after 7.5 s does not compare as equal to 8 s |
| `RetryTimer.Budget` | rpc/rpc.cc:217-284 | the least k with 1000 * (2^(k+1) - 1) above the timeout |
| `RetryTimer.DoublingFits` | rpc/rpc.cc:282-283 | the longest round fits an `int` exactly for timeouts below 1000 * (2^21 - 1), so for all up to 2^30 |
| `RetryTimer.TimePasses` | rpc/rpc.cc:217-284 | after n full rounds at least 1000 * (2^n - 1) milliseconds have passed |
| `RetryTimer.RoundsAreBounded` | rpc/rpc.cc:253-260 | a round that is not cut short by the final deadline is one of the first k |
| `RetryTimer.RefusedIff` | rpc/rpc.cc:253-271 | the deadline of a round is one that the operating system refuses exactly when it is the final one and start plus timeout lacks its carry |
| `RetryTimer.HangingCall` | rpc/rpc.cc:262-276 | a call that starts at 7.5 s with half a second to go and gets no reply hangs |
| `RetryTimer.Wait` | rpc/rpc.cc:217-284 | at most k + 1 timed rounds, no deadline behind the final one, the round length within the bound of `DoublingFits`; ends with the reply or after waiting for the final deadline, except that it hangs in that last wait exactly when no reply came before and start plus timeout lacks its carry |

## Left out

- ExtentServerModule.ExtentServer.Put: says nothing about later operations on a store that a put has broken, by MAXFILE blocks or more (inode_manager.cc:379-389) or on a full disk (inode_manager.cc:41-55); the store has no error path for either, and the contract says exactly when it happens.
- ExtentServerModule.ExtentServer.Serve: the sequence ends with the first operation that does not fit, for the same reason.
- RpcTheorems.NoFalseForgotten: its condition is sufficient; `RpcTheorems.FalseForgottenIff` is the exact one, and `RpcLimits.FalseForgotten` a run outside it.
- RetryTimer.Wait: assumes a clock that does not run backwards and waits that do not time out early.
- Codec.RoundTrip: buffers are below 2^31 bytes, the range of the code's `int` sizes; vectors are decoded into an empty vector.
- Message.Unmarshall.RawBytes: what a read beyond the buffer finds is not defined; the model records that it happened and returns nothing.
- Framing.ConsumedIsPrefixOfSent: packets are longer than four bytes and at most MAX_PDU, as all RPC messages are; a peer that announces a length of at most four or a negative one is not modelled.
- PollRemoval.CallbackAfterReturnIff: the second of the two unlocked reads of a callback may find it cleared; the call through it, whatever it does then, counts as an invocation.
- ThreadPool.Fifo.Enq: is one turn of the waiting loop; waiting for room is a step of the pool that is not enabled yet.
- ThreadPool.Fifo.Deq: is the turn that finds an element; waiting for one is a step of the pool that is not enabled yet.
- Wrap-around of the 32-bit call numbers and collisions of random nonces: numbers are unbounded and nonces distinct.
- Handler bodies, the per-arity `call` and `reg` templates and the marshalling of arguments inside the protocol: a handler produces any code that is not negative and any data.
- Unregistered procedures, requests whose header does not unmarshal, and `reachable_`: they never reach the classification.
- Sockets, `select` and `epoll` calls, accepting connections and choosing channels: reads and writes are arbitrary splits of a byte stream, and channel changes are retransmissions.
- Mutexes and condition variables as such: sections under a lock are atomic steps, and a waiting thread may proceed as soon as its condition holds.
- The connection's two directions share one object; the model treats each direction as its own link whose ends can die at any time.
- Freeing of buffers, reference counts of connections and statistics.
- The padding bytes of a stored inode are zero and words are little-endian, as on the machines the code is built for; access, modification and change times are never set by the code and stay zero.
- `extent_client.cc`, `extent_smain.cc`, the lock server, the file system client and the test programs.
