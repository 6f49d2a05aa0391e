# Verified model of libx, libx++ and libdlproxy cores

This project models the parts of the repository whose correctness spans many functions,
threads or calls, and proves what their design promises.

- **Waker and resolver** (`WakerCell`, `ResolveState`). The two-bit lock-free cell that a
  polled promise registers its waker in, and the tri-state `ResolveState` published through
  it, as interleaved atomic steps of one poller and any number of waking threads.
- **Event loop** (`LoopWake`, `Offload`, `MinHeap`, `TimerQueue`, `Timers`). Coalesced wakes, batched
  draining and the decision to sleep; offloaded work with its in-flight counter and
  cancellation; the index-tracking binary heap; timers on that heap whose callbacks start and
  stop timers.
- **Ownership** (`Arc`, `Spawn`, `SpawnWake`, `NodeArena`). Atomic strong and weak counts, the
  spawn driver's reference protocol, the driver together with a leaf it waits for, and the
  arenas of a promise chain.
- **Promise trees** (`PromiseTree`, `PromiseMeaning`, `PromiseLaws`, `PromiseContract`,
  `PromiseAsks`). Polling of `then`, flattening, `all` and `race` against a meaning that does not
  mention polling, the laws of `then`, the poll contract over whole runs, and which leaves a
  tree keeps asking.
- **Codecs** (`Positional`, `Base58`, `Utf8`, `Utf8String`, `Decimal`, `Playlist`,
  `PlaylistRoundTrip`). Base58 with its buffer bounds, UTF-8 validation and the string type
  built on it, and the HLS playlist parser and printer.
- **Block cache** (`PieceCache`, `PieceRuns`, `PieceLasting`, `PieceBytes`, `MetaFile`). Piece
  bitmaps and `done` flags against a plain set of touched pieces, readiness over whole runs of
  writes and sizes, when its answers stay right, what they say about bytes, and the bytes of
  the `.meta` file.

`Common` holds what several modules share.

Concurrent protocols are state machines over their atomic steps, each claim holding in every
state of every run. Code that updates objects or buffers is a class or a method proved against
a specification; pure code is functions and lemmas. Machine integers are written out where
their width matters (sequence numbers and offsets of playlists, 64-bit deadlines, 32-bit block
offsets and table sizes); reference and queue counters are unbounded.

Where the code and its comments disagree the model follows the code:

- `XBASE58_DECODE_MAXLEN` is not the bound its comment claims once a string has several leading
  ones. `Base58.DecodeMaxLenExact` says exactly when it is.
- `X_RUN_DEFAULT` decides to sleep without looking at `can_sleep`, so it can sleep on queued
  items. `LoopWake.StallNeedsBacklog` says from exactly which backlog on.
- `insert_str` of a string into itself reads bytes it has already overwritten, and can leave
  invalid UTF-8 (`Utf8String.InsertIntoItself`). `Utf8String.String.InsertString` says exactly
  when it is the insertion and exactly when it is valid.
- A raised file size can make ranges ready that were never written (`PieceRuns.RaisedSizeLies`),
  at once or only after a later write (`PieceLasting.RaisedLiesLater`).
  `PieceCache.Clip.SetFileSize` says exactly after which sizes every answer is right at that
  moment, and `PieceLasting.LastingIff` exactly when all answers stay right whatever is written.
- Past 4 GB a partial last block that is first written once the file's size is known counts as a
  full one, so the file seems to extend to the end of that block (its extent, below) and the
  block may never be ready (`PieceRuns.WrittenNotReady`). `PieceRuns.RightIff` says exactly when
  the answers are right all the same.
- `dlp_cache_is_ready` promises that all data is cached, but a piece is marked by any byte of it
  (`PieceBytes.OneByteSuffices`). `PieceBytes.NoHalfIff` says exactly after which calls pieces and
  bytes come to the same, and `PieceBytes.BytesReady` that the promise is then kept.
- The playlist printer cuts a line that does not fit its buffer and sends what lies behind it
  (`PlaylistRoundTrip.LongDurationMisfits`). `PlaylistRoundTrip.EmittedIffFits` and
  `PlaylistRoundTrip.FitsIff` say exactly which playlists are sent whole.
- A first playlist segment whose byte offset is omitted keeps the marker value as its offset, and
  a later range continued from it goes wrong (`PlaylistRoundTrip.FirstOmittedAtHundred`).
  `Playlist.OnlyFirstStaysOpen` and `Playlist.OffsetIsStart` say exactly when.
- `loop_run_timers` reads the callback of a one-shot timer after giving its struct back, which a
  full pool frees (`Timers.FiresFromFreed`). `Timers.TimerLoop.FireFirst` says exactly when that
  struct is still allocated.

## Model

| member | source | states |
|---|---|---|
| `WakerCell.NoLostWake` | libxpp/xpp/promise_waker.h:300-322 | In every interleaving: if the last poll returned none, a condition is pending and no wake call is running, then the waker given to that poll has been fired since it began to register |
| `WakerCell.SlotWritesAreExclusive` | libxpp/xpp/promise_waker.h:300-345 | The unsynchronised waker slot is never written while a waking thread owns the cell |
| `WakerCell.OneOwner` | libxpp/xpp/promise_waker.h:300-345 | At most one caller of `wake()` holds the cell, and never together with the poller's own wake |
| `WakerCell.RunKeepsInv` | libxpp/xpp/promise_waker.h:300-345 | The two bits always agree with who registers and who wakes, and a parked poller is armed, fired or about to be |
| `WakerCell.ThreadStepKeepsDelivery` | libxpp/xpp/promise_waker.h:300-322 | No step of a waking thread can strand a parked poller |
| `WakerCell.PollerStepKeepsDelivery` | libxpp/xpp/promise_adapter.h:64-74 | Register and re-check never park with a condition that nobody will announce |
| `ResolveState.OnlyOneResolveWins` | libxpp/xpp/promise_adapter.h:137-154 | Of all concurrent `resolve()` calls one at most claims the state |
| `ResolveState.PollReturnsTheWinningValue` | libxpp/xpp/promise_adapter.h:50-86 | What a poll returns is the value of the call that won, read after Ready |
| `ResolveState.PayloadAccess` | libxpp/xpp/promise_adapter.h:50-86 | The payload is stored only while Resolving and moved out only while Ready, once |
| `ResolveState.ReadyReachesTheParkedPoller` | libxpp/xpp/promise_adapter.h:137-154 | Once Ready and the winner's wake is over, a parked poller's waker has been fired |
| `ResolveState.CellRun` | libxpp/xpp/promise_adapter.h:50-86 | Every run of the resolver protocol is a run of the waker cell |
| `LoopWake.OnceNeverStalls` | libx/x/base/event_run.c:160-170 | An X_RUN_ONCE or X_RUN_NOWAIT poll never sleeps on queued items without a wake assured, whatever is posted |
| `LoopWake.SmallBacklogNeverStalls` | libx/x/base/event_run.c:227-263 | No mode stalls in a run whose queue holds at most three batches at each clear of `wake_pending` |
| `LoopWake.StallNeedsBacklog` | libx/x/base/event_run.c:227-263 | Left alone after a clear with k items queued, the loop can go to sleep on some of them if and only if k exceeds three batches |
| `LoopWake.BacklogStalls` | libx/x/base/event_epoll.c:147-171 | Builds the stalling run for every larger backlog: one batch in the poll, one after it, one in the next iteration |
| `LoopWake.StopEndsThePoll` | libx/x/base/event_run.c:267-285 | A stop that comes while the loop polls, or is about to, has written or will write the wake fd |
| `LoopWake.RunKeepsInv` | libx/x/base/event_private.h:339-349 | Items pushed since the last clear are announced, and a set `wake_pending` has a token or a writer behind it |
| `LoopWake.ThreadStepKeepsInv` | libx/x/base/event_post.c:25-29 | Push, then exchange, then write keeps every queued item announced |
| `LoopWake.LoopKeepsAnnounced` | libx/x/base/event_epoll.c:160-171 | Draining, clearing the flag and only then running the queue loses no announcement |
| `LoopWake.StaleStaysFitting` | libx/x/base/event_private.c:115-138 | Three batch-limited drains lie between a clear and the next sleep |
| `Offload.InflightIsExact` | libx/x/base/event_offload.c:16-54 | `inflight` is the number of items whose submitter, worker or canceller will still touch the loop |
| `Offload.OneCallbackEach` | libx/x/base/event_private.c:115-138 | An item is pushed at most once and drained at most once, into `done_fn` only if never cancelled and its worker finished, into `on_cancel` only if cancelled |
| `Offload.AllDelivered` | libx/x/base/event_offload.c:86-127 | With nothing in flight and the queue empty every item was drained exactly once |
| `Offload.QuietAtZero` | libx/x/base/event_offload.c:42-51 | Once `inflight` is zero and nothing is submitted it stays zero and nobody touches the loop |
| `Offload.DestroyIsSafe` | libx/x/base/event_private.c:176-190 | After `loop_wait_inflight` let the loop go, no worker or canceller ever acts on it |
| `Offload.RunKeepsInv` | libx/x/base/event_offload.c:16-127 | The invariant behind these, kept by every interleaving of workers and loop thread |
| `MinHeap.Heap.Push` | libx/x/base/heap.c:101-113 | Order and recorded indices hold and exactly the new element is added |
| `MinHeap.Heap.Pop` | libx/x/base/heap.c:121-135 | Takes out exactly one element, a minimum; the rest stay ordered and indexed |
| `MinHeap.Heap.Peek` | libx/x/base/heap.c:115-119 | Returns a minimum, or null exactly when empty |
| `MinHeap.Heap.Remove` | libx/x/base/heap.c:137-157 | Takes out exactly the element recorded at the index, null exactly when out of range |
| `MinHeap.Heap.Update` | libx/x/base/heap.c:159-166 | Restores the order after one key was changed, in either direction, with the same elements |
| `MinHeap.Heap.SiftUp` | libx/x/base/heap.c:35-42 | From one misplaced element: afterwards only the edges below the start can be broken |
| `MinHeap.Heap.SiftDown` | libx/x/base/heap.c:44-57 | Repairs a single defect pointing down, leaving a full heap |
| `MinHeap.Heap.Swap` | libx/x/base/heap.c:27-33 | Exchanges two slots and keeps every recorded index right |
| `MinHeap.UpStep` | libx/x/base/heap.c:35-42 | Changing places with a larger parent moves the only defect one level up |
| `MinHeap.DownStep` | libx/x/base/heap.c:44-57 | Changing places with the smaller child moves the only defect one level down |
| `MinHeap.OneKeyChanged` | libx/x/base/heap.c:159-166 | One changed key leaves at most that element out of place, which is what update assumes |
| `MinHeap.RootIsLeast` | libx/x/base/heap.c:115-119 | The order along edges makes the root a minimum of all keys |
| `MinHeap.Heap.SlotOf` | libx/x/base/heap.c:27-33 | Every element records the slot it is in |
| `TimerQueue.Queue.Insert` | libx/x/base/event_timer.c:30 | Adds one struct with its deadline to those in the heap |
| `TimerQueue.Queue.First` | libx/x/base/event_private.c:76 | Shows a struct whose deadline is the earliest of all in the heap |
| `TimerQueue.Queue.Pop` | libx/x/base/event_private.c:78 | Takes out exactly one struct, one with the earliest deadline |
| `TimerQueue.Queue.Remove` | libx/x/base/event_timer.c:51 | Takes out exactly the struct whose recorded slot is given |
| `Timers.TimerLoop.RunTimers` | libx/x/base/event_private.c:67-103 | Fires exactly the timers due at entry, each once, in deadline order, repeaters re-armed by then, whatever starts and stops the callbacks perform |
| `Timers.TimerLoop.Collect` | libx/x/base/event_private.c:75-82 | Moves exactly the due timers from the heap to the ready list, in deadline order |
| `Timers.TimerLoop.FireFirst` | libx/x/base/event_private.c:86-100 | Re-arms or recycles before the callback, whose log entry shows the new deadline; the struct the callback is then read from is still allocated if and only if the timer repeats or the pool holds fewer than 256 |
| `Timers.TimerLoop.Callback` | libx/x/base/event_private.c:98 | Starts and stops inside a callback leave the timers about to fire alone |
| `Timers.TimerLoop.Submit` | libx/x/base/event_timer.c:13-38 | Starts one timer in a struct that was in neither heap nor ready list |
| `Timers.TimerLoop.StopDirect` | libx/x/base/event_timer.c:45-55 | Succeeds exactly for timers in the heap, refusing those about to fire |
| `Timers.TimerLoop.StopThenStart` | libx/x/base/event_timer.c:13-55 | A timer stopped and another started: the old handle names the new timer if and only if the pool held fewer than 256 structs |
| `Timers.FiresFromFreed` | libx/x/base/event_private.c:86-100 | A run: 257 one-shots started, 256 stopped, the last fires, and its struct is freed before the callback is read from it |
| `Timers.TimerLoop.Release` | libx/x/base/event_private.h:258-268 | The struct stays allocated, and in the pool, exactly if that held fewer than 256; the pool keeps no struct twice and never exceeds 256 |
| `Timers.AllocatedIsUnused` | libx/x/base/event_private.h:243-252 | The struct is in no heap, ready list or pool; every other pooled struct stays pooled |
| `Timers.TimerLoop.Alloc` | libx/x/base/event_private.h:243-252 | Gives a struct in use nowhere, an existing one exactly if the pool had any, and leaves a pool without duplicates of at most 256 |
| `Timers.TimerLoop.Destroy` | libx/x/base/event_private.h:271-294 | Cancels exactly the timers still waiting, frees every struct, leaves the sources as active handles |
| `Timers.Operate` | libx/x/base/event_timer.c:13-55 | Over any calls before destroy no timer is cancelled |
| `Timers.Lifetime` | libx/x/base/event_timer.c:13-55 | Over any calls and then destroy, each one-shot timer was exactly one of fired, stopped and cancelled, once; on_cancel ran exactly for those that waited when destroy began |
| `Timers.AllFired` | libx/x/base/event_private.c:67-103 | What was collected and fired in order is exactly what was due |
| `Timers.FireOnceKeepsLifecycle` | libx/x/base/event_private.c:94-96 | Firing a one-shot ends it once |
| `Timers.FireAgainKeepsLifecycle` | libx/x/base/event_private.c:90-93 | Firing a repeating timer leaves it waiting |
| `Timers.TakeOffKeepsLifecycle` | libx/x/base/event_timer.c:45-55 | A stop or a cancel ends a waiting timer once |
| `Timers.StopKeepsShape` | libx/x/base/event_timer.c:45-55 | Heap, ready list and pool stay disjoint and complete, and active_handles exact |
| `Arc.ValueOutlivesHandles` | libxpp/xpp/arc.h:236-268 | While a strong handle exists the value is neither destroyed nor being destroyed; while any handle exists the block is not freed; each happens once at most and in that order |
| `Arc.NothingLeaks` | libxpp/xpp/arc.h:236-268 | With all handles gone and all calls over, destroyed and freed exactly once |
| `Arc.NoUseAfterFree` | libxpp/xpp/arc.h:236-304 | Every step is taken on a block that is there and that nobody else is about to free |
| `Arc.UpgradeSeesLiveValue` | libxpp/xpp/arc.h:654-668 | An upgrade that returns a handle refers to an undestroyed value |
| `Arc.UpgradeFailsOnlyWhenExpired` | libxpp/xpp/arc.h:654-668 | An upgrade returns nothing only when no strong handle is left |
| `Arc.ExpiredForGood` | libxpp/xpp/arc.h:654-668 | Once the last strong handle is gone none ever comes back |
| `Arc.RunKeepsInv` | libxpp/xpp/arc.h:299-304 | The counters are the numbers of handles, the strong ones together counting as one weak until released |
| `Arc.DropKeepsInv` | libxpp/xpp/arc.h:256-268 | Only the drop that takes the strong count to zero goes on to destroy |
| `Arc.DropWeakKeepsInv` | libxpp/xpp/arc.h:236-250 | Only the drop that takes the weak count to zero goes on to free |
| `Arc.UpgradeStepKeepsInv` | libxpp/xpp/arc.h:654-668 | The compare-exchange loop keeps the counts exact however it is interleaved |
| `Spawn.RefsAreExact` | libxpp/xpp/spawn.h:85-105 | `refs` is one while the WakeState lives plus one for each posted or running step and each call under way; deleted exactly at zero |
| `Spawn.NoUseAfterDelete` | libxpp/xpp/spawn.h:69-83 | No step touches the SpawnState after it is deleted or the WakeState after it is gone |
| `Spawn.CompletesOnce` | libxpp/xpp/spawn.h:69-83 | The node answers once at most and is not polled afterwards; the JoinHandle is resolved once at most |
| `Spawn.NothingLeaks` | libxpp/xpp/spawn.h:107-122 | Completed, with no copy of the waker and nothing posted left, the state was deleted exactly once |
| `Spawn.LoopKeepsRefs` | libxpp/xpp/spawn.h:69-83 | Every step of the driver keeps the reference count exact |
| `Spawn.LoopKeepsCopies` | libxpp/xpp/promise_waker.h:165-176 | Copies of the waker are counted exactly through polls, reset and release |
| `Spawn.WakeHereKeepsInv` | libxpp/xpp/promise_waker.h:223-232 | Retain before post, release on failure keeps the counts |
| `Spawn.WakeAwayKeepsInv` | libxpp/xpp/promise_waker.h:234-268 | A wake from another thread travels with its own copy of the waker |
| `SpawnWake.ReadyLeafIsPolled` | libxpp/xpp/spawn.h:63-122 | In every run of driver, leaf and resolving threads: if the leaf is Ready, its last poll left it pending, no resolve() or wake() is running and no post failed, then a step is queued or running, or a token that posts one is, or the spawned promise has its answer |
| `SpawnWake.RunKeepsInv` | libxpp/xpp/spawn.h:63-122 | A waker fired since the leaf registered is under way, queued, running, consumed by a poll still to reach the leaf, or lost with a failed post |
| `SpawnWake.FireCanBegin` | libxpp/xpp/promise_waker.h:300-322 | Whoever fires the leaf's waker has a copy of it that keeps the wake state alive |
| `PromiseAsks.PendingIsAskedAgain` | libxpp/xpp/promise_node.h:191-303 | In a tree without race, a leaf found pending keeps the tree pending and is asked by the next poll |
| `PromiseAsks.RaceGivesUp` | libxpp/xpp/promise_combinators.h:126-171 | Under a race that is won, a pending leaf is not asked again although the tree stays pending |
| `NodeArena.Chain.Append` | libxpp/xpp/promise_allocator.h:112-148 | For every size: succeeds exactly if the tail has an arena or header and node fit a fresh one; then the new node is aligned and clear of the others in its arena, each arena keeps one owner, its last node, and nodes before it stay in place |
| `NodeArena.Chain.DestroyTail` | libxpp/xpp/promise_allocator.h:63-89 | Destroying the tail frees each arena and each heap block exactly once and nothing else |
| `NodeArena.Chain.Destroy` | libxpp/xpp/allocator.h:136-140 | Destroying a node destroys its predecessors first, touching no memory already freed |
| `NodeArena.Chain.Deallocate` | libxpp/xpp/promise_allocator.h:63-89 | Reads a header that is still there and frees exactly what this node is responsible for |
| `NodeArena.FreshArenaFits` | libxpp/xpp/arena.h:150-155 | A fresh arena turns a node down exactly if header and node exceed its capacity |
| `NodeArena.AlignUp` | libxpp/xpp/arena.h:41-45 | The least multiple of the alignment not below the given address |
| `NodeArena.InArenaIsLaidOut` | libxpp/xpp/arena.h:150-155 | Bump allocation hands out aligned, disjoint ranges within the arena |
| `PromiseMeaning.DriveMeans` | libxpp/xpp/promise_node.h:191-303 | For every tree and schedule, polling to the first some gives the value and the moment of the tree's meaning |
| `PromiseMeaning.AllYieldsEveryValue` | libxpp/xpp/promise_combinators.h:46-118 | `all` resolves exactly when every child on its own does, at the last one's moment, with their values in order |
| `PromiseMeaning.RaceYieldsTheFirst` | libxpp/xpp/promise_combinators.h:126-171 | `race` resolves when the first child does, with the lowest-index child of that moment |
| `PromiseMeaning.OneChainPoll` | libxpp/xpp/promise_node.h:278-303 | One poll of a flattening node advances its meaning by one step |
| `PromiseMeaning.OneKidsPoll` | libxpp/xpp/promise_combinators.h:68-80 | One poll of `all` advances the meaning of every unfinished child |
| `PromiseLaws.ThenIsAssociative` | libxpp/xpp/promise.h:184-213 | `p.then(f).then(g)` and `p.then(x => f(x).then(g))` answer alike and ask the same leaves at every poll of every schedule |
| `PromiseLaws.LeftIdentity` | libxpp/xpp/promise.h:184-213 | `resolve(v).then(f)` is `f(v)`, poll by poll |
| `PromiseLaws.RightIdentity` | libxpp/xpp/promise.h:184-213 | `p.then(resolve)` is `p`, poll by poll |
| `PromiseLaws.PlainCallbacksFuse` | libxpp/xpp/promise_node.h:191-264 | Two plain callbacks in a row are one |
| `PromiseContract.PollContract` | libxpp/xpp/promise_node.h:63-77 | For every tree and schedule up to the root's first some, no node is polled after it answered and no then-callback runs twice |
| `PromiseContract.DriveIsClean` | libxpp/xpp/promise_node.h:191-303 | The trace of any run from any pollable tree honours the contract |
| `PromiseContract.TraceAsksTheLeaves` | libxpp/xpp/promise_node.h:191-303 | The trace reports the same leaf polls, in order, as the poll itself |
| `PromiseTree.PollKeepsWellFormed` | libxpp/xpp/promise_combinators.h:68-80 | Polling keeps the remaining-count of `all` nodes equal to their unfinished children |
| `Base58.Encode` | libx/x/base/base58.c:28-86 | Writes the encoding and terminator exactly if the buffer has room, and nothing else |
| `Base58.Decode` | libx/x/base/base58.c:88-145 | Writes the decoded bytes exactly if every letter is in the alphabet and they fit, and nothing else |
| `Base58.DecodeAfterEncode` | libx/x/base/base58.c:28-145 | Decoding an encoding gives back every byte string |
| `Base58.EncodeAfterDecode` | libx/x/base/base58.c:28-145 | A string decodes exactly if it is over the alphabet, and encoding the result gives it back |
| `Base58.EncodeRoom` | libx/x/base/base58.c:51-59 | For every input length each inner pass of the encoder ends with carry 0 |
| `Base58.DecodeRoom` | libx/x/base/base58.c:109-121 | For every input length each inner pass of the decoder ends with carry 0 |
| `Base58.EncodeBufHolds` | libx/x/base/base58.c:42-49 | n*138/100+1 base-58 digits hold any n bytes |
| `Base58.DecodeBufHolds` | libx/x/base/base58.c:100-107 | n*733/1000+1 bytes hold any n letters |
| `Base58.EncodeMaxLenSuffices` | libx/x/base/base58.h:31 | The encode bound leaves room for every encoding and its terminator |
| `Base58.DecodeMaxLenExact` | libx/x/base/base58.h:39 | The decode bound suffices for all strings with z ones and k further letters if and only if the largest k-letter number fits beside z zero bytes |
| `Base58.DecodeMaxLenCases` | libx/x/base/base58.h:39 | It always suffices without leading ones and fails for four ones |
| `Base58.PassFits` | libx/x/base/base58.c:53-58 | One pass multiplies and adds exactly whenever the result fits the buffer |
| `Base58.EncodePass` | libx/x/base/base58.c:53-58 | The in-place inner loop of the encoder is one pass of long multiplication |
| `Base58.DecodePass` | libx/x/base/base58.c:115-120 | The in-place inner loop of the decoder is one pass of long multiplication |
| `Utf8.Validate` | libxpp/xpp/string.h:42-75 | Accepts exactly valid text and otherwise returns the start of the first ill-formed sequence, with everything before it valid |
| `Utf8.ValidIsEncoded` | libxpp/xpp/string.h:42-105 | Valid text is exactly the concatenation of encoded scalar values |
| `Utf8.ErrorIsFinal` | libxpp/xpp/string.h:42-75 | Text with a first error is not valid and has only one such place |
| `Utf8.DecodeOfEncode` | libxpp/xpp/string.h:78-105 | Encoding and decoding gives back every sequence of scalar values |
| `Utf8.EncodeOfDecode` | libxpp/xpp/string.h:78-105 | Decoding and encoding gives back every valid text |
| `Utf8.StepOfEncode` | libxpp/xpp/string.h:94-105 | An encoded scalar value is recognised and decoded, whatever follows it |
| `Utf8.EncodeOfStep` | libxpp/xpp/bytes.h:54-80 | Whatever a step accepts is the encoding of a scalar value |
| `Utf8.Accepts` | libxpp/xpp/string.h:42-75 | At every position the validator's tests agree with safe_utf8_step |
| `Utf8.ToStringLossy` | libxpp/xpp/bytes.h:269-296 | Always valid, U+FFFD for every byte that starts no code point, and the identity on valid text |
| `Utf8String.MatchOnBoundaries` | libxpp/xpp/string.h:617-631 | Every match of a valid non-empty pattern in valid text starts and ends on a code point boundary |
| `Utf8String.BoundarySplits` | libxpp/xpp/string.h:108-112 | At a boundary valid text falls into two valid parts whose code points follow one another |
| `Utf8String.SplitIsBoundary` | libxpp/xpp/string.h:108-112 | A valid prefix of valid text ends on a boundary |
| `Utf8String.ReplaceRefines` | libxpp/xpp/string.h:458-493 | Replacing bytes is replacing code points, with or without a limit |
| `Utf8String.FirstMatchRefines` | libxpp/xpp/string.h:617-631 | The first byte match lies at the encoding of the first code point match |
| `Utf8String.String.Replace` | libxpp/xpp/string.h:458-493 | The result is valid and its code points are the replaced code points |
| `Utf8String.String.FindFrom` | libxpp/xpp/string.h:617-631 | Finds the first match at or after the start, with the empty pattern's special cases |
| `Utf8String.String.FromUtf8` | libxpp/xpp/string.h:590-603 | Accepts exactly valid bytes, else reports the first error |
| `Utf8String.String.Push` | libxpp/xpp/string.h:336-344 | Appends one code point |
| `Utf8String.String.Pop` | libxpp/xpp/string.h:370-382 | Removes and returns the last code point, nothing exactly when empty |
| `Utf8String.String.Insert` | libxpp/xpp/string.h:384-403 | Inserts one code point between those before and after the position |
| `Utf8String.String.InsertString` | libxpp/xpp/string.h:405-419 | The result is the string with the other's code points inserted there if and only if the two are not the same object, or the position is 0, or the bytes repeat with the position as period; it is valid if and only if the first two or the length modulo the position is a boundary |
| `Utf8String.ValidIffFilled` | libxpp/xpp/string.h:405-419 | The bytes the overlapping copy leaves are valid text exactly under that condition |
| `Utf8String.InsertIntoItself` | libxpp/xpp/string.h:405-419 | Inserting e-acute and a into themselves at 2 leaves invalid text; inserting ab at 1 leaves valid text that is not the insertion |
| `Utf8String.String.Remove` | libxpp/xpp/string.h:421-435 | Removes and returns the code point at the position |
| `Utf8String.String.Trim` | libxpp/xpp/string.h:507-517 | Strips ASCII space code points from both ends |
| `Utf8String.String.Retain` | libxpp/xpp/string.h:533-549 | Keeps exactly the code points that pass, in order |
| `Utf8String.TrimBackRefines` | libxpp/xpp/string.h:511-517 | Trimming bytes from the end is trimming code points |
| `Decimal.ParseNumeral` | libdlproxy/dlproxy/m3u8.c:276-282 | A printed number is read back up to the first non-digit |
| `Decimal.ParseFixed` | libdlproxy/dlproxy/proxy.c:365-366 | A duration printed to the millisecond and read back is the duration rounded to the millisecond, sign included, an infinity or not a number itself, whatever follows that no number continues with |
| `Decimal.Overflows` | libdlproxy/dlproxy/m3u8.c:285 | A number of 10^400 or more is read as infinite |
| `Decimal.RoundedAgain` | libdlproxy/dlproxy/proxy.c:365-366 | Rounding twice is rounding once, keeps the sign, and prints the same unless the number has become infinite |
| `Playlist.Parse` | libdlproxy/dlproxy/m3u8.c:202-409 | The cursor loop and the offset pass compute the meaning of the text line by line, for every text |
| `Playlist.ContinueRanges` | libdlproxy/dlproxy/m3u8.c:386-398 | The in-place pass fills omitted offsets from the latest earlier segment with the same URI |
| `Playlist.Print` | libdlproxy/dlproxy/proxy.c:351-380 | For every playlist the bytes sent are the lines through their buffers of 64 and 128 bytes, with whatever memory follows a buffer that is too small |
| `PlaylistRoundTrip.RoundTrip` | libdlproxy/dlproxy/proxy.c:351-380 | Any parsed playlist, sent and parsed again: if every duration line fits, version, target duration, media sequence, count, end flag, rounded durations and byte ranges are kept, and sequence numbers if and only if they count up; otherwise segments are lost |
| `PlaylistRoundTrip.EmittedIffFits` | libdlproxy/dlproxy/proxy.c:351-380 | What is sent is the playlist's lines if and only if every duration line fits its buffer |
| `PlaylistRoundTrip.FitsIff` | libdlproxy/dlproxy/proxy.c:365-366 | A duration line fits if and only if the duration is infinite, not a number, or has at most 113 integer digits once rounded to milliseconds, 112 with a minus sign |
| `PlaylistRoundTrip.OtherLinesFit` | libdlproxy/dlproxy/proxy.c:367-376 | No other line of a parsed segment can exceed its buffer |
| `PlaylistRoundTrip.LongDurationMisfits` | libdlproxy/dlproxy/m3u8.c:283-300 | A playlist text with a duration of 114 digits parses to a playlist that does not fit |
| `PlaylistRoundTrip.ParseCut` | libdlproxy/dlproxy/m3u8.c:202-404 | The text up to a cut duration line parses to the segments before it |
| `Playlist.LinesRoundTrip` | libdlproxy/dlproxy/m3u8.c:202-404 | The lines of any parsed playlist parse to the same playlist, without the encryption flag and the variants of a master playlist |
| `Playlist.ParsePrinted` | libdlproxy/dlproxy/m3u8.c:202-404 | What the printer writes for any printable playlist parses to exactly its fields |
| `Playlist.ParsedIsPrintable` | libdlproxy/dlproxy/m3u8.c:202-404 | Every parsed playlist is printable: numbers in range, no offset left open after the first segment |
| `Playlist.ContinueResolves` | libdlproxy/dlproxy/m3u8.c:386-398 | The pass changes offsets only and, from the second segment on, leaves none open |
| `Playlist.OnlyFirstStaysOpen` | libdlproxy/dlproxy/m3u8.c:386-398 | The first segment stays as parsed, open exactly if it has a range without offset; no other segment is ever open |
| `Playlist.ContinuedOffset` | libdlproxy/dlproxy/m3u8.c:386-398 | An omitted offset becomes 0 without an earlier segment of that URI, else the end of the latest one if and only if that end is below 2^64-1 |
| `Playlist.OffsetIsStart` | libdlproxy/dlproxy/m3u8.c:386-398 | A segment gets the offset where it starts, following earlier segments of its URI back to an explicit offset or to the first of them, if and only if the way does not end at an open first segment and an omitted offset comes out below 2^64-1 |
| `PlaylistRoundTrip.FirstOmitted` | libdlproxy/dlproxy/m3u8.c:386-398 | Two segments of one file with lengths a > 0 and b and no offsets: the first keeps the marker 2^64-1, the second gets the wrapped sum a-1 |
| `PlaylistRoundTrip.FirstOmittedAtHundred` | libdlproxy/dlproxy/m3u8.c:386-398 | With lengths 100 and 50 the offsets are 2^64-1 and 99 |
| `Playlist.SequenceFirstCountsUp` | libdlproxy/dlproxy/m3u8.c:280-282 | If media sequence tags precede the segments, sequence numbers count up modulo 2^32 |
| `PieceCache.Clip.IsReady` | libdlproxy/dlproxy/cache.c:546-562 | Ready exactly if every block met by the range is done; within the file and unless its size was raised, exactly if every piece of those blocks within the extent is touched |
| `PieceCache.Clip.Write` | libdlproxy/dlproxy/cache.c:445-464 | Touches exactly the pieces with a byte in the range that lie within their blocks' sizes, which are all of those in the file unless its size was raised; creates exactly the blocks the range meets, with their sizes; sets exactly the flags of full blocks |
| `PieceCache.Clip.SetFileSize` | libdlproxy/dlproxy/cache.c:387-405 | Right afterwards every readiness answer within the file is right if and only if each done block of the new file had every piece marked that the new size gives it; only the last block's size changes, and the flags set are those of the blocks full by then |
| `PieceCache.HonestIffSafe` | libdlproxy/dlproxy/cache.c:387-405 | That equivalence for any blocks that mirror the touched pieces |
| `PieceCache.HonestByBlocks` | libdlproxy/dlproxy/cache.c:546-562 | All answers are right exactly if each block in the file is done exactly when its pieces in the file are touched |
| `PieceCache.SizedIsHonest` | libdlproxy/dlproxy/cache.c:546-562 | With flags, bitmaps and sizes in order every answer is right |
| `PieceCache.GivenSizeRight` | libdlproxy/dlproxy/cache.c:98-106 | A new block of the file gets the size it should have if and only if it is not the partial last block of a file over 4 GB |
| `PieceCache.LastSizeWraps` | libdlproxy/dlproxy/cache.c:396-402 | The size set for the last block is right although its 32-bit offset has wrapped |
| `PieceCache.HonestIffSettled` | libdlproxy/dlproxy/cache.c:546-562 | With sizes in order for a rounded-up file, every answer is right if and only if the last block, once touched up to the end of the file, is touched in full |
| `PieceCache.LoweredIsSafe` | libdlproxy/dlproxy/cache.c:387-405 | A size that is not raised is safe and keeps the sizes in order |
| `PieceRuns.RaisedSizeLies` | libdlproxy/dlproxy/cache.c:387-405 | A run: 1000 bytes written, the size raised to 2000, and byte 1024 is ready though its piece is not touched |
| `PieceRuns.ReadyAfter` | libdlproxy/dlproxy/cache.c:387-562 | After any writes and sizes a range is ready if and only if, for every block it meets, some prefix of the calls had marked every piece within the size the block then had; if no size was raised, a range in the file is ready if and only if some write reached every piece, within the extent, of every block it meets |
| `PieceRuns.Perform` | libdlproxy/dlproxy/cache.c:387-464 | After any run the sizes, touched pieces and flags of all blocks are those the calls determine |
| `PieceRuns.RightIff` | libdlproxy/dlproxy/cache.c:98-106 | The answers after such a run are right for every range if and only if the extent is the size, or the last block is not written up to the end of the file, or is written in full |
| `PieceRuns.NeverReady` | libdlproxy/dlproxy/cache.c:98-106 | A file of 4 GB and 1000 bytes written in one call is written up to its end and not up to its extent |
| `PieceRuns.WrittenNotReady` | libdlproxy/dlproxy/cache.c:98-106 | The run itself: the last 1000 bytes, all written, are not ready |
| `PieceBytes.WholeIffAligned` | libdlproxy/dlproxy/cache.c:64-73 | A write contains every byte of the file in the pieces it marks if and only if it starts and ends between pieces or outside the file |
| `PieceBytes.PiecesAndBytes` | libdlproxy/dlproxy/cache.c:445-464 | Bytes written are pieces written, and the other way round where no piece is written in part |
| `PieceBytes.NoHalfIff` | libdlproxy/dlproxy/cache.c:445-464 | Pieces written and bytes written come to the same for every range, now and after any later aligned writes, if and only if no piece of the file is written in part |
| `PieceBytes.BytesReady` | libdlproxy/dlproxy/cache.h:61 | Where no piece is written in part, a range is ready if and only if every byte of every block it meets was written: of the file if the answers are right at all, up to the extent if no size was raised |
| `PieceBytes.OneByteSuffices` | libdlproxy/dlproxy/cache.h:61 | A run: one byte of a 1000-byte file is written and the whole file is ready |
| `PieceLasting.LastingIff` | libdlproxy/dlproxy/cache.c:387-562 | Every answer is right, now and after any later writes, if and only if each block of the file that is yet to be made will get a size with the pieces of the file, each done one is written, and in any other the pieces only its size or only the file has are marked or written and those both have are marked if written |
| `PieceLasting.RightByBlocks` | libdlproxy/dlproxy/cache.c:546-562 | The answers are right exactly if each block of the file is done exactly when its pieces in the file are written |
| `PieceLasting.WrongLater` | libdlproxy/dlproxy/cache.c:445-464 | Where the condition fails, builds writes after which an answer is wrong |
| `PieceLasting.AbsentLasts` | libdlproxy/dlproxy/cache.c:98-106 | A block yet to be made fails the condition only as the last one of a file over 4 GB that leaves whole pieces of it out |
| `PieceLasting.RaisedLiesLater` | libdlproxy/dlproxy/cache.c:387-562 | A run: all answers are right after the size is raised from 3000 to 300000, and wrong after the next write |
| `PieceRuns.Reopen` | libdlproxy/dlproxy/cache.c:123-246 | Saved and loaded into a clip of the same size: loads exactly if the table sizes agree, restores the touched pieces, and gives the same answer for every range in the file if and only if the extent is the same or the last block, once touched up to the end of the file, is touched in full |
| `PieceCache.Clip.Save` | libdlproxy/dlproxy/cache.c:123-147 | The bytes of the file: the header, then for each block a bitmap of its touched pieces, zeros for an absent one |
| `PieceCache.Clip.Load` | libdlproxy/dlproxy/cache.c:214-262 | Accepts any bytes exactly if they start with the header this clip would save, and then touches exactly the pieces of the bitmaps that are read; the file is removed exactly if it has the magic and another header, or if every block is done |
| `PieceCache.RestoresSaved` | libdlproxy/dlproxy/cache.c:123-246 | What a saved file restores is what was touched, whatever memory lies behind it |
| `MetaFile.MatchesIff` | libdlproxy/dlproxy/cache.c:214-233 | The checks of magic and fields accept exactly the header that would be saved |
| `MetaFile.OfLeOfNumber` | libdlproxy/dlproxy/cache.c:132-138 | A number that fits its little-endian field is read back |
| `MetaFile.NumberOfBytes` | libdlproxy/dlproxy/cache.c:220-224 | No other bytes are read as that number |
| `PieceCache.Clip.Ensure` | libdlproxy/dlproxy/cache.c:84-109 | Provides the block, growing the table, changes no other, and keeps flags, bitmaps and sizes in order for an extent that is the size until the partial last block of a file over 4 GB is created |
| `PieceCache.MarkRange` | libdlproxy/dlproxy/cache.c:64-73 | Marks exactly the pieces of the range within the block's size and sets `done` exactly when all are marked |
| `PieceCache.CheckDone` | libdlproxy/dlproxy/cache.c:56-63 | Sets `done` exactly when every piece within the size is marked, and never clears it |
| `PieceCache.DoneIsTouched` | libdlproxy/dlproxy/cache.c:56-63 | A block in the file is done exactly if all its pieces in the file are touched |
| `PieceCache.SetPieceHas` | libdlproxy/dlproxy/cache.c:49-55 | Setting one bit changes the answer for that piece only |

## Left out

- C++ memory orders: atomic steps are sequentially consistent.
- The MPSC queue, the task pool, hash maps and file I/O: atomic abstractions or not modelled.
- Nested `xEventLoopRun` and re-entrant polling: a nested run can consume the outer run's wake.
- Event back ends other than the epoll wake branch, signals, pipes, fibers, coroutines, processes.
- Cross-thread `xTimerStop` and allocation failures.
- Overflow of reference counts and queue lengths.
- Work-item recycling through the lock-free freelist: items are fresh.
- LoopWake.StallNeedsBacklog: counts queued items and does not say which callback they carry.
- Timers.TimerLoop.RunTimers: the callback is taken as read before its struct is given back, because the source reads it from a struct that a full pool has already freed.
- Timers.TimerLoop.Callback: a stop of a struct that is no longer allocated is skipped, because the source would follow a dangling handle.
- NodeArena.Chain.Append: where a fresh arena is too small it reports failure, because the source goes on with a null block there.
- Spawn.NothingLeaks: claims deletion only once every copy of the waker is gone, because a suspension source inside the node can keep one forever.
- PieceCache.Clip.Write: offsets stay below 2^49, where the 32-bit size of the block table does not wrap.
- PieceCache.Clip.Ensure: blocks stay below number 2^31, for the same reason.
- PieceCache.Clip.IsReady: ranges end by 2^50, where a 32-bit block number does not wrap.
- PieceCache.Clip.SetFileSize: sizes stay within 2^49.
- PieceRuns.ReadyAfter: offsets and sizes stay within 2^49 as well.
- Playlist.Parse: durations are real numbers, infinities and not-a-number, without rounding to binary; resolving a URI is a parameter.
- PlaylistRoundTrip.RoundTrip: URIs, the encryption flag and the variants of a master playlist do not come back, because the printer does not write them.
- SpawnWake.ReadyLeafIsPolled: is about a leaf that every suspended poll of the tree has asked; a leaf under a race that is won may be given up.
- Utf8String.String.Replace: one method with an optional limit stands for replace and replacen.
- `String::push_str(const char*)`, case-insensitive search and the remaining string helpers.
- HTTP serving, fetching, scheduling and everything else in libdlproxy.
