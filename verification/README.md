# A verified model of the snapshot library and its programs

A Dafny 4.11 model of four parts of the repository, each with proofs about everything it can do.

**Snapshots on persistent memory** (`src/libstoreinst`, `src/storeinst-pass`). A program keeps its data
in a mapped file. A compiler pass puts a call of `checkMemory` before every store that is not plainly
to the stack. The call writes the old bytes to the thread's undo log. `snapshot()` (behind `msync`)
copies what was logged to a backing file and drops the log; after a power failure recovery undoes a
log that was caught half copied.

- `Bytes`, `UndoLog`: images of the region, and reverse replay as "the oldest entry wins".
- `LogFormat`, `Log`, `LogDurability`, `Recovery`: the packed entries byte by byte, the log object with
  its flush bookkeeping, what of a log is sure to be on the medium, and the two loops of recovery.
- `WidenedWrite`, `CopyPlan`, `Snapshot`: the arithmetic of aligned writes, the copy loop, and
  `snapshot()` over all threads' logs.
- `CrashProtocol`, `CrashRuns`, `SnapshotRuns`: the protocol as a machine that can lose power after
  any step, again and again, also inside recovery, with any subset of the unsettled bytes on the medium;
  under any program, when exactly recovery gives back the committed image; and what one snapshot does.
- `Discipline`, `CrashAtomicity`: what undo logging asks of a program, the invariant it then keeps, and
  crash atomicity over whole runs, with its exact condition.
- `RecoveryLimits`, `LosingRuns`: each place where the code leaves recovery less than it needs, with the
  exact condition under which that does no harm, and the shortest runs in which data is lost.
- `Refinement`: the log object, a whole snapshot, moment by moment, and the restart, on bytes, do what the
  machine's steps do.
- `Instrumentation`, `InstrumentedRuns`, `InstrumentedUndo`, `InstrumentedLog`, `Tracker`: the pass, what
  instrumented functions do when they run, what their log undoes and exactly holds, and `checkMemory` on
  the log object.

**The B-tree map** (`src/examples/btree`). `BTreeShape`, `BTreePaths`, `BTreeDescent` and
`BTreeRemoval` say what the operations make of a tree as a value. `BTreeNode`, `BTreeRows`,
`BTreeSplit`, `BTreeFind`, `BTreeRebalance`, `BTreeQuery` and `BTree` are the code on nodes in memory,
proved against those values, with separation: no node is in the tree twice and none is lost.

**Hand-over-hand locking** (`src/examples/kelly_hoh_code`). `HandOverHand` is the traversal of any
number of threads over a list of any length as a state machine: safety, progress and conservation.

**The page cache over a block device** (`src/libcxlfs`). `BlockDevice` is a device with outstanding
writes; `PageCache` is the controller with faults, evictions, flushes and resizes. Any run of the
program over it is a run over a flat memory.

`dafny verify dfyconfig.toml` checks everything.

## Assumptions and departures

Where the code does not do what its comments or its design promise, the model follows the code, and
there is a lemma that says exactly when the promise holds. The crash machine keeps, for every log, the
entries recovery would read from it, the mark, and whether the dependency file names it, and, for every byte
of the backing file, the values stored there without a flush; all of these may be anything the code can make
of them. It runs under any program, and `SafeIff` is the exact condition for every run. Crash atomicity
(`CrashAtomicIff`, `CrashAtomic`) is for programs that log before they store, keep the ranges of their threads
apart, also when widened, and take snapshots of the whole region (`Disciplined`), in runs in which recovery
finds what it needs (`Careful`). What stands against that in the code:

- `snapshot()` sets `log_offset` to 0 before it marks the log ACTIVE (`src/libstoreinst/libc_wrappers.cc:344`),
  and recovery walks up to `log_offset`, so it reads no entry. `ZeroedLengthWorksIff` and `TurnSafeIff`
  state when a snapshot survives that, `ZeroedLengthLosesData` is a run that does not.
- Mapping the file stores 1 to the first byte of the backing file (`src/libstoreinst/recovery.cc:374`) and
  nothing flushes it. Until its first snapshot begins a process that loses power leaves the file as it was if
  and only if the first byte was 1 (`MappedSafeIff`). The 1 stays a danger until a flushed copy of that byte is
  drained (`FirstByteIff`), also after finished snapshots of other bytes (`FirstByteLost`).
- The first snapshot of a process copies the whole page cache while only the first log is ACTIVE, also without
  a flush (`src/libstoreinst/libc_wrappers.cc:354-386`). With several logs a power failure there may keep new
  bytes that no log undoes: `FirstSnapshotIff`, `FirstSnapshotMixesLogs`. What only this copy brings over,
  because it was stored without being logged, never counts as committed.
- `recover()` leaves the mark in place and new logs are listed behind the old one, so every later recovery
  replays the old log: `HiddenIff`, `StaleLogWorksIff`, and `StaleLogLosesSnapshot`, a run in which a
  finished snapshot is lost. That run reads entries, so it is one of the code with line 344 repaired: as
  written, the length of 0 keeps the old log from doing harm.
- The dependency file names only the log of the thread that maps the file
  (`src/libstoreinst/recovery.cc:403-409`): `UnlistedWorksIff`, `UnlistedLogLosesData`.
- `flush_all` counts from the content and `log_range` from the log area, so the last 24 bytes of the log
  may not be on the medium: `FillNineLines`, `ReadableEntries`, `TornLogWorksIff`.
- A snapshot of part of the region forgets the entries outside it: `Snapshot.Snapshot` states what then
  differs, `SafeIff` and `TurnSafeIff` what a power failure can do.
- A log has room for the entry (`Log.LogRange`); the check in the source is commented out. Sizes are
  below 2^23 and addresses below 2^56, the widths of the bit-fields.
- `flush` writes back every 64-byte line that meets the range, `drain` makes earlier flushes and
  streaming writes durable; a streaming write may become durable byte by byte at any time before. On the
  backing file the crash machine counts on the range that was flushed or streamed and not on its neighbours
  in the same line.
- The pass relies on the alias analysis and on SSA form: when a store runs, a slot its pointer is, or
  must alias, has been allocated and is where it stores (`SoundStore`). The stack is outside the
  tracked range. Eight bytes are logged whatever the size of the store: `StoreLoggedIff`, `UndoneIs` and
  `WideStoreEscapes` say exactly what that covers.
- A zero key marks an unused slot of a B-tree node. `BTree.Insert` takes one, also when the tree has some
  already; `remove` and the ordered visit need a tree without. Node memory is zero when allocated, although
  `init()` does not clear it. Freed memory may be overwritten by anything at once. Two `memmove` calls read
  one element past an array; the element is taken to be arbitrary.
- `remove` can leave one parent of leaves with one item too few. `BTree.Remove` states when, in terms a
  caller can check before the call, and `MinTreeRunsShort` gives trees where it happens. Queries and
  insertions are proved for such trees too; a further removal is not.
- `remove` on a tree without a root reads through a null pointer, so a root is required.
- A page cache of no pages cannot serve a fault; `ResizeCache` takes the size and says so. Write-backs
  succeed; writes to one page complete in order; the device has the size of the window. `init` forgets to
  forget the mapped pages, which `PageCache.Controller.Init` states as an if-and-only-if and
  `TouchThenInit` shows.

## Model

| member | source | states |
|---|---|---|
| `Bytes.CopyRangesAt` | src/libstoreinst/libc_wrappers.cc:428-542 | copying any list of ranges, in any order and with any overlaps, makes exactly the touched bytes equal to the page cache |
| `UndoLog.ReplayAt` | src/libstoreinst/recovery.cc:161-171 | replay newest first gives every covered byte its oldest logged value and leaves the others alone |
| `UndoLog.ReplayDependsOnUncovered` | src/libstoreinst/recovery.cc:161-171 | the result of recovery does not depend on what a crash left on covered bytes |
| `UndoLog.SuppressedEntryIsRedundant` | src/libstoreinst/log.cc:69-79 | leaving out an entry whose bytes older entries cover, as the duplicate check does, never changes what recovery gives |
| `UndoLog.InterruptedReplay` | src/libstoreinst/recovery.cc:161-171 | after any number of recoveries cut short anywhere, with any of their writes on the medium, a complete one gives what the first would have given |
| `UndoLog.ReplayIdempotent` | src/libstoreinst/recovery.cc:161-171 | a second recovery changes nothing |
| `UndoLog.ReplayHarmlessIff` | src/libstoreinst/recovery.cc:161-171 | replaying a log over an image changes nothing if and only if every covered byte has its oldest logged value |
| `WidenedWrite.PreviousPowerOfTwoIsLog2` | src/libstoreinst/libc_wrappers.cc:277-279 | despite its name the function returns the exponent e with 2^e <= x < 2^(e+1), and one bit is set exactly when x is 2^e |
| `WidenedWrite.AlignToFits` | src/libstoreinst/libc_wrappers.cc:478-481 | the block just holds the entry, or the entry is longer than the block and the block is 256 or 512 bytes |
| `WidenedWrite.WidenedBounds` | src/libstoreinst/libc_wrappers.cc:476-497 | for every address and every size from 8 on the widened write starts on the boundary of the smallest power of two that holds the entry (from 512 bytes on: 256 or 512); it fills that block if the entry starts there (in units of 256 if it is longer) and else ends where the entry ends; so it covers the entry, starts at most 511 bytes early, ends less than 256 bytes late and touches no other 4 KiB page |
| `WidenedWrite.WidenedIsUnique` | src/libstoreinst/libc_wrappers.cc:476-497 | only one write fits that description |
| `WidenedWrite.UnalignedBuildIsExact` | src/libstoreinst/libc_wrappers.cc:470-531 | in the build without aligned writes the bytes written are exactly the entry |
| `WidenedWrite.WriteForBounds` | src/libstoreinst/libc_wrappers.cc:467-531 | that description and the bounds hold in the aligned build from 8 bytes on; else the write is exactly the entry |
| `WidenedWrite.WriteForStaysInRegion` | src/libstoreinst/libc_wrappers.cc:467-531 | for a page-aligned region the write for an entry in the region stays in it |
| `LogFormat.LittleEndianRoundTrip` | src/libstoreinst/log.hh:32-40 | a value below 256^n is read back from its n bytes |
| `LogFormat.HeaderFields` | src/libstoreinst/log.hh:32-40 | a packed header reads back as size and address cut to 23 and 56 bits, whatever the flag bit |
| `LogFormat.HeaderRoundTripIff` | src/libstoreinst/log.hh:32-40 | size and address read back exactly if and only if both fit their bit-fields |
| `LogFormat.HoldsSnoc` | src/libstoreinst/log.cc:82-89 | appending the packed entry to a well-formed content area appends exactly that entry |
| `LogFormat.HoldsAt` | src/libstoreinst/log.hh:124-135 | the n-th step of the walk is at the start of the n-th entry, and it is at the end exactly when no entry is left |
| `LogFormat.ReadsEntry` | src/libstoreinst/recovery.cc:135-137 | at the start of an entry the walk reads that entry's address, size and old bytes |
| `LogFormat.Walk` | src/libstoreinst/recovery.cc:130-159 | on any bytes whatever, the loop keeps the entries it reads that start in the file, in order |
| `LogFormat.PackedWalk` | src/libstoreinst/recovery.cc:130-159 | on a packed log the walk reads the appended entries in order and ends exactly at `log_offset` |
| `LogFormat.TornWalk` | src/libstoreinst/recovery.cc:130-159 | on bytes that agree with a packed log only up to some point, the walk reads the entries that end there or before, and then whatever the rest looks like |
| `Log.Log.constructor` | src/libstoreinst/log.cc:239-240 | a new log is empty and well-formed |
| `Log.Log.LogRange` | src/libstoreinst/log.cc:40-143 | the range is listed; its old bytes are appended unless the previous call logged the same range; the content area stays the packed list of entries, the flush bookkeeping stays exact and every listed range stays covered |
| `Log.Log.AppendEntry` | src/libstoreinst/log.cc:81-89 | header and bytes are packed at the tail and exactly the new bytes become dirty |
| `Log.Log.FlushCompleteLines` | src/libstoreinst/log.cc:91-125 | afterwards the flush offset is a multiple of 64, less than 64 behind the log, and exactly the bytes from it on are dirty |
| `Log.Log.FlushAll` | src/libstoreinst/log.cc:145-154 | every content byte is written back, except the last 24 exactly when the length is a nonzero multiple of 64 |
| `Log.Log.Clear` | src/libstoreinst/log.hh:168-176 | a cleared log is a well-formed empty log |
| `Log.FlushWholeLines` | src/libstoreinst/log.cc:110-123 | writing back whole lines leaves dirty exactly what lies behind them, for a content area 24 bytes into the log area |
| `Log.FlushRest` | src/libstoreinst/log.cc:146-153 | if the offsets differ, the write-back from the content's start on reaches every dirty byte |
| `Log.NothingMissedButMultiples` | src/libstoreinst/log.cc:146 | the offsets agree exactly when the length is a multiple of 64, and then the dirty bytes are the ones missed |
| `LogDurability.FillNineLines` | src/libstoreinst/log.cc:82-154 | 32 eight-byte stores make the log 576 bytes long, and after flush_all exactly its last 24 bytes, the last entry and part of the one before, are still only in the cache |
| `LogDurability.ReadsWrittenBack` | src/libstoreinst/recovery.cc:130-159 | whatever has become of the bytes flush_all missed, the walk reads every entry that ends before them |
| `LogDurability.ReadsAll` | src/libstoreinst/recovery.cc:130-159 | unless the length is a nonzero multiple of 64 the walk reads the whole log |
| `Recovery.NeedsRecovery` | src/libstoreinst/recovery.cc:36-84 | it returns the first ACTIVE log, nothing exactly when there is none, and misses an ACTIVE log exactly when there are two |
| `Recovery.ApplyReversed` | src/libstoreinst/recovery.cc:161-171 | the loop over the collected offsets is reverse replay of the entries there, and breaking off anywhere leaves a partly replayed image (its invariant) |
| `Recovery.Recover` | src/libstoreinst/recovery.cc:90-171 | the backing copy becomes the replay of exactly the entries the walk reads up to the recorded length that start in the file |
| `Recovery.NothingToUndoAtZero` | src/libstoreinst/libc_wrappers.cc:344-345 | with the recorded length 0 that snapshot() leaves behind, recovery undoes nothing |
| `CopyPlan.SelectedIff` | src/libstoreinst/libc_wrappers.cc:442-453 | the wrapping range test is the closed interval: an entry just past the end is taken as well |
| `CopyPlan.PlanCoversEntries` | src/libstoreinst/libc_wrappers.cc:402-542 | the writes are exactly the widened entries that the range of the call selects, whatever the sort did with equal addresses and whichever duplicates were skipped |
| `CopyPlan.WritesInOrder` | src/libstoreinst/libc_wrappers.cc:428-542 | every selected entry that differs from the one before has one write, in the order of the list, and there are no others |
| `CopyPlan.FastCopyIff` | src/libstoreinst/libc_wrappers.cc:402-542 | sorting, skipping and widening give the same backing image as copying every selected range exactly, in logged order, if and only if cache and backing agree on the bytes that only the widening takes along |
| `CopyPlan.FastCopyIsSimpleCopy` | src/libstoreinst/libc_wrappers.cc:402-542 | so they do under parity |
| `Snapshot.SortByAddr` | src/libstoreinst/libc_wrappers.cc:404-411 | the list is sorted by address and is a permutation of the old one |
| `Snapshot.CopyEntries` | src/libstoreinst/libc_wrappers.cc:428-542 | the loop does exactly the planned writes, each a moment of its own with the log ACTIVE; both counters are the number of selected entries, for every list and every range, so the exit before dropping the log is never taken |
| `Snapshot.WriteBack` | src/libstoreinst/libc_wrappers.cc:467-531 | a copy to the backing memory needs the log to be marked ACTIVE |
| `Snapshot.OpenTurn` | src/libstoreinst/libc_wrappers.cc:340-345 | the log is written back, its length zeroed and its mark set, in this order and before any copy |
| `Snapshot.CloseTurn` | src/libstoreinst/libc_wrappers.cc:559-571 | after the last copy the drain, then the mark EMPTY if all were applied, then the clearing; if not, the log is left ACTIVE |
| `Snapshot.SnapshotLog` | src/libstoreinst/libc_wrappers.cc:338-571 | one log's turn is a copy plan applied to the backing image (after the bulk copy, the first time, if the call's address lies in the file) and leaves the log empty; after every operation of it, mark, length, unflushed bytes and backing image are stated |
| `Snapshot.OnParAfter` | src/libstoreinst/libc_wrappers.cc:337-572 | a call leaves cache and backing different only under what it does not select |
| `Snapshot.SnapshotNth` | src/libstoreinst/libc_wrappers.cc:337-572 | a log's turn leaves the lists and headers of the other logs alone |
| `Snapshot.Snapshot` | src/libstoreinst/libc_wrappers.cc:336-572 | after a snapshot over any number of logs every log is empty; a byte of the backing memory is that of the page cache if this is the first snapshot and the call's address lies in the file, or if the write of a selected entry of some log takes it along, and else what it was; so the copies differ at most on what was logged outside the range of the call, and after one of the whole region not at all; the bulk copy is done once; the moments of the call are those of the logs' turns in order |
| `Snapshot.PlansCopyExactly` | src/libstoreinst/libc_wrappers.cc:336-572 | whatever plans the logs' turns follow, the image is the page cache on exactly the bytes that the selected entries reach |
| `CrashRuns.CrashByte` | src/libstoreinst/libc_wrappers.cc:453-561 | a byte can come out of a crash other than committed if and only if a copy of it is issued or drained but not committed, or a store of it was never flushed, and that is new |
| `CrashRuns.CopyStep` | src/libstoreinst/libc_wrappers.cc:453-531 | issuing a copy keeps the invariant while any part of it may or may not be on the medium |
| `CrashRuns.DrainStep` | src/libstoreinst/libc_wrappers.cc:559-561 | after the drain the medium has the copied bytes as the page cache has them, nothing else has changed, and nothing is loose on those bytes |
| `CrashRuns.CrashStep` | src/libstoreinst/recovery.cc:36-376 | after a crash, however often recovery is cut short, the first listed ACTIVE log has been replayed once, all marks stay, and the new process has the page cache and the medium on par, apart from the 1 that may be in the first byte |
| `CrashRuns.StepKeepsInv` | src/libstoreinst/libc_wrappers.cc:336-572 | every step of any program, snapshot, crash and restart keeps the invariant |
| `CrashRuns.RunInv` | src/libstoreinst/libc_wrappers.cc:336-572 | every state of every run, with any number of crashes, meets the invariant |
| `CrashRuns.RecoveryWorksIff` | src/libstoreinst/recovery.cc:130-171 | whatever entries recovery reads, it restores the committed image from every crash image if and only if they lose no byte |
| `CrashRuns.SafeFromImages` | src/libstoreinst/recovery.cc:161-171 | recoveries that lose power themselves make no difference to what the last one gives back |
| `CrashRuns.SafeIff` | src/libstoreinst/recovery.cc:36-376 | in every run of every program, after every step: recovery gives back the committed image, whatever survives, if and only if what it reads is right where it writes, and elsewhere neither an uncommitted copy nor an unflushed store is new |
| `CrashRuns.AtMostOneActive` | src/libstoreinst/libc_wrappers.cc:345-564 | of one process's logs only the one in flight is ACTIVE, at any moment of any run |
| `CrashRuns.ReadsOwnLog` | src/libstoreinst/recovery.cc:36-84 | with no older ACTIVE log in the way recovery reads the log in flight, and nothing if that is not listed or none is in flight |
| `CrashRuns.HiddenIff` | src/libstoreinst/recovery.cc:49-64 | an older ACTIVE log comes first in the dependency file if and only if power was lost before with a listed log in flight |
| `CopyPlan.PlanReaches` | src/libstoreinst/libc_wrappers.cc:402-542 | in whatever order the copies come, they touch exactly the widened ranges of the entries the call selects |
| `SnapshotRuns.ProgressOverSnapshot` | src/libstoreinst/libc_wrappers.cc:336-572 | at every moment of every snapshot of any range, from the state at the call: the image committed is the page cache on exactly the bytes the logs marked EMPTY reach, and what is loose is what was loose then, with the whole page cache in a first snapshot, except on the bytes drained since |
| `Discipline.LogRangeStep` | src/libstoreinst/log.cc:69-89 | logging keeps the invariant of disciplined programs, also when the entry is suppressed |
| `Discipline.StoreStep` | src/libstoreinst/libstoreinst.cc:178-197 | a store to logged bytes keeps it |
| `Discipline.WidenedIsHarmless` | src/libstoreinst/libc_wrappers.cc:476-523 | bytes that a widened write takes along are already equal, or undone by the same log |
| `Discipline.ActivateTidy` | src/libstoreinst/libc_wrappers.cc:340-386 | marking the log ACTIVE and the bulk copy keep it for every order in which the copies may then be issued and whatever can be read of the log |
| `Discipline.CommitsRanges` | src/libstoreinst/libc_wrappers.cc:563-564 | marking the log EMPTY commits exactly its ranges |
| `Discipline.MarkEmptyStep` | src/libstoreinst/libc_wrappers.cc:563-564 | the other logs still restore the new image, and what is loose is still as committed |
| `Discipline.ClearStep` | src/libstoreinst/libc_wrappers.cc:571 | dropping the entries afterwards loses nothing; after the last log the page cache has nothing new |
| `Discipline.StepKeepsTidy` | src/libstoreinst/libc_wrappers.cc:336-572 | every step of a disciplined program, and every crash, keeps the invariant |
| `CrashAtomicity.CrashAtomicIff` | src/libstoreinst/libc_wrappers.cc:336-572 | crash atomicity: in every disciplined run in which the logs are readable and listed and every earlier crash was harmless, power may fail after any step and again inside recovery, with any of the unsettled bytes written, and recovery gives back exactly the committed image, if and only if every unflushed store is as committed or undone by the log in flight |
| `CrashAtomicity.CrashAtomic` | src/libstoreinst/libc_wrappers.cc:336-572 | in such runs, outside a process's first snapshot: if and only if the 1 stored by mapping the file has been flushed over, is undone or is right |
| `CrashAtomicity.FirstByteIff` | src/libstoreinst/recovery.cc:373-374 | in every run that 1 may still be found after a crash if and only if no copy of the first byte has been drained since the file was mapped |
| `CrashAtomicity.FirstSnapshotIff` | src/libstoreinst/libc_wrappers.cc:354-386 | in such runs, inside a first snapshot: if and only if the first byte is safe and, as seen from the call, the page cache has nothing new on the ranges of the logs whose turn is still to come |
| `CrashAtomicity.SingleLogAtomic` | src/libstoreinst/libc_wrappers.cc:336-572 | with one log the first snapshot is no exception: only the first byte matters |
| `CrashAtomicity.SingleLogIsAllOrNothing` | src/libstoreinst/libc_wrappers.cc:336-572 | in such runs with one log the committed image is the page cache of the last snapshot that marked its log EMPTY, all of it |
| `CrashAtomicity.CrashRestoresLastSnapshot` | src/libstoreinst/recovery.cc:90-192 | in such runs with one log, recovery from any crash gives back the last finished snapshot if the first byte is safe |
| `CrashAtomicity.CrashKeepsCommittedLogs` | src/libstoreinst/libc_wrappers.cc:337-572 | in such runs a harmless crash inside a snapshot of several logs leaves the image from before it, updated with the page cache on the ranges of exactly the logs already marked EMPTY |
| `CrashAtomicity.FinishedSnapshotCommitsAll` | src/libstoreinst/libc_wrappers.cc:337-572 | a finished snapshot of a disciplined program has committed the whole page cache, and it is on the medium |
| `RecoveryLimits.MappedSafeIff` | src/libstoreinst/recovery.cc:373-374 | in every run, with no older ACTIVE log: from mapping the file to the first snapshot the file survives a power failure if and only if its first byte is 1 |
| `RecoveryLimits.ZeroedLengthWorksIff` | src/libstoreinst/libc_wrappers.cc:344-345 | in every run of the code as written, losing power is harmless if and only if no uncommitted copy and no unflushed store is new |
| `RecoveryLimits.TurnSafeIff` | src/libstoreinst/libc_wrappers.cc:337-572 | seen from the call, for any program and any range: no moment of a log's turn is dangerous if and only if, on the bytes no earlier log reaches, what is loose is as committed and so is the page cache wherever this log reaches, or everywhere in a first snapshot |
| `RecoveryLimits.PrefixWorksIff` | src/libstoreinst/recovery.cc:130-159 | for any recorded length: reading the first k entries is enough if and only if they cover every byte that may be harmed |
| `RecoveryLimits.TornLogWorksIff` | src/libstoreinst/log.cc:145-154 | k entries that were written back and then anything at all: right if and only if on the bytes the k entries do not cover, what follows writes what was committed, and what it leaves alone is unharmed |
| `RecoveryLimits.UnlistedWorksIff` | src/libstoreinst/recovery.cc:393-416 | a log the dependency file does not name: harmless if and only if no uncommitted copy and no unflushed store is new |
| `RecoveryLimits.StaleLogWorksIff` | src/libstoreinst/recovery.cc:49-192 | once power was lost with a log in flight every later recovery replays that log, whatever can be read of it: right if and only if that does nothing to the committed image and the bytes it does not cover are unharmed |
| `RecoveryLimits.StaleWholeLogIff` | src/libstoreinst/recovery.cc:49-192 | if the whole log can be read: right if and only if its ranges are committed as they were then, and elsewhere nothing is harmed |
| `LosingRuns.ZeroedLengthLosesData` | src/libstoreinst/libc_wrappers.cc:344-345 | one logged store and one snapshot, as written: recovery does not give back the committed image |
| `LosingRuns.UnlistedLogLosesData` | src/libstoreinst/recovery.cc:393-416 | the same with every entry readable, in a log that is not listed |
| `LosingRuns.FirstByteLost` | src/libstoreinst/recovery.cc:373-374 | all logged, readable and listed: a first byte of 0 is not safe when the file has just been mapped, nor when a snapshot of a byte in another line has finished |
| `LosingRuns.FirstSnapshotMixesLogs` | src/libstoreinst/libc_wrappers.cc:354-386 | all logged, readable and listed, and the first byte safe: in the first log's turn of a first snapshot the second log's new byte is not |
| `LosingRuns.StaleLogLosesSnapshot` | src/libstoreinst/recovery.cc:49-192 | with the length left in place, every entry readable and every log listed: after one crash that recovery deals with, a finished snapshot that is all on the medium is lost at the next recovery; on the way two logs are ACTIVE and the first is the wrong one |
| `Refinement.LogOne` | src/libstoreinst/log.cc:40-143 | log_range on the log object is the machine's step |
| `Refinement.TurnSettles` | src/libstoreinst/libc_wrappers.cc:338-571 | the machine's turn, over any number of copies, leaves the plan's bytes on the medium and settled, and the bulk copy of a first snapshot loose elsewhere |
| `Refinement.TurnFollows` | src/libstoreinst/libc_wrappers.cc:338-571 | after every operation of a turn the machine is at the step that belongs to it: the mark is the machine's, the walk reads what the machine takes as readable, and the memory is one of the images a crash may then leave |
| `Refinement.Turn` | src/libstoreinst/libc_wrappers.cc:338-571 | one log's turn, on the log object and the backing memory, is that: its moments are the machine's, one by one, and log and memory are the machine's at the end |
| `Refinement.CallFollows` | src/libstoreinst/libc_wrappers.cc:336-572 | so are the turns of any number of logs, one after the other |
| `Refinement.Call` | src/libstoreinst/libc_wrappers.cc:307-572 | a whole snapshot() is the machine's Begin and one turn for each log: there is no moment in it at which marks and memory are not the machine's |
| `Refinement.Restart` | src/libstoreinst/recovery.cc:36-192 | needs_recovery and recover, on the bytes of the log files, are the machine's recovery |
| `Refinement.Remap` | src/libstoreinst/recovery.cc:252-387 | recovery, the page cache read back and the store to the first byte are the machine's Crash, after any number of attempts at recovery |
| `Refinement.ReadableEntries` | src/libstoreinst/log.cc:145-154 | what the machine takes as readable of a log: its entries up to the bytes that were missed, and then what the walk makes of those |
| `Refinement.WholeLogReadable` | src/libstoreinst/log.cc:145-154 | and the whole log when nothing was missed |
| `Instrumentation.WritesToStackLocation` | src/storeinst-pass/storeinst.cc:79-101 | in whatever order the hash map is searched, the answer is whether a marked slot is the pointer or must alias it |
| `Instrumentation.AnalyseInstr` | src/storeinst-pass/storeinst.cc:138-153 | a store gets the cast and the call in front, and is counted, exactly if it is not to a stack slot seen so far; an alloca becomes such a slot, and nothing else does |
| `Instrumentation.AnalyseBlock` | src/storeinst-pass/storeinst.cc:135-154 | inserting while iterating passes every instruction of the block exactly once |
| `Instrumentation.AnalyseFunc` | src/storeinst-pass/storeinst.cc:131-156 | the function becomes, in place, its instrumented form: the same instructions in the same order, with the cast and the call in front of exactly the stores whose pointer neither is a slot allocated before nor must alias one; their number is counted |
| `Instrumentation.InstrumentedIsPlaced` | src/storeinst-pass/storeinst.cc:131-156 | the instrumented form has the calls there and nowhere else |
| `InstrumentedRuns.LiveAfterBlock` | src/storeinst-pass/storeinst.cc:151-153 | the slots that are live after running a block are those from before and the ones its allocas name, which is what the pass notes |
| `InstrumentedRuns.ErasedIsOriginal` | src/storeinst-pass/storeinst.cc:131-156 | without the inserted instructions the instrumented function is the function |
| `InstrumentedRuns.RunsTheSame` | src/storeinst-pass/storeinst.cc:142-147 | for every program, every control flow and every number of blocks, registers, memory and executed stores are those of the original |
| `InstrumentedRuns.SkippedIsOutside` | src/storeinst-pass/storeinst.cc:141-149 | a store the pass leaves alone is outside the tracked range |
| `InstrumentedRuns.CheckedCovers` | src/libstoreinst/libstoreinst.cc:178-197 | after checkMemory on a tracked pointer the log covers eight bytes from it on, also when the duplicate check suppressed the entry |
| `InstrumentedRuns.TrackedStoresAreLogged` | src/storeinst-pass/storeinst.cc:131-156 | in every run of an instrumented function, every store that starts in the tracked range finds its first eight bytes, or all if fewer, covered by the log |
| `InstrumentedUndo.LogUndoesRun` | src/libstoreinst/libstoreinst.cc:178-197 | after any number of blocks, undoing the log gives a tracked byte the value it had at the call, if no store reaches it from outside the range or from eight or more bytes below |
| `InstrumentedLog.UndoneIs` | src/libstoreinst/libstoreinst.cc:178-197 | for every byte and every run, without any further condition: undoing gives the value the byte had at the first store that starts in the tracked range less than eight bytes before it, and if there was none, the value it has |
| `InstrumentedLog.StoreLoggedIff` | src/libstoreinst/libstoreinst.cc:178-197 | in every run a store of any size into the tracked range finds all its bytes logged if and only if each byte past the first eight had such a store before |
| `InstrumentedUndo.WideStoreEscapes` | src/libstoreinst/libstoreinst.cc:178-197 | for a single store into the tracked range the log covers it if and only if it has at most 8 bytes |
| `Tracker.Tracker.CheckMemory` | src/libstoreinst/libstoreinst.cc:178-197 | on the log object checkMemory does what the instruction of the machine does, and lists a range exactly when it logs |
| `BTreeShape.FlatAtKid` | src/examples/btree/btree.cc:386-399 | the contents of a node are what is before a child, the child's contents, and what is after it |
| `BTreeShape.SplitKidOk` | src/examples/btree/btree.cc:85-117 | splitting a full child under a parent with room keeps contents, order, leaf depth, at most 7 items per node and any lower bound up to 3 |
| `BTreeShape.GrowRootOk` | src/examples/btree/btree.cc:118-130 | splitting a full root keeps the contents and adds exactly one level |
| `BTreeShape.RotateRightInorder` | src/examples/btree/btree.cc:187-208 | borrowing from the right sibling keeps the contents and their order |
| `BTreeShape.RotateLeftInorder` | src/examples/btree/btree.cc:210-230 | borrowing from the left sibling keeps the contents and their order |
| `BTreeShape.MergeInorder` | src/examples/btree/btree.cc:232-259 | merging keeps the contents and their order |
| `BTreeShape.RebalanceOk` | src/examples/btree/btree.cc:269-282 | one item too few in one child: rebalancing keeps the contents, gives every child 3 to 7 items and costs the parent at most one item |
| `BTreeShape.ShortIsNotOk` | src/examples/btree/btree.cc:308-321 | a tree with one short parent of leaves does not meet the occupancy bounds |
| `BTreeShape.ShortIsIn` | src/examples/btree/btree.cc:308-321 | but no node is more than one item short |
| `BTreePaths.ReplaceInorder` | src/examples/btree/btree.cc:133-153 | exchanging the subtree at the end of a path exchanges exactly its stretch of the contents |
| `BTreeDescent.RouteAfterSplit` | src/examples/btree/btree.cc:114-117 | after a split the half the code picks is the one where the key belongs, and it has room |
| `BTreeDescent.InsertAtLanding` | src/examples/btree/btree.cc:133-179 | the item put where the descent landed is in its place in the sorted contents, and every bound still holds |
| `BTreeNode.Node.InsertItem` | src/examples/btree/btree.cc:155-163 | unless a zero key is in use at that very position, the array insertion is sequence insertion, whatever stale data lies behind the last item |
| `BTreeNode.Node.InsertNode` | src/examples/btree/btree.cc:66-83 | the same with two children in the place of one |
| `BTreeNode.Node.RemoveFromLeaf` | src/examples/btree/btree.cc:295-306 | the array removal is sequence removal, whatever is read past the end |
| `BTreeSplit.SplitNode` | src/examples/btree/btree.cc:85-106 | the loop leaves the lower half in the node and the upper half in a new one, around the median |
| `BTreeSplit.SplitChild` | src/examples/btree/btree.cc:110-117 | memory then holds the tree with that child split; one node is new and nothing else changed |
| `BTreeSplit.GrowTree` | src/examples/btree/btree.cc:118-130 | memory then holds the tree with the root split under a new root |
| `BTreeSplit.FindSlot` | src/examples/btree/btree.cc:133-146 | the loop returns the first position with a larger key or the end, and never runs through: the fall-through recursion is unreachable |
| `BTreeFind.SearchNode` | src/examples/btree/btree.cc:133-153 | the descent ends in a leaf with room at the place for the key and keeps contents and bounds of the tree |
| `BTreeFind.FindDestInKid` | src/examples/btree/btree.cc:108-153 | a full child is split before it is entered, and its parent always has room |
| `BTreeFind.InsertLanded` | src/examples/btree/btree.cc:177-179 | the item goes in where the descent landed: the tree stays in order and within its bounds |
| `BTreeRebalance.RotateRightNodes` | src/examples/btree/btree.cc:187-208 | what the three nodes hold after the array moves |
| `BTreeRebalance.RotateLeftNodes` | src/examples/btree/btree.cc:210-230 | what the three nodes hold after the array moves |
| `BTreeRebalance.MergeNodes` | src/examples/btree/btree.cc:232-259 | what node and parent hold after the merge, although the pointer move reads past the array and the right node is freed |
| `BTreeRebalance.RotateRightTree` | src/examples/btree/btree.cc:187-208 | memory then holds the rotated tree, on the same nodes |
| `BTreeRebalance.RotateLeftTree` | src/examples/btree/btree.cc:210-230 | memory then holds the rotated tree, on the same nodes |
| `BTreeRebalance.MergeTree` | src/examples/btree/btree.cc:232-259 | memory then holds the merged tree, without the freed node |
| `BTreeRemoval.FindAgrees` | src/examples/btree/btree.cc:354-363 | searching along the tree finds a key exactly when it is in the contents, with a value stored under it |
| `BTreeRemoval.RemoveFromNodeInorder` | src/examples/btree/btree.cc:293-321 | replacing an item by its successor and taking that from its leaf removes exactly that item from the contents |
| `BTreeRemoval.RemoveKeyShape` | src/examples/btree/btree.cc:323-342 | the occupancy bounds hold afterwards unless the way to the successor runs short; then exactly one parent of leaves has one item too few |
| `BTreeRemoval.RemoveContents` | src/examples/btree/btree.cc:323-352 | exactly one item with the key leaves the contents and its value is found, or nothing changes; the rest stays sorted |
| `BTreeRemoval.RemoveShape` | src/examples/btree/btree.cc:261-352 | all leaves stay at one depth, also when the root is dropped, and the bounds hold if and only if the removal does not run short |
| `BTreeRemoval.MinTreeRunsShort` | src/examples/btree/btree.cc:308-342 | valid trees of 31 consecutive keys from which removing the root's key leaves a node with too few items |
| `BTree.BTree.IsEmpty` | src/examples/btree/btree.cc:165-167 | true exactly when nothing is stored |
| `BTree.BTree.InsertNodeEmptyTree` | src/examples/btree/btree.cc:58-64 | the tree then holds exactly the item |
| `BTree.BTree.FindDestNode` | src/examples/btree/btree.cc:108-153 | the descent from the root keeps the contents, grows the tree exactly when the root is full and ends at the place for the key |
| `BTree.BTree.Insert` | src/examples/btree/btree.cc:169-185 | exactly the pair is added at its place, for any key and also in a tree with zero keys; order, equal leaf depth, at most 7 items and any lower bound up to 3 on the items per node stay, so also on a tree with a short node; the height grows by one exactly when the root was full; no key is zero afterwards if and only if none was and this one is not |
| `BTree.BTree.MergeAt` | src/examples/btree/btree.cc:232-267 | after a merge that empties the root its only child is the root, and memory holds it |
| `BTree.BTree.RebalanceAt` | src/examples/btree/btree.cc:269-282 | memory then holds the rebalanced tree, or its only child when the root lost its last item |
| `BTree.BTree.ReplaceBySuccessor` | src/examples/btree/btree.cc:308-320 | memory then holds the tree with the successor in the item's place |
| `BTree.BTree.RemoveItem` | src/examples/btree/btree.cc:323-342 | memory then holds the tree without the key, and the result is the value found |
| `BTree.BTree.Remove` | src/examples/btree/btree.cc:344-352 | on every valid tree one item with the key goes and its value is returned, or nothing changes and the result is 0; order and leaf depth stay; the tree is valid afterwards if and only if the removal does not run short, and in any case fit for queries and insertions |
| `BTree.GetLeftmostLeaf` | src/examples/btree/btree.cc:284-291 | it finds the leftmost leaf and that leaf's parent |
| `BTree.Siblings` | src/examples/btree/btree.cc:270-272 | the neighbours in the parent, or null at the ends |
| `BTree.BTree.Get` | src/examples/btree/btree.cc:365-368 | a value stored under the key, or 0 exactly when there is none |
| `BTree.BTree.Lookup` | src/examples/btree/btree.cc:381-384 | 1 exactly for the stored keys |
| `BTree.BTree.Foreach` | src/examples/btree/btree.cc:401-404 | the callback gets the items in key order, each once, up to the first at which it says stop |
| `BTreeQuery.GetInNode` | src/examples/btree/btree.cc:354-363 | the recursion returns what the search along the tree finds |
| `BTreeQuery.LookupInNode` | src/examples/btree/btree.cc:370-379 | the recursion answers whether the search finds the key |
| `BTreeQuery.ForeachNode` | src/examples/btree/btree.cc:386-399 | the recursion visits the subtree's contents in order and stops where the callback says so |
| `HandOverHand.MutualExclusion` | src/examples/kelly_hoh_code/hoh.c:114-131 | no two threads hold the same node |
| `HandOverHand.StepKeepsInv` | src/examples/kelly_hoh_code/hoh.c:108-134 | every step of every thread keeps the invariant about locks, positions, order and data |
| `HandOverHand.RunInv` | src/examples/kelly_hoh_code/hoh.c:108-134 | every state of every run meets it |
| `HandOverHand.Safety` | src/examples/kelly_hoh_code/hoh.c:114-131 | in every reachable state a lock has at most one holder, a thread holds nothing, one node or two adjacent ones, and nobody overtakes |
| `HandOverHand.OrderOnlyGrows` | src/examples/kelly_hoh_code/hoh.c:114 | the order in which the head lock was taken is never rewritten |
| `HandOverHand.EachReadsItsTurn` | src/examples/kelly_hoh_code/hoh.c:114-123 | the i-th thread at the head reads the initial value plus i on every node: the interleaving is equivalent to one after the other |
| `HandOverHand.NotStuck` | src/examples/kelly_hoh_code/hoh.c:114-131 | as long as a thread is unfinished some thread can step |
| `HandOverHand.EveryStepCounts` | src/examples/kelly_hoh_code/hoh.c:114-131 | every step lowers the number of steps left by exactly one |
| `HandOverHand.RunsFinish` | src/examples/kelly_hoh_code/hoh.c:108-134 | no run exceeds T(4(N-1)+2) steps, and one that cannot go on has finished every thread in exactly that many |
| `HandOverHand.Conservation` | src/examples/kelly_hoh_code/hoh.c:114-133 | every completed run of T threads has raised each node's data by T and left the head's alone |
| `BlockDevice.CompletionIsInvisible` | src/libcxlfs/controller.cc:113-121 | when an outstanding write completes, no read can tell |
| `BlockDevice.PollIsInvisible` | src/libcxlfs/controller.cc:113-121 | nor after any polling |
| `BlockDevice.ReadBlocking` | src/libcxlfs/controller.cc:176 | a read sees the last submitted write to its page, completed or not |
| `BlockDevice.WriteBlocking` | src/libcxlfs/controller.cc:263 | a blocking write is on the medium when it returns; it changes what reads see on its page only and unsettles no other |
| `BlockDevice.Write` | src/libcxlfs/controller.cc:113-121 | a submitted write is seen at once and by reads of its page only; it is queued behind the others |
| `BlockDevice.Reap` | src/libcxlfs/controller.cc:130-141 | the clean-up drops completed requests only, all but possibly the oldest, and changes nothing a read sees |
| `PageCache.ChooseVictim` | src/libcxlfs/controller.cc:73-101 | the victim is a mapped page, and the last scanned one outside the hot distribution whenever there is one |
| `PageCache.EvictionIsInvisible` | src/libcxlfs/controller.cc:50-161 | writing a page back and forgetting it leaves what the program sees |
| `PageCache.Controller.EvictAPage` | src/libcxlfs/controller.cc:50-161 | one mapped page goes, the one that the scan chooses; the accounting holds and no view changes |
| `PageCache.Controller.MapPageFromBlkdev` | src/libcxlfs/controller.cc:163-186 | the buffer is what the device holds for the page of the fault, which is noted as mapped |
| `PageCache.Controller.NotifyPageFault` | src/libcxlfs/controller.cc:190-223 | the assertion at its start always holds; the page becomes mapped, and a page is evicted if and only if the cache was full, the one that the scan chooses; the limit holds afterwards, and the buffer is what the program should see |
| `PageCache.Controller.Handler` | src/libcxlfs/pfmonitor.cc:48-74 | a fault in the window makes the page accessible, evicts under the same condition and changes no view; any other fault is refused and changes nothing |
| `PageCache.Controller.Init` | src/libcxlfs/controller.cc:290-373 | the accounting holds afterwards if and only if nothing was noted as mapped before and the limit is not 0 |
| `PageCache.Controller.TouchThenInit` | src/libcxlfs/controller.cc:290-373 | after one access to a page it does not |
| `PageCache.Controller.FlushCache` | src/libcxlfs/controller.cc:255-268 | everything the program sees is on the device, that of mapped pages on its medium, and nothing is mapped |
| `PageCache.Controller.ResizeCache` | src/libcxlfs/controller.cc:375-388 | no view changes, also when the limit was lowered below the number of mapped pages; nothing is evicted unless it was lowered; the accounting holds if and only if the limit is not 0 |
| `PageCache.Controller.Run` | src/libcxlfs/controller.cc:50-388 | any program with any flushes and resizes in between reads and leaves what it would on a flat memory, and the accounting holds throughout |
| `PageCache.FlatMemoryAt` | src/libcxlfs/controller.cc:50-388 | the flat memory of that claim is a memory: a byte holds what was last stored to it |
| `PageCache.FlatReadsAt` | src/libcxlfs/controller.cc:50-388 | and every load reads from it what the operations before have left there, in their order |

## Left out

- CrashAtomicity.CrashAtomicIff: for disciplined programs and runs in which recovery finds the log and its entries; CrashRuns.SafeIff is for all, and what the code leaves recovery instead is in RecoveryLimits, exactly.
- Discipline.LogRangeStep: requires the ranges of different threads' logs to keep apart, also when widened; CrashRuns does not.
- Recovery.Recover: requires an entry that starts in the file to end in it; the source would write past the mapping.
- InstrumentedUndo.LogUndoesRun: requires calls to leave tracked memory alone; InstrumentedLog.UndoneIs does not, but both are about one activation of a function.
- PageCache.Controller.Run: the program's accesses are single bytes; an access across a page boundary is two accesses.
- Log.Log.LogRange: does not model a log that runs full, because the source has no check.
- Tracker.Tracker.CheckMemory: the eight bytes are taken to be readable, also at the end of the range.
- The intercepted `memcpy`, `memmove` and `memset` (`src/libstoreinst/libc_wrappers.cc:136-181`): log a range, then call the original.
- Functions annotated to opt out of logging, and the statistics of the pass.
- Several threads taking snapshots at the same time, and stores by other threads during a snapshot.
- `mmap`, `munmap`, `msync` and `fdatasync` interception, `sendfile` copies, descriptor and address tables, the dependency file's text format.
- `pmemops`, whose code is not in the repository; its operations are the assumptions above.
- The log format without the volatile list.
- That the bulk copy takes its length from the file: file and mapping have the same size.
- BTree.BTree.Remove: requires a valid tree; on a tree with a short node the code may read through null.
- Background flushing (`src/libstoreinst/bgflush.cc`), the emulated copy engine (`src/libdsaemu`), video memory (`src/libvram`).
- The NVMe driver calls, memory bandwidth sampling and NUMA binding of the page cache; the hot set is an arbitrary set.
- `clear_node` of the B-tree, which skips the last child; the log iterator's postfix increment, which omits the header.
- Transactions, printing and sleeping in the hand-over-hand example, and its serial warm-up runs.
- The other examples: simplekv, linked lists, famus, microbenchmarks; scripts and command lines.
- Environment variables, counters, clocks, debug output.
- Node arrays are sequences of fixed length in the node object, so pointers into the middle of a node are not modelled.
