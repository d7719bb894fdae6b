# ofxImageSequenceVideo: playback and prefetch engine

This project models the core of `ofxImageSequenceVideo`, an openFrameworks add-on that plays a
directory of still images as a video. The model covers four parts:

- **The frame table.** There is one record per image file. Each record holds its path, a pixels
  flag, a load state (`NotLoaded`, `Loading`, `ThreadFinishedLoading`, `Loaded`) and a load time.
- **The generation ring.** This is a fixed array of 10 frame tables. Each successful load moves to
  the next slot, modulo 10, and refills that slot.
- **The transport step of `update(dt)`.** It accumulates on-screen time and advances at most one
  frame per tick. It evicts the frame being left, then wraps (when looping) or clamps (when not),
  and raises the looped and ended notifications.
- **The worker scheduler.**
  - The spawner scans forward from the playhead, modulo the frame count, for `NotLoaded` records.
    It hands them to background tasks, but only inside the look-ahead window and only while
    workers are free.
  - The cleanup step drops finished tasks.
  - A background decode is modelled as an explicit completion event. It marks a record of the
    *currently active* table `Loaded`.

Files:

- `frame_table.dfy` (module `FrameTable`): the record, its states, the fresh table a load builds,
  and eviction.
- `playback.dfy` (module `Playback`): the transport step as a pure function `Step`, plus `Run` over
  many ticks and the lemmas about notifications.
- `scheduler.dfy` (module `Scheduler`):
  - cleanup: `Unfinished` and the loop `Prune`;
  - the specification of the spawner: `Spawned` is the table indices handed out, `MarkLoading` the
    marked table, `NewTasks` the new tasks;
  - the spawner's loop: `Scan`, with the inner `NextFree`;
  - the inner scan as written: `ScanAsWritten`.
- `sequence_video.dfy` (module `SequenceVideo`): the class `ImageSequenceVideo`. It has the
  session fields and the ring `frames: array<seq<FrameInfo>>`, and the methods the host calls.

The class methods mutate fields just as the C++ does. Each method is proved against the pure
functions, and the properties themselves are proved about those functions.

Some structural choices:

- The transport part of `update` is the method `Transport`. Its contract is `Playback.Step`.
- `loadImageSequence` delegates the session reset to `ResetSession` and the ring advance and refill to
  `NextFrameSet`.
- The spawner's loop runs in `Scheduler.Scan` on the active table's value. `HandleThreadSpawn`
  writes the marked table back.
- `SpawnOutcome` names the table and task list one spawner run leaves behind.
- Inside one lap (unwrapped index `p` in `[0, 2N)`), `Slot(p, N)` is the remainder `p % N`.
  `SlotIsMod` proves that they are equal.

The data model follows the header:

- `FrameTable.PixelState` is the four-state enum of h:73-78.
- `FrameTable.FrameInfo` is the record of h:80-85. The pixel buffer is reduced to a flag.
- `FrameTable.DefaultFrameInfo` is a record with the defaults of h:83-84 and an empty path.
- `FrameTable.RingSize` is the ring size 10 of h:21; the ring itself is h:109-110, and its index
  advances at cpp:46-47.

Where the C++ relies on a behaviour a reader might not expect, the model keeps the code's
behaviour:

- A non-looping movie never stops. The guard at cpp:89-91 always holds, because `currentFrame` is
  at most `numFrames - 1` there. On the last frame, every due tick evicts that frame, sets
  `newData` and lands on it again (`Playback.LastFrameKeepsEvicting`).
- The advance does not wait until the current frame is `Loaded` (`Playback.StepIgnoresLoadState`).
- The first load of five files, with a window of three and two workers, starts exactly frames 0
  and 1 (`Scheduler.FiveFramesTwoWorkers`).
- A completion writes into whichever ring slot is current when it runs (`frames[currentFrameSet]`,
  cpp:11 and cpp:159-160). There is no isolation between generations. `CompleteTask` requires the
  frame index to be in range of the current table.

## Model

| member | source | states |
|---|---|---|
| FrameTable.FreshTable | src/ofxImageSequenceVideo.cpp:49-53 | the table a successful load builds has one record per listed file; record i holds the i-th path, is `NotLoaded`, has no pixels and a load time of 0 |
| FrameTable.NamedTable | src/ofxImageSequenceVideo.cpp:49-53 | the clear/resize/fill loop over the listing produces exactly `FreshTable(listing)` |
| FrameTable.Evicted | src/ofxImageSequenceVideo.cpp:94-97 | the record the playhead leaves is `NotLoaded` with its pixels released; its path and load time are kept |
| Playback.Step | src/ofxImageSequenceVideo.cpp:66-117 | an advance happens exactly when playing and the accumulated time reaches the frame duration. When it does: one frame's time is consumed; the playhead moves to the successor (wrapped to 0 when looping, held at N-1 when not); only the departed record changes, and it is evicted. Otherwise nothing but the clock changes. While playing, the playhead ends in [0, N). Ended is raised exactly on the advance that lands on N-1 without looping; looped exactly when a looping playhead wraps |
| Playback.StepIgnoresLoadState | src/ofxImageSequenceVideo.cpp:89-91 | the clock and the notifications of a tick do not depend on the load state of any record |
| Playback.StepKeepsStates | src/ofxImageSequenceVideo.cpp:94 | the transport step never produces a `ThreadFinishedLoading` record |
| Playback.LastFrameKeepsEvicting | src/ofxImageSequenceVideo.cpp:89-116 | a non-looping playhead on the last frame stays there on every due tick; the tick evicts that frame, flags new data and raises no notification |
| Playback.Start | src/ofxImageSequenceVideo.cpp:70 | a negative playhead is reset to frame 0; any other is kept |
| Playback.Successor | src/ofxImageSequenceVideo.cpp:98-117 | one frame on from a playhead inside the table stays inside it: the next frame, wrapped to 0 when looping or held at N-1 when not |
| Playback.Run | src/ofxImageSequenceVideo.cpp:62-117 | over any number of transport steps the table keeps its length and the playhead stays below N, and not below 0 while playing (the new-data flag it carries is, by definition, that of the last tick) |
| Playback.RunAmid | src/ofxImageSequenceVideo.cpp:62-121 | the player's ticks, where cleanup, the spawner and finished decodes may leave any table of the same length between two transport steps; the table keeps its length |
| Playback.RunAmidIsRun | src/ofxImageSequenceVideo.cpp:62-121 | whatever the workers leave in the table between ticks, the playhead, the new-data flag and the notifications are those of `Run`, so the run lemmas below hold of the player |
| Playback.RunAmidEndedAtMostOnce | src/ofxImageSequenceVideo.cpp:100-103 | the player itself, with any worker activity between ticks, raises the ended notification at most once in a non-looping run |
| Playback.RunWithoutLoopProgress | src/ofxImageSequenceVideo.cpp:89-117 | without looping, the playhead never moves back, moves at most one frame per tick, and no looped notification is raised |
| Playback.NoEndedFromLastFrame | src/ofxImageSequenceVideo.cpp:100-103 | a non-looping run that starts on the last frame raises no ended notification |
| Playback.EndedAtMostOnce | src/ofxImageSequenceVideo.cpp:100-103 | a non-looping run raises the ended notification at most once, however many ticks it has |
| Playback.RunWithLoopEvents | src/ofxImageSequenceVideo.cpp:107-112 | a looping run never raises ended, and raises looped at most once per tick |
| Scheduler.Unfinished | src/ofxImageSequenceVideo.cpp:125-134 | cleanup never lengthens the task list |
| Scheduler.UnfinishedAreRunning | src/ofxImageSequenceVideo.cpp:128-132 | every task cleanup keeps is still running |
| Scheduler.UnfinishedFromInput | src/ofxImageSequenceVideo.cpp:125-134 | cleanup invents no task: what it keeps was in the input and unfinished |
| Scheduler.UnfinishedKeepsPending | src/ofxImageSequenceVideo.cpp:125-134 | every unfinished task survives cleanup |
| Scheduler.UnfinishedAppend | src/ofxImageSequenceVideo.cpp:125-134 | cleanup distributes over concatenation, so the running tasks keep their relative order |
| Scheduler.UnfinishedOfPending | src/ofxImageSequenceVideo.cpp:125-134 | with no finished task, cleanup changes nothing |
| Scheduler.Prune | src/ofxImageSequenceVideo.cpp:125-134 | the reverse erase loop leaves exactly `Unfinished` of its input |
| Scheduler.SlotIsMod | src/ofxImageSequenceVideo.cpp:144-148 | within one lap, the remainder `frameToLoad % N` the spawner computes equals `Slot` |
| Scheduler.MarkLoadingAt | src/ofxImageSequenceVideo.cpp:150 | marking changes exactly the listed records, and only their state, which becomes `Loading` |
| Scheduler.MarkLoadingKeepsStates | src/ofxImageSequenceVideo.cpp:150 | marking never produces a `ThreadFinishedLoading` record |
| Scheduler.Candidates | src/ofxImageSequenceVideo.cpp:144-146 | the free records met on one lap from the playhead, as unwrapped indices in scan order; never more than the records left in the lap |
| Scheduler.CandidatesFacts | src/ofxImageSequenceVideo.cpp:142-146 | the free records of one lap from the playhead: all of them, in scan order, each within the lap |
| Scheduler.SpawnedUnwrapped | src/ofxImageSequenceVideo.cpp:142-147 | the indices the spawner hands out before reduction modulo N: the first candidates below `currentFrame + numBufferFrames`, at most `numThreads - tasks.size()` of them (its properties are `SpawnedFacts`, `SpawnedAreFirst`, `SpawnedIsMaximal`) |
| Scheduler.Spawned | src/ofxImageSequenceVideo.cpp:142-148 | the table indices the spawner hands to new tasks, in order: each unwrapped index reduced to its slot |
| Scheduler.MarkLoading | src/ofxImageSequenceVideo.cpp:150 | the table after the handed-out records are set to `Loading`; it keeps the table's length (record-wise effect in `MarkLoadingAt`) |
| Scheduler.NewTasks | src/ofxImageSequenceVideo.cpp:151 | one running task per handed-out index, in the same order |
| Scheduler.SpawnOutcome | src/ofxImageSequenceVideo.cpp:138-154 | what one spawner run makes of a table and a task list: the `Spawned` records marked `Loading`, and one new task per spawned index appended |
| Scheduler.SpawnedFacts | src/ofxImageSequenceVideo.cpp:138-153 | every spawned index lies in the lap from the playhead and below `currentFrame + numBufferFrames`; it wraps to its remainder, names a record that was `NotLoaded`, and the indices are distinct and in scan order; there are at most `numThreads - tasks.size()` of them (none if that is not positive) |
| Scheduler.SpawnedAreFirst | src/ofxImageSequenceVideo.cpp:142-147 | every free record the scan meets before a spawned one was spawned too |
| Scheduler.SpawnedIsMaximal | src/ofxImageSequenceVideo.cpp:142-152 | if fewer tasks were started than workers were free, no free record of the lap inside the window was left behind |
| Scheduler.SpawnKeepsTaskBound | src/ofxImageSequenceVideo.cpp:139-142 | if at most `numThreads` tasks were outstanding, the spawner keeps it so |
| Scheduler.ImmediateModeSpawnsNothing | src/ofxImageSequenceVideo.h:26-31 | with `numThreads = 0` and no task outstanding, nothing is spawned |
| Scheduler.NextFree | src/ofxImageSequenceVideo.cpp:144-146 | the lap-bounded inner scan stops at the first `NotLoaded` record at or after its start; every record it passes is busy; it reaches the lap end only when none is free |
| Scheduler.Scan | src/ofxImageSequenceVideo.cpp:138-154 | the spawner's loop marks exactly the `Spawned` records `Loading` and starts exactly one task per spawned index, in order |
| Scheduler.ScanAsWritten | src/ofxImageSequenceVideo.cpp:144-146 | the unbounded `while` as written, indexed by a step budget: when it stops, it stops on a `NotLoaded` record within the budget |
| Scheduler.ScanAsWrittenDiverges | src/ofxImageSequenceVideo.cpp:144-146 | when no record is `NotLoaded`, the as-written scan never stops, whatever its budget |
| Scheduler.ScanAsWrittenFindsFirstFree | src/ofxImageSequenceVideo.cpp:144-146 | when a free record exists, the as-written scan stops at the first one, as `NextFree` does |
| Scheduler.TwoFramesThreeWorkersHang | src/ofxImageSequenceVideo.cpp:138-154 | loading two files with three workers spawns frames 0 and 1; the third round of the as-written scan then never stops |
| Scheduler.FiveFramesTwoWorkers | src/ofxImageSequenceVideo.cpp:138-154 | the first load of five files with a window of three and two workers starts frames 0 and 1 only; frame 2 stays `NotLoaded` |
| SequenceVideo.ImageSequenceVideo.Valid | src/ofxImageSequenceVideo.h:109-110 | the object invariant (below): ten ring slots, a ring index in [-1, 10) that is -1 only before a load, and after a load an active table of `numFrames >= 2` records holding the playhead |
| SequenceVideo.ImageSequenceVideo.constructor | src/ofxImageSequenceVideo.h:87-130 | a new player: not loaded, not playing, looping, playhead 0, 8 buffer frames, 3 workers, ring index -1, ten empty tables, no task |
| SequenceVideo.ImageSequenceVideo.Setup | src/ofxImageSequenceVideo.cpp:16-19 | sets the window and the worker count, in that argument order |
| SequenceVideo.ImageSequenceVideo.SetUseTexture | src/ofxImageSequenceVideo.h:33 | sets the texture flag |
| SequenceVideo.ImageSequenceVideo.LoadImageSequence | src/ofxImageSequenceVideo.cpp:21-58 | with fewer than two files only `loaded` is cleared; ring slot, tables, playhead, timers and tasks are unchanged. Otherwise: loaded; path and frame count set; duration `1 / frameRate`; playhead and on-screen time 0; no new data; the ring index moves to `(old + 1) % 10`; that slot holds the fresh table after one spawner run, the new tasks are appended, and every other slot is unchanged |
| SequenceVideo.ImageSequenceVideo.ResetSession | src/ofxImageSequenceVideo.cpp:35-41 | a successful load marks the player loaded with the new path and frame count, a frame duration of `1 / frameRate`, the playhead and on-screen time at 0 and no new data |
| SequenceVideo.ImageSequenceVideo.NextFrameSet | src/ofxImageSequenceVideo.cpp:45-53 | the ring index moves to `(old + 1) % 10` and that slot becomes `FreshTable(listing)`; the other slots are unchanged |
| SequenceVideo.ImageSequenceVideo.Update | src/ofxImageSequenceVideo.cpp:62-121 | on an unloaded player nothing changes. Otherwise: clock, new-data flag and notifications follow `Step`; cleanup runs; the spawner runs on the stepped table from the new playhead with the remaining workers; the task bound is kept; the playhead stays in [0, N); only the active slot changes |
| SequenceVideo.ImageSequenceVideo.Transport | src/ofxImageSequenceVideo.cpp:66-117 | the playhead, on-screen time, new-data flag, notification log and active table become exactly what `Step` gives |
| SequenceVideo.ImageSequenceVideo.HandleThreadCleanup | src/ofxImageSequenceVideo.cpp:123-135 | the task list becomes `Unfinished` of itself |
| SequenceVideo.ImageSequenceVideo.HandleThreadSpawn | src/ofxImageSequenceVideo.cpp:138-154 | the active table and task list become the `SpawnOutcome` of one spawner run from the playhead; the task bound is kept; the other slots are unchanged |
| SequenceVideo.ImageSequenceVideo.LoadFrameThread | src/ofxImageSequenceVideo.cpp:157-162 | a decode sets the pixels flag and the `Loaded` state of that one record of the current table, and returns the frame index |
| SequenceVideo.ImageSequenceVideo.CompleteTask | src/ofxImageSequenceVideo.cpp:157-162 | task i's decode runs on the current table and its future becomes ready; nothing else changes |
| SequenceVideo.ImageSequenceVideo.Play | src/ofxImageSequenceVideo.cpp:196-199 | playback starts, unless nothing is loaded, in which case nothing changes |
| SequenceVideo.ImageSequenceVideo.Pause | src/ofxImageSequenceVideo.cpp:202-205 | playback stops, unless nothing is loaded, in which case nothing changes |

The object invariant `Valid()` holds after every method:

- the ring has 10 slots;
- the ring index is in [-1, 10), and -1 only before a load;
- once a sequence is loaded, the active table has `numFrames >= 2` records and the playhead is one
  of them.

## Left out

- Texture allocation and upload, `texFrameData` and `getTexture` (cpp:42-43, 73-87, 239-245): these
  are GPU calls. `shouldLoadTexture` is kept only as a flag.
- `drawDebug` (cpp:165-193): drawing only.
- Directory enumeration and extension filtering (cpp:23-32): the sorted list of file paths is an
  input of `LoadImageSequence`.
- Image decoding (`ofLoadImage`, cpp:159): pixels are a flag, and whether a decode produced pixels
  is a parameter of the completion event.
- Threads and futures:
  - a task is a pair (frame, done), and completion is the explicit method `CompleteTask`;
  - races between the playhead and a worker on the same record are not modelled, because every
    event is sequential here;
  - the header's `loadFrameThread` returns `LoadResults`, but the cpp body returns the frame
    index, which the model follows.
- Floating point: on-screen time and frame duration are exact reals. A frame rate of 0 is excluded
  on a successful load.
- Integer widths: `numThreads - tasks.size()` mixes `int` and `size_t`; it is taken as plain
  integer subtraction.
- The default worker count `std::thread::hardware_concurrency()` (h:32): `Setup` takes both
  arguments.
- `loadTime` is never written by the code, and `EventInfo` is never filled in. Notifications are
  an appended log of event names.
- The stub accessors and header methods without a body: `setPosition`, `getCurrentFrameNum`,
  `getNumFrames`, `arePixelsNew`, `getPixels`, `advanceOneFrame`, `seekToFrame`, `setLoop`,
  `getPosition`, `getCurrentFrame`, `setPlaybackFramerate`, `eraseAllPixelCache`, `advanceFrameInternal`,
  `handleLooping`, `handleScreenTimeCounters`, `eraseOutOfBufferPixelCache` and the destructor. They have no behaviour to
  model.
- The ring size: cpp:47 names the constant `maxFramePingPingDataStructs`, but h:21 declares
  `maxFramePingPongDataStructs = 10`. The model uses the declared value 10 (`FrameTable.RingSize`).
- Immediate (synchronous) loading: there is no code for it. Only the absence of tasks is stated
  (`ImmediateModeSpawnsNothing`).
- `Scheduler.Scan`: stops at the end of one lap instead of looping for ever (see Findings). When
  the as-written scan stops, both agree (`ScanAsWrittenFindsFirstFree`).
- `ThreadFinishedLoading` is never assigned. This is stated per operation (`FreshTable`,
  `StepKeepsStates`, `MarkLoadingKeepsStates`, and `LoadFrameThread` sets `Loaded`), not as part of
  the object invariant.

## Findings

| source | as written | input that shows it | evidently intended | confidence | as-written member | corrected member |
|---|---|---|---|---|---|---|
| src/ofxImageSequenceVideo.cpp:142-146 | each of the `numThreads - tasks.size()` rounds runs `while (frames[currentFrameSet][frameToLoad % numFrames].state != NOT_LOADED) frameToLoad++;` with no bound, so once every record is `LOADING` or `LOADED` the loop never ends | the first load of two files with the default three workers: rounds 1 and 2 spawn frames 0 and 1, and round 3 finds no `NOT_LOADED` record | scan at most one lap from the playhead; if no record is free, spawn nothing more in this call | not executed | Scheduler.TwoFramesThreeWorkersHang (with Scheduler.ScanAsWritten, Scheduler.ScanAsWrittenDiverges) | Scheduler.Scan (with Scheduler.NextFree) |
