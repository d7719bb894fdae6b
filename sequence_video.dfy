/** The player object: session state, the generation ring of frame tables,
    the outstanding decode tasks, and the operations the host calls (setup,
    load, update, play, pause) together with the completion of a background
    decode. */
module SequenceVideo {
  import opened FrameTable
  import opened Scheduler
  import opened Playback

  class ImageSequenceVideo {
    var loaded: bool
    var imgSequencePath: string
    /** The playhead. */
    var currentFrame: int
    /** Seconds the current frame has been on screen. */
    var frameOnScreenTime: real
    var numFrames: int
    /** Seconds per frame, `1 / frameRate`. */
    var frameDuration: real
    /** Whether the last update moved on to a new frame. */
    var newData: bool
    var playback: bool
    var shouldLoop: bool
    /** The generation ring: one frame table per ring slot. */
    const frames: array<seq<FrameInfo>>
    /** The slot of the active table; -1 before the first load. */
    var currentFrameSet: int
    var shouldLoadTexture: bool
    /** Outstanding background decodes, oldest first. */
    var tasks: seq<Task>
    var numBufferFrames: int
    var numThreads: int
    /** The notifications raised so far, in order. */
    var events: seq<Event>

    /** The object invariant: a ring of `RingSize` slots; once a sequence has
        been loaded, the active table has `numFrames` >= 2 records and the
        playhead is one of them. */
    ghost predicate Valid()
      reads this`loaded, this`currentFrameSet, this`numFrames, this`currentFrame, frames
    {
      && frames.Length == RingSize
      && -1 <= currentFrameSet < RingSize
      && (currentFrameSet == -1 ==> !loaded)
      && (currentFrameSet >= 0 ==>
            2 <= numFrames == |frames[currentFrameSet]| && 0 <= currentFrame < numFrames)
    }

    /** A new player: nothing loaded, not playing, looping, 8 frames of
        buffer, 3 workers, and the ring index before its first slot. */
    constructor ()
      ensures Valid() && fresh(frames)
      ensures !loaded && !playback && shouldLoop && !newData && shouldLoadTexture
      ensures currentFrame == 0 && frameOnScreenTime == 0.0 && numFrames == 0 && frameDuration == 0.0
      ensures numBufferFrames == 8 && numThreads == 3
      ensures currentFrameSet == -1 && tasks == [] && events == []
      ensures forall s :: 0 <= s < RingSize ==> frames[s] == []
    {
      loaded := false;
      imgSequencePath := "";
      currentFrame := 0;
      frameOnScreenTime := 0.0;
      numFrames := 0;
      frameDuration := 0.0;
      newData := false;
      playback := false;
      shouldLoop := true;
      frames := new seq<FrameInfo>[RingSize](_ => []);
      currentFrameSet := -1;
      shouldLoadTexture := true;
      tasks := [];
      numBufferFrames := 8;
      numThreads := 3;
      events := [];
    }

    /** Sets the look-ahead window and the worker count, in that order. */
    method Setup(bufferSize: int, numThreads: int)
      requires Valid()
      modifies this`numBufferFrames, this`numThreads
      ensures Valid()
      ensures this.numBufferFrames == bufferSize && this.numThreads == numThreads
    {
      this.numBufferFrames := bufferSize;
      this.numThreads := numThreads;
    }

    method SetUseTexture(useTex: bool)
      requires Valid()
      modifies this`shouldLoadTexture
      ensures Valid() && shouldLoadTexture == useTex
    {
      shouldLoadTexture := useTex;
    }

    /** Loads the sequence whose sorted image files are `listing`. With fewer
        than two files only `loaded` is cleared; otherwise see `Open`. */
    method LoadImageSequence(path: string, listing: seq<string>, frameRate: real)
      requires Valid()
      requires |listing| >= 2 ==> frameRate != 0.0
      modifies this`loaded, this`imgSequencePath, this`numFrames, this`frameDuration, this`currentFrame,
        this`frameOnScreenTime, this`newData, this`currentFrameSet, this`tasks, frames
      ensures Valid()
      ensures |listing| < 2 ==>
        && !loaded && currentFrameSet == old(currentFrameSet) && numFrames == old(numFrames)
        && currentFrame == old(currentFrame) && frameOnScreenTime == old(frameOnScreenTime)
        && newData == old(newData) && frameDuration == old(frameDuration)
        && imgSequencePath == old(imgSequencePath) && tasks == old(tasks)
        && forall s :: 0 <= s < RingSize ==> frames[s] == old(frames[s])
      ensures |listing| >= 2 ==>
        && loaded && imgSequencePath == path && numFrames == |listing| && frameDuration == 1.0 / frameRate
        && currentFrame == 0 && frameOnScreenTime == 0.0 && !newData
        && currentFrameSet == (old(currentFrameSet) + 1) % RingSize
        && SpawnOutcome(FreshTable(listing), currentFrame, numBufferFrames, numThreads, old(tasks),
                        frames[currentFrameSet], tasks)
        && forall s :: 0 <= s < RingSize && s != currentFrameSet ==> frames[s] == old(frames[s])
      ensures |listing| >= 2 && |old(tasks)| <= numThreads ==> |tasks| <= numThreads
    {
      if |listing| >= 2 {
        ResetSession(path, |listing|, frameRate);
        NextFrameSet(listing);
        HandleThreadSpawn();
      } else {
        loaded := false;
      }
    }

    /** Resets the session to the first frame of a sequence of `num` files. */
    method ResetSession(path: string, num: int, frameRate: real)
      requires frameRate != 0.0
      modifies this`loaded, this`imgSequencePath, this`numFrames, this`frameDuration, this`currentFrame,
        this`frameOnScreenTime, this`newData
      ensures loaded && imgSequencePath == path && numFrames == num && frameDuration == 1.0 / frameRate
      ensures currentFrame == 0 && frameOnScreenTime == 0.0 && !newData
    {
      loaded := true;
      imgSequencePath := path;
      numFrames := num;
      frameDuration := 1.0 / frameRate;
      currentFrame := 0;
      frameOnScreenTime := 0.0;
      newData := false;
    }

    /** Moves on to the next table of the ring and fills it with one fresh
        record per listed file; the other tables are left as they are. */
    method NextFrameSet(listing: seq<string>)
      requires frames.Length == RingSize && -1 <= currentFrameSet < RingSize
      modifies this`currentFrameSet, frames
      ensures currentFrameSet == (old(currentFrameSet) + 1) % RingSize
      ensures frames[currentFrameSet] == FreshTable(listing)
      ensures forall s :: 0 <= s < RingSize && s != currentFrameSet ==> frames[s] == old(frames[s])
    {
      currentFrameSet := currentFrameSet + 1;
      if currentFrameSet >= RingSize {
        currentFrameSet := 0;
      }
      var table := NamedTable(listing);
      frames[currentFrameSet] := table;
    }

    /** One tick of `dt` seconds. Nothing happens unless a sequence is
        loaded. Otherwise the transport step runs (see `Transport`), then
        finished tasks are dropped and the spawner runs from the new
        playhead. */
    method Update(dt: real)
      requires Valid()
      modifies this`currentFrame, this`frameOnScreenTime, this`newData, this`events, this`tasks, frames
      ensures Valid()
      ensures !old(loaded) ==> unchanged(this) && unchanged(frames)
      ensures old(loaded) ==>
        var r := Step(Clock(old(currentFrame), old(frameOnScreenTime)), old(frames[currentFrameSet]),
                      dt, frameDuration, playback, shouldLoop);
        && currentFrame == r.clock.frame && frameOnScreenTime == r.clock.onScreen && newData == r.newData
        && events == old(events) + r.events
        && SpawnOutcome(r.table, r.clock.frame, numBufferFrames, numThreads, Unfinished(old(tasks)),
                        frames[currentFrameSet], tasks)
      ensures |old(tasks)| <= numThreads ==> |tasks| <= numThreads
      ensures old(loaded) ==> forall s :: 0 <= s < RingSize && s != currentFrameSet ==> frames[s] == old(frames[s])
    {
      if !loaded {
        return;
      }
      Transport(dt);
      HandleThreadCleanup();
      HandleThreadSpawn();
    }

    /** The transport part of a loaded tick, on the active table (see
        `Playback.Step`): accumulate on-screen time while playing; once it
        reaches the frame duration, consume it, evict the frame being left,
        move on one frame and flag new data; then wrap or clamp the
        playhead, raising the looped or ended notification. */
    method Transport(dt: real)
      requires Valid() && loaded
      modifies this`currentFrame, this`frameOnScreenTime, this`newData, this`events, frames
      ensures Valid()
      ensures var r := Step(Clock(old(currentFrame), old(frameOnScreenTime)), old(frames[currentFrameSet]),
                            dt, frameDuration, playback, shouldLoop);
        && currentFrame == r.clock.frame && frameOnScreenTime == r.clock.onScreen && newData == r.newData
        && events == old(events) + r.events && frames[currentFrameSet] == r.table
      ensures forall s :: 0 <= s < RingSize && s != currentFrameSet ==> frames[s] == old(frames[s])
    {
      var slot := currentFrameSet;
      var table := frames[slot];
      var frame, onScreen, advanced, raised := currentFrame, frameOnScreenTime, false, [];

      if playback {
        frame := if frame < 0 then 0 else frame;
        onScreen := onScreen + dt;

        if onScreen >= frameDuration && (shouldLoop || (!shouldLoop && frame <= numFrames - 1)) {
          onScreen := onScreen - frameDuration;
          table := table[frame := table[frame].(state := NotLoaded)];
          if table[frame].hasPixels {
            // unload the pixels of the frame being left
            table := table[frame := table[frame].(hasPixels := false)];
          }
          frame := frame + 1;
          advanced := true;
          if !shouldLoop && frame == numFrames - 1 {
            raised := raised + [MovieEnded];
          }
        }
      }

      if shouldLoop {
        if frame >= numFrames {
          frame := 0;
          raised := raised + [MovieLooped];
        }
      } else {
        if frame >= numFrames {
          frame := numFrames - 1;
        }
      }
      currentFrame, frameOnScreenTime, newData, events := frame, onScreen, advanced, events + raised;
      frames[slot] := table;
    }

    /** Drops the finished tasks, scanning from the newest to the oldest;
        the running ones keep their order. */
    method HandleThreadCleanup()
      requires Valid()
      modifies this`tasks
      ensures Valid() && tasks == Unfinished(old(tasks))
    {
      tasks := Prune(tasks);
    }

    /** Hands free records to new tasks while workers are available (see
        `Scan`) and writes the marked table back into the active slot. */
    method HandleThreadSpawn()
      requires Valid() && currentFrameSet >= 0
      modifies this`tasks, frames
      ensures Valid()
      ensures SpawnOutcome(old(frames[currentFrameSet]), currentFrame, numBufferFrames, numThreads, old(tasks),
                           frames[currentFrameSet], tasks)
      ensures |old(tasks)| <= numThreads ==> |tasks| <= numThreads
      ensures forall s :: 0 <= s < RingSize && s != currentFrameSet ==> frames[s] == old(frames[s])
    {
      var t0 := frames[currentFrameSet];
      var table, started := Scan(t0, currentFrame, numBufferFrames, numThreads - |tasks|);
      SpawnedFacts(t0, currentFrame, numBufferFrames, numThreads - |tasks|);
      frames[currentFrameSet] := table;
      tasks := tasks + started;
    }

    /** The body of a background decode, run as the event that completes
        it: the pixels of `frame` are decoded (`decoded` says whether that
        produced pixels) into the table that is active NOW, the record is
        marked `Loaded` and the frame index is returned. */
    method LoadFrameThread(frame: int, decoded: bool) returns (r: int)
      requires Valid() && currentFrameSet >= 0 && 0 <= frame < |frames[currentFrameSet]|
      modifies frames
      ensures Valid() && r == frame
      ensures frames[currentFrameSet] ==
        old(frames[currentFrameSet])[frame := old(frames[currentFrameSet][frame]).(hasPixels := decoded, state := Loaded)]
      ensures forall s :: 0 <= s < RingSize && s != currentFrameSet ==> frames[s] == old(frames[s])
    {
      var slot := currentFrameSet;
      frames[slot] := frames[slot][frame := frames[slot][frame].(hasPixels := decoded)];
      frames[slot] := frames[slot][frame := frames[slot][frame].(state := Loaded)];
      r := frame;
    }

    /** Task `i` finishes: its decode writes into the active table and its
        future becomes ready. */
    method CompleteTask(i: int, decoded: bool)
      requires Valid() && 0 <= i < |tasks| && !tasks[i].done
      requires currentFrameSet >= 0 && 0 <= tasks[i].frame < |frames[currentFrameSet]|
      modifies this`tasks, frames
      ensures Valid()
      ensures tasks == old(tasks)[i := old(tasks)[i].(done := true)]
      ensures var f := old(tasks)[i].frame;
        frames[currentFrameSet] ==
          old(frames[currentFrameSet])[f := old(frames[currentFrameSet][f]).(hasPixels := decoded, state := Loaded)]
      ensures forall s :: 0 <= s < RingSize && s != currentFrameSet ==> frames[s] == old(frames[s])
    {
      var frame := LoadFrameThread(tasks[i].frame, decoded);
      tasks := tasks[i := tasks[i].(done := true)];
    }

    /** Starts playback; ignored while nothing is loaded. */
    method Play()
      requires Valid()
      modifies this`playback
      ensures Valid()
      ensures playback == (old(loaded) || old(playback))
    {
      if !loaded {
        return;
      }
      playback := true;
    }

    /** Stops playback; ignored while nothing is loaded. */
    method Pause()
      requires Valid()
      modifies this`playback
      ensures Valid()
      ensures playback == (!old(loaded) && old(playback))
    {
      if !loaded {
        return;
      }
      playback := false;
    }
  }
}
