/** The transport part of one player tick: on-screen time, the advance of
    the playhead, eviction of the frame it leaves, looping or clamping, and
    the two notifications. */
module Playback {
  import opened FrameTable

  /** The two notifications a tick can raise. */
  datatype Event = MovieLooped | MovieEnded

  /** The playhead and how long its frame has been on screen. */
  datatype Clock = Clock(frame: int, onScreen: real)

  /** What one tick leaves behind: the clock, whether a new frame is due,
      the frame table after eviction, and the notifications raised. */
  datatype Tick = Tick(clock: Clock, newData: bool, table: seq<FrameInfo>, events: seq<Event>)

  /** The playhead after a negative value is reset to the first frame. */
  function Start(frame: int): (r: int)
    ensures 0 <= r && (0 <= frame ==> r == frame)
  {
    if frame < 0 then 0 else frame
  }

  /** Where the playhead lands one frame after `f` in a table of `n`
      records: wrapped to 0 when looping, held at `n - 1` when not. */
  function Successor(f: int, n: int, loop: bool): (r: int)
    ensures 0 <= f < n ==> 0 <= r < n
  {
    if f + 1 < n then f + 1 else if loop then 0 else n - 1
  }

  /** The transport step of one loaded tick, for `dt` seconds: accumulate
      on-screen time while playing; once it reaches `duration`, consume one
      frame's time, evict the frame being left and move on one frame; then
      wrap or clamp. The advance does not look at the load state of any
      record. */
  function Step(c: Clock, table: seq<FrameInfo>, dt: real, duration: real, playing: bool, loop: bool): (r: Tick)
    requires 0 < |table| && c.frame < |table|
    ensures |r.table| == |table|
    // an advance happens exactly when playing and the accumulated time is due
    ensures r.newData <==> playing && c.onScreen + dt >= duration
    ensures playing ==> 0 <= r.clock.frame < |table|
    ensures !playing ==> r.clock == c && r.table == table && r.events == []
    ensures playing && !r.newData ==>
      r.clock == Clock(Start(c.frame), c.onScreen + dt) && r.table == table && r.events == []
    // at most one frame per tick, whatever dt is
    ensures r.newData ==>
      var f := Start(c.frame);
      && r.clock.onScreen == c.onScreen + dt - duration
      && r.clock.frame == Successor(f, |table|, loop)
      && r.table == table[f := Evicted(table[f])]
    // the looped event exactly when a looping playhead wraps; the ended event
    // exactly when a non-looping one lands on the last frame
    ensures r.events ==
      (if r.newData && !loop && Start(c.frame) + 1 == |table| - 1 then [MovieEnded] else [])
      + (if r.newData && loop && Start(c.frame) + 1 == |table| then [MovieLooped] else [])
  {
    var n := |table|;
    var (f, t, newData, table', ended) :=
      if !playing then
        (c.frame, c.onScreen, false, table, [])
      else
        var f := Start(c.frame);
        var t := c.onScreen + dt;
        if t >= duration && (loop || (!loop && f <= n - 1)) then
          (f + 1, t - duration, true, table[f := Evicted(table[f])],
           if !loop && f + 1 == n - 1 then [MovieEnded] else [])
        else
          (f, t, false, table, []);
    if loop && f >= n then
      Tick(Clock(0, t), newData, table', ended + [MovieLooped])
    else if !loop && f >= n then
      Tick(Clock(n - 1, t), newData, table', ended)
    else
      Tick(Clock(f, t), newData, table', ended)
  }

  /** The clock and the notifications of a tick do not depend on the load
      state of the records: the playhead does not wait for its frame. */
  lemma StepIgnoresLoadState(c: Clock, t1: seq<FrameInfo>, t2: seq<FrameInfo>, dt: real, duration: real,
                             playing: bool, loop: bool)
    requires 0 < |t1| == |t2| && c.frame < |t1|
    ensures Step(c, t1, dt, duration, playing, loop).clock == Step(c, t2, dt, duration, playing, loop).clock
    ensures Step(c, t1, dt, duration, playing, loop).events == Step(c, t2, dt, duration, playing, loop).events
  {
  }

  /** The transport step never puts a record into the never-assigned
      `ThreadFinishedLoading` state. */
  lemma StepKeepsStates(c: Clock, table: seq<FrameInfo>, dt: real, duration: real, playing: bool, loop: bool)
    requires 0 < |table| && c.frame < |table| && NoFinishedState(table)
    ensures NoFinishedState(Step(c, table, dt, duration, playing, loop).table)
  {
  }

  /** A non-looping playhead on the last frame keeps advancing: each due
      tick evicts the last frame, flags new data and lands on it again,
      without a notification. */
  lemma LastFrameKeepsEvicting(c: Clock, table: seq<FrameInfo>, dt: real, duration: real)
    requires 0 < |table| && c.frame == |table| - 1 && c.onScreen + dt >= duration
    ensures var r := Step(c, table, dt, duration, true, false);
      && r.clock.frame == |table| - 1 && r.newData && r.events == []
      && r.table[|table| - 1].state == NotLoaded && !r.table[|table| - 1].hasPixels
  {
  }

  // ---------------------------------------------------------------------
  // Many ticks
  // ---------------------------------------------------------------------

  /** A run of ticks with the given time steps; the table is threaded
      through, the notifications are collected in order, and the new-data
      flag is that of the last tick (the player clears it on every tick). */
  function Run(c: Clock, table: seq<FrameInfo>, dts: seq<real>, duration: real, playing: bool, loop: bool): (r: Tick)
    requires 0 < |table| && c.frame < |table|
    ensures |r.table| == |table| && r.clock.frame < |table|
    ensures playing && (0 <= c.frame || dts != []) ==> 0 <= r.clock.frame
    decreases |dts|
  {
    if dts == [] then Tick(c, false, table, [])
    else
      var s := Step(c, table, dts[0], duration, playing, loop);
      var r := Run(s.clock, s.table, dts[1..], duration, playing, loop);
      Tick(r.clock, if dts[1..] == [] then s.newData else r.newData, r.table, s.events + r.events)
  }

  /** A run of ticks as the player performs them: after the transport of
      tick `i`, cleanup, the spawner and finished decodes leave the table
      `between[i]`, of the same length, which the next tick starts from. */
  function RunAmid(c: Clock, table: seq<FrameInfo>, between: seq<seq<FrameInfo>>, dts: seq<real>,
                   duration: real, playing: bool, loop: bool): (r: Tick)
    requires 0 < |table| && c.frame < |table|
    requires |between| == |dts| && forall i :: 0 <= i < |between| ==> |between[i]| == |table|
    ensures |r.table| == |table|
    decreases |dts|
  {
    if dts == [] then Tick(c, false, table, [])
    else
      var s := Step(c, table, dts[0], duration, playing, loop);
      var r := RunAmid(s.clock, between[0], between[1..], dts[1..], duration, playing, loop);
      Tick(r.clock, if dts[1..] == [] then s.newData else r.newData, r.table, s.events + r.events)
  }

  /** Whatever happens to the table between ticks, the playhead, the
      new-data flag and the notifications of the run are those of `Run`:
      the lemmas about `Run` hold of the player's ticks. */
  lemma {:induction false} RunAmidIsRun(c: Clock, table: seq<FrameInfo>, between: seq<seq<FrameInfo>>,
                                        other: seq<FrameInfo>, dts: seq<real>,
                                        duration: real, playing: bool, loop: bool)
    requires 0 < |table| && c.frame < |table| && |other| == |table|
    requires |between| == |dts| && forall i :: 0 <= i < |between| ==> |between[i]| == |table|
    ensures var a := RunAmid(c, table, between, dts, duration, playing, loop);
      var r := Run(c, other, dts, duration, playing, loop);
      a.clock == r.clock && a.newData == r.newData && a.events == r.events
    decreases |dts|
  {
    if dts != [] {
      StepIgnoresLoadState(c, table, other, dts[0], duration, playing, loop);
      var s := Step(c, other, dts[0], duration, playing, loop);
      RunAmidIsRun(s.clock, between[0], between[1..], s.table, dts[1..], duration, playing, loop);
    }
  }

  /** Number of occurrences of `e` in `es`. */
  function Count(es: seq<Event>, e: Event): nat
  {
    if es == [] then 0 else (if es[0] == e then 1 else 0) + Count(es[1..], e)
  }

  lemma {:induction false} CountAppend(a: seq<Event>, b: seq<Event>, e: Event)
    ensures Count(a + b, e) == Count(a, e) + Count(b, e)
  {
    if a == [] {
      assert a + b == b;
    } else {
      assert (a + b)[1..] == a[1..] + b;
      CountAppend(a[1..], b, e);
    }
  }

  /** A non-looping run never moves the playhead back, moves it at most one
      frame per tick, and never raises the looped event. */
  lemma {:induction false} RunWithoutLoopProgress(c: Clock, table: seq<FrameInfo>, dts: seq<real>, duration: real)
    requires 0 < |table| && 0 <= c.frame < |table|
    ensures var r := Run(c, table, dts, duration, true, false);
      c.frame <= r.clock.frame <= c.frame + |dts| && Count(r.events, MovieLooped) == 0
    decreases |dts|
  {
    if dts != [] {
      var s := Step(c, table, dts[0], duration, true, false);
      RunWithoutLoopProgress(s.clock, s.table, dts[1..], duration);
      CountAppend(s.events, Run(s.clock, s.table, dts[1..], duration, true, false).events, MovieLooped);
    }
  }

  /** From the last frame, a non-looping run raises no ended event. */
  lemma {:induction false} NoEndedFromLastFrame(c: Clock, table: seq<FrameInfo>, dts: seq<real>, duration: real)
    requires 0 < |table| && c.frame == |table| - 1
    ensures Count(Run(c, table, dts, duration, true, false).events, MovieEnded) == 0
    decreases |dts|
  {
    if dts != [] {
      var s := Step(c, table, dts[0], duration, true, false);
      NoEndedFromLastFrame(s.clock, s.table, dts[1..], duration);
      CountAppend(s.events, Run(s.clock, s.table, dts[1..], duration, true, false).events, MovieEnded);
    }
  }

  /** A non-looping run raises the ended event at most once, however many
      ticks it has. */
  lemma {:induction false} EndedAtMostOnce(c: Clock, table: seq<FrameInfo>, dts: seq<real>, duration: real)
    requires 0 < |table| && 0 <= c.frame < |table|
    ensures Count(Run(c, table, dts, duration, true, false).events, MovieEnded) <= 1
    decreases |dts|
  {
    if dts != [] {
      var s := Step(c, table, dts[0], duration, true, false);
      var rest := Run(s.clock, s.table, dts[1..], duration, true, false);
      CountAppend(s.events, rest.events, MovieEnded);
      if s.events == [MovieEnded] {
        NoEndedFromLastFrame(s.clock, s.table, dts[1..], duration);
      } else {
        EndedAtMostOnce(s.clock, s.table, dts[1..], duration);
      }
    }
  }

  /** The player, whatever its workers do between ticks, raises the ended
      notification at most once in a non-looping run. */
  lemma RunAmidEndedAtMostOnce(c: Clock, table: seq<FrameInfo>, between: seq<seq<FrameInfo>>, dts: seq<real>,
                               duration: real)
    requires 0 < |table| && 0 <= c.frame < |table|
    requires |between| == |dts| && forall i :: 0 <= i < |between| ==> |between[i]| == |table|
    ensures Count(RunAmid(c, table, between, dts, duration, true, false).events, MovieEnded) <= 1
  {
    RunAmidIsRun(c, table, between, table, dts, duration, true, false);
    EndedAtMostOnce(c, table, dts, duration);
  }

  /** A looping run never raises the ended event, and raises the looped
      event at most once per tick. */
  lemma {:induction false} RunWithLoopEvents(c: Clock, table: seq<FrameInfo>, dts: seq<real>, duration: real)
    requires 0 < |table| && c.frame < |table|
    ensures var r := Run(c, table, dts, duration, true, true);
      Count(r.events, MovieEnded) == 0 && Count(r.events, MovieLooped) <= |dts|
    decreases |dts|
  {
    if dts != [] {
      var s := Step(c, table, dts[0], duration, true, true);
      RunWithLoopEvents(s.clock, s.table, dts[1..], duration);
      CountAppend(s.events, Run(s.clock, s.table, dts[1..], duration, true, true).events, MovieEnded);
      CountAppend(s.events, Run(s.clock, s.table, dts[1..], duration, true, true).events, MovieLooped);
    }
  }
}
