/** The worker scheduler: which frames the spawner hands to background
    tasks, what becomes of the table when it does, and which tasks the
    cleanup step drops. */
module Scheduler {
  import opened FrameTable

  /** An outstanding background decode of frame `frame`; `done` once its
      future is ready. */
  datatype Task = Task(frame: int, done: bool)

  datatype Option<T> = None | Some(value: T)

  // ---------------------------------------------------------------------
  // Cleanup
  // ---------------------------------------------------------------------

  /** The tasks still running, in their original order. */
  function Unfinished(ts: seq<Task>): (r: seq<Task>)
    ensures |r| <= |ts|
  {
    if ts == [] then []
    else (if ts[0].done then [] else [ts[0]]) + Unfinished(ts[1..])
  }

  /** Every task cleanup keeps is still running. */
  lemma {:induction false} UnfinishedAreRunning(ts: seq<Task>)
    ensures forall i :: 0 <= i < |Unfinished(ts)| ==> !Unfinished(ts)[i].done
  {
    if ts != [] {
      UnfinishedAreRunning(ts[1..]);
    }
  }

  /** Cleanup invents no task ... */
  lemma {:induction false} UnfinishedFromInput(ts: seq<Task>, t: Task)
    requires t in Unfinished(ts)
    ensures t in ts && !t.done
  {
    if !(ts[0] == t && !ts[0].done) {
      UnfinishedFromInput(ts[1..], t);
    }
  }

  /** ... keeps every running task ... */
  lemma {:induction false} UnfinishedKeepsPending(ts: seq<Task>, t: Task)
    requires t in ts && !t.done
    ensures t in Unfinished(ts)
  {
    if ts[0] != t {
      UnfinishedKeepsPending(ts[1..], t);
    }
  }

  /** ... and keeps their relative order: it distributes over concatenation. */
  lemma {:induction false} UnfinishedAppend(a: seq<Task>, b: seq<Task>)
    ensures Unfinished(a + b) == Unfinished(a) + Unfinished(b)
  {
    if a == [] {
      assert a + b == b;
    } else {
      assert (a + b)[1..] == a[1..] + b;
      UnfinishedAppend(a[1..], b);
    }
  }

  /** Unfolds `Unfinished` on a suffix. */
  lemma UnfinishedStep(ts: seq<Task>, i: int)
    requires 0 <= i < |ts|
    ensures Unfinished(ts[i..]) == (if ts[i].done then [] else [ts[i]]) + Unfinished(ts[i + 1..])
  {
    assert ts[i..][1..] == ts[i + 1..];
  }

  /** With no finished task, cleanup changes nothing. */
  lemma {:induction false} UnfinishedOfPending(ts: seq<Task>)
    requires forall i :: 0 <= i < |ts| ==> !ts[i].done
    ensures Unfinished(ts) == ts
  {
    if ts != [] {
      UnfinishedOfPending(ts[1..]);
    }
  }

  /** The task list of the cleanup loop once the tasks from `i` on have
      been looked at: the older ones untouched, the rest cleaned. */
  ghost function PrunedFrom(ts: seq<Task>, i: int): seq<Task>
    requires 0 <= i <= |ts|
  {
    ts[..i] + Unfinished(ts[i..])
  }

  /** One round of the cleanup loop on index `i`: erasing task `i` when it
      is finished extends the cleaned suffix by one task. */
  lemma PruneStep(ts: seq<Task>, r: seq<Task>, i: int)
    requires 0 <= i < |ts| && r == PrunedFrom(ts, i + 1)
    ensures |r| > i && r[i] == ts[i]
    ensures (if r[i].done then r[..i] + r[i + 1..] else r) == PrunedFrom(ts, i)
  {
    UnfinishedStep(ts, i);
    assert r[..i] == ts[..i] && r[i] == ts[i] && r[i + 1..] == Unfinished(ts[i + 1..]);
    assert ts[..i + 1] == ts[..i] + [ts[i]];
  }

  /** Before the first round nothing has been cleaned ... */
  lemma PruneStart(ts: seq<Task>)
    ensures PrunedFrom(ts, |ts|) == ts
  {
    assert ts[|ts|..] == [];
  }

  /** ... and after the last one everything has. */
  lemma PruneEnd(ts: seq<Task>)
    ensures PrunedFrom(ts, 0) == Unfinished(ts)
  {
    assert ts[..0] == [] && ts[0..] == ts;
  }

  /** The cleanup loop: scans from the newest task to the oldest, erasing
      each finished one. */
  method Prune(ts: seq<Task>) returns (r: seq<Task>)
    ensures r == Unfinished(ts)
  {
    r := ts;
    var i := |ts| - 1;
    PruneStart(ts);
    while i >= 0
      invariant -1 <= i < |ts|
      invariant r == PrunedFrom(ts, i + 1)
      decreases i + 1
    {
      PruneStep(ts, r, i);
      if r[i].done {
        r := r[..i] + r[i + 1..];
      }
      i := i - 1;
    }
    PruneEnd(ts);
  }

  // ---------------------------------------------------------------------
  // Spawning
  // ---------------------------------------------------------------------

  /** The table index of the unwrapped index `p` of a lap that starts
      inside a table of `n` records, that is `p % n` for `0 <= p < 2 * n`,
      written without the division. */
  function Slot(p: int, n: int): int
  {
    if p < n then p else p - n
  }

  /** `Slot` is the remainder the spawner computes. */
  lemma SlotIsMod(p: int, n: int)
    requires 0 <= p < 2 * n
    ensures p % n == Slot(p, n)
  {
    if p >= n {
      var q := p / n;
      assert p == q * n + p % n;
      if q <= 0 {
        MulNonPositive(q, n);
      } else if q >= 2 {
        MulAtLeast(q - 1, n);
      }
      assert q == 1;
    }
  }

  lemma MulNonPositive(d: int, n: int)
    requires d <= 0 && n > 0
    ensures d * n <= 0
  {
  }

  lemma MulAtLeast(d: int, n: int)
    requires d >= 1 && n > 0
    ensures d * n >= n
  {
  }

  /** Load state of the record that the unwrapped index `p` denotes. */
  function StateAt(t: seq<FrameInfo>, p: int): PixelState
    requires 0 <= p < 2 * |t|
  {
    t[Slot(p, |t|)].state
  }

  /** Unwrapped indices `start + j`, `j` from `from` up to one full lap,
      whose record is `NotLoaded`, in scan order. */
  function Candidates(t: seq<FrameInfo>, start: int, from: nat): (c: seq<int>)
    requires 0 <= start < |t| && from <= |t|
    ensures |c| <= |t| - from
    decreases |t| - from
  {
    if from >= |t| then
      []
    else
      (if StateAt(t, start + from) == NotLoaded then [start + from] else []) + Candidates(t, start, from + 1)
  }

  /** Length of the longest prefix of `c` below `bound`. */
  function CountBelow(c: seq<int>, bound: int): (k: nat)
    ensures k <= |c|
  {
    if c == [] || c[0] >= bound then 0 else 1 + CountBelow(c[1..], bound)
  }

  /** The unwrapped indices the spawner hands out, in order: the first free
      records of the lap from `start`, as long as they lie below
      `start + window`, and at most `numToSpawn` of them. */
  function SpawnedUnwrapped(t: seq<FrameInfo>, start: int, window: int, numToSpawn: int): seq<int>
    requires 0 <= start < |t|
  {
    var c := Candidates(t, start, 0);
    c[..SpawnCount(c, start + window, numToSpawn)]
  }

  /** Reduces unwrapped indices of a lap to table indices. */
  function Wrap(u: seq<int>, n: int): (s: seq<int>)
    ensures |s| == |u| && forall i :: 0 <= i < |s| ==> s[i] == Slot(u[i], n)
  {
    if u == [] then [] else Wrap(u[..|u| - 1], n) + [Slot(u[|u| - 1], n)]
  }

  /** The table indices the spawner hands to new tasks, in order. */
  function Spawned(t: seq<FrameInfo>, start: int, window: int, numToSpawn: int): seq<int>
    requires 0 <= start < |t|
  {
    Wrap(SpawnedUnwrapped(t, start, window, numToSpawn), |t|)
  }

  /** One pending task per spawned index, in order. */
  function NewTasks(xs: seq<int>): (ts: seq<Task>)
    ensures |ts| == |xs| && forall i :: 0 <= i < |ts| ==> ts[i] == Task(xs[i], false)
  {
    if xs == [] then [] else NewTasks(xs[..|xs| - 1]) + [Task(xs[|xs| - 1], false)]
  }

  /** The table after the records at `xs` are set to `Loading`; an index
      outside the table marks nothing. */
  function MarkLoading(t: seq<FrameInfo>, xs: seq<int>): (r: seq<FrameInfo>)
    ensures |r| == |t|
    decreases |xs|
  {
    if xs == [] then t
    else
      var r0 := MarkLoading(t, xs[..|xs| - 1]);
      var x := xs[|xs| - 1];
      if 0 <= x < |r0| then r0[x := r0[x].(state := Loading)] else r0
  }

  /** Marking changes exactly the listed records, and only their state. */
  lemma {:induction false} MarkLoadingAt(t: seq<FrameInfo>, xs: seq<int>, j: int)
    requires 0 <= j < |t|
    ensures MarkLoading(t, xs)[j] == if j in xs then t[j].(state := Loading) else t[j]
    decreases |xs|
  {
    if xs != [] {
      var init := xs[..|xs| - 1];
      MarkLoadingAt(t, init, j);
      assert xs == init + [xs[|xs| - 1]];
      assert j in xs <==> j in init || j == xs[|xs| - 1];
    }
  }

  /** Marking keeps the never-assigned state out of the table. */
  lemma MarkLoadingKeepsStates(t: seq<FrameInfo>, xs: seq<int>)
    requires NoFinishedState(t)
    ensures NoFinishedState(MarkLoading(t, xs))
  {
    forall j | 0 <= j < |t| ensures MarkLoading(t, xs)[j].state != ThreadFinishedLoading {
      MarkLoadingAt(t, xs, j);
    }
  }

  /** One step of the lap: the record at `start + from`, if free, then the rest. */
  lemma CandidatesUnfold(t: seq<FrameInfo>, start: int, from: nat)
    requires 0 <= start < |t| && from < |t|
    ensures Candidates(t, start, from) ==
      (if StateAt(t, start + from) == NotLoaded then [start + from] else []) + Candidates(t, start, from + 1)
  {
  }

  /** Every candidate lies in the rest of the lap and names a free record. */
  lemma {:induction false} CandidatesInLap(t: seq<FrameInfo>, start: int, from: nat)
    requires 0 <= start < |t| && from <= |t|
    ensures var c := Candidates(t, start, from);
      forall i :: 0 <= i < |c| ==> start + from <= c[i] < start + |t| && StateAt(t, c[i]) == NotLoaded
    decreases |t| - from
  {
    if from < |t| {
      CandidatesInLap(t, start, from + 1);
      CandidatesUnfold(t, start, from);
    }
  }

  /** The candidates come in scan order. */
  lemma {:induction false} CandidatesOrdered(t: seq<FrameInfo>, start: int, from: nat)
    requires 0 <= start < |t| && from <= |t|
    ensures var c := Candidates(t, start, from);
      forall i, k :: 0 <= i < k < |c| ==> c[i] < c[k]
    decreases |t| - from
  {
    if from < |t| {
      CandidatesOrdered(t, start, from + 1);
      CandidatesInLap(t, start, from + 1);
      CandidatesUnfold(t, start, from);
    }
  }

  /** Every free record of the rest of the lap is a candidate. */
  lemma {:induction false} CandidatesComplete(t: seq<FrameInfo>, start: int, from: nat)
    requires 0 <= start < |t| && from <= |t|
    ensures var c := Candidates(t, start, from);
      forall p :: start + from <= p < start + |t| && StateAt(t, p) == NotLoaded ==> p in c
    decreases |t| - from
  {
    if from < |t| {
      CandidatesComplete(t, start, from + 1);
      CandidatesUnfold(t, start, from);
    }
  }

  /** The candidates are exactly the free records of the lap, in scan order. */
  lemma CandidatesFacts(t: seq<FrameInfo>, start: int, from: nat)
    requires 0 <= start < |t| && from <= |t|
    ensures var c := Candidates(t, start, from);
      && (forall i :: 0 <= i < |c| ==> start + from <= c[i] < start + |t| && StateAt(t, c[i]) == NotLoaded)
      && (forall i, k :: 0 <= i < k < |c| ==> c[i] < c[k])
      && (forall p :: start + from <= p < start + |t| && StateAt(t, p) == NotLoaded ==> p in c)
  {
    CandidatesInLap(t, start, from);
    CandidatesOrdered(t, start, from);
    CandidatesComplete(t, start, from);
  }

  /** `CountBelow` gives the prefix below the bound, and stops at the first
      element that is not. */
  lemma {:induction false} CountBelowFacts(c: seq<int>, bound: int)
    ensures forall j :: 0 <= j < CountBelow(c, bound) ==> c[j] < bound
    ensures CountBelow(c, bound) < |c| ==> c[CountBelow(c, bound)] >= bound
  {
    if c != [] && c[0] < bound {
      CountBelowFacts(c[1..], bound);
    }
  }

  /** A prefix below the bound that is followed by an element at or above it
      (or by nothing) is what `CountBelow` finds. */
  lemma {:induction false} CountBelowExact(c: seq<int>, bound: int, k: nat)
    requires k <= |c|
    requires forall j :: 0 <= j < k ==> c[j] < bound
    requires k == |c| || c[k] >= bound
    ensures CountBelow(c, bound) == k
  {
    if k > 0 {
      CountBelowExact(c[1..], bound, k - 1);
    }
  }

  /** `c` lists the free records of the lap from `start`, in scan order. */
  ghost predicate IsLap(t: seq<FrameInfo>, start: int, c: seq<int>)
    requires 0 <= start < |t|
  {
    && (forall i :: 0 <= i < |c| ==> start <= c[i] < start + |t| && StateAt(t, c[i]) == NotLoaded)
    && (forall i, j :: 0 <= i < j < |c| ==> c[i] < c[j])
    && (forall p :: start <= p < start + |t| && StateAt(t, p) == NotLoaded ==> p in c)
  }

  /** The candidates are a listing of the lap. */
  lemma CandidatesIsLap(t: seq<FrameInfo>, start: int)
    requires 0 <= start < |t|
    ensures IsLap(t, start, Candidates(t, start, 0))
  {
    CandidatesFacts(t, start, 0);
  }

  /** Every lap has a listing. */
  lemma LapListing(t: seq<FrameInfo>, start: int) returns (c: seq<int>)
    requires 0 <= start < |t|
    ensures IsLap(t, start, c)
  {
    c := Candidates(t, start, 0);
    CandidatesIsLap(t, start);
  }

  /** Two strictly increasing lists with the same elements start alike. */
  lemma IncreasingHeads(c: seq<int>, d: seq<int>)
    requires c != [] && d != []
    requires forall i, j :: 0 <= i < j < |c| ==> c[i] < c[j]
    requires forall i, j :: 0 <= i < j < |d| ==> d[i] < d[j]
    requires c[0] in d && d[0] in c
    ensures c[0] == d[0]
  {
    var j :| 0 <= j < |d| && d[j] == c[0];
    var i :| 0 <= i < |c| && c[i] == d[0];
    assert c[0] <= c[i] && d[0] <= d[j];
  }

  /** Past an equal head, two strictly increasing lists with the same
      elements have tails with the same elements. */
  lemma IncreasingTails(c: seq<int>, d: seq<int>, x: int)
    requires c != [] && d != [] && c[0] == d[0]
    requires forall i, j :: 0 <= i < j < |c| ==> c[i] < c[j]
    requires forall i, j :: 0 <= i < j < |d| ==> d[i] < d[j]
    requires x in c <==> x in d
    ensures x in c[1..] <==> x in d[1..]
  {
    if x in c[1..] {
      var a :| 1 <= a < |c| && c[a] == x;
      assert c[0] < c[a];
      var b :| 0 <= b < |d| && d[b] == x;
      assert b != 0;
      assert d[1..][b - 1] == x;
    }
    if x in d[1..] {
      var b :| 1 <= b < |d| && d[b] == x;
      assert d[0] < d[b];
      var a :| 0 <= a < |c| && c[a] == x;
      assert a != 0;
      assert c[1..][a - 1] == x;
    }
  }

  /** Two strictly increasing lists with the same elements are equal. */
  lemma {:induction false} IncreasingUnique(c: seq<int>, d: seq<int>)
    requires forall i, j :: 0 <= i < j < |c| ==> c[i] < c[j]
    requires forall i, j :: 0 <= i < j < |d| ==> d[i] < d[j]
    requires forall x :: x in c <==> x in d
    ensures c == d
    decreases |c|
  {
    if c != [] {
      assert c[0] in c;
    }
    if d != [] {
      assert d[0] in d;
    }
    if c != [] && d != [] {
      IncreasingHeads(c, d);
      forall x
        ensures x in c[1..] <==> x in d[1..]
      {
        IncreasingTails(c, d, x);
      }
      IncreasingUnique(c[1..], d[1..]);
      assert c == [c[0]] + c[1..] && d == [d[0]] + d[1..];
    }
  }

  /** The free records of the lap have exactly one listing: the candidates. */
  lemma LapIsCandidates(t: seq<FrameInfo>, start: int, c: seq<int>)
    requires 0 <= start < |t| && IsLap(t, start, c)
    ensures c == Candidates(t, start, 0)
  {
    var d := Candidates(t, start, 0);
    CandidatesIsLap(t, start);
    forall x
      ensures x in c <==> x in d
    {
      if x in c {
        var i :| 0 <= i < |c| && c[i] == x;
      }
      if x in d {
        var i :| 0 <= i < |d| && d[i] == x;
      }
    }
    IncreasingUnique(c, d);
  }

  /** A prefix of a lap listing that lies below `bound` is in the lap and
      below the bound, names free records at the remainders the spawner
      computes, comes in scan order and names pairwise distinct records. */
  lemma LapPrefixFacts(t: seq<FrameInfo>, start: int, c: seq<int>, m: nat, bound: int)
    requires 0 <= start < |t| && IsLap(t, start, c) && m <= |c|
    requires forall j :: 0 <= j < m ==> c[j] < bound
    ensures var u := c[..m];
      var s := Wrap(u, |t|);
      && |s| == |u| == m
      && (forall i :: 0 <= i < |u| ==>
            start <= u[i] < start + |t| && u[i] < bound && s[i] == u[i] % |t|
            && 0 <= s[i] < |t| && t[s[i]].state == NotLoaded)
      && (forall i, k :: 0 <= i < k < |u| ==> u[i] < u[k] && s[i] != s[k])
  {
    var u := c[..m];
    forall i | 0 <= i < |u|
      ensures u[i] % |t| == Slot(u[i], |t|)
    {
      SlotIsMod(u[i], |t|);
    }
  }

  /** The number of records the spawner takes from the candidates. */
  function SpawnCount(c: seq<int>, bound: int, numToSpawn: int): (m: nat)
    ensures m <= |c|
  {
    var k := CountBelow(c, bound);
    if numToSpawn < k then (if numToSpawn < 0 then 0 else numToSpawn) else k
  }

  /** The spawned unwrapped indices are a prefix of a lap listing: its first
      `SpawnCount` elements. */
  lemma SpawnedPrefix(t: seq<FrameInfo>, start: int, window: int, numToSpawn: int) returns (c: seq<int>)
    requires 0 <= start < |t|
    ensures IsLap(t, start, c)
    ensures SpawnedUnwrapped(t, start, window, numToSpawn) == c[..SpawnCount(c, start + window, numToSpawn)]
  {
    c := Candidates(t, start, 0);
    CandidatesIsLap(t, start);
  }

  /** Every spawned record lies in the lap and the window, was free, and the
      spawned indices come in scan order and name pairwise distinct
      records; never more than `numToSpawn` of them (none if it is not
      positive). */
  lemma SpawnedFacts(t: seq<FrameInfo>, start: int, window: int, numToSpawn: int)
    requires 0 <= start < |t|
    ensures var u := SpawnedUnwrapped(t, start, window, numToSpawn);
      var s := Spawned(t, start, window, numToSpawn);
      && |s| == |u| <= (if numToSpawn < 0 then 0 else numToSpawn)
      && (forall i :: 0 <= i < |u| ==>
            start <= u[i] < start + |t| && u[i] < start + window && s[i] == u[i] % |t|
            && 0 <= s[i] < |t| && t[s[i]].state == NotLoaded)
      && (forall i, k :: 0 <= i < k < |u| ==> u[i] < u[k] && s[i] != s[k])
  {
    var c := SpawnedPrefix(t, start, window, numToSpawn);
    CountBelowFacts(c, start + window);
    LapPrefixFacts(t, start, c, SpawnCount(c, start + window, numToSpawn), start + window);
  }

  /** A free record of the lap met before the `i`-th element of a listing
      is among its first `i` elements. */
  lemma FirstInLap(t: seq<FrameInfo>, start: int, c: seq<int>, m: nat, i: int, p: int)
    requires 0 <= start < |t| && IsLap(t, start, c) && m <= |c| && 0 <= i < m
    requires start <= p < c[i] && p < start + |t| && StateAt(t, p) == NotLoaded
    ensures p in c[..m][..i]
  {
    var j := LapIndexOf(t, start, c, p);
    IncreasingIndex(c, j, i);
    assert c[..m][..i][j] == p;
  }

  /** The spawned records are the FIRST free ones of the scan: every free
      record met earlier in the lap was spawned too. */
  lemma SpawnedAreFirst(t: seq<FrameInfo>, start: int, window: int, numToSpawn: int, i: int, p: int)
    requires 0 <= start < |t|
    requires 0 <= i < |SpawnedUnwrapped(t, start, window, numToSpawn)|
    requires start <= p < SpawnedUnwrapped(t, start, window, numToSpawn)[i] && p < start + |t|
    requires StateAt(t, p) == NotLoaded
    ensures p in SpawnedUnwrapped(t, start, window, numToSpawn)[..i]
  {
    var c := SpawnedPrefix(t, start, window, numToSpawn);
    FirstInLap(t, start, c, SpawnCount(c, start + window, numToSpawn), i, p);
  }

  /** A free record of the lap below `bound` is among the elements
      `SpawnCount` takes from a listing, unless the worker count cut it
      short. */
  lemma MaximalInLap(t: seq<FrameInfo>, start: int, c: seq<int>, bound: int, numToSpawn: int, p: int)
    requires 0 <= start < |t| && IsLap(t, start, c)
    requires SpawnCount(c, bound, numToSpawn) < numToSpawn
    requires start <= p < start + |t| && p < bound && StateAt(t, p) == NotLoaded
    ensures p in c[..SpawnCount(c, bound, numToSpawn)]
  {
    var j := LapIndexOf(t, start, c, p);
    var k := CountBelow(c, bound);
    CountBelowFacts(c, bound);
    if k < |c| {
      IncreasingIndex(c, j, k);
    }
    assert c[..k][j] == p;
  }

  /** If fewer than `numToSpawn` tasks were spawned, no free record of the
      lap inside the window was left behind. */
  lemma SpawnedIsMaximal(t: seq<FrameInfo>, start: int, window: int, numToSpawn: int, p: int)
    requires 0 <= start < |t|
    requires |SpawnedUnwrapped(t, start, window, numToSpawn)| < numToSpawn
    requires start <= p < start + |t| && p < start + window && StateAt(t, p) == NotLoaded
    ensures p in SpawnedUnwrapped(t, start, window, numToSpawn)
  {
    var c := SpawnedPrefix(t, start, window, numToSpawn);
    MaximalInLap(t, start, c, start + window, numToSpawn, p);
  }

  /** What one run of the spawner makes of the table `t0` and the task list
      `tasks0` when the playhead is at `start`: the table `t1` with the
      spawned records marked `Loading`, and the task list `tasks1` with one
      new task per spawned record appended. */
  ghost predicate SpawnOutcome(t0: seq<FrameInfo>, start: int, window: int, numThreads: int, tasks0: seq<Task>,
                               t1: seq<FrameInfo>, tasks1: seq<Task>)
    requires 0 <= start < |t0|
  {
    var sp := Spawned(t0, start, window, numThreads - |tasks0|);
    t1 == MarkLoading(t0, sp) && tasks1 == tasks0 + NewTasks(sp)
  }

  /** The spawner never pushes the task count past the worker count. */
  lemma SpawnKeepsTaskBound(t: seq<FrameInfo>, start: int, window: int, numThreads: int, numTasks: nat)
    requires 0 <= start < |t| && numTasks <= numThreads
    ensures numTasks + |Spawned(t, start, window, numThreads - numTasks)| <= numThreads
  {
    SpawnedFacts(t, start, window, numThreads - numTasks);
  }

  /** With no workers configured and no task outstanding, nothing is spawned. */
  lemma ImmediateModeSpawnsNothing(t: seq<FrameInfo>, start: int, window: int, numThreads: int, numTasks: nat)
    requires 0 <= start < |t| && numThreads == 0 && numTasks == 0
    ensures Spawned(t, start, window, numThreads - numTasks) == []
  {
    SpawnedFacts(t, start, window, numThreads - numTasks);
  }

  // ---------------------------------------------------------------------
  // Facts the spawner's loop relies on
  // ---------------------------------------------------------------------

  /** Where the scan stops next once `k` candidates are spawned. */
  function NextStop(c: seq<int>, k: nat, lapEnd: int): int
  {
    if k < |c| then c[k] else lapEnd
  }

  /** The next candidate lies within the lap. */
  lemma NextInLap(t: seq<FrameInfo>, start: int, c: seq<int>, k: nat)
    requires 0 <= start < |t| && IsLap(t, start, c) && k <= |c|
    ensures start <= NextStop(c, k, start + |t|) <= start + |t|
    ensures k < |c| ==> c[k] < start + |t|
  {
  }

  /** Spawning the next candidate extends the marked table and the task
      list by that one record. */
  lemma SpawnNext(t: seq<FrameInfo>, c: seq<int>, k: nat)
    requires k < |c|
    ensures var m := Slot(c[k], |t|);
      var before := MarkLoading(t, Wrap(c[..k], |t|));
      && MarkLoading(t, Wrap(c[..k + 1], |t|)) == (if 0 <= m < |t| then before[m := before[m].(state := Loading)] else before)
      && NewTasks(Wrap(c[..k + 1], |t|)) == NewTasks(Wrap(c[..k], |t|)) + [Task(m, false)]
  {
    var xs := Wrap(c[..k + 1], |t|);
    assert c[..k + 1][..k] == c[..k];
    assert xs[..|xs| - 1] == Wrap(c[..k], |t|);
  }

  /** A free record of the lap has a position in its listing. */
  lemma LapIndexOf(t: seq<FrameInfo>, start: int, c: seq<int>, p: int) returns (j: int)
    requires 0 <= start < |t| && IsLap(t, start, c)
    requires start <= p < start + |t| && StateAt(t, p) == NotLoaded
    ensures 0 <= j < |c| && c[j] == p
  {
    assert p in c;
    j :| 0 <= j < |c| && c[j] == p;
  }

  /** In a strictly increasing list, a smaller element comes earlier. */
  lemma IncreasingIndex(c: seq<int>, j: int, k: int)
    requires forall a, b :: 0 <= a < b < |c| ==> c[a] < c[b]
    requires 0 <= j < |c| && 0 <= k < |c|
    ensures c[j] < c[k] ==> j < k
  {
    if k < j {
      assert c[k] < c[j];
    }
  }

  /** Every record the scan passes before the next candidate is busy. */
  lemma BusyBeforeNext(t: seq<FrameInfo>, start: int, c: seq<int>, k: nat, p: int)
    requires 0 <= start < |t| && IsLap(t, start, c) && k <= |c|
    requires start <= p < NextStop(c, k, start + |t|)
    ensures StateAt(MarkLoading(t, Wrap(c[..k], |t|)), p) != NotLoaded
  {
    var xs := Wrap(c[..k], |t|);
    MarkLoadingAt(t, xs, Slot(p, |t|));
    if StateAt(t, p) == NotLoaded {
      var j := LapIndexOf(t, start, c, p);
      if k < |c| {
        IncreasingIndex(c, j, k);
      }
      assert xs[j] == Slot(p, |t|);
    }
  }

  /** The next candidate is still free after the earlier ones are spawned. */
  lemma NextIsFree(t: seq<FrameInfo>, start: int, c: seq<int>, k: nat)
    requires 0 <= start < |t| && IsLap(t, start, c) && k < |c|
    ensures StateAt(MarkLoading(t, Wrap(c[..k], |t|)), c[k]) == NotLoaded
  {
    var xs := Wrap(c[..k], |t|);
    forall j | 0 <= j < k
      ensures xs[j] != Slot(c[k], |t|)
    {
      assert c[j] < c[k];
      SlotInjective(c[j], c[k], start, |t|);
    }
    MarkLoadingAt(t, xs, Slot(c[k], |t|));
  }

  /** Distinct unwrapped indices of one lap name distinct records. */
  lemma SlotInjective(x: int, y: int, start: int, n: int)
    requires 0 <= start && start <= x < start + n && start <= y < start + n && x != y
    ensures Slot(x, n) != Slot(y, n)
  {
  }

  /** When the loop stops after `k` spawns and `i` rounds, it has taken
      `SpawnCount` candidates. */
  lemma ScanCount(c: seq<int>, bound: int, numToSpawn: int, k: nat, i: int)
    requires k <= |c| && k <= i
    requires forall j :: 0 <= j < k ==> c[j] < bound
    requires k < i ==> k < |c| && c[k] >= bound
    requires (numToSpawn >= 0 && i == numToSpawn) || (numToSpawn < 0 && i == 0) || (i < numToSpawn && k == |c|)
    ensures SpawnCount(c, bound, numToSpawn) == k
  {
    CountBelowFacts(c, bound);
    if k < i || k == |c| {
      CountBelowExact(c, bound, k);
    }
  }

  /** When the loop stops after `k` spawns and `i` rounds, the spawned
      records are exactly the first `k` candidates. */
  lemma ScanEnd(t: seq<FrameInfo>, start: int, window: int, numToSpawn: int, c: seq<int>, k: nat, i: int)
    requires 0 <= start < |t| && IsLap(t, start, c) && k <= |c| && k <= i
    requires 0 < k ==> c[k - 1] < start + window
    requires k < i ==> k < |c| && c[k] >= start + window
    requires (numToSpawn >= 0 && i == numToSpawn) || (numToSpawn < 0 && i == 0) || (i < numToSpawn && k == |c|)
    ensures SpawnedUnwrapped(t, start, window, numToSpawn) == c[..k]
  {
    LapIsCandidates(t, start, c);
    IncreasingBelow(c, k, start + window);
    ScanCount(c, start + window, numToSpawn, k, i);
  }

  /** In a strictly increasing list, everything before an element below
      `bound` is below it too. */
  lemma IncreasingBelow(c: seq<int>, k: nat, bound: int)
    requires forall a, b :: 0 <= a < b < |c| ==> c[a] < c[b]
    requires k <= |c| && (0 < k ==> c[k - 1] < bound)
    ensures forall j :: 0 <= j < k ==> c[j] < bound
  {
    forall j | 0 <= j < k
      ensures c[j] < bound
    {
      if j < k - 1 {
        assert c[j] < c[k - 1];
      }
    }
  }

  // ---------------------------------------------------------------------
  // The spawner's scan
  // ---------------------------------------------------------------------

  /** The spawner's inner loop: step forward from `frameToLoad`, modulo the
      frame count, to the first `NotLoaded` record, but not past `lapEnd`. */
  method NextFree(table: seq<FrameInfo>, frameToLoad: int, lapEnd: int) returns (p: int)
    requires 0 <= frameToLoad <= lapEnd <= 2 * |table|
    requires |table| > 0
    ensures frameToLoad <= p <= lapEnd
    ensures forall q :: frameToLoad <= q < p ==> StateAt(table, q) != NotLoaded
    ensures p < lapEnd ==> StateAt(table, p) == NotLoaded
  {
    var n := |table|;
    p := frameToLoad;
    while p < lapEnd && table[p % n].state != NotLoaded
      invariant frameToLoad <= p <= lapEnd
      invariant forall q :: frameToLoad <= q < p ==> StateAt(table, q) != NotLoaded
      decreases lapEnd - p
    {
      SlotIsMod(p, n);
      p := p + 1;
    }
    if p < lapEnd {
      SlotIsMod(p, n);
    }
  }

  /** In the table marked for the first `k` candidates, the first free
      record at or after `from` is the next candidate, or the end of the
      lap if none is left. */
  lemma FirstFreeIsNext(t: seq<FrameInfo>, start: int, c: seq<int>, k: nat, from: int, p: int)
    requires 0 <= start < |t| && IsLap(t, start, c) && k <= |c|
    requires start <= from <= p <= start + |t| && from <= NextStop(c, k, start + |t|)
    requires forall q :: from <= q < p ==> StateAt(MarkLoading(t, Wrap(c[..k], |t|)), q) != NotLoaded
    requires p < start + |t| ==> StateAt(MarkLoading(t, Wrap(c[..k], |t|)), p) == NotLoaded
    ensures p == NextStop(c, k, start + |t|)
  {
    var next := NextStop(c, k, start + |t|);
    if p < next {
      BusyBeforeNext(t, start, c, k, p);
    } else if next < p {
      NextIsFree(t, start, c, k);
    }
  }

  /** The spawner's loop over the active table `t0` with the playhead at
      `currentFrame`: while `numToSpawn` rounds remain, find the next
      `NotLoaded` record (see `NextFree`); if its unwrapped index is below
      `currentFrame + numBufferFrames`, mark it `Loading` and start a task
      for it; one round is used up either way. Returns the marked table and
      the new tasks. */
  method Scan(t0: seq<FrameInfo>, currentFrame: int, numBufferFrames: int, numToSpawn: int)
      returns (table: seq<FrameInfo>, started: seq<Task>)
    requires 0 <= currentFrame < |t0|
    ensures var sp := Spawned(t0, currentFrame, numBufferFrames, numToSpawn);
      table == MarkLoading(t0, sp) && started == NewTasks(sp)
  {
    var n := |t0|;
    var frameToLoad := currentFrame;
    var furthestFrame := currentFrame + numBufferFrames;
    var lapEnd := currentFrame + n;
    table := t0;
    started := [];
    ghost var c := LapListing(t0, currentFrame);
    ghost var k: nat := 0;
    NextInLap(t0, currentFrame, c, 0);

    var i := 0;
    while i < numToSpawn
      invariant 0 <= i && (i == 0 || i <= numToSpawn)
      invariant k <= i && k <= |c|
      invariant table == MarkLoading(t0, Wrap(c[..k], n))
      invariant started == NewTasks(Wrap(c[..k], n))
      invariant 0 < k ==> c[k - 1] < furthestFrame
      invariant k < i ==> k < |c| && c[k] >= furthestFrame
      invariant currentFrame <= frameToLoad <= NextStop(c, k, lapEnd)
      decreases numToSpawn - i
    {
      ghost var from := frameToLoad;
      NextInLap(t0, currentFrame, c, k);
      frameToLoad := NextFree(table, frameToLoad, lapEnd);
      FirstFreeIsNext(t0, currentFrame, c, k, from, frameToLoad);
      if frameToLoad == lapEnd {
        // a full lap without a free record: nothing left to load
        break;
      }
      if frameToLoad < furthestFrame {
        // within the buffer zone: start a task for it
        SlotIsMod(frameToLoad, n);
        var moduloFrameToLoad := frameToLoad % n;
        SpawnNext(t0, c, k);
        table := table[moduloFrameToLoad := table[moduloFrameToLoad].(state := Loading)];
        started := started + [Task(moduloFrameToLoad, false)];
        k := k + 1;
        NextInLap(t0, currentFrame, c, k);
      }
      i := i + 1;
    }
    ScanEnd(t0, currentFrame, numBufferFrames, numToSpawn, c, k, i);
  }

  // ---------------------------------------------------------------------
  // The inner scan as written
  // ---------------------------------------------------------------------

  /** The inner `while` of the spawner as written: step forward from
      `frameToLoad` until a `NotLoaded` record; `fuel` bounds the number of
      steps looked at, `None` means it has not stopped within them. */
  function ScanAsWritten(t: seq<FrameInfo>, frameToLoad: nat, fuel: nat): (r: Option<nat>)
    requires |t| > 0
    decreases fuel
    ensures r.Some? ==> frameToLoad <= r.value <= frameToLoad + fuel && t[r.value % |t|].state == NotLoaded
  {
    if t[frameToLoad % |t|].state == NotLoaded then Some(frameToLoad)
    else if fuel == 0 then None
    else ScanAsWritten(t, frameToLoad + 1, fuel - 1)
  }

  /** When no record is `NotLoaded`, the as-written scan never stops,
      however many steps it is given. */
  lemma {:induction false} ScanAsWrittenDiverges(t: seq<FrameInfo>, frameToLoad: nat, fuel: nat)
    requires |t| > 0
    requires forall j :: 0 <= j < |t| ==> t[j].state != NotLoaded
    ensures ScanAsWritten(t, frameToLoad, fuel) == None
    decreases fuel
  {
    assert t[frameToLoad % |t|].state != NotLoaded;
    if fuel > 0 {
      ScanAsWrittenDiverges(t, frameToLoad + 1, fuel - 1);
    }
  }

  /** Loading a two-file sequence with three workers: after frames 0 and 1
      are spawned, the third round of the as-written scan (from frame 1)
      never stops. */
  lemma TwoFramesThreeWorkersHang(paths: seq<string>, fuel: nat)
    requires |paths| == 2
    ensures Spawned(FreshTable(paths), 0, 8, 3) == [0, 1]
    ensures ScanAsWritten(MarkLoading(FreshTable(paths), [0, 1]), 1, fuel) == None
  {
    var t := FreshTable(paths);
    CandidatesFacts(t, 0, 0);
    var c := Candidates(t, 0, 0);
    assert 0 in c && 1 in c;
    assert c == [0, 1];
    assert CountBelow(c, 8) == 2;
    var m := MarkLoading(t, [0, 1]);
    MarkLoadingAt(t, [0, 1], 0);
    MarkLoadingAt(t, [0, 1], 1);
    ScanAsWrittenDiverges(m, 1, fuel);
  }

  /** In a table of five free records, the lap from 0 lists all of them. */
  lemma AllFreeCandidates(t: seq<FrameInfo>)
    requires |t| == 5 && forall i :: 0 <= i < 5 ==> t[i].state == NotLoaded
    ensures Candidates(t, 0, 0) == [0, 1, 2, 3, 4]
  {
    assert Candidates(t, 0, 5) == [];
    assert Candidates(t, 0, 4) == [4];
    assert Candidates(t, 0, 3) == [3, 4];
    assert Candidates(t, 0, 2) == [2, 3, 4];
    assert Candidates(t, 0, 1) == [1, 2, 3, 4];
  }

  /** The first load of five files with a window of three and two workers:
      the spawner starts frames 0 and 1 only, because the worker count runs
      out before the window does; frame 2 stays `NotLoaded`. */
  lemma FiveFramesTwoWorkers(paths: seq<string>)
    requires |paths| == 5
    ensures Spawned(FreshTable(paths), 0, 3, 2) == [0, 1]
    ensures var m := MarkLoading(FreshTable(paths), [0, 1]);
      m[0].state == Loading && m[1].state == Loading && m[2].state == NotLoaded
  {
    var t := FreshTable(paths);
    AllFreeCandidates(t);
    CountBelowExact(Candidates(t, 0, 0), 3, 3);
    MarkLoadingAt(t, [0, 1], 0);
    MarkLoadingAt(t, [0, 1], 1);
    MarkLoadingAt(t, [0, 1], 2);
  }

  /** When some record is free, the as-written scan stops at the first free
      record it meets, which is where the bounded scan stops too. */
  lemma {:induction false} ScanAsWrittenFindsFirstFree(t: seq<FrameInfo>, frameToLoad: nat, fuel: nat, p: nat)
    requires |t| > 0
    requires frameToLoad <= p <= frameToLoad + fuel && t[p % |t|].state == NotLoaded
    requires forall q: nat :: frameToLoad <= q < p ==> t[q % |t|].state != NotLoaded
    ensures ScanAsWritten(t, frameToLoad, fuel) == Some(p)
    decreases fuel
  {
    if frameToLoad < p {
      ScanAsWrittenFindsFirstFree(t, frameToLoad + 1, fuel - 1, p);
    }
  }
}
