/** The per-frame data model of the player: the load state of one frame, the
    record kept for it, and the fixed ring of frame tables (one per loaded
    sequence). */
module FrameTable {

  /** Number of frame tables in the generation ring. */
  const RingSize: int := 10

  /** Load state of one frame. `ThreadFinishedLoading` is declared but no
      operation ever assigns it. */
  datatype PixelState = NotLoaded | Loading | ThreadFinishedLoading | Loaded

  /** One frame of the sequence: its file, whether it holds decoded pixels,
      its load state and its last decode time in milliseconds. */
  datatype FrameInfo = FrameInfo(filePath: string, hasPixels: bool, state: PixelState, loadTime: real)

  /** A default-constructed record, as a table resize creates it. */
  const DefaultFrameInfo: FrameInfo := FrameInfo("", false, NotLoaded, 0.0)

  /** The table a successful load builds: one fresh record per listed file. */
  function FreshTable(paths: seq<string>): (t: seq<FrameInfo>)
    ensures |t| == |paths|
    ensures forall i :: 0 <= i < |t| ==>
      t[i].filePath == paths[i] && t[i].state == NotLoaded && !t[i].hasPixels && t[i].loadTime == 0.0
  {
    if paths == [] then [] else FreshTable(paths[..|paths| - 1]) + [DefaultFrameInfo.(filePath := paths[|paths| - 1])]
  }

  /** The record after the playhead leaves it: back to `NotLoaded`, pixels released. */
  function Evicted(f: FrameInfo): (r: FrameInfo)
    ensures r.state == NotLoaded && !r.hasPixels
    ensures r.filePath == f.filePath && r.loadTime == f.loadTime
  {
    f.(state := NotLoaded, hasPixels := false)
  }

  /** No record of the table is in the never-assigned state. */
  ghost predicate NoFinishedState(t: seq<FrameInfo>)
  {
    forall i :: 0 <= i < |t| ==> t[i].state != ThreadFinishedLoading
  }

  /** The table a load builds, written record by record: resized to one
      default record per file, then each record given its file's path. */
  method NamedTable(paths: seq<string>) returns (table: seq<FrameInfo>)
    ensures table == FreshTable(paths)
  {
    table := seq(|paths|, _ => DefaultFrameInfo);
    for i := 0 to |paths|
      invariant |table| == |paths|
      invariant forall j :: 0 <= j < |paths| ==>
        table[j] == if j < i then DefaultFrameInfo.(filePath := paths[j]) else DefaultFrameInfo
    {
      table := table[i := table[i].(filePath := paths[i])];
    }
  }
}
