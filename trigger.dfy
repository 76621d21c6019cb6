/** The earlier, standalone motion recorder: a detection loop gated by a
    cooldown after every trigger, recording and conversion in the
    background, and an upload that deletes the local files once the server
    has accepted the clip. */
module Trigger {

  import opened Wrappers
  import opened Strings
  import opened Storage
  import opened Motion
  import opened ClipNames

  const VIDEO_DURATION: int := 5
  const COOLDOWN_PERIOD: int := 5

  // ---------------------------------------------------------------------
  // Motion scan
  // ---------------------------------------------------------------------

  /** The contour scan: stops at the first area above the minimum. */
  method FirstMotion(areas: seq<int>) returns (detected: bool, at: nat)
    ensures detected <==> HasMotion(areas)
    ensures detected ==> at < |areas| && areas[at] > MIN_MOTION_AREA
    ensures detected ==> forall j :: 0 <= j < at ==> areas[j] <= MIN_MOTION_AREA
  {
    detected := false;
    at := 0;
    while at < |areas|
      invariant at <= |areas|
      invariant forall j :: 0 <= j < at ==> areas[j] <= MIN_MOTION_AREA
    {
      if areas[at] > MIN_MOTION_AREA {
        detected := true;
        return;
      }
      at := at + 1;
    }
  }

  // ---------------------------------------------------------------------
  // Recording and conversion
  // ---------------------------------------------------------------------

  /** What the outside world does during `record_and_convert`: whether the
      capture completes, the time the files are written and ffmpeg's exit
      status. */
  datatype Conversion = Conversion(captured: bool, clock: int, exitStatus: int)

  /** The value `record_and_convert` returns. */
  function ConvertResult(videoPath: string, c: Conversion): Option<string> {
    if c.captured && c.exitStatus == 0 then Some(ConvertedPath(videoPath)) else None
  }

  /** The files after `record_and_convert`: the raw file is always kept. */
  function FilesAfterConvert(files: Files, videoPath: string, c: Conversion): Files {
    if !c.captured then files
    else
      var recorded := files[videoPath := Entry(true, c.clock)];
      if c.exitStatus != 0 then recorded
      else recorded[ConvertedPath(videoPath) := Entry(true, c.clock)]
  }

  method RecordAndConvert(disk: Disk, videoPath: string, c: Conversion) returns (mp4: Option<string>)
    modifies disk
    ensures mp4 == ConvertResult(videoPath, c)
    ensures disk.entries == FilesAfterConvert(old(disk.entries), videoPath, c)
  {
    if !c.captured {
      return None;
    }
    disk.Write(videoPath, c.clock);
    var mp4Path := ConvertedPath(videoPath);
    if c.exitStatus != 0 {
      return None;
    }
    disk.Write(mp4Path, c.clock);
    return Some(mp4Path);
  }

  /** For a triggered clip in a directory whose name contains neither
      extension: a successful conversion returns `motion_<stamp>.mp4` next
      to the raw file, and both files then exist; a failed one returns
      nothing. */
  lemma ConvertDisposition(files: Files, dir: string, dt: Instant, c: Conversion)
    requires !Contains(dir, RAW_EXT) && !Contains(dir, MP4_EXT)
    ensures ConvertResult(TriggeredClipPath(dir, dt), c).Some? <==> c.captured && c.exitStatus == 0
    ensures ConvertResult(TriggeredClipPath(dir, dt), c).Some? ==>
      && ConvertResult(TriggeredClipPath(dir, dt), c).value == Join(dir, CLIP_PREFIX + StampSeconds(dt) + MP4_EXT)
      && IsFileIn(FilesAfterConvert(files, TriggeredClipPath(dir, dt), c), ConvertResult(TriggeredClipPath(dir, dt), c).value)
      && IsFileIn(FilesAfterConvert(files, TriggeredClipPath(dir, dt), c), TriggeredClipPath(dir, dt))
  {
    TriggeredClipPaths(dir, dt);
  }

  // ---------------------------------------------------------------------
  // Upload
  // ---------------------------------------------------------------------

  /** The outcome of `requests.post`: a response with its status code, or
      an exception (a request error or any other). */
  datatype HttpOutcome = Response(status: int) | Raised

  /** The value `upload_video` returns: the clip could be opened and the
      server answered 200. */
  predicate UploadSucceeded(files: Files, videoPath: string, outcome: HttpOutcome) {
    IsFileIn(files, videoPath) && outcome == Response(200)
  }

  /** The files after `upload_video`: on success the clip is removed and,
      if that worked and a `.h264` sibling exists, the sibling too; a
      failing removal ends the clean-up but not the success. */
  function FilesAfterUpload(files: Files, videoPath: string, outcome: HttpOutcome, failing: set<string>): Files {
    if !UploadSucceeded(files, videoPath, outcome) || videoPath in failing then files
    else Removed(files - {videoPath}, RawSiblingPath(videoPath), failing)
  }

  /** `upload_video`, with the removals in `failing` raising. */
  method UploadVideo(disk: Disk, videoPath: string, outcome: HttpOutcome, failing: set<string>)
    returns (ok: bool)
    modifies disk
    ensures ok == UploadSucceeded(old(disk.entries), videoPath, outcome)
    ensures disk.entries == FilesAfterUpload(old(disk.entries), videoPath, outcome, failing)
  {
    if !disk.IsFile(videoPath) {
      return false;
    }
    if outcome != Response(200) {
      return false;
    }
    var removed := disk.Remove(videoPath, failing);
    if removed {
      var h264Path := RawSiblingPath(videoPath);
      if disk.Exists(h264Path) {
        var _ := disk.Remove(h264Path, failing);
      }
    }
    return true;
  }

  /** What an upload deletes:
      - nothing unless it succeeded;
      - on success, the clip unless its removal fails, and then the
        `.h264` sibling when it is a regular file whose removal does not fail;
      - never anything else. */
  lemma UploadDisposition(files: Files, videoPath: string, outcome: HttpOutcome, failing: set<string>)
    ensures !UploadSucceeded(files, videoPath, outcome) ==> FilesAfterUpload(files, videoPath, outcome, failing) == files
    ensures UploadSucceeded(files, videoPath, outcome) && videoPath !in failing ==>
      videoPath !in FilesAfterUpload(files, videoPath, outcome, failing)
    ensures (&& UploadSucceeded(files, videoPath, outcome) && videoPath !in failing
             && IsFileIn(files, RawSiblingPath(videoPath)) && RawSiblingPath(videoPath) !in failing) ==>
      RawSiblingPath(videoPath) !in FilesAfterUpload(files, videoPath, outcome, failing)
    ensures videoPath in failing ==> FilesAfterUpload(files, videoPath, outcome, failing) == files
    ensures forall p :: p != videoPath && p != RawSiblingPath(videoPath) ==>
      (p in FilesAfterUpload(files, videoPath, outcome, failing) <==> p in files)
    ensures forall p :: p in FilesAfterUpload(files, videoPath, outcome, failing) ==>
      p in files && FilesAfterUpload(files, videoPath, outcome, failing)[p] == files[p]
  {
  }

  /** `handle_motion`: record and convert, then upload the converted clip. */
  method HandleMotion(disk: Disk, videoPath: string, c: Conversion, outcome: HttpOutcome, failing: set<string>)
    returns (uploaded: bool)
    modifies disk
    ensures uploaded <==> (&& ConvertResult(videoPath, c).Some?
                           && UploadSucceeded(FilesAfterConvert(old(disk.entries), videoPath, c), ConvertedPath(videoPath), outcome))
    ensures disk.entries == if ConvertResult(videoPath, c).None?
                            then FilesAfterConvert(old(disk.entries), videoPath, c)
                            else FilesAfterUpload(FilesAfterConvert(old(disk.entries), videoPath, c),
                                                  ConvertedPath(videoPath), outcome, failing)
  {
    var mp4 := RecordAndConvert(disk, videoPath, c);
    uploaded := false;
    if mp4.Some? {
      uploaded := UploadVideo(disk, mp4.value, outcome, failing);
    }
  }

  /** A triggered clip that converts and is accepted by the server leaves
      neither the raw nor the converted file behind when no removal fails,
      and nothing else on disk changes. */
  lemma HandledClipLeavesNothing(files: Files, dir: string, dt: Instant, c: Conversion)
    requires !Contains(dir, RAW_EXT) && !Contains(dir, MP4_EXT)
    requires c.captured && c.exitStatus == 0
    ensures UploadSucceeded(FilesAfterConvert(files, TriggeredClipPath(dir, dt), c),
                            ConvertedPath(TriggeredClipPath(dir, dt)), Response(200))
    ensures FilesAfterUpload(FilesAfterConvert(files, TriggeredClipPath(dir, dt), c),
                             ConvertedPath(TriggeredClipPath(dir, dt)), Response(200), {})
         == files - {TriggeredClipPath(dir, dt), ConvertedPath(TriggeredClipPath(dir, dt))}
  {
    var raw := TriggeredClipPath(dir, dt);
    var mp4 := ConvertedPath(raw);
    TriggeredClipPaths(dir, dt);
    var converted := FilesAfterConvert(files, raw, c);
    assert converted == files[raw := Entry(true, c.clock)][mp4 := Entry(true, c.clock)];
    assert RawSiblingPath(mp4) == raw;
    assert IsFileIn(converted - {mp4}, raw);
    var after := FilesAfterUpload(converted, mp4, Response(200), {});
    assert after == converted - {mp4} - {raw};
    assert after == files - {raw, mp4};
  }

  // ---------------------------------------------------------------------
  // The gated detection loop
  // ---------------------------------------------------------------------

  /** One loop iteration's inputs: the captured frame, `time.time()` and the
      clock reading that names a triggered clip. */
  datatype Tick<F> = Tick(frame: F, now: int, wall: Instant)

  /** The loop variables `prev_frame`, `last_motion_time`, `is_recording`. */
  datatype WatchState<F> = WatchState(prev: Option<F>, lastMotion: int, isRecording: bool)

  /** A trigger: when it happened and the raw clip path handed to the
      background recording. */
  datatype Triggered = Triggered(time: int, path: string)

  /** The gate: detection is skipped while recording or within
      `VIDEO_DURATION + COOLDOWN_PERIOD` seconds of the last trigger. */
  predicate Gated<F>(st: WatchState<F>, now: int) {
    st.isRecording || now - st.lastMotion < VIDEO_DURATION + COOLDOWN_PERIOD
  }

  /** One iteration of the loop: the new state and the trigger it fires, if
      any. */
  function Step<F>(st: WatchState<F>, t: Tick<F>, dir: string, regions: (F, F) -> seq<int>): (WatchState<F>, Option<Triggered>) {
    if st.prev.None? then (st.(prev := Some(t.frame)), None)
    else if Gated(st, t.now) then (st, None)
    else
      var detected := HasMotion(regions(st.prev.value, t.frame));
      var advanced := st.(prev := Some(t.frame));
      if detected && !st.isRecording then
        (advanced.(lastMotion := t.now), Some(Triggered(t.now, TriggeredClipPath(dir, t.wall))))
      else (advanced, None)
  }

  /** The state and the triggers after a sequence of iterations. */
  function Run<F>(st: WatchState<F>, ticks: seq<Tick<F>>, dir: string, regions: (F, F) -> seq<int>): (WatchState<F>, seq<Triggered>) {
    if ticks == [] then (st, [])
    else
      var before := Run(st, ticks[..|ticks| - 1], dir, regions);
      var after := Step(before.0, ticks[|ticks| - 1], dir, regions);
      (after.0, before.1 + Values([after.1]))
  }

  /** How one iteration moves `prev_frame`: the first frame seeds it, a
      gated iteration leaves the whole state alone, any other iteration
      advances it to the current frame; and it never sets `is_recording`
      for the next gate check. */
  lemma StepShape<F>(st: WatchState<F>, t: Tick<F>, dir: string, regions: (F, F) -> seq<int>)
    ensures st.prev.None? ==> Step(st, t, dir, regions) == (st.(prev := Some(t.frame)), None)
    ensures st.prev.Some? && Gated(st, t.now) ==> Step(st, t, dir, regions) == (st, None)
    ensures st.prev.Some? && !Gated(st, t.now) ==> Step(st, t, dir, regions).0.prev == Some(t.frame)
    ensures Step(st, t, dir, regions).0.isRecording == st.isRecording
  {
  }

  /** An iteration triggers exactly when a previous frame exists, the gate
      is open and the comparison shows motion; it then records the time and
      names the clip to the second. */
  lemma StepTriggers<F>(st: WatchState<F>, t: Tick<F>, dir: string, regions: (F, F) -> seq<int>)
    ensures Step(st, t, dir, regions).1.Some?
        <==> st.prev.Some? && !Gated(st, t.now) && HasMotion(regions(st.prev.value, t.frame))
    ensures Step(st, t, dir, regions).1.Some? ==>
      && Step(st, t, dir, regions).1.value == Triggered(t.now, TriggeredClipPath(dir, t.wall))
      && Step(st, t, dir, regions).0.lastMotion == t.now
    ensures Step(st, t, dir, regions).1.None? ==> Step(st, t, dir, regions).0.lastMotion == st.lastMotion
  {
  }

  /** Triggers are at least `VIDEO_DURATION + COOLDOWN_PERIOD` seconds
      apart, the first comes that long after the starting `last_motion_time`,
      and `last_motion_time` ends as the time of the last trigger; this holds
      whatever the clock does between iterations. */
  lemma {:induction false} TriggerSpacing<F>(st: WatchState<F>, ticks: seq<Tick<F>>, dir: string, regions: (F, F) -> seq<int>)
    ensures var trig := Run(st, ticks, dir, regions).1;
      forall k :: 0 <= k < |trig| - 1 ==> trig[k + 1].time - trig[k].time >= VIDEO_DURATION + COOLDOWN_PERIOD
    ensures var trig := Run(st, ticks, dir, regions).1;
      |trig| > 0 ==> trig[0].time - st.lastMotion >= VIDEO_DURATION + COOLDOWN_PERIOD
    ensures var r := Run(st, ticks, dir, regions);
      r.0.lastMotion == if r.1 == [] then st.lastMotion else r.1[|r.1| - 1].time
  {
    if ticks != [] {
      var init := ticks[..|ticks| - 1];
      TriggerSpacing(st, init, dir, regions);
      var t := ticks[|ticks| - 1];
      var before := Run(st, init, dir, regions);
      var after := Step(before.0, t, dir, regions);
      StepTriggers(before.0, t, dir, regions);
      assert Run(st, ticks, dir, regions) == (after.0, before.1 + Values([after.1]));
      assert [after.1][..0] == [];
      if after.1.Some? {
        assert Values([after.1]) == [after.1.value];
        assert after.1.value.time == t.now;
        assert t.now - before.0.lastMotion >= VIDEO_DURATION + COOLDOWN_PERIOD;
      } else {
        assert Values([after.1]) == [];
        assert before.1 + [] == before.1;
      }
    }
  }

  /** `is_recording` is never set at a gate check: starting from the initial
      state, the gate is purely time-based. */
  lemma {:induction false} NeverRecordingAtGate<F>(st: WatchState<F>, ticks: seq<Tick<F>>, dir: string, regions: (F, F) -> seq<int>)
    requires !st.isRecording
    ensures !Run(st, ticks, dir, regions).0.isRecording
  {
    if ticks != [] {
      NeverRecordingAtGate(st, ticks[..|ticks| - 1], dir, regions);
    }
  }

  /** The loop of the standalone recorder, one object per run. */
  class Watcher<F> {
    const dir: string
    const regions: (F, F) -> seq<int>
    var prev: Option<F>
    var lastMotion: int
    var isRecording: bool
    var triggers: seq<Triggered>

    function State(): WatchState<F>
      reads this
    {
      WatchState(prev, lastMotion, isRecording)
    }

    constructor (dir: string, regions: (F, F) -> seq<int>)
      ensures this.dir == dir && this.regions == regions
      ensures State() == WatchState(None, 0, false) && triggers == []
    {
      this.dir := dir;
      this.regions := regions;
      prev := None;
      lastMotion := 0;
      isRecording := false;
      triggers := [];
    }

    /** One pass through the loop body. */
    method Iterate(t: Tick<F>)
      modifies this
      ensures State() == Step(old(State()), t, dir, regions).0
      ensures triggers == old(triggers) + Values([Step(old(State()), t, dir, regions).1])
    {
      assert [Step(State(), t, dir, regions).1][..0] == [];
      if prev.None? {
        prev := Some(t.frame);
        return;
      }
      if isRecording || t.now - lastMotion < VIDEO_DURATION + COOLDOWN_PERIOD {
        return;
      }
      var detected, _ := FirstMotion(regions(prev.value, t.frame));
      prev := Some(t.frame);
      if detected && !isRecording {
        isRecording := true;
        lastMotion := t.now;
        var videoPath := TriggeredClipPath(dir, t.wall);
        triggers := triggers + [Triggered(t.now, videoPath)];
        isRecording := false;
      }
    }

    /** The loop over a finite sequence of iterations. */
    method RunAll(ticks: seq<Tick<F>>)
      modifies this
      ensures State() == Run(old(State()), ticks, dir, regions).0
      ensures triggers == old(triggers) + Run(old(State()), ticks, dir, regions).1
    {
      var i := 0;
      while i < |ticks|
        invariant 0 <= i <= |ticks|
        invariant State() == Run(old(State()), ticks[..i], dir, regions).0
        invariant triggers == old(triggers) + Run(old(State()), ticks[..i], dir, regions).1
      {
        assert ticks[..i + 1][..i] == ticks[..i];
        Iterate(ticks[i]);
        i := i + 1;
      }
      assert ticks[..i] == ticks;
    }
  }
}
