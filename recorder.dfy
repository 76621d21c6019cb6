/** The motion-triggered recorder service: a retention sweep over the output
    directory, clip recording with conversion, a queue of motion events
    worked off one at a time, the frame bookkeeping of the detection loop,
    and the upload of a finished clip. */
module Recorder {

  import opened Wrappers
  import opened Strings
  import opened Storage
  import opened Motion
  import opened ClipNames
  import opened DeviceIdentity

  const CLEANUP_TTL: int := 60

  // ---------------------------------------------------------------------
  // Retention sweep
  // ---------------------------------------------------------------------

  /** A listed entry the sweep deletes: a regular file last modified
      strictly before `cutoff`. */
  predicate Expired(e: Entry, cutoff: int) {
    e.isFile && e.mtime < cutoff
  }

  /** The files left after the entries of `visited` have been examined. */
  function SweptAmong(files: Files, cutoff: int, failing: set<string>, visited: set<string>): Files {
    map p | p in files && !(p in visited && Expired(files[p], cutoff) && p !in failing) :: files[p]
  }

  /** The files left after one sweep of `dir`: every expired file listed in
      `dir` is gone unless its removal fails. */
  function Swept(files: Files, dir: string, cutoff: int, failing: set<string>): Files {
    SweptAmong(files, cutoff, failing, set p | p in files && InDir(p, dir))
  }

  /** Visiting one more listed entry: it is still as it was, and it goes
      exactly when it is expired and its removal does not fail. */
  lemma SweptAmongStep(files: Files, cutoff: int, failing: set<string>, visited: set<string>, path: string)
    requires path in files && path !in visited
    ensures var cur := SweptAmong(files, cutoff, failing, visited);
      && path in cur && cur[path] == files[path]
      && (if Expired(files[path], cutoff) then Removed(cur, path, failing) else cur)
         == SweptAmong(files, cutoff, failing, visited + {path})
  {
    var cur := SweptAmong(files, cutoff, failing, visited);
    var next := SweptAmong(files, cutoff, failing, visited + {path});
    var after := if Expired(files[path], cutoff) then Removed(cur, path, failing) else cur;
    assert forall p :: p in after <==> p in next;
  }

  /** One pass of the cleanup worker at time `now`: the listing is visited in
      an unspecified order, and a failing removal is skipped. */
  method CleanupPass(disk: Disk, dir: string, now: int, failing: set<string>)
    modifies disk
    ensures disk.entries == Swept(old(disk.entries), dir, now - CLEANUP_TTL, failing)
  {
    var cutoff := now - CLEANUP_TTL;
    ghost var start := disk.entries;
    var listing := set p | p in disk.entries && InDir(p, dir);
    var pending := listing;
    while pending != {}
      invariant pending <= listing
      invariant disk.entries == SweptAmong(start, cutoff, failing, listing - pending)
      decreases |pending|
    {
      var path :| path in pending;
      SweptAmongStep(start, cutoff, failing, listing - pending, path);
      if disk.IsFile(path) && disk.MTime(path) < cutoff {
        var _ := disk.Remove(path, failing);
      }
      assert (listing - pending) + {path} == listing - (pending - {path});
      pending := pending - {path};
    }
  }

  /** The sweep removes exactly the expired files listed in `dir` whose
      removal does not fail; every other entry, and every kept entry's
      metadata, is untouched. */
  lemma SweptExactly(files: Files, dir: string, cutoff: int, failing: set<string>)
    ensures forall p :: p in Swept(files, dir, cutoff, failing) ==> Swept(files, dir, cutoff, failing)[p] == files[p]
    ensures forall p :: p in files ==>
      (p !in Swept(files, dir, cutoff, failing) <==> InDir(p, dir) && Expired(files[p], cutoff) && p !in failing)
    ensures forall p :: p in Swept(files, dir, cutoff, failing) ==> p in files
  {
  }

  /** A second sweep with the same cutoff finds nothing more to delete. */
  lemma SweptIdempotent(files: Files, dir: string, cutoff: int, failing: set<string>)
    ensures Swept(Swept(files, dir, cutoff, failing), dir, cutoff, failing) == Swept(files, dir, cutoff, failing)
  {
    var once := Swept(files, dir, cutoff, failing);
    var twice := Swept(once, dir, cutoff, failing);
    assert forall p :: p in twice <==> p in once;
  }

  // ---------------------------------------------------------------------
  // Recording a clip
  // ---------------------------------------------------------------------

  /** What the outside world does during one recording: the clock reading
      that names the clip, the time the files are written, whether the
      camera capture completes, ffmpeg's exit status, and whether removing
      the raw file raises. */
  datatype ClipRun = ClipRun(start: Instant, clock: int, captured: bool,
                             ffmpegExit: int, removeFails: bool)

  /** The value `record_clip` returns. */
  function ClipResult(dir: string, run: ClipRun): Option<string> {
    if run.captured && run.ffmpegExit == 0 && !run.removeFails then
      Some(ConvertedPath(RawClipPath(dir, run.start)))
    else None
  }

  /** The files after `record_clip`. */
  function FilesAfterClip(files: Files, dir: string, run: ClipRun): Files {
    var raw := RawClipPath(dir, run.start);
    var mp4 := ConvertedPath(raw);
    if !run.captured then files
    else
      var recorded := files[raw := Entry(true, run.clock)];
      if run.ffmpegExit != 0 then recorded
      else
        var converted := recorded[mp4 := Entry(true, run.clock)];
        if run.removeFails then converted else converted - {raw}
  }

  /** `record_clip`: capture to the raw file, convert it, delete the raw
      file and return the converted path; `None` on any failure. */
  method RecordClip(disk: Disk, dir: string, run: ClipRun) returns (clip: Option<string>)
    modifies disk
    ensures clip == ClipResult(dir, run)
    ensures disk.entries == FilesAfterClip(old(disk.entries), dir, run)
  {
    var raw := RawClipPath(dir, run.start);
    var mp4 := ConvertedPath(raw);
    if !run.captured {
      return None;
    }
    disk.Write(raw, run.clock);
    if run.ffmpegExit != 0 {
      return None;
    }
    disk.Write(mp4, run.clock);
    var removed := disk.Remove(raw, if run.removeFails then {raw} else {});
    if !removed {
      return None;
    }
    return Some(mp4);
  }

  /** What a recording leaves behind, for an output directory whose name
      contains neither extension:
      - success returns `motion_<stamp>.mp4` in `dir`, which then exists,
        and the raw file is gone;
      - a failed conversion returns nothing and keeps the raw file;
      - nothing but the two clip files changes. */
  lemma ClipDisposition(files: Files, dir: string, run: ClipRun)
    requires !Contains(dir, RAW_EXT) && !Contains(dir, MP4_EXT)
    ensures ClipResult(dir, run).Some? ==>
      && ClipResult(dir, run).value == Join(dir, CLIP_PREFIX + StampMillis(run.start) + MP4_EXT)
      && IsFileIn(FilesAfterClip(files, dir, run), ClipResult(dir, run).value)
      && RawClipPath(dir, run.start) !in FilesAfterClip(files, dir, run)
    ensures run.captured && run.ffmpegExit != 0 ==>
      ClipResult(dir, run).None? && IsFileIn(FilesAfterClip(files, dir, run), RawClipPath(dir, run.start))
    ensures !run.captured ==> FilesAfterClip(files, dir, run) == files
    ensures forall p :: p != RawClipPath(dir, run.start) && p != ConvertedPath(RawClipPath(dir, run.start)) ==>
      (p in FilesAfterClip(files, dir, run) <==> p in files)
      && (p in files ==> FilesAfterClip(files, dir, run)[p] == files[p])
  {
    RawClipPaths(dir, run.start);
  }

  // ---------------------------------------------------------------------
  // The motion queue and its worker
  // ---------------------------------------------------------------------

  /** The results of a sequence of recordings, in order. */
  function ClipResults(dir: string, runs: seq<ClipRun>): (rs: seq<Option<string>>)
    ensures |rs| == |runs| && forall k :: 0 <= k < |runs| ==> rs[k] == ClipResult(dir, runs[k])
  {
    if runs == [] then [] else ClipResults(dir, runs[..|runs| - 1]) + [ClipResult(dir, runs[|runs| - 1])]
  }

  /** The clips handed to the upload executor for a sequence of recordings. */
  function ClipsSubmitted(dir: string, runs: seq<ClipRun>): seq<string> {
    Values(ClipResults(dir, runs))
  }

  /** The files after a sequence of recordings. */
  function FilesAfterClips(files: Files, dir: string, runs: seq<ClipRun>): Files {
    if runs == [] then files
    else FilesAfterClip(FilesAfterClips(files, dir, runs[..|runs| - 1]), dir, runs[|runs| - 1])
  }

  /** One more recording appends its result and its effect on the files. */
  lemma ClipsStep(files: Files, dir: string, runs: seq<ClipRun>, i: nat)
    requires i < |runs|
    ensures ClipsSubmitted(dir, runs[..i + 1]) == ClipsSubmitted(dir, runs[..i]) + Values([ClipResult(dir, runs[i])])
    ensures FilesAfterClips(files, dir, runs[..i + 1]) == FilesAfterClip(FilesAfterClips(files, dir, runs[..i]), dir, runs[i])
  {
    assert runs[..i + 1][..i] == runs[..i];
    var before := ClipResults(dir, runs[..i]);
    assert ClipResults(dir, runs[..i + 1]) == before + [ClipResult(dir, runs[i])];
    assert (before + [ClipResult(dir, runs[i])])[..|before|] == before;
    assert [ClipResult(dir, runs[i])][..0] == [];
  }

  /** A clip is submitted exactly when some recording returned it, and at
      most one clip is submitted per recording. */
  lemma ClipsSubmittedIff(dir: string, runs: seq<ClipRun>, c: string)
    ensures |ClipsSubmitted(dir, runs)| <= |runs|
    ensures c in ClipsSubmitted(dir, runs) <==> exists k :: 0 <= k < |runs| && ClipResult(dir, runs[k]) == Some(c)
  {
    var rs := ClipResults(dir, runs);
    ValuesIff(rs, c);
    if Some(c) in rs {
      var k :| 0 <= k < |rs| && rs[k] == Some(c);
      assert ClipResult(dir, runs[k]) == Some(c);
    }
  }

  /** The recorder's shared state: the unbounded motion queue (every entry is
      `True`), the clips submitted for upload, and the number of recordings
      made so far. */
  class Pipeline {
    const disk: Disk
    const dir: string
    var queue: seq<bool>
    var submitted: seq<string>
    var recorded: nat

    constructor (disk: Disk, dir: string)
      ensures this.disk == disk && this.dir == dir
      ensures queue == [] && submitted == [] && recorded == 0
    {
      this.disk := disk;
      this.dir := dir;
      queue := [];
      submitted := [];
      recorded := 0;
    }

    /** `motion_queue.put(True)`. */
    method Put()
      modifies this
      ensures queue == old(queue) + [true]
      ensures submitted == old(submitted) && recorded == old(recorded)
    {
      queue := queue + [true];
    }

    /** One round of the motion worker that finds an event: the event is
        taken off the queue, exactly one clip is recorded, and its result is
        submitted for upload when it is not `None`. */
    method WorkOne(run: ClipRun)
      requires queue != []
      modifies this, disk
      ensures queue == old(queue)[1..]
      ensures recorded == old(recorded) + 1
      ensures submitted == old(submitted) + Values([ClipResult(dir, run)])
      ensures disk.entries == FilesAfterClip(old(disk.entries), dir, run)
    {
      queue := queue[1..];
      var clip := RecordClip(disk, dir, run);
      recorded := recorded + 1;
      assert [run][..0] == [];
      if clip.Some? {
        submitted := submitted + [clip.value];
      }
    }

    /** The worker draining the queue, one recording per event, in order. */
    method Drain(runs: seq<ClipRun>)
      requires |runs| == |queue|
      modifies this, disk
      ensures queue == []
      ensures recorded == old(recorded) + |runs|
      ensures submitted == old(submitted) + ClipsSubmitted(dir, runs)
      ensures disk.entries == FilesAfterClips(old(disk.entries), dir, runs)
    {
      var i := 0;
      while i < |runs|
        invariant 0 <= i <= |runs|
        invariant |queue| == |runs| - i
        invariant recorded == old(recorded) + i
        invariant submitted == old(submitted) + ClipsSubmitted(dir, runs[..i])
        invariant disk.entries == FilesAfterClips(old(disk.entries), dir, runs[..i])
      {
        ClipsStep(old(disk.entries), dir, runs, i);
        WorkOne(runs[i]);
        i := i + 1;
      }
      assert runs[..i] == runs;
    }

    /** The detection loop over the captured `frames`: the first frame only
        seeds the previous frame, every later frame is compared with the one
        before it and then becomes the previous frame, and an event is put
        on the queue for every comparison that shows motion. */
    method DetectionLoop<F>(frames: seq<F>, regions: (F, F) -> seq<int>)
      returns (compared: seq<(F, F)>, prev: Option<F>)
      modifies this
      ensures compared == ConsecutivePairs(frames)
      ensures prev == if frames == [] then None else Some(frames[|frames| - 1])
      ensures queue == old(queue) + MotionEvents(compared, regions)
      ensures submitted == old(submitted) && recorded == old(recorded)
    {
      prev := None;
      compared := [];
      var i := 0;
      while i < |frames|
        invariant 0 <= i <= |frames|
        invariant prev == if i == 0 then None else Some(frames[i - 1])
        invariant compared == ConsecutivePairs(frames[..i])
        invariant queue == old(queue) + MotionEvents(compared, regions)
        invariant submitted == old(submitted) && recorded == old(recorded)
      {
        var gray := frames[i];
        ConsecutivePairsStep(frames, i);
        if prev.Some? {
          var pair := (prev.value, gray);
          MotionEventsStep(compared, pair, regions);
          if HasMotion(regions(pair.0, pair.1)) {
            Put();
          }
          compared := compared + [pair];
        }
        prev := Some(gray);
        i := i + 1;
      }
      assert frames[..i] == frames;
    }
  }

  /** The pairs (previous frame, current frame) the detection loop compares. */
  function ConsecutivePairs<F>(frames: seq<F>): seq<(F, F)> {
    if |frames| < 2 then []
    else ConsecutivePairs(frames[..|frames| - 1]) + [(frames[|frames| - 2], frames[|frames| - 1])]
  }

  lemma ConsecutivePairsStep<F>(frames: seq<F>, i: nat)
    requires i < |frames|
    ensures i == 0 ==> ConsecutivePairs(frames[..i + 1]) == []
    ensures i > 0 ==> ConsecutivePairs(frames[..i + 1]) == ConsecutivePairs(frames[..i]) + [(frames[i - 1], frames[i])]
  {
    assert frames[..i + 1][..i] == frames[..i];
  }

  /** Every frame but the last is compared as the previous frame, with the
      frame after it; the first frame is never the current one. */
  lemma {:induction false} ConsecutivePairsShape<F>(frames: seq<F>)
    ensures |ConsecutivePairs(frames)| == if frames == [] then 0 else |frames| - 1
    ensures forall k :: 0 <= k < |ConsecutivePairs(frames)| ==>
      ConsecutivePairs(frames)[k] == (frames[k], frames[k + 1])
  {
    if |frames| >= 2 {
      var init := frames[..|frames| - 1];
      ConsecutivePairsShape(init);
    }
  }

  /** The events the detection loop puts on the queue for the comparisons
      `pairs`: one per comparison showing motion. */
  function MotionEvents<F>(pairs: seq<(F, F)>, regions: (F, F) -> seq<int>): seq<bool> {
    if pairs == [] then []
    else
      var last := pairs[|pairs| - 1];
      MotionEvents(pairs[..|pairs| - 1], regions)
      + (if HasMotion(regions(last.0, last.1)) then [true] else [])
  }

  /** One more comparison appends its event, if any. */
  lemma MotionEventsStep<F>(pairs: seq<(F, F)>, p: (F, F), regions: (F, F) -> seq<int>)
    ensures HasMotion(regions(p.0, p.1)) ==> MotionEvents(pairs + [p], regions) == MotionEvents(pairs, regions) + [true]
    ensures !HasMotion(regions(p.0, p.1)) ==> MotionEvents(pairs + [p], regions) == MotionEvents(pairs, regions)
  {
    assert (pairs + [p])[..|pairs|] == pairs;
    assert MotionEvents(pairs, regions) + [] == MotionEvents(pairs, regions);
  }

  /** No event is queued exactly when no comparison shows motion, and never
      more events than comparisons. */
  lemma {:induction false} MotionEventsIff<F>(pairs: seq<(F, F)>, regions: (F, F) -> seq<int>)
    ensures |MotionEvents(pairs, regions)| <= |pairs|
    ensures MotionEvents(pairs, regions) == []
        <==> forall k :: 0 <= k < |pairs| ==> !HasMotion(regions(pairs[k].0, pairs[k].1))
  {
    if pairs != [] {
      var init := pairs[..|pairs| - 1];
      MotionEventsIff(init, regions);
      assert forall k :: 0 <= k < |init| ==> init[k] == pairs[k];
    }
  }

  // ---------------------------------------------------------------------
  // Upload
  // ---------------------------------------------------------------------

  /** The outcome of `requests.post`: a response with its status code, or
      an exception. */
  datatype HttpOutcome = Response(status: int) | RequestError

  /** The multipart file name and the `deviceId` query parameter. */
  datatype UploadRequest = UploadRequest(fileName: string, deviceId: string)

  datatype UploadReport = NotSent | Sent(request: UploadRequest, succeeded: bool)

  /** `upload_video` of the recorder service: the request goes out only when
      the clip can be opened, carries the clip's base name and the current
      device id, and succeeds exactly on status 200. It deletes nothing, so
      it takes the files by value. */
  function UploadVideo(files: Files, path: string, idFile: Option<string>, outcome: HttpOutcome): (r: UploadReport)
    ensures r.Sent? <==> IsFileIn(files, path)
    ensures r.Sent? ==> r.request.fileName == Basename(path) && '/' !in r.request.fileName
    ensures r.Sent? ==> r.request.deviceId == LoadDeviceId(idFile)
    ensures r.Sent? ==> (r.succeeded <==> outcome == Response(200))
  {
    if !IsFileIn(files, path) then NotSent
    else Sent(UploadRequest(Basename(path), LoadDeviceId(idFile)),
              outcome.Response? && outcome.status == 200)
  }

  /** A clip the recorder submits is uploaded under the name
      `motion_<stamp>.mp4` with the stored device id, and the upload
      succeeds exactly on status 200. */
  lemma RecordedClipUpload(files: Files, dir: string, run: ClipRun, idFile: Option<string>, outcome: HttpOutcome)
    requires !Contains(dir, RAW_EXT) && !Contains(dir, MP4_EXT)
    requires ClipResult(dir, run).Some?
    ensures UploadVideo(FilesAfterClip(files, dir, run), ClipResult(dir, run).value, idFile, outcome)
         == Sent(UploadRequest(CLIP_PREFIX + StampMillis(run.start) + MP4_EXT, LoadDeviceId(idFile)),
                 outcome == Response(200))
  {
    ClipDisposition(files, dir, run);
    RawClipPaths(dir, run.start);
  }
}
