# VISITWISE: a verified model of its provisioning and recording rules

VISITWISE runs on a Raspberry Pi camera unit and consists of four programs:

- a BLE provisioning server (`blu_wifi_connector.py`). A phone writes either
  `DEV::::<id>` to set the device id, or `<ssid>++++<password>` to set Wi-Fi
  credentials. It reads back `"<wifi status>; Device ID: <id>"`.
- a motion-triggered recorder service (`main.py`). It detects motion between
  consecutive frames and queues one recording per motion event. Each clip is
  converted to MP4 and uploaded with the stored device id, and a periodic
  sweep deletes old files.
- an earlier standalone recorder (`record.py`). Its detection goes quiet for
  ten seconds after every trigger, and it deletes a clip's local files once
  the upload is accepted.
- a console Wi-Fi picker (`displaying_hotspots.py`). It lists the ESSIDs of an
  `iwlist` scan and lets the user pick one by number.

This project models the sequential rules underneath the device plumbing.
Every camera, OpenCV, ffmpeg, HTTP, nmcli and filesystem call is replaced by
its observable outcome, passed in as a parameter. The properties the programs
rely on are proved about that model.

Modules:

| file | module | models |
|---|---|---|
| `wrappers.dfy` | `Wrappers` | `Option` and the values present in a sequence of options |
| `strings.dfy` | `Strings` | Python `str.strip`, `startswith`, `in`, `split(sep, 1)`, `split(sep)`, `splitlines`, `replace` |
| `text_codec.dfy` | `TextCodec` | bytes to text one byte per character, and UTF-8 encoding |
| `device_identity.dfy` | `DeviceIdentity` | the device-id file shared by the BLE server and the recorder |
| `provisioning.dfy` | `Provisioning` | `blu_wifi_connector.py`: write dispatch, Wi-Fi status, payload, credentials, connection clearing |
| `clip_names.dfy` | `ClipNames` | `strftime` stamps, `os.path.join` / `basename`, `.h264` / `.mp4` sibling paths |
| `storage.dfy` | `Storage` | the files as a map from path to (regular file?, mtime); a `Disk` object |
| `motion.dfy` | `Motion` | the motion predicate (some region area above 500) |
| `recorder.dfy` | `Recorder` | `main.py`: cleanup pass, `record_clip`, the motion queue and its worker, detection-loop frames, upload |
| `trigger.dfy` | `Trigger` | `record.py`: contour scan, cooldown-gated loop, `record_and_convert`, `upload_video`, `handle_motion` |
| `hotspots.dfy` | `Hotspots` | `displaying_hotspots.py`: ESSID extraction and menu choice |

State the source updates in place is modelled as classes:

- `Provisioning.Provisioner` holds the id file, the credentials file, the
  NetworkManager connection list and the characteristic value.
- `Storage.Disk` holds the files.
- `Recorder.Pipeline` holds the motion queue, the submitted uploads and the
  recording count.
- `Trigger.Watcher` holds `prev_frame`, `last_motion_time` and `is_recording`.

Each loop is a method proved against a reference function, and the
properties are lemmas about those functions.

Model decisions:

- Time is an integer number of seconds. Files are `Option<string>`, where
  `None` means missing or unreadable.
- `str.replace` replaces every occurrence, as Python does. The sibling-path
  lemmas therefore require that the output directory's own name contains
  neither `.h264` nor `.mp4`. Without that, `replace` would rewrite the
  directory part too.
- `%Y` is written as four zero-padded digits, for years 1 to 9999.
- The device-id file is written and read in text mode. A write on POSIX
  stores the text as given. A read applies universal newlines: each `\r\n`
  and each lone `\r` comes back as `\n`, before `strip()` runs. The nmcli
  outputs are read with `text=True` too. There the translation changes
  neither `strip()` nor `splitlines()`, since both treat `\r`, `\n` and
  `\r\n` alike, so the status and connection parsers take the text as it is.

## Model

| member | source | states |
|---|---|---|
| Strings.StripBy | displaying_hotspots.py:15 | `strip(chars)` yields the infix left after removing matching characters at both ends; it is empty iff every character matches |
| Strings.StripBySubset | blu_wifi_connector.py:71 | stripping adds no character: a character absent from the text is absent from its strip |
| Strings.StripIdempotent | blu_wifi_connector.py:62 | stripping twice is stripping once |
| Strings.SplitOnce | blu_wifi_connector.py:143 | `split(sep, 1)` yields two parts iff `sep` occurs; the parts rejoin with `sep` to the input and the first part has no `sep` |
| Strings.SplitOn | displaying_hotspots.py:13 | `split(c)` parts contain no `c`, join back to the input, and there is one part iff `c` does not occur |
| Strings.SplitOnFirst | displaying_hotspots.py:15 | the first split part is the text before the first separator; the rest is the split of what follows it |
| Strings.SplitLines | blu_wifi_connector.py:90 | `splitlines` yields lines without line breaks, none for the empty text, and the first line is the text before the first break |
| Strings.SplitLinesSingle | blu_wifi_connector.py:90 | a non-empty text without line breaks is exactly one line |
| Strings.SplitLinesAtBreak | blu_wifi_connector.py:90 | a line ended by a one-character break is followed by the lines of the rest; a final break starts no empty line |
| Strings.SplitLinesAtCrLf | blu_wifi_connector.py:90 | `\r\n` ends a line as one break, followed by the lines of the rest |
| Strings.ReplaceSuffix | main.py:125 | when the pattern occurs only as a suffix, `replace` swaps just that suffix |
| Strings.ReplaceAbsent | record.py:58 | `replace` leaves a text without the pattern unchanged |
| Strings.ReplaceAll | main.py:125 | definition of `str.replace`: a left-to-right scan that replaces every non-overlapping occurrence of the pattern and copies every other character |
| TextCodec.DecodeBytes | blu_wifi_connector.py:131 | `chr(b)` per byte: same length, each character's code is the byte |
| TextCodec.EncodeChar | blu_wifi_connector.py:105 | UTF-8 encoding of a code point in its shortest form: 1, 2, 3 or 4 bytes by code-point range, the lead byte announcing the length, continuation bytes in 0x80..0xBF |
| TextCodec.EncodeCharDecodes | blu_wifi_connector.py:105 | decoding the bytes of one encoded character (lead payload bits, then six bits per continuation byte) gives back its code point |
| TextCodec.Utf8EncodeConcat | blu_wifi_connector.py:103-105 | encoding a concatenation is concatenating the encodings |
| TextCodec.AsciiRoundTrip | blu_wifi_connector.py:105 | ASCII text encoded as UTF-8 reads back unchanged one byte per character |
| DeviceIdentity.UniversalNewlines | blu_wifi_connector.py:70-71 | a text-mode read turns each `\r\n` and each lone `\r` into `\n`: the text read holds no `\r` and is no longer than the file's text |
| DeviceIdentity.UniversalNewlinesNoCr | main.py:76-77 | a file text without `\r` reads back exactly as written |
| DeviceIdentity.UniversalNewlinesPrefix | blu_wifi_connector.py:70-71 | a prefix without `\r` reads back as written, ahead of the translated rest |
| DeviceIdentity.UniversalNewlinesCrLf | blu_wifi_connector.py:70-71 | `\r\n` reads back as a single `\n` |
| DeviceIdentity.UniversalNewlinesLoneCr | main.py:76-77 | a `\r` not followed by `\n` reads back as `\n` |
| DeviceIdentity.UniversalNewlinesStripped | blu_wifi_connector.py:62-71 | a stripped text read back in text mode is still stripped |
| DeviceIdentity.LoadDeviceId | blu_wifi_connector.py:67-74 | a missing or unreadable file gives `DEV_DEFAULT`; otherwise the file's text as a text-mode read returns it, stripped; the id has no `\r`, no surrounding whitespace, and is no longer than the file text |
| DeviceIdentity.SaveDeviceId | blu_wifi_connector.py:59-65 | definition: a completed write leaves the file holding `new_id.strip()`; a write whose `open` fails leaves it as it was; a failure after `open` has truncated the file leaves it empty |
| DeviceIdentity.LoadDefaultIff | main.py:74-79 | the recorder's `get_device_id` gives `DEV_DEFAULT` iff the file is missing/unreadable or its text, read in text mode and trimmed, is that default |
| DeviceIdentity.SaveThenLoad | blu_wifi_connector.py:59-74 | saving `x` then loading yields `x.strip()` with its inner `\r\n` and `\r` read back as `\n`; exactly `x.strip()` when `x` holds no `\r` |
| DeviceIdentity.SaveFailedThenLoad | blu_wifi_connector.py:59-74 | a write whose `open` fails leaves the loaded id as it was; a write cut short after the truncation makes the id load as the empty string, not the default |
| DeviceIdentity.LoadSaveLoad | blu_wifi_connector.py:59-74 | saving what was loaded changes nothing a later load sees |
| Provisioning.ParseMessage | blu_wifi_connector.py:134-143 | id update iff the message starts with `DEV::::`, with id = the rest; otherwise credentials iff `++++` occurs, split at its first occurrence (no earlier position of the message holds `++++`, the ssid holds none, the password may); otherwise unrecognized |
| Provisioning.WifiStatus | blu_wifi_connector.py:84-96 | definition of the status the scan loop is proved against: a failed nmcli run gives "Not connected"; otherwise the status of the lines of the stripped output |
| Provisioning.GetWifiStatus | blu_wifi_connector.py:84-96 | the early-return loop over nmcli lines computes the reference status (`None` output gives "Not connected") |
| Provisioning.StatusConnectedAt | blu_wifi_connector.py:90-93 | the first `yes` line reached through inactive lines gives "Connected to <ssid>" |
| Provisioning.StatusMalformedAt | blu_wifi_connector.py:90-96 | a line without `:` before any active line gives "Not connected", even if an active line follows |
| Provisioning.StatusNoneActive | blu_wifi_connector.py:90-96 | no active line gives "Not connected" |
| Provisioning.StatusConnectedOnlyAt | blu_wifi_connector.py:90-93 | any "Connected" answer comes from the first active line, all earlier lines being inactive |
| Provisioning.ReadValue | blu_wifi_connector.py:99-105 | definition: the UTF-8 bytes of `"<status>; Device ID: <loaded id>"` |
| Provisioning.ReadValueLayout | blu_wifi_connector.py:99-105 | the payload is the UTF-8 of status, `"; Device ID: "` and id, in that order; ASCII payloads decode back to the text |
| Provisioning.LoadWifi | blu_wifi_connector.py:80-82 | definition: `data.get` of `ssid` and `password` from the stored map, or from `{}` when the file is missing or unreadable |
| Provisioning.SaveWifi | blu_wifi_connector.py:40-47 | definition: a completed write replaces the file by the two-key map; a write whose `open` fails leaves it as it was; a failure after `open` has truncated the file leaves text that no longer parses |
| Provisioning.AutoReconnect | blu_wifi_connector.py:180-183 | definition: the stored pair when both values are present and non-empty, otherwise no reconnect |
| Provisioning.SaveWifiThenLoad | blu_wifi_connector.py:77-82 | saved credentials load back unchanged and trigger reconnect iff both are non-empty |
| Provisioning.SaveWifiFailedThenLoad | blu_wifi_connector.py:40-56 | a write whose `open` fails keeps the stored credentials; a truncated file loads as `{}`, so no credentials and no reconnect |
| Provisioning.AutoReconnectUsesStored | blu_wifi_connector.py:180-183 | startup reconnects iff stored ssid and password are both present and non-empty, using exactly those |
| Provisioning.Cleared | blu_wifi_connector.py:147-151 | definition: the listed connections left after deleting, in list order, each one not named like the ssid, up to the first deletion that raises, which ends the loop |
| Provisioning.ClearedKeepsSsid | blu_wifi_connector.py:147-151 | clearing never deletes a connection named like the new SSID |
| Provisioning.ClearedRemovesOthers | blu_wifi_connector.py:147-151 | when no deletion fails, only connections named like the new SSID remain |
| Provisioning.Provisioner.constructor | blu_wifi_connector.py:197-200 | the characteristic starts with an empty value |
| Provisioning.Provisioner.Read | blu_wifi_connector.py:99-105 | reading returns the payload of the current status and stored id |
| Provisioning.Provisioner.ClearOldConnections | blu_wifi_connector.py:146-154 | the loop leaves exactly the cleared list; a failed listing changes nothing; other state is unchanged |
| Provisioning.Provisioner.StoreDeviceId | blu_wifi_connector.py:134-140 | an id update leaves the id file as the write outcome dictates (trimmed id, unchanged, or empty), touches nothing else and refreshes the value |
| Provisioning.Provisioner.Configure | blu_wifi_connector.py:142-159 | credentials: connections cleared, saved only if the connection succeeded, id untouched, value refreshed |
| Provisioning.Provisioner.Dispatch | blu_wifi_connector.py:133-162 | dispatch on the parsed command: an id update stores the id and refreshes the value; credentials go to `Configure`; an unrecognized message changes no state |
| Provisioning.Provisioner.WriteValue | blu_wifi_connector.py:128-162 | the effect of a write is the dispatch of the command its bytes carry, decoded and trimmed |
| Provisioning.DeviceIdUpdateStored | blu_wifi_connector.py:134-138 | after `DEV::::x` the stored id reads back as `x.strip()` with inner line breaks read as `\n`, and the next payload carries that id; for an `x` without `\r`, exactly `x.strip()` |
| Provisioning.StoredIdReadBack | blu_wifi_connector.py:99-105 | a stored id is read back, and put into the payload, as the text-mode read of its trimmed text; exactly the trimmed text when it holds no `\r` |
| ClipNames.StampSeconds | record.py:154 | `%Y%m%d_%H%M%S` from zero-padded fields: 15 characters |
| ClipNames.StampMillis | main.py:123 | `%Y%m%d_%H%M%S_%f` with its last three characters cut off: 19 characters |
| ClipNames.ParsePad | main.py:123 | a zero-padded field reads back as its number |
| ClipNames.StampMillisForm | main.py:123 | cutting 3 characters off `%f` leaves the milliseconds, truncated, as 3 digits |
| ClipNames.StampMillisRoundTrip | main.py:123 | the millisecond stamp parses back to the clock reading, rounded down to the millisecond |
| ClipNames.StampMillisInjective | main.py:123-124 | two clips get the same name iff they start in the same millisecond |
| ClipNames.StampSecondsRoundTrip | record.py:154 | the `%Y%m%d_%H%M%S` stamp parses back to the clock reading without sub-seconds |
| ClipNames.StampSecondsInjective | record.py:154 | two triggers get the same name iff they fall in the same second |
| ClipNames.Join | main.py:95 | definition of `os.path.join`: an absolute name replaces the directory; otherwise the name follows the directory and exactly one `/` |
| ClipNames.Basename | main.py:109 | `os.path.basename`: the text after the last `/`, which holds no `/` |
| ClipNames.BasenameAfterSlash | main.py:109 | `basename` of a directory prefix plus a plain name is that name |
| ClipNames.JoinChild | main.py:95 | joining a plain name to a directory gives a listed child whose basename is the name |
| ClipNames.SwapExtension | main.py:125 | `replace(ext, ext')` on `dir/base+ext` touches only the extension |
| ClipNames.ClipPathsShareBase | record.py:58 | the `.mp4` path and its `.h264` sibling map to each other |
| ClipNames.RawClipPaths | main.py:123-125 | the converted path is `dir/motion_<ms stamp>.mp4`, differs from the raw one, maps back to it, and both are children of `dir` |
| ClipNames.TriggeredClipPaths | record.py:154-155 | for the seconds-precision names of the standalone recorder: the converted path is `dir/motion_<s stamp>.mp4` with that basename, differs from the raw one, maps back to it, and both are children of dir |
| ClipNames.OutputDir | main.py:35 | definition: `/home/<user>/videos` |
| ClipNames.OutputDirOccurrence | record.py:23 | a `.`-led pattern without `/` occurs in the output directory only when it occurs in the user name |
| ClipNames.OutputDirPlain | main.py:35 | a user name without `.h264` or `.mp4` gives an output directory that meets the directory assumption of RawClipPaths and TriggeredClipPaths |
| Storage.Removed | record.py:57-63 | a removal deletes only an existing regular file whose removal does not raise |
| Storage.Disk.Remove | main.py:97-101 | `os.remove` succeeds iff the path is a regular file and does not fail, and then the path alone is gone |
| Recorder.Swept | main.py:94-101 | definition the sweep is proved against: every listed directory entry that is a regular file older than the cutoff is removed, unless its removal fails |
| Recorder.CleanupPass | main.py:93-101 | one sweep, in any listing order, leaves exactly the reference swept files |
| Recorder.SweptExactly | main.py:94-101 | the sweep deletes exactly the listed regular files older than now − 60 whose removal does not fail; other entries are untouched |
| Recorder.SweptIdempotent | main.py:91-102 | a second sweep with the same cutoff deletes nothing more |
| Recorder.RecordClip | main.py:122-141 | `record_clip` returns and leaves on disk what the reference result and file functions say |
| Recorder.ClipDisposition | main.py:133-138 | success returns `motion_<stamp>.mp4` (existing) with the raw file gone; ffmpeg failure returns None and keeps the raw file; nothing else changes |
| Recorder.ClipsSubmittedIff | main.py:148-150 | a clip is submitted iff some recording returned it, at most one per recording |
| Recorder.Pipeline.constructor | main.py:49 | the queue starts empty, with nothing submitted |
| Recorder.Pipeline.Put | main.py:197 | an event is appended to the unbounded queue |
| Recorder.Pipeline.WorkOne | main.py:144-150 | one dequeued event causes exactly one recording, and a submission only for a non-None clip |
| Recorder.Pipeline.Drain | main.py:144-152 | draining `n` events makes `n` recordings in order and submits exactly their non-None results |
| Recorder.Pipeline.DetectionLoop | main.py:178-199 | the first frame only seeds, every later frame is compared with its predecessor, and one event is queued per comparison showing motion |
| Recorder.ConsecutivePairsShape | main.py:187-199 | the comparisons are exactly (frame k, frame k+1) for every k |
| Motion.HasMotion | main.py:196 | definition: some contour area exceeds 500 |
| Recorder.MotionEventsIff | main.py:196-197 | no event is queued iff no comparison has an area above 500 |
| Recorder.UploadVideo | main.py:105-119 | the request goes out iff the clip opens, with its basename and the stored device id; success iff status 200 |
| Recorder.RecordedClipUpload | main.py:105-114 | a recorded clip is uploaded as `motion_<stamp>.mp4` with the stored id, succeeding iff status 200 |
| Trigger.FirstMotion | record.py:141-147 | motion is detected iff some area exceeds 500, and the scan stops at the first such area |
| Trigger.RecordAndConvert | record.py:76-96 | returns and leaves on disk what the reference conversion functions say |
| Trigger.ConvertDisposition | record.py:86-93 | the result is the `.mp4` path iff capture and ffmpeg succeed; then both files exist |
| Trigger.UploadVideo | record.py:46-74 | the result is True iff the clip opens and the status is 200, and the files become the reference post-upload files |
| Trigger.UploadDisposition | record.py:54-74 | nothing is deleted unless the upload succeeded; then the clip, and its `.h264` sibling if that is a file, are deleted unless a removal fails; nothing else changes |
| Trigger.HandleMotion | record.py:98-102 | record, convert, and upload only a converted clip |
| Trigger.HandledClipLeavesNothing | record.py:54-61 | a converted and accepted clip leaves neither of its two files behind |
| Trigger.Step | record.py:123-163 | definition of one loop iteration: seed `prev_frame`, or skip while gated, or compare with the previous frame, advance it and trigger a recording on motion |
| Trigger.Run | record.py:122-163 | definition: the iterations in order, with the triggers they produce |
| Trigger.StepShape | record.py:127-149 | the first frame seeds `prev_frame`; a gated iteration changes nothing; otherwise `prev_frame` advances; `is_recording` is unchanged at the next check |
| Trigger.StepTriggers | record.py:151-158 | an iteration triggers iff a previous frame exists, the gate is open and there is motion; it then records the time and names the clip |
| Trigger.TriggerSpacing | record.py:132-153 | triggers are at least 10 s apart and the last trigger's time is the final `last_motion_time`, whatever the clock does |
| Trigger.NeverRecordingAtGate | record.py:151-161 | `is_recording` is always False at the gate, so the gate is purely time-based |
| Trigger.Watcher.constructor | record.py:118-120 | the loop starts with no previous frame, `last_motion_time` 0 and not recording |
| Trigger.Watcher.Iterate | record.py:123-163 | one loop body performs the reference step |
| Trigger.Watcher.RunAll | record.py:122-163 | the loop performs the reference run and collects its triggers |
| Hotspots.ScanWifi | displaying_hotspots.py:12-18 | the loop returns the names of the ESSID lines of the `\n`-split output, or None (Python raises) |
| Hotspots.EssidNamesIff | displaying_hotspots.py:13-16 | the scan raises iff some ESSID line has no `:`; otherwise one name per ESSID line, in order, equal to that line's field |
| Hotspots.HasFieldParts | displaying_hotspots.py:15 | `strip().split(":")` has a second part iff the line has a `:` |
| Hotspots.EssidField | displaying_hotspots.py:15 | definition: `line.strip().split(":")[1].strip('"')`, for a line that has a `:` |
| Hotspots.EssidFieldShape | displaying_hotspots.py:15 | the name is the text between the first and second `:` of the trimmed line, quotes stripped |
| Hotspots.EssidLinesMembers | displaying_hotspots.py:13-16 | the lines kept are exactly the input lines mentioning ESSID |
| Hotspots.Choose | displaying_hotspots.py:52-66 | no networks gives no prompt; `n` selects `networks[n-1]` iff `1 <= n <= len` |
| Hotspots.ChooseCovers | displaying_hotspots.py:58-62 | every scanned network, and only those, can be selected |

## Left out

- Camera capture and encoding, and OpenCV frame differencing. Frames are an
  opaque type and the contour areas an integer list given per frame pair.
  OpenCV's areas are floats.
- ffmpeg (its exit status is a parameter), HTTP (a status code or an
  exception is the parameter), and nmcli / iw / wpa_cli / `hostname -I`.
  Connecting is the boolean `connect_to_wifi` result. The status query is
  its output, or `None` when the command fails.
- Threads, the upload executor, signal handlers, sdnotify, the GLib loop and
  notify timers, and every `time.sleep`. The queue worker and the detection
  loop are modelled as separate sequential methods that the caller
  interleaves. `CLEANUP_INTERVAL` exists only as sleep cadence.
- Logging and prints, `bluetooth.py`, `stream.py`, and the double `main()`
  at main.py:206-207.
- `ensure_output_directory` (both copies): it is I/O whose only result is
  whether the program starts.
- `connect_wifi` in displaying_hotspots.py: appending to
  `wpa_supplicant.conf` and running `wpa_cli` are OS side effects.
- Recorder.CleanupPass: a failure of `os.listdir` itself ends the cleanup
  thread in the source. Here the listing always succeeds.
- Recorder.RecordClip: a capture that raises midway may leave a partial raw
  file in the source. Here it leaves nothing. A failed ffmpeg run may leave a
  partial `.mp4`; here it does not.
- Trigger.UploadVideo: the request's name and parameters are not modelled.
  The standalone recorder sends the fixed id `DEV3617`.
- Hotspots.ScanWifi: it takes the decoded text of a successful scan.
  `check_output` raising on a non-zero `iwlist` exit, and `decode('utf-8')`
  raising on invalid bytes, are not modelled.
- DeviceIdentity.SaveDeviceId: a write cut short after the truncation is
  modelled as leaving an empty file. A disk that fills partway through the
  flush could instead leave a prefix of the id; that outcome is not modelled.
- Hotspots.Choose: `int(input())` raising on non-numeric input is not
  modelled.
- Provisioning.LoadWifi: the JSON file is a map from strings to strings.
  Non-string JSON values, and their truthiness, are not modelled.
- Provisioning.Cleared: nmcli deletes a connection by name, so one name may
  stand for several connections. Here each listed entry is deleted
  individually.
- Provisioning.Provisioner.Configure: after a successful connect, nmcli
  creates a profile named after the ssid. Here the connection list keeps
  only what clearing left, and the new profile is not added.
- ClipNames.StampSeconds: `%Y` is always four zero-padded digits. glibc's
  `strftime` does not pad years below 1000, so the stamps differ for those
  years.
- Trigger.RecordAndConvert: a capture that raises midway leaves the disk
  unchanged here. In the source, `FileOutput` has already created the raw
  `.h264` file, so a partial raw file stays behind. A failed ffmpeg run may
  also leave a partial `.mp4`; here it does not.
- Time is an integer. Float arithmetic on `time.time()` and mtimes is not
  modelled.
