/** How clips are named and located: the timestamp text that names a clip,
    `os.path.join`, `os.path.basename`, the `.h264` / `.mp4` sibling paths
    obtained with `str.replace`, and which paths a directory listing sees. */
module ClipNames {

  import opened Wrappers
  import opened Strings

  // ---------------------------------------------------------------------
  // Clock readings
  // ---------------------------------------------------------------------

  /** A local date and time as `datetime.now()` gives it. */
  datatype DateTime = DateTime(year: int, month: int, day: int,
                               hour: int, minute: int, second: int, microsecond: int)

  predicate ValidDateTime(dt: DateTime) {
    && 1 <= dt.year <= 9999 && 1 <= dt.month <= 12 && 1 <= dt.day <= 31
    && 0 <= dt.hour < 24 && 0 <= dt.minute < 60 && 0 <= dt.second < 60
    && 0 <= dt.microsecond < 1_000_000
  }

  type Instant = dt: DateTime | ValidDateTime(dt) witness DateTime(2000, 1, 1, 0, 0, 0, 0)

  // ---------------------------------------------------------------------
  // Zero-padded decimal fields
  // ---------------------------------------------------------------------

  function Pow10(w: nat): (p: nat)
    ensures p > 0
  {
    if w == 0 then 1 else 10 * Pow10(w - 1)
  }

  predicate IsDigit(c: char) {
    '0' <= c <= '9'
  }

  predicate AllDigits(s: string) {
    forall k :: 0 <= k < |s| ==> IsDigit(s[k])
  }

  function Digit(d: int): char
    requires 0 <= d < 10
  {
    ('0' as int + d) as char
  }

  /** The last `w` decimal digits of `n`, zero-padded (`%02d`, `%06d`, ...). */
  function Pad(n: nat, w: nat): (s: string)
    ensures |s| == w
    ensures AllDigits(s)
  {
    if w == 0 then "" else Pad(n / 10, w - 1) + [Digit(n % 10)]
  }

  /** The value of a string of decimal digits. */
  function ParseDigits(s: string): nat
    requires AllDigits(s)
  {
    if s == [] then 0 else ParseDigits(s[..|s| - 1]) * 10 + (s[|s| - 1] as int - '0' as int)
  }

  /** A padded field reads back as the number it was written from. */
  lemma {:induction false} ParsePad(n: nat, w: nat)
    requires n < Pow10(w)
    ensures ParseDigits(Pad(n, w)) == n
  {
    if w > 0 {
      var p := Pad(n / 10, w - 1);
      assert (p + [Digit(n % 10)])[..|p|] == p;
      ParsePad(n / 10, w - 1);
    }
  }

  /** Dropping the last digit of a padded field is padding the number with
      its last digit removed. */
  lemma PadDropLast(n: nat, w: nat)
    requires w > 0
    ensures Pad(n, w)[..w - 1] == Pad(n / 10, w - 1)
  {
    var p := Pad(n / 10, w - 1);
    assert Pad(n, w) == p + [Digit(n % 10)];
    assert (p + [Digit(n % 10)])[..w - 1] == p;
  }

  // ---------------------------------------------------------------------
  // Timestamps
  // ---------------------------------------------------------------------

  /** `strftime("%Y%m%d_%H%M%S")`. */
  function StampSeconds(dt: Instant): (s: string)
    ensures |s| == 15
  {
    Pad(dt.year, 4) + Pad(dt.month, 2) + Pad(dt.day, 2) + "_"
    + Pad(dt.hour, 2) + Pad(dt.minute, 2) + Pad(dt.second, 2)
  }

  /** `strftime("%Y%m%d_%H%M%S_%f")`: microseconds as six digits. */
  function StampMicros(dt: Instant): (s: string)
    ensures |s| == 22
  {
    StampSeconds(dt) + "_" + Pad(dt.microsecond, 6)
  }

  /** `strftime("%Y%m%d_%H%M%S_%f")[:-3]`: the last three characters cut off. */
  function StampMillis(dt: Instant): (s: string)
    ensures |s| == 19
  {
    var m := StampMicros(dt);
    m[..|m| - 3]
  }

  /** Cutting three characters keeps the milliseconds, truncated. */
  lemma StampMillisForm(dt: Instant)
    ensures StampMillis(dt) == StampSeconds(dt) + "_" + Pad(dt.microsecond / 1000, 3)
  {
    var n := dt.microsecond;
    PadDropLast(n, 6);
    PadDropLast(n / 10, 5);
    PadDropLast(n / 100, 4);
    assert n / 10 / 10 == n / 100 && n / 100 / 10 == n / 1000;
    var head := StampSeconds(dt) + "_";
    var six := Pad(n, 6);
    assert six[..5][..4][..3] == six[..3];
    assert StampMicros(dt) == head + six;
    assert (head + six)[..|head| + 3] == head + six[..3];
  }

  /** The clock reading a seconds stamp was made from, or `None` for text
      that is not such a stamp. */
  function ParseStampSeconds(s: string): Option<DateTime> {
    if |s| == 15 && s[8] == '_' && AllDigits(s[..8]) && AllDigits(s[9..]) then
      var date, time := s[..8], s[9..];
      Some(DateTime(ParseDigits(date[..4]), ParseDigits(date[4..6]), ParseDigits(date[6..]),
                    ParseDigits(time[..2]), ParseDigits(time[2..4]), ParseDigits(time[4..]), 0))
    else None
  }

  /** The clock reading a millisecond stamp was made from (with its
      microseconds rounded down to the millisecond). */
  function ParseStampMillis(s: string): Option<DateTime> {
    if |s| == 19 && s[15] == '_' && AllDigits(s[16..]) then
      match ParseStampSeconds(s[..15])
      case Some(dt) => Some(dt.(microsecond := ParseDigits(s[16..]) * 1000))
      case None => None
    else None
  }

  /** `dt` with the sub-second part dropped. */
  function ToSecond(dt: Instant): DateTime {
    dt.(microsecond := 0)
  }

  /** `dt` with the microseconds rounded down to the millisecond. */
  function ToMillisecond(dt: Instant): DateTime {
    dt.(microsecond := dt.microsecond / 1000 * 1000)
  }

  /** The three parts of a concatenation, recovered by slicing. */
  lemma SliceThree(a: string, b: string, c: string)
    ensures (a + b + c)[..|a|] == a
    ensures (a + b + c)[|a|..|a| + |b|] == b
    ensures (a + b + c)[|a| + |b|..] == c
  {
  }

  lemma StampSecondsRoundTrip(dt: Instant)
    ensures ParseStampSeconds(StampSeconds(dt)) == Some(ToSecond(dt))
  {
    var y, mo, d := Pad(dt.year, 4), Pad(dt.month, 2), Pad(dt.day, 2);
    var h, mi, se := Pad(dt.hour, 2), Pad(dt.minute, 2), Pad(dt.second, 2);
    var date, time := y + mo + d, h + mi + se;
    var s := StampSeconds(dt);
    assert s == date + "_" + time;
    assert s[..8] == date && s[9..] == time;
    assert s[8] == '_';
    SliceThree(y, mo, d);
    SliceThree(h, mi, se);
    assert AllDigits(date) by {
      assert forall k :: 0 <= k < 8 ==> date[k] == (if k < 4 then y[k] else if k < 6 then mo[k - 4] else d[k - 6]);
    }
    assert AllDigits(time) by {
      assert forall k :: 0 <= k < 6 ==> time[k] == (if k < 2 then h[k] else if k < 4 then mi[k - 2] else se[k - 4]);
    }
    ParsePad(dt.year, 4); ParsePad(dt.month, 2); ParsePad(dt.day, 2);
    ParsePad(dt.hour, 2); ParsePad(dt.minute, 2); ParsePad(dt.second, 2);
  }

  lemma StampMillisRoundTrip(dt: Instant)
    ensures ParseStampMillis(StampMillis(dt)) == Some(ToMillisecond(dt))
  {
    StampMillisForm(dt);
    var s := StampMillis(dt);
    var ms := Pad(dt.microsecond / 1000, 3);
    assert s[..15] == StampSeconds(dt) && s[16..] == ms;
    StampSecondsRoundTrip(dt);
    ParsePad(dt.microsecond / 1000, 3);
  }

  /** Two clips get the same millisecond name exactly when they start in the
      same millisecond. */
  lemma StampMillisInjective(a: Instant, b: Instant)
    ensures StampMillis(a) == StampMillis(b) <==> ToMillisecond(a) == ToMillisecond(b)
  {
    StampMillisRoundTrip(a);
    StampMillisRoundTrip(b);
    StampMillisForm(a);
    StampMillisForm(b);
    if ToMillisecond(a) == ToMillisecond(b) {
      assert a.microsecond / 1000 == b.microsecond / 1000;
      assert ToSecond(a) == ToSecond(b);
    }
  }

  /** Two triggers get the same seconds name exactly when they fall in the
      same second. */
  lemma StampSecondsInjective(a: Instant, b: Instant)
    ensures StampSeconds(a) == StampSeconds(b) <==> ToSecond(a) == ToSecond(b)
  {
    StampSecondsRoundTrip(a);
    StampSecondsRoundTrip(b);
  }

  /** A stamp is made of digits and `_` only. */
  lemma StampChars(dt: Instant)
    ensures forall c :: c in StampSeconds(dt) ==> IsDigit(c) || c == '_'
    ensures forall c :: c in StampMillis(dt) ==> IsDigit(c) || c == '_'
  {
    StampMillisForm(dt);
  }

  // ---------------------------------------------------------------------
  // Paths
  // ---------------------------------------------------------------------

  const RAW_EXT: string := ".h264"
  const MP4_EXT: string := ".mp4"
  const CLIP_PREFIX: string := "motion_"

  /** `f"/home/{getpass.getuser()}/videos"`. */
  function OutputDir(user: string): string {
    "/home/" + user + "/videos"
  }

  /** A dot-led pattern without `/` occurs in the output directory only when
      it occurs in the user name: the fixed parts hold no `.`, and an
      occurrence cannot run across the `/` after the name. */
  lemma OutputDirOccurrence(user: string, pat: string)
    requires pat != [] && pat[0] == '.' && '/' !in pat
    requires !Contains(user, pat)
    ensures !Contains(OutputDir(user), pat)
  {
    var d := OutputDir(user);
    var n := |user|;
    assert forall k :: 0 <= k < n ==> d[6 + k] == user[k];
    forall j: nat | j + |pat| <= |d|
      ensures !OccursAt(d, pat, j)
    {
      if j < 6 || 6 + n <= j {
        assert d[j] != pat[0];
      } else if j + |pat| <= 6 + n {
        assert d[j..j + |pat|] == user[j - 6..j - 6 + |pat|];
        assert !OccursAt(user, pat, j - 6);
      } else {
        assert d[6 + n] == '/';
        assert d[j..j + |pat|][6 + n - j] != pat[6 + n - j];
      }
    }
  }

  /** A user name without either clip extension gives an output directory
      that meets the directory assumption of the sibling-path lemmas. */
  lemma OutputDirPlain(user: string)
    requires !Contains(user, RAW_EXT) && !Contains(user, MP4_EXT)
    ensures !Contains(OutputDir(user), RAW_EXT) && !Contains(OutputDir(user), MP4_EXT)
  {
    OutputDirOccurrence(user, RAW_EXT);
    OutputDirOccurrence(user, MP4_EXT);
  }

  /** What `os.path.join(dir, name)` puts before a relative `name`. */
  function JoinPrefix(dir: string): (pre: string)
    ensures pre == [] || pre[|pre| - 1] == '/'
    ensures |dir| <= |pre| <= |dir| + 1 && pre[..|dir|] == dir
  {
    if dir == [] || dir[|dir| - 1] == '/' then dir else dir + "/"
  }

  /** `os.path.join(dir, name)`. */
  function Join(dir: string, name: string): string {
    if StartsWith(name, "/") then name else JoinPrefix(dir) + name
  }

  /** `os.path.basename(path)`: the text after the last `/`. */
  function Basename(path: string): (b: string)
    ensures '/' !in b
  {
    if path == [] || path[|path| - 1] == '/' then []
    else Basename(path[..|path| - 1]) + [path[|path| - 1]]
  }

  /** `path` is a direct child of `dir`: one of the entries `os.listdir(dir)`
      returns, joined to `dir`. */
  predicate InDir(path: string, dir: string) {
    var pre := JoinPrefix(dir);
    |pre| < |path| && path[..|pre|] == pre && '/' !in path[|pre|..]
  }

  lemma {:induction false} BasenameAfterSlash(pre: string, name: string)
    requires pre == [] || pre[|pre| - 1] == '/'
    requires '/' !in name
    ensures Basename(pre + name) == name
    decreases |name|
  {
    var w := pre + name;
    if name == [] {
      assert w == pre;
    } else {
      var n := |name| - 1;
      var init := name[..n];
      assert w[|w| - 1] == name[n];
      assert name[n] in name;
      assert w[..|w| - 1] == pre + init;
      assert '/' !in init by {
        forall c | c in init ensures c in name {
          var k :| 0 <= k < n && init[k] == c;
          assert name[k] == c;
        }
      }
      BasenameAfterSlash(pre, init);
      assert init + [name[n]] == name;
    }
  }

  /** Joining a plain file name to a directory yields a child of the
      directory whose base name is that file name. */
  lemma JoinChild(dir: string, name: string)
    requires name != [] && '/' !in name
    ensures InDir(Join(dir, name), dir)
    ensures Basename(Join(dir, name)) == name
  {
    assert name[0] in name;
    var pre := JoinPrefix(dir);
    assert Join(dir, name) == pre + name;
    assert (pre + name)[|pre|..] == name;
    BasenameAfterSlash(pre, name);
  }

  /** The path of a raw clip recorded at `dt`, millisecond precision. */
  function RawClipPath(dir: string, dt: Instant): string {
    Join(dir, CLIP_PREFIX + StampMillis(dt) + RAW_EXT)
  }

  /** The path of a raw clip triggered at `dt`, seconds precision. */
  function TriggeredClipPath(dir: string, dt: Instant): string {
    Join(dir, CLIP_PREFIX + StampSeconds(dt) + RAW_EXT)
  }

  /** `raw.replace('.h264', '.mp4')`. */
  function ConvertedPath(raw: string): string {
    ReplaceAll(raw, RAW_EXT, MP4_EXT)
  }

  /** `mp4.replace('.mp4', '.h264')`. */
  function RawSiblingPath(mp4: string): string {
    ReplaceAll(mp4, MP4_EXT, RAW_EXT)
  }

  /** In `JoinPrefix(dir) + base + ext`, no occurrence of `ext` starts
      before the final one. */
  lemma NoEarlierExtension(dir: string, base: string, ext: string, i: nat)
    requires |ext| > 0 && ext[0] == '.' && '/' !in ext
    requires forall c :: c in base ==> c != '.' && c != '/'
    requires !Contains(dir, ext)
    requires i < |JoinPrefix(dir) + base|
    ensures !OccursAt(JoinPrefix(dir) + base + ext, ext, i)
  {
    var pre := JoinPrefix(dir);
    var s := pre + base + ext;
    if i + |ext| <= |s| {
      var w := s[i..i + |ext|];
      assert w[0] == s[i];
      if i >= |pre| {
        assert s[i] == base[i - |pre|];
        assert base[i - |pre|] in base;
      } else if i + |ext| <= |dir| {
        assert s[..|dir|] == dir;
        assert w == dir[i..i + |ext|];
        assert !OccursAt(dir, ext, i);
      } else {
        var q := |pre| - 1;
        assert i <= q < i + |ext|;
        assert w[q - i] == s[q] == '/';
        assert ext[q - i] in ext;
      }
    }
  }

  /** Joining a relative name with an extension. */
  lemma JoinWithExtension(dir: string, base: string, ext: string)
    requires base != [] && base[0] != '/'
    ensures Join(dir, base + ext) == JoinPrefix(dir) + base + ext
  {
    assert (base + ext)[0] == base[0];
  }

  /** Swapping the extension of `dir/base.ext` with `str.replace` touches
      only the extension, when `dir` does not contain `ext` and `base` has no
      `.` or `/`. */
  lemma SwapExtension(dir: string, base: string, ext: string, ext': string)
    requires |ext| > 0 && ext[0] == '.' && '/' !in ext
    requires base != [] && forall c :: c in base ==> c != '.' && c != '/'
    requires !Contains(dir, ext)
    ensures ReplaceAll(Join(dir, base + ext), ext, ext') == Join(dir, base + ext')
  {
    assert base[0] in base;
    JoinWithExtension(dir, base, ext);
    JoinWithExtension(dir, base, ext');
    var u := JoinPrefix(dir) + base;
    forall i: nat | i < |u| ensures !OccursAt(u + ext, ext, i) {
      NoEarlierExtension(dir, base, ext, i);
    }
    ReplaceSuffix(u, ext, ext');
  }

  /** The converted path is the raw path with its extension swapped, and the
      raw sibling of the converted path is the raw path again, when the
      output directory contains neither extension. */
  lemma ClipPathsShareBase(dir: string, stamp: string)
    requires forall c :: c in stamp ==> IsDigit(c) || c == '_'
    requires !Contains(dir, RAW_EXT) && !Contains(dir, MP4_EXT)
    ensures ConvertedPath(Join(dir, CLIP_PREFIX + stamp + RAW_EXT)) == Join(dir, CLIP_PREFIX + stamp + MP4_EXT)
    ensures RawSiblingPath(Join(dir, CLIP_PREFIX + stamp + MP4_EXT)) == Join(dir, CLIP_PREFIX + stamp + RAW_EXT)
  {
    var base := CLIP_PREFIX + stamp;
    assert forall c :: c in base ==> c in CLIP_PREFIX || c in stamp;
    SwapExtension(dir, base, RAW_EXT, MP4_EXT);
    SwapExtension(dir, base, MP4_EXT, RAW_EXT);
  }

  /** For a clip recorded at `dt`: the converted file shares the raw file's
      directory and base name, and the upload names it `motion_<stamp>.mp4`. */
  lemma RawClipPaths(dir: string, dt: Instant)
    requires !Contains(dir, RAW_EXT) && !Contains(dir, MP4_EXT)
    ensures ConvertedPath(RawClipPath(dir, dt)) == Join(dir, CLIP_PREFIX + StampMillis(dt) + MP4_EXT)
    ensures RawSiblingPath(ConvertedPath(RawClipPath(dir, dt))) == RawClipPath(dir, dt)
    ensures ConvertedPath(RawClipPath(dir, dt)) != RawClipPath(dir, dt)
    ensures Basename(ConvertedPath(RawClipPath(dir, dt))) == CLIP_PREFIX + StampMillis(dt) + MP4_EXT
    ensures InDir(RawClipPath(dir, dt), dir) && InDir(ConvertedPath(RawClipPath(dir, dt)), dir)
  {
    StampChars(dt);
    ClipPathsShareBase(dir, StampMillis(dt));
    ClipFileNames(StampMillis(dt));
    JoinChild(dir, CLIP_PREFIX + StampMillis(dt) + MP4_EXT);
    JoinChild(dir, CLIP_PREFIX + StampMillis(dt) + RAW_EXT);
  }

  /** The same for a clip triggered at `dt` and named to the second. */
  lemma TriggeredClipPaths(dir: string, dt: Instant)
    requires !Contains(dir, RAW_EXT) && !Contains(dir, MP4_EXT)
    ensures ConvertedPath(TriggeredClipPath(dir, dt)) == Join(dir, CLIP_PREFIX + StampSeconds(dt) + MP4_EXT)
    ensures RawSiblingPath(ConvertedPath(TriggeredClipPath(dir, dt))) == TriggeredClipPath(dir, dt)
    ensures ConvertedPath(TriggeredClipPath(dir, dt)) != TriggeredClipPath(dir, dt)
    ensures Basename(ConvertedPath(TriggeredClipPath(dir, dt))) == CLIP_PREFIX + StampSeconds(dt) + MP4_EXT
    ensures InDir(TriggeredClipPath(dir, dt), dir) && InDir(ConvertedPath(TriggeredClipPath(dir, dt)), dir)
  {
    StampChars(dt);
    ClipPathsShareBase(dir, StampSeconds(dt));
    ClipFileNames(StampSeconds(dt));
    JoinChild(dir, CLIP_PREFIX + StampSeconds(dt) + MP4_EXT);
    JoinChild(dir, CLIP_PREFIX + StampSeconds(dt) + RAW_EXT);
  }

  /** The two file names of a clip are plain names and differ. */
  lemma ClipFileNames(stamp: string)
    requires forall c :: c in stamp ==> IsDigit(c) || c == '_'
    ensures '/' !in CLIP_PREFIX + stamp + RAW_EXT && '/' !in CLIP_PREFIX + stamp + MP4_EXT
    ensures forall dir :: Join(dir, CLIP_PREFIX + stamp + MP4_EXT) != Join(dir, CLIP_PREFIX + stamp + RAW_EXT)
  {
    var raw, mp4 := CLIP_PREFIX + stamp + RAW_EXT, CLIP_PREFIX + stamp + MP4_EXT;
    assert forall c :: c in raw ==> c in CLIP_PREFIX || c in stamp || c in RAW_EXT;
    assert forall c :: c in mp4 ==> c in CLIP_PREFIX || c in stamp || c in MP4_EXT;
    assert raw[0] == 'm' && mp4[0] == 'm';
    forall dir ensures Join(dir, mp4) != Join(dir, raw) {
      assert |JoinPrefix(dir) + mp4| != |JoinPrefix(dir) + raw|;
    }
  }
}
