/** The device-id file shared by the provisioning server (which writes it)
    and the recorder (which reads it for every upload). A file that is
    absent or cannot be read is `None`; otherwise its whole text. */
module DeviceIdentity {

  import opened Wrappers
  import opened Strings

  const DEFAULT_DEVICE_ID: string := "DEV_DEFAULT"

  /** What a text-mode read (`open(path, 'r').read()`, universal newlines)
      returns for a file's text: every `\r\n` and every lone `\r` reads as
      `\n`. A text-mode write on POSIX leaves the text as it is. */
  function UniversalNewlines(text: string): (t: string)
    ensures '\r' !in t
    ensures |t| <= |text|
    decreases |text|
  {
    if text == [] then []
    else if text[0] == '\r' then
      "\n" + UniversalNewlines(if |text| > 1 && text[1] == '\n' then text[2..] else text[1..])
    else [text[0]] + UniversalNewlines(text[1..])
  }

  /** A text without `\r` reads back as written. */
  lemma {:induction false} UniversalNewlinesNoCr(text: string)
    requires '\r' !in text
    ensures UniversalNewlines(text) == text
    decreases |text|
  {
    if text != [] {
      assert text == [text[0]] + text[1..];
      UniversalNewlinesNoCr(text[1..]);
    }
  }

  /** A `\r`-free prefix is read back as written, ahead of the rest. */
  lemma {:induction false} UniversalNewlinesPrefix(a: string, b: string)
    requires '\r' !in a
    ensures UniversalNewlines(a + b) == a + UniversalNewlines(b)
    decreases |a|
  {
    if a != [] {
      assert (a + b)[0] == a[0] && (a + b)[1..] == a[1..] + b;
      assert a[0] in a;
      UniversalNewlinesPrefix(a[1..], b);
      assert a == [a[0]] + a[1..];
    } else {
      assert a + b == b;
    }
  }

  /** `\r\n` is read as one `\n`. */
  lemma UniversalNewlinesCrLf(a: string, b: string)
    requires '\r' !in a
    ensures UniversalNewlines(a + "\r\n" + b) == a + "\n" + UniversalNewlines(b)
  {
    var t := "\r\n" + b;
    assert t[0] == '\r' && t[1] == '\n' && t[2..] == b;
    assert UniversalNewlines(t) == "\n" + UniversalNewlines(b);
    UniversalNewlinesPrefix(a, t);
    assert a + "\r\n" + b == a + t;
  }

  /** A `\r` not followed by `\n` is read as `\n`. */
  lemma UniversalNewlinesLoneCr(a: string, b: string)
    requires '\r' !in a
    requires b == [] || b[0] != '\n'
    ensures UniversalNewlines(a + "\r" + b) == a + "\n" + UniversalNewlines(b)
  {
    var t := "\r" + b;
    calc {
      UniversalNewlines(a + "\r" + b);
      { assert a + "\r" + b == a + t; }
      UniversalNewlines(a + t);
      { UniversalNewlinesPrefix(a, t); }
      a + UniversalNewlines(t);
      { LoneCrHead(b); }
      a + ("\n" + UniversalNewlines(b));
    }
  }

  /** One step of the translation at a lone `\r`. */
  lemma LoneCrHead(b: string)
    requires b == [] || b[0] != '\n'
    ensures UniversalNewlines("\r" + b) == "\n" + UniversalNewlines(b)
  {
    var t := "\r" + b;
    assert t[0] == '\r' && t[1..] == b;
    assert |t| > 1 ==> t[1] == b[0];
  }

  /** The translation keeps a last character that is neither `\r` nor `\n`. */
  lemma {:induction false} UniversalNewlinesLast(text: string)
    requires text != [] && text[|text| - 1] != '\r' && text[|text| - 1] != '\n'
    ensures UniversalNewlines(text) != []
    ensures UniversalNewlines(text)[|UniversalNewlines(text)| - 1] == text[|text| - 1]
    decreases |text|
  {
    if text[0] == '\r' {
      var rest := if |text| > 1 && text[1] == '\n' then text[2..] else text[1..];
      assert rest != [] && rest[|rest| - 1] == text[|text| - 1];
      UniversalNewlinesLast(rest);
    } else if |text| > 1 {
      UniversalNewlinesLast(text[1..]);
    }
  }

  /** A stripped text stays stripped when read back: its two ends are not
      whitespace, so the translation leaves them in place. */
  lemma UniversalNewlinesStripped(text: string)
    requires text == [] || (!IsSpace(text[0]) && !IsSpace(text[|text| - 1]))
    ensures Strip(UniversalNewlines(text)) == UniversalNewlines(text)
  {
    var t := UniversalNewlines(text);
    if text != [] {
      UniversalNewlinesLast(text);
      assert t[0] == text[0];
    }
    StripByNoop(t, IsSpace);
  }

  /** Reading the id: the file's text as a text-mode read returns it,
      trimmed, or the fixed default when the file is missing or unreadable. */
  function LoadDeviceId(file: Option<string>): (id: string)
    ensures file.None? ==> id == DEFAULT_DEVICE_ID
    ensures file.Some? ==> id == Strip(UniversalNewlines(file.value))
    ensures file.Some? ==> |id| <= |file.value|
    ensures '\r' !in id
    ensures id == [] || (!IsSpace(id[0]) && !IsSpace(id[|id| - 1]))
  {
    match file
    case None => DEFAULT_DEVICE_ID
    case Some(text) =>
      StripBySubset(UniversalNewlines(text), IsSpace, '\r');
      Strip(UniversalNewlines(text))
  }

  /** How `with open(path, 'w') as f: f.write(text)` ends: the text is
      written; `open` itself fails, before anything is touched; or `open`
      has already truncated the file when the write or the close fails. */
  datatype WriteOutcome = Written | OpenFailed | Truncated

  /** Writing the id: the file then holds `newId` trimmed; a failed `open`
      leaves the file as it was; a failure after `open` leaves it empty. */
  function SaveDeviceId(file: Option<string>, newId: string, outcome: WriteOutcome): Option<string> {
    match outcome
    case Written => Some(Strip(newId))
    case OpenFailed => file
    case Truncated => Some("")
  }

  /** The default is returned exactly when the file is missing or unreadable,
      or when its text, read back and trimmed, happens to be the default. */
  lemma LoadDefaultIff(file: Option<string>)
    ensures LoadDeviceId(file) == DEFAULT_DEVICE_ID
        <==> file.None? || Strip(UniversalNewlines(file.value)) == DEFAULT_DEVICE_ID
  {
  }

  /** Saving `x` and loading again yields `x` trimmed, with its inner line
      breaks as a text-mode read returns them; an `x` without `\r` comes back
      exactly trimmed. */
  lemma SaveThenLoad(file: Option<string>, x: string)
    ensures LoadDeviceId(SaveDeviceId(file, x, Written)) == UniversalNewlines(Strip(x))
    ensures '\r' !in x ==> LoadDeviceId(SaveDeviceId(file, x, Written)) == Strip(x)
  {
    var y := Strip(x);
    assert SaveDeviceId(file, x, Written) == Some(y);
    UniversalNewlinesStripped(y);
    if '\r' !in x {
      StripBySubset(x, IsSpace, '\r');
      UniversalNewlinesNoCr(y);
    }
  }

  /** A failed `open` leaves the id as it was; a write cut short after the
      truncation leaves an empty id, which is neither the old id (unless
      that was empty) nor the default. */
  lemma SaveFailedThenLoad(file: Option<string>, x: string)
    ensures LoadDeviceId(SaveDeviceId(file, x, OpenFailed)) == LoadDeviceId(file)
    ensures LoadDeviceId(SaveDeviceId(file, x, Truncated)) == ""
    ensures LoadDeviceId(SaveDeviceId(file, x, Truncated)) != DEFAULT_DEVICE_ID
  {
    assert UniversalNewlines("") == "";
    StripByNoop("", IsSpace);
  }

  /** Whatever was stored, saving what was loaded changes nothing a later
      load can see. */
  lemma LoadSaveLoad(file: Option<string>)
    ensures LoadDeviceId(SaveDeviceId(file, LoadDeviceId(file), Written)) == LoadDeviceId(file)
  {
    var id := LoadDeviceId(file);
    StripByNoop(id, IsSpace);
    UniversalNewlinesNoCr(id);
  }
}
