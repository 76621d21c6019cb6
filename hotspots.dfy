/** The interactive Wi-Fi picker: the network names are taken from the
    `ESSID` lines of an `iwlist` scan, and the number the user enters picks
    one of them. */
module Hotspots {

  import opened Wrappers
  import opened Strings

  const ESSID_MARKER: string := "ESSID"

  predicate IsEssidLine(line: string) {
    Contains(line, ESSID_MARKER)
  }

  /** The `ESSID` lines of `lines`, in order. */
  function EssidLines(lines: seq<string>): seq<string> {
    if lines == [] then []
    else
      var last := lines[|lines| - 1];
      EssidLines(lines[..|lines| - 1]) + (if IsEssidLine(last) then [last] else [])
  }

  predicate IsQuote(c: char) {
    c == '"'
  }

  /** A line whose name field can be taken: it has a `:`, so its trimmed
      text has one too (otherwise `split(":")[1]` raises). */
  predicate HasField(line: string) {
    ':' in line
  }

  /** Trimming keeps the `:` of a line, and only a line with a `:` yields
      more than one part. */
  lemma HasFieldParts(line: string)
    ensures HasField(line) <==> |SplitOn(Strip(line), ':')| >= 2
  {
    StripByKeeps(line, IsSpace, ':');
  }

  /** `line.strip().split(":")[1].strip('"')`. */
  function EssidField(line: string): string
    requires HasField(line)
  {
    HasFieldParts(line);
    var parts := SplitOn(Strip(line), ':');
    StripBy(parts[1], IsQuote)
  }

  /** The name field is the text between the first and the second `:` of the
      trimmed line (or its end), with the surrounding quotes removed. */
  lemma EssidFieldShape(line: string)
    requires HasField(line)
    ensures var s := Strip(line);
      var i := IndexOf(s, ':');
      i < |s| && EssidField(line) == StripBy(s[i + 1..][..IndexOf(s[i + 1..], ':')], IsQuote)
  {
    var s := Strip(line);
    var i := IndexOf(s, ':');
    HasFieldParts(line);
    SplitOnFirst(s, ':');
    SplitOnFirst(s[i + 1..], ':');
    assert SplitOn(s, ':')[1] == SplitOn(s, ':')[1..][0];
  }

  /** The `ESSID` lines of a concatenation. */
  lemma {:induction false} EssidLinesConcat(a: seq<string>, b: seq<string>)
    ensures EssidLines(a + b) == EssidLines(a) + EssidLines(b)
    decreases |b|
  {
    if b == [] {
      assert a + b == a;
    } else {
      var init := b[..|b| - 1];
      assert (a + b)[..|a + b| - 1] == a + init;
      EssidLinesConcat(a, init);
    }
  }

  /** One more line of the scan. */
  lemma EssidLinesStep(lines: seq<string>, i: nat)
    requires i < |lines|
    ensures IsEssidLine(lines[i]) ==> EssidLines(lines[..i + 1]) == EssidLines(lines[..i]) + [lines[i]]
    ensures !IsEssidLine(lines[i]) ==> EssidLines(lines[..i + 1]) == EssidLines(lines[..i])
  {
    assert lines[..i + 1][..i] == lines[..i];
    assert EssidLines(lines[..i]) + [] == EssidLines(lines[..i]);
  }

  /** Exactly the lines mentioning `ESSID` are kept. */
  lemma {:induction false} EssidLinesMembers(lines: seq<string>, x: string)
    ensures x in EssidLines(lines) <==> x in lines && IsEssidLine(x)
  {
    if lines != [] {
      var init := lines[..|lines| - 1];
      EssidLinesMembers(init, x);
      assert lines == init + [lines[|lines| - 1]];
    }
  }

  /** The name field of one line, or `None` where Python raises. */
  function FieldOf(line: string): Option<string> {
    if HasField(line) then Some(EssidField(line)) else None
  }

  /** The names `scan_wifi` collects from the `ESSID` lines, in order, or
      `None` when one of those lines has no field (Python raises there). */
  function EssidNames(essid: seq<string>): Option<seq<string>> {
    Collect(essid, FieldOf)
  }

  /** The scan fails exactly when some `ESSID` line has no field; otherwise
      it yields one name per line, that line's field. */
  lemma EssidNamesIff(essid: seq<string>)
    ensures EssidNames(essid).None? <==> exists k :: 0 <= k < |essid| && !HasField(essid[k])
    ensures EssidNames(essid).Some? ==>
      && |EssidNames(essid).value| == |essid|
      && forall k :: 0 <= k < |essid| ==> HasField(essid[k]) && EssidNames(essid).value[k] == EssidField(essid[k])
  {
    CollectIff(essid, FieldOf);
    assert forall k :: 0 <= k < |essid| ==> (FieldOf(essid[k]).None? <==> !HasField(essid[k]));
  }

  /** A scanned `ESSID` line with a field adds its name. */
  lemma ScanFoundField(lines: seq<string>, i: nat, found: seq<string>)
    requires i < |lines| && IsEssidLine(lines[i]) && HasField(lines[i])
    requires EssidNames(EssidLines(lines[..i])) == Some(found)
    ensures EssidNames(EssidLines(lines[..i + 1])) == Some(found + [EssidField(lines[i])])
  {
    EssidLinesStep(lines, i);
    CollectStep(EssidLines(lines[..i]), lines[i], FieldOf);
  }

  /** A scanned `ESSID` line without a field makes the whole scan fail. */
  lemma ScanMissingField(lines: seq<string>, i: nat)
    requires i < |lines| && IsEssidLine(lines[i]) && !HasField(lines[i])
    ensures EssidNames(EssidLines(lines)).None?
  {
    EssidLinesStep(lines, i);
    CollectStep(EssidLines(lines[..i]), lines[i], FieldOf);
    EssidLinesConcat(lines[..i + 1], lines[i + 1..]);
    CollectFailed(EssidLines(lines[..i + 1]), EssidLines(lines[i + 1..]), FieldOf);
    assert lines[..i + 1] + lines[i + 1..] == lines;
  }

  /** `scan_wifi` on the decoded scan output: the names of the `ESSID`
      lines; `None` where Python raises because such a line has no `:`. */
  method ScanWifi(output: string) returns (networks: Option<seq<string>>)
    ensures networks == EssidNames(EssidLines(SplitOn(output, '\n')))
  {
    var lines := SplitOn(output, '\n');
    var found: seq<string> := [];
    var i := 0;
    while i < |lines|
      invariant 0 <= i <= |lines|
      invariant EssidNames(EssidLines(lines[..i])) == Some(found)
    {
      var line := lines[i];
      if IsEssidLine(line) {
        var parts := SplitOn(Strip(line), ':');
        HasFieldParts(line);
        if |parts| < 2 {
          ScanMissingField(lines, i);
          return None;
        }
        ScanFoundField(lines, i, found);
        found := found + [StripBy(parts[1], IsQuote)];
      } else {
        EssidLinesStep(lines, i);
      }
      i := i + 1;
    }
    assert lines[..i] == lines;
    return Some(found);
  }

  /** The outcome of the menu. */
  datatype Choice = NoNetworks | InvalidChoice | Selected(ssid: string)

  /** The menu: with no networks nothing is asked; otherwise the entered
      number `n` selects `networks[n - 1]` when `1 <= n <= len(networks)`. */
  function Choose(networks: seq<string>, entered: int): (r: Choice)
    ensures r == NoNetworks <==> networks == []
    ensures r.Selected? <==> networks != [] && 1 <= entered <= |networks|
    ensures r.Selected? ==> r.ssid == networks[entered - 1]
  {
    if networks == [] then NoNetworks
    else
      var choice := entered - 1;
      if choice < 0 || choice >= |networks| then InvalidChoice else Selected(networks[choice])
  }

  /** Every selectable name is a scanned network, and every scanned
      network can be selected by its position plus one. */
  lemma ChooseCovers(networks: seq<string>, ssid: string)
    ensures ssid in networks <==> exists n :: 1 <= n <= |networks| && Choose(networks, n) == Selected(ssid)
  {
    if ssid in networks {
      var k :| 0 <= k < |networks| && networks[k] == ssid;
      assert Choose(networks, k + 1) == Selected(ssid);
    }
  }
}
