/** The BLE provisioning server: one characteristic whose writes carry either
    a device-id update (`DEV::::<id>`) or Wi-Fi credentials
    (`<ssid>++++<password>`), and whose reads and notifications report
    `"<wifi status>; Device ID: <id>"`.

    The files, the NetworkManager connection list and the characteristic's
    value are the state; every command the server runs (`nmcli`, `iw`) is
    replaced by its observable result, passed in as a parameter. */
module Provisioning {

  import opened Wrappers
  import opened Strings
  import opened TextCodec
  import opened DeviceIdentity

  const DEVICE_PREFIX: string := "DEV::::"
  const CREDENTIAL_SEPARATOR: string := "++++"
  const NOT_CONNECTED: string := "Not connected"
  const CONNECTED_PREFIX: string := "Connected to "
  const PAYLOAD_SEPARATOR: string := "; Device ID: "

  // ---------------------------------------------------------------------
  // Incoming writes
  // ---------------------------------------------------------------------

  /** What a write asks for. */
  datatype Command =
    | SetDeviceId(newId: string)
    | SetWifi(ssid: string, password: string)
    | Unrecognized

  /** The text of a write: one character per byte, surrounding whitespace
      trimmed. */
  function MessageOf(data: seq<byte>): string {
    Strip(DecodeBytes(data))
  }

  /** The command a written byte array carries. */
  function CommandOf(data: seq<byte>): Command {
    ParseMessage(MessageOf(data))
  }

  /** The dispatch of `write_value`: the device-id prefix is tested first, so
      a message that starts with it is an id update whatever follows; other
      messages split at the first credential separator. */
  function ParseMessage(message: string): (cmd: Command)
    ensures cmd.SetDeviceId? <==> StartsWith(message, DEVICE_PREFIX)
    ensures cmd.SetDeviceId? ==> cmd.newId == message[|DEVICE_PREFIX|..]
    ensures cmd.SetWifi? <==> !StartsWith(message, DEVICE_PREFIX) && Contains(message, CREDENTIAL_SEPARATOR)
    ensures cmd.SetWifi? ==> message == cmd.ssid + CREDENTIAL_SEPARATOR + cmd.password
    ensures cmd.SetWifi? ==> !Contains(cmd.ssid, CREDENTIAL_SEPARATOR)
    ensures cmd.SetWifi? ==>
      forall j: nat :: j < |cmd.ssid| ==> !OccursAt(message, CREDENTIAL_SEPARATOR, j)
  {
    if StartsWith(message, DEVICE_PREFIX) then
      assert OccursAt(message, DEVICE_PREFIX, 0);
      var parts := SplitOnce(message, DEVICE_PREFIX).value;
      assert |parts.0| == 0;
      assert message == DEVICE_PREFIX + parts.1;
      SetDeviceId(parts.1)
    else
      match SplitOnce(message, CREDENTIAL_SEPARATOR)
      case Some((ssid, password)) => SetWifi(ssid, password)
      case None => Unrecognized
  }

  // ---------------------------------------------------------------------
  // Wi-Fi status from `nmcli --terse -f ACTIVE,SSID dev wifi`
  // ---------------------------------------------------------------------

  /** A status line whose ACTIVE field is `yes`. */
  predicate Active(line: string) {
    var f := SplitOnce(line, ":");
    f.Some? && f.value.0 == "yes"
  }

  /** A status line that splits at `:` and is not active. */
  predicate Inactive(line: string) {
    var f := SplitOnce(line, ":");
    f.Some? && f.value.0 != "yes"
  }

  function SsidOf(line: string): string
    requires Active(line)
  {
    SplitOnce(line, ":").value.1
  }

  /** The status the scan of the lines yields: the first active line wins; a
      line without `:` met before it makes the unpacking fail, which the
      server reports as not connected. */
  function StatusOfLines(lines: seq<string>): string
    decreases |lines|
  {
    if lines == [] then NOT_CONNECTED
    else
      match SplitOnce(lines[0], ":")
      case None => NOT_CONNECTED
      case Some((active, ssid)) =>
        if active == "yes" then CONNECTED_PREFIX + ssid else StatusOfLines(lines[1..])
  }

  /** `get_wifi_status`, given the command's standard output (`None` when the
      command fails). */
  function WifiStatus(nmcliOut: Option<string>): string {
    match nmcliOut
    case None => NOT_CONNECTED
    case Some(out) => StatusOfLines(SplitLines(Strip(out)))
  }

  /** The scan as the server runs it: a loop over the lines that returns as
      soon as it meets an active line or a line it cannot unpack. */
  method GetWifiStatus(nmcliOut: Option<string>) returns (status: string)
    ensures status == WifiStatus(nmcliOut)
  {
    if nmcliOut.None? {
      return NOT_CONNECTED;
    }
    var lines := SplitLines(Strip(nmcliOut.value));
    var i := 0;
    while i < |lines|
      invariant 0 <= i <= |lines|
      invariant StatusOfLines(lines[i..]) == StatusOfLines(lines)
    {
      assert lines[i..][1..] == lines[i + 1..];
      match SplitOnce(lines[i], ":") {
        case None =>
          return NOT_CONNECTED;
        case Some((active, ssid)) =>
          if active == "yes" {
            return CONNECTED_PREFIX + ssid;
          }
      }
      i := i + 1;
    }
    return NOT_CONNECTED;
  }

  /** What the first line decides. */
  lemma StatusOfFirstLine(lines: seq<string>)
    requires lines != []
    ensures Inactive(lines[0]) ==> StatusOfLines(lines) == StatusOfLines(lines[1..])
    ensures Active(lines[0]) ==> StatusOfLines(lines) == CONNECTED_PREFIX + SsidOf(lines[0])
    ensures !Active(lines[0]) && !Inactive(lines[0]) ==> StatusOfLines(lines) == NOT_CONNECTED
  {
  }

  /** The first active line, reached through inactive lines only, gives
      "Connected to <its SSID>". */
  lemma {:induction false} StatusConnectedAt(lines: seq<string>, k: nat)
    requires k < |lines|
    requires forall j :: 0 <= j < k ==> Inactive(lines[j])
    requires Active(lines[k])
    ensures StatusOfLines(lines) == CONNECTED_PREFIX + SsidOf(lines[k])
    decreases k
  {
    StatusOfFirstLine(lines);
    if k > 0 {
      assert Inactive(lines[0]);
      var rest := lines[1..];
      assert rest[k - 1] == lines[k];
      assert forall j :: 0 <= j < k - 1 ==> Inactive(rest[j]) by {
        forall j | 0 <= j < k - 1 ensures Inactive(rest[j]) {
          assert rest[j] == lines[j + 1];
        }
      }
      StatusConnectedAt(rest, k - 1);
    }
  }

  /** A first line without `:` ends the scan with "Not connected". */
  lemma StatusMalformedFirst(lines: seq<string>)
    requires lines != [] && !Contains(lines[0], ":")
    ensures StatusOfLines(lines) == NOT_CONNECTED
  {
    assert SplitOnce(lines[0], ":").None?;
  }

  /** A line without `:` reached through inactive lines only ends the scan
      with "Not connected", even if an active line follows. */
  lemma {:induction false} StatusMalformedAt(lines: seq<string>, k: nat)
    requires k < |lines|
    requires forall j :: 0 <= j < k ==> Inactive(lines[j])
    requires !Contains(lines[k], ":")
    ensures StatusOfLines(lines) == NOT_CONNECTED
    decreases k
  {
    if k == 0 {
      StatusMalformedFirst(lines);
    } else {
      StatusOfFirstLine(lines);
      assert Inactive(lines[0]);
      var rest := lines[1..];
      assert rest[k - 1] == lines[k];
      assert forall j :: 0 <= j < k - 1 ==> Inactive(rest[j]) by {
        forall j | 0 <= j < k - 1 ensures Inactive(rest[j]) {
          assert rest[j] == lines[j + 1];
        }
      }
      StatusMalformedAt(rest, k - 1);
    }
  }

  /** No active line at all gives "Not connected". */
  lemma {:induction false} StatusNoneActive(lines: seq<string>)
    requires forall j :: 0 <= j < |lines| ==> Inactive(lines[j])
    ensures StatusOfLines(lines) == NOT_CONNECTED
    decreases |lines|
  {
    if lines != [] {
      StatusOfFirstLine(lines);
      assert Inactive(lines[0]);
      StatusNoneActive(lines[1..]);
    }
  }

  /** Conversely, a "Connected" answer always comes from the first active
      line, every line before it being an inactive one. */
  lemma {:induction false} StatusConnectedOnlyAt(lines: seq<string>)
    ensures StatusOfLines(lines) != NOT_CONNECTED ==>
      exists k :: 0 <= k < |lines| && Active(lines[k])
        && (forall j :: 0 <= j < k ==> Inactive(lines[j]))
        && StatusOfLines(lines) == CONNECTED_PREFIX + SsidOf(lines[k])
    decreases |lines|
  {
    if lines != [] && StatusOfLines(lines) != NOT_CONNECTED {
      StatusOfFirstLine(lines);
      if !Active(lines[0]) {
        assert Inactive(lines[0]);
        var rest := lines[1..];
        StatusConnectedOnlyAt(rest);
        var k :| 0 <= k < |rest| && Active(rest[k])
          && (forall j :: 0 <= j < k ==> Inactive(rest[j]))
          && StatusOfLines(rest) == CONNECTED_PREFIX + SsidOf(rest[k]);
        assert lines[k + 1] == rest[k];
        assert forall j :: 0 <= j < k + 1 ==> Inactive(lines[j]) by {
          forall j | 0 < j < k + 1 ensures Inactive(lines[j]) {
            assert lines[j] == rest[j - 1];
          }
        }
      }
    }
  }

  // ---------------------------------------------------------------------
  // Read / notify payload
  // ---------------------------------------------------------------------

  function Payload(status: string, deviceId: string): string {
    status + PAYLOAD_SEPARATOR + deviceId
  }

  /** `read_value`: the UTF-8 bytes of `"<status>; Device ID: <id>"`. */
  function ReadValue(nmcliOut: Option<string>, idFile: Option<string>): seq<byte> {
    Utf8Encode(Payload(WifiStatus(nmcliOut), LoadDeviceId(idFile)))
  }

  /** The payload is the status, the separator and the id, each encoded on
      its own; for an ASCII payload the bytes read back as the text. */
  lemma ReadValueLayout(nmcliOut: Option<string>, idFile: Option<string>)
    ensures ReadValue(nmcliOut, idFile)
      == Utf8Encode(WifiStatus(nmcliOut)) + Utf8Encode(PAYLOAD_SEPARATOR) + Utf8Encode(LoadDeviceId(idFile))
    ensures IsAscii(Payload(WifiStatus(nmcliOut), LoadDeviceId(idFile))) ==>
      DecodeBytes(ReadValue(nmcliOut, idFile)) == Payload(WifiStatus(nmcliOut), LoadDeviceId(idFile))
  {
    var status, id := WifiStatus(nmcliOut), LoadDeviceId(idFile);
    Utf8EncodeConcat(status + PAYLOAD_SEPARATOR, id);
    Utf8EncodeConcat(status, PAYLOAD_SEPARATOR);
    if IsAscii(Payload(status, id)) {
      AsciiRoundTrip(Payload(status, id));
    }
  }

  // ---------------------------------------------------------------------
  // Stored Wi-Fi credentials (a JSON object with "ssid" and "password")
  // ---------------------------------------------------------------------

  /** The credentials file as the JSON object it holds; `None` when it is
      missing or cannot be read or parsed (`load_json` then yields `{}`). */
  type WifiFile = Option<map<string, string>>

  function Lookup(data: map<string, string>, key: string): Option<string> {
    if key in data then Some(data[key]) else None
  }

  /** `load_wifi`: the stored ssid and password, each possibly absent. */
  function LoadWifi(file: WifiFile): (Option<string>, Option<string>) {
    var data := if file.Some? then file.value else map[];
    (Lookup(data, "ssid"), Lookup(data, "password"))
  }

  /** `save_wifi`: the file is replaced by {"ssid": ..., "password": ...};
      a failed `open` leaves it as it was; a failure after `open` has
      truncated it leaves an empty or partial JSON text, which no longer
      parses. */
  function SaveWifi(file: WifiFile, ssid: string, password: string, outcome: WriteOutcome): WifiFile {
    match outcome
    case Written => Some(map["ssid" := ssid, "password" := password])
    case OpenFailed => file
    case Truncated => None
  }

  /** The startup guard of `main`: reconnect only when both stored values are
      present and non-empty (Python truthiness). */
  function AutoReconnect(file: WifiFile): Option<(string, string)> {
    match LoadWifi(file)
    case (Some(ssid), Some(password)) =>
      if ssid != "" && password != "" then Some((ssid, password)) else None
    case _ => None
  }

  /** Saved credentials are loaded back unchanged, and drive the reconnect
      at the next start exactly when neither is empty. */
  lemma SaveWifiThenLoad(file: WifiFile, ssid: string, password: string)
    ensures LoadWifi(SaveWifi(file, ssid, password, Written)) == (Some(ssid), Some(password))
    ensures AutoReconnect(SaveWifi(file, ssid, password, Written))
      == if ssid != "" && password != "" then Some((ssid, password)) else None
  {
  }

  /** A failed `open` keeps the stored credentials; a truncated file loads as
      `{}`, so nothing is stored and the next start does not reconnect. */
  lemma SaveWifiFailedThenLoad(file: WifiFile, ssid: string, password: string)
    ensures LoadWifi(SaveWifi(file, ssid, password, OpenFailed)) == LoadWifi(file)
    ensures LoadWifi(SaveWifi(file, ssid, password, Truncated)) == (None, None)
    ensures AutoReconnect(SaveWifi(file, ssid, password, Truncated)).None?
  {
  }

  /** After a reconnect decision, the credentials used are exactly the stored
      ones. */
  lemma AutoReconnectUsesStored(file: WifiFile)
    ensures AutoReconnect(file).Some? <==>
      (file.Some? && "ssid" in file.value && "password" in file.value
       && file.value["ssid"] != "" && file.value["password"] != "")
    ensures AutoReconnect(file).Some? ==>
      AutoReconnect(file).value == (file.value["ssid"], file.value["password"])
  {
  }

  // ---------------------------------------------------------------------
  // Clearing old NetworkManager connections
  // ---------------------------------------------------------------------

  /** The connection list after the clearing loop has reached position `i`
      of the listing `conns`: every later connection not named `ssid` is
      deleted, in list order, until a deletion fails; the failure ends the
      loop and the rest of the list stays. */
  function ClearedFrom(conns: seq<string>, i: nat, ssid: string, failing: set<string>): seq<string>
    requires i <= |conns|
    decreases |conns| - i
  {
    if i == |conns| then []
    else if conns[i] == ssid then [conns[i]] + ClearedFrom(conns, i + 1, ssid, failing)
    else if conns[i] in failing then conns[i..]
    else ClearedFrom(conns, i + 1, ssid, failing)
  }

  /** The connection list after the whole clearing loop. */
  function Cleared(conns: seq<string>, ssid: string, failing: set<string>): seq<string> {
    ClearedFrom(conns, 0, ssid, failing)
  }

  /** One round of the clearing loop, which has kept `kept` so far. */
  lemma ClearingStep(conns: seq<string>, i: nat, kept: seq<string>, ssid: string, failing: set<string>)
    requires i < |conns|
    requires Cleared(conns, ssid, failing) == kept + ClearedFrom(conns, i, ssid, failing)
    ensures conns[i] == ssid ==>
      && Cleared(conns, ssid, failing) == (kept + [conns[i]]) + ClearedFrom(conns, i + 1, ssid, failing)
      && kept + conns[i..] == (kept + [conns[i]]) + conns[i + 1..]
    ensures conns[i] != ssid && conns[i] in failing ==> Cleared(conns, ssid, failing) == kept + conns[i..]
    ensures conns[i] != ssid && conns[i] !in failing ==>
      Cleared(conns, ssid, failing) == kept + ClearedFrom(conns, i + 1, ssid, failing)
  {
    assert conns[i..] == [conns[i]] + conns[i + 1..];
  }

  lemma {:induction false} ClearedFromKeepsSsid(conns: seq<string>, i: nat, ssid: string, failing: set<string>)
    requires i <= |conns|
    ensures multiset(ClearedFrom(conns, i, ssid, failing))[ssid] == multiset(conns[i..])[ssid]
    decreases |conns| - i
  {
    if i < |conns| {
      assert conns[i..] == [conns[i]] + conns[i + 1..];
      if conns[i] == ssid || conns[i] !in failing {
        ClearedFromKeepsSsid(conns, i + 1, ssid, failing);
      }
    }
  }

  /** Connections named `ssid` are never deleted. */
  lemma ClearedKeepsSsid(conns: seq<string>, ssid: string, failing: set<string>)
    ensures multiset(Cleared(conns, ssid, failing))[ssid] == multiset(conns)[ssid]
  {
    ClearedFromKeepsSsid(conns, 0, ssid, failing);
    assert conns[0..] == conns;
  }

  lemma {:induction false} ClearedFromRemovesOthers(conns: seq<string>, i: nat, ssid: string, failing: set<string>)
    requires i <= |conns|
    requires forall k :: i <= k < |conns| ==> conns[k] !in failing
    ensures forall c :: c in ClearedFrom(conns, i, ssid, failing) ==> c == ssid
    decreases |conns| - i
  {
    if i < |conns| {
      ClearedFromRemovesOthers(conns, i + 1, ssid, failing);
    }
  }

  /** When no deletion fails, only connections named `ssid` remain. */
  lemma ClearedRemovesOthers(conns: seq<string>, ssid: string, failing: set<string>)
    requires forall k :: 0 <= k < |conns| ==> conns[k] !in failing
    ensures forall c :: c in Cleared(conns, ssid, failing) ==> c == ssid
  {
    ClearedFromRemovesOthers(conns, 0, ssid, failing);
  }

  // ---------------------------------------------------------------------
  // The server's state
  // ---------------------------------------------------------------------

  /** The results of the outside commands one write depends on. */
  datatype WriteEnv = WriteEnv(
    idWrite: WriteOutcome,         // how writing the device-id file ends
    wifiWrite: WriteOutcome,       // how writing the credentials file ends
    listingOk: bool,               // `nmcli connection show` succeeds
    deleteFailures: set<string>,   // names whose `nmcli connection delete` fails
    connected: bool,               // what `connect_to_wifi(ssid, pwd)` returns
    nmcliStatus: Option<string>)   // output of the status query of `read_value`

  class Provisioner {
    var deviceIdFile: Option<string>
    var wifiFile: WifiFile
    var connections: seq<string>
    var notifyValue: seq<byte>

    /** The characteristic is published with an empty value. */
    constructor (deviceIdFile: Option<string>, wifiFile: WifiFile, connections: seq<string>)
      ensures this.deviceIdFile == deviceIdFile && this.wifiFile == wifiFile
      ensures this.connections == connections && notifyValue == []
    {
      this.deviceIdFile := deviceIdFile;
      this.wifiFile := wifiFile;
      this.connections := connections;
      notifyValue := [];
    }

    /** `read_value`, on the current device-id file. */
    method Read(nmcliOut: Option<string>) returns (payload: seq<byte>)
      ensures payload == ReadValue(nmcliOut, deviceIdFile)
    {
      var status := GetWifiStatus(nmcliOut);
      payload := Utf8Encode(Payload(status, LoadDeviceId(deviceIdFile)));
    }

    /** The loop deleting every listed connection other than `ssid`. */
    method ClearOldConnections(ssid: string, listingOk: bool, failing: set<string>)
      modifies this
      ensures connections == if listingOk then Cleared(old(connections), ssid, failing) else old(connections)
      ensures deviceIdFile == old(deviceIdFile) && wifiFile == old(wifiFile) && notifyValue == old(notifyValue)
    {
      if !listingOk {
        return;
      }
      var listed := connections;
      var kept: seq<string> := [];
      var i := 0;
      while i < |listed|
        invariant 0 <= i <= |listed|
        invariant connections == kept + listed[i..]
        invariant Cleared(listed, ssid, failing) == kept + ClearedFrom(listed, i, ssid, failing)
        invariant deviceIdFile == old(deviceIdFile) && wifiFile == old(wifiFile) && notifyValue == old(notifyValue)
      {
        var conn := listed[i];
        ClearingStep(listed, i, kept, ssid, failing);
        if conn == ssid {
          kept := kept + [conn];
        } else if conn in failing {
          break;
        } else {
          connections := kept + listed[i + 1..];
        }
        i := i + 1;
      }
      assert i < |listed| || listed[i..] == [];
    }

    /** The device-id branch of `write_value`. */
    method StoreDeviceId(newId: string, env: WriteEnv)
      modifies this
      ensures deviceIdFile == SaveDeviceId(old(deviceIdFile), newId, env.idWrite)
      ensures wifiFile == old(wifiFile) && connections == old(connections)
      ensures notifyValue == ReadValue(env.nmcliStatus, deviceIdFile)
    {
      deviceIdFile := SaveDeviceId(deviceIdFile, newId, env.idWrite);
      notifyValue := Read(env.nmcliStatus);
    }

    /** The credentials branch of `write_value`. */
    method Configure(ssid: string, password: string, env: WriteEnv)
      modifies this
      ensures deviceIdFile == old(deviceIdFile)
      ensures connections == if env.listingOk then Cleared(old(connections), ssid, env.deleteFailures)
                             else old(connections)
      ensures wifiFile == if env.connected then SaveWifi(old(wifiFile), ssid, password, env.wifiWrite)
                          else old(wifiFile)
      ensures notifyValue == ReadValue(env.nmcliStatus, deviceIdFile)
    {
      ClearOldConnections(ssid, env.listingOk, env.deleteFailures);
      if env.connected {
        wifiFile := SaveWifi(wifiFile, ssid, password, env.wifiWrite);
      }
      notifyValue := Read(env.nmcliStatus);
    }

    /** The dispatch of `write_value` on a parsed command. An id update
        stores the new id; credentials clear the other connections and are
        stored only when the connection succeeds; a message of neither form
        changes nothing. */
    method Dispatch(cmd: Command, env: WriteEnv)
      modifies this
      ensures cmd.SetDeviceId? ==>
        && deviceIdFile == SaveDeviceId(old(deviceIdFile), cmd.newId, env.idWrite)
        && wifiFile == old(wifiFile) && connections == old(connections)
        && notifyValue == ReadValue(env.nmcliStatus, deviceIdFile)
      ensures cmd.SetWifi? ==>
        && deviceIdFile == old(deviceIdFile)
        && connections == (if env.listingOk then Cleared(old(connections), cmd.ssid, env.deleteFailures)
                           else old(connections))
        && wifiFile == (if env.connected then SaveWifi(old(wifiFile), cmd.ssid, cmd.password, env.wifiWrite)
                        else old(wifiFile))
        && notifyValue == ReadValue(env.nmcliStatus, deviceIdFile)
      ensures cmd.Unrecognized? ==>
        && deviceIdFile == old(deviceIdFile) && wifiFile == old(wifiFile)
        && connections == old(connections) && notifyValue == old(notifyValue)
    {
      match cmd {
        case SetDeviceId(newId) =>
          StoreDeviceId(newId, env);
        case SetWifi(ssid, password) =>
          Configure(ssid, password, env);
        case Unrecognized =>
      }
    }

    /** `write_value`: decode, trim, dispatch. */
    method WriteValue(data: seq<byte>, env: WriteEnv)
      modifies this
      ensures CommandOf(data).SetDeviceId? ==>
        && deviceIdFile == SaveDeviceId(old(deviceIdFile), CommandOf(data).newId, env.idWrite)
        && wifiFile == old(wifiFile) && connections == old(connections)
        && notifyValue == ReadValue(env.nmcliStatus, deviceIdFile)
      ensures CommandOf(data).SetWifi? ==>
        && deviceIdFile == old(deviceIdFile)
        && connections == (if env.listingOk then Cleared(old(connections), CommandOf(data).ssid, env.deleteFailures)
                           else old(connections))
        && wifiFile == (if env.connected
                        then SaveWifi(old(wifiFile), CommandOf(data).ssid, CommandOf(data).password, env.wifiWrite)
                        else old(wifiFile))
        && notifyValue == ReadValue(env.nmcliStatus, deviceIdFile)
      ensures CommandOf(data).Unrecognized? ==>
        && deviceIdFile == old(deviceIdFile) && wifiFile == old(wifiFile)
        && connections == old(connections) && notifyValue == old(notifyValue)
    {
      Dispatch(CommandOf(data), env);
    }
  }

  /** An id update stores exactly the text after the prefix, trimmed, and a
      later read reports it as a text-mode read returns it (exactly the
      trimmed text when it holds no `\r`). */
  lemma DeviceIdUpdateStored(data: seq<byte>, idFile: Option<string>, nmcliOut: Option<string>)
    requires StartsWith(MessageOf(data), DEVICE_PREFIX)
    ensures ParseMessage(MessageOf(data)).SetDeviceId?
    ensures var stored := SaveDeviceId(idFile, ParseMessage(MessageOf(data)).newId, Written);
      var id := UniversalNewlines(Strip(MessageOf(data)[|DEVICE_PREFIX|..]));
      LoadDeviceId(stored) == id && ReadValue(nmcliOut, stored) == Utf8Encode(Payload(WifiStatus(nmcliOut), id))
    ensures '\r' !in MessageOf(data) ==>
      LoadDeviceId(SaveDeviceId(idFile, ParseMessage(MessageOf(data)).newId, Written))
        == Strip(MessageOf(data)[|DEVICE_PREFIX|..])
  {
    var message := MessageOf(data);
    var rest := message[|DEVICE_PREFIX|..];
    StoredIdReadBack(idFile, rest, nmcliOut);
    if '\r' !in message {
      AbsentFromSuffix(message, |DEVICE_PREFIX|, '\r');
    }
  }

  /** A stored id reads back, and goes into the payload, as the text-mode
      read of its trimmed text. */
  lemma StoredIdReadBack(idFile: Option<string>, x: string, nmcliOut: Option<string>)
    ensures var stored := SaveDeviceId(idFile, x, Written);
      && LoadDeviceId(stored) == UniversalNewlines(Strip(x))
      && ReadValue(nmcliOut, stored) == Utf8Encode(Payload(WifiStatus(nmcliOut), UniversalNewlines(Strip(x))))
    ensures '\r' !in x ==> LoadDeviceId(SaveDeviceId(idFile, x, Written)) == Strip(x)
  {
    SaveThenLoad(idFile, x);
  }
}
