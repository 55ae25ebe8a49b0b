/** The ESP32 side of the bridge (firmware/esp32-wifi/src/main.cpp): the
    serial loop that frames bytes into commands, the command dispatcher with
    its index-based argument splitting, and the lines each handler prints.
    Every answer of the radio or the TCP stack is an input. */
module Firmware {
  import opened Text

  const SerialBaud := 115200
  /** `connectToWiFi` polls the link at most this many times, 500 ms apart. */
  const MaxJoinAttempts := 20
  const JoinPollMs := 500
  /** Idle delay at the end of each pass of the main loop. */
  const LoopIdleMs := 10
  /** `WIFI_AUTH_OPEN` in the ESP-IDF `wifi_auth_mode_t` enumeration. */
  const AuthOpen := 0
  /** What `WiFi.scanNetworks()` returns while a scan runs, or after it failed. */
  const ScanRunningCode := -1
  const ScanFailedCode := -2

  /** The fixed lines the handlers print. */
  const JoinOk := "OK:Connected"
  const JoinFailed := "ERROR:Connection failed"
  const Disconnected := "OK:Disconnected"
  const OpenOk := "OK:TCP connected"
  const OpenFailed := "ERROR:TCP connection failed"
  const Sent := "OK:Data sent"
  const NotOpen := "ERROR:Not connected"
  const Closed := "OK:TCP connection closed"
  const NothingToClose := "ERROR:No active TCP connection"
  const NoWiFi := "ERROR:Not connected to WiFi"
  const BadJoinLine := "ERROR:Invalid CONNECT format. Use CONNECT:SSID:PASSWORD"
  const BadOpenLine := "ERROR:Invalid TCPCONNECT format"
  const UnknownTag := "ERROR:Unknown command: "
  const LinkUp := "STATUS:CONNECTED"
  const LinkDown := "STATUS:DISCONNECTED"
  const ScanBanner := "SCANNING..."
  const NoNetworks := "SCAN:No networks found"

  /** One scan result as the radio reports it. */
  datatype AccessPoint = AccessPoint(ssid: string, rssi: Int32, auth: nat)

  datatype ScanReport = ScanRunning | ScanFailed | Found(aps: seq<AccessPoint>)

  /** The answers the radio and the TCP stack give while one command runs. */
  datatype Radio = Radio(
    polls: seq<bool>,    // successive `WiFi.status() == WL_CONNECTED` readings while joining
    ssid: string,        // `WiFi.SSID()`
    ip: string,          // `WiFi.localIP().toString()`
    rssi: Int8,          // `WiFi.RSSI()`
    scan: ScanReport,    // `WiFi.scanNetworks()` and the per-index getters
    accepts: bool)       // `tcpClient.connect(host, port)`

  /** The radio assumed once the given answers run out: no link, nothing found. */
  const Quiet := Radio([], "", "0.0.0.0", 0, Found([]), false)

  /** What `WiFi.status()` and `tcpClient.connected()` currently report. */
  datatype Link = Link(wifiUp: bool, tcpOpen: bool)

  /** The firmware's whole state: the link flags and the partial command line. */
  datatype Bridge = Bridge(link: Link, buffer: string)

  /** The link after one command, and the lines printed for it (each is
      sent followed by "\r\n"). */
  datatype Reply = Reply(link: Link, lines: seq<string>)

  /** A trimmed command line, classified the way `processCommand` does. */
  datatype Request =
    | Join(ssid: string, password: string)
    | BadJoin
    | Status
    | Scan
    | Leave
    | Open(host: string, port: Int32)
    | BadOpen
    | Send(data: string)
    | Close
    | Address
    | Unknown(cmd: string)

  // ---------------------------------------------------------------------
  // Framing (main loop, lines 49-66)

  predicate IsTerminator(c: char) {
    c == '\n' || c == '\r'
  }

  predicate Unbroken(s: string) {
    forall i :: 0 <= i < |s| ==> !IsTerminator(s[i])
  }

  datatype Framed = Framed(commands: seq<string>, rest: string)

  /** The serial loop, character by character: a terminator dispatches the
      buffer when it is not empty and clears it; any other character is
      appended to the buffer. */
  function Frame(buffer: string, input: string): (f: Framed)
    ensures forall i :: 0 <= i < |f.commands| ==> f.commands[i] != []
    ensures Unbroken(buffer) ==>
              Unbroken(f.rest) && forall i :: 0 <= i < |f.commands| ==> Unbroken(f.commands[i])
    ensures |input| > 0 && IsTerminator(input[|input| - 1]) ==> f.rest == []
    decreases |input|
  {
    if |input| == 0 then Framed([], buffer)
    else if IsTerminator(input[0]) then
      var f := Frame([], input[1..]);
      if |buffer| > 0 then Framed([buffer] + f.commands, f.rest) else f
    else Frame(buffer + [input[0]], input[1..])
  }

  /** Index of the first terminator in `s`, or -1. */
  function FirstBreak(s: string): (r: int)
    ensures r == -1 <==> Unbroken(s)
    ensures r != -1 ==> 0 <= r < |s| && IsTerminator(s[r]) && Unbroken(s[..r])
    decreases |s|
  {
    if |s| == 0 then -1
    else if IsTerminator(s[0]) then 0
    else
      var r := FirstBreak(s[1..]);
      assert r != -1 ==> s[1..][..r] == s[1..r + 1];
      if r == -1 then -1 else r + 1
  }

  /** Reference definition of framing: the maximal non-empty runs of
      non-terminator characters, in order. */
  function Fields(s: string): seq<string>
    decreases |s|
  {
    var i := FirstBreak(s);
    if i < 0 then (if s == [] then [] else [s])
    else (if i == 0 then [] else [s[..i]]) + Fields(s[i + 1..])
  }

  lemma {:induction false} FirstBreakAt(s: string, i: nat)
    requires i < |s| && IsTerminator(s[i]) && Unbroken(s[..i])
    ensures FirstBreak(s) == i
    decreases i
  {
    if i > 0 {
      assert s[..i][0] == s[0];
      assert s[1..][..i - 1] == s[..i][1..];
      FirstBreakAt(s[1..], i - 1);
    }
  }

  /** A field ends at the first terminator. */
  lemma FieldsAfterBreak(field: string, t: char, rest: string)
    requires Unbroken(field) && IsTerminator(t)
    ensures Fields(field + [t] + rest) == (if field == [] then [] else [field]) + Fields(rest)
  {
    var s := field + [t] + rest;
    assert s[..|field|] == field;
    FirstBreakAt(s, |field|);
    assert s[|field| + 1..] == rest;
  }

  /** The partial line a framing leaves, as a list of at most one field. */
  function Leftover(f: Framed): seq<string> {
    if f.rest == [] then [] else [f.rest]
  }

  /** At a terminator the loop dispatches a non-empty buffer and starts afresh. */
  lemma FrameAtBreak(buffer: string, input: string)
    requires |input| > 0 && IsTerminator(input[0])
    ensures var f := Frame([], input[1..]);
            Frame(buffer, input) == if |buffer| > 0 then Framed([buffer] + f.commands, f.rest) else f
  {
  }

  lemma FieldsAtBreak(buffer: string, input: string)
    requires Unbroken(buffer) && |input| > 0 && IsTerminator(input[0])
    ensures Fields(buffer + input) == (if buffer == [] then [] else [buffer]) + Fields(input[1..])
  {
    assert buffer + input == buffer + [input[0]] + input[1..];
    FieldsAfterBreak(buffer, input[0], input[1..]);
  }

  /** One framing step at a terminator, given the framing of what follows. */
  lemma FrameFieldsBreak(buffer: string, input: string)
    requires Unbroken(buffer) && |input| > 0 && IsTerminator(input[0])
    requires Frame([], input[1..]).commands + Leftover(Frame([], input[1..])) == Fields(input[1..])
    ensures Frame(buffer, input).commands + Leftover(Frame(buffer, input)) == Fields(buffer + input)
  {
    var f := Frame([], input[1..]);
    FrameAtBreak(buffer, input);
    FieldsAtBreak(buffer, input);
    if |buffer| > 0 {
      Regroup3([buffer], f.commands, Leftover(f));
    }
  }

  /** The loop's commands, followed by the partial line left in the buffer,
      are exactly the fields of everything received. */
  lemma {:induction false} FrameFields(buffer: string, input: string)
    requires Unbroken(buffer)
    ensures var f := Frame(buffer, input);
            f.commands + Leftover(f) == Fields(buffer + input)
    decreases |input|
  {
    if |input| == 0 {
      assert buffer + input == buffer;
    } else if IsTerminator(input[0]) {
      FrameFields([], input[1..]);
      assert [] + input[1..] == input[1..];
      FrameFieldsBreak(buffer, input);
    } else {
      var b := buffer + [input[0]];
      assert b + input[1..] == buffer + input;
      FrameFields(b, input[1..]);
    }
  }

  /** Characters before any terminator only accumulate in the buffer. */
  lemma {:induction false} FrameAccumulates(buffer: string, s: string, tail: string)
    requires Unbroken(s)
    ensures Frame(buffer, s + tail) == Frame(buffer + s, tail)
    decreases |s|
  {
    if |s| == 0 {
      assert s + tail == tail && buffer + s == buffer;
    } else {
      assert (s + tail)[0] == s[0];
      assert (s + tail)[1..] == s[1..] + tail;
      assert buffer + [s[0]] + s[1..] == buffer + s;
      FrameAccumulates(buffer + [s[0]], s[1..], tail);
    }
  }

  /** A command line ending in "\r\n" is dispatched exactly once, and the
      buffer is empty afterwards; so is one ending in "\n". */
  lemma FrameCrLf(cmd: string)
    requires cmd != [] && Unbroken(cmd)
    ensures Frame([], cmd + "\r\n") == Framed([cmd], [])
    ensures Frame([], cmd + "\n") == Framed([cmd], [])
  {
    FrameAccumulates([], cmd, "\r\n");
    FrameAccumulates([], cmd, "\n");
    assert [] + cmd == cmd;
    assert "\r\n"[1..] == "\n";
    assert "\n"[1..] == [];
  }

  // ---------------------------------------------------------------------
  // Arduino String::toInt

  /** `String::toInt`: `atol`, which on the ESP32 is `strtol` on a 32-bit
      `long` -- skips C white space, takes an optional sign and the digits
      after it (none gives 0), and saturates at the `long` bounds. */
  function ToInt(s: string): Int32 {
    Clamp32(SignedValue(TrimLeft(s, CSpaces)))
  }

  /** An optional sign, then the value of the digits that follow. */
  function SignedValue(t: string): int {
    if |t| > 0 && t[0] == '-' then -(LeadingValue(t[1..]) as int)
    else if |t| > 0 && t[0] == '+' then LeadingValue(t[1..])
    else LeadingValue(t)
  }

  /** `strtol` saturates at the bounds of a 32-bit `long`. */
  function Clamp32(v: int): (r: Int32)
    ensures -0x8000_0000 <= v <= 0x7fff_ffff ==> r == v
    ensures v < -0x8000_0000 ==> r == -0x8000_0000
    ensures v > 0x7fff_ffff ==> r == 0x7fff_ffff
  {
    if v < -0x8000_0000 then -0x8000_0000
    else if v > 0x7fff_ffff then 0x7fff_ffff
    else v
  }

  /** `toInt` reads back every 32-bit value printed in decimal, and
      saturates any other. */
  lemma ToIntDecimal(n: int, rest: string)
    requires rest == [] || !IsDigit(rest[0])
    ensures ToInt(Decimal(n) + rest) == Clamp32(n)
  {
    if n < 0 {
      ToIntNegative(n, rest);
    } else {
      ToIntNatural(n, rest);
    }
  }

  lemma ToIntNegative(n: int, rest: string)
    requires rest == [] || !IsDigit(rest[0])
    requires n < 0
    ensures ToInt(Decimal(n) + rest) == Clamp32(n)
  {
    var t := Digits(-n) + rest;
    NegativeDecimal(n, rest);
    assert t[0] == Digits(-n)[0];
    ToIntMinus(Decimal(n) + rest, t);
    LeadingDigits(-n, rest);
  }

  lemma ToIntNatural(n: nat, rest: string)
    requires rest == [] || !IsDigit(rest[0])
    ensures ToInt(Decimal(n) + rest) == Clamp32(n)
  {
    var s := Digits(n) + rest;
    assert s[0] == Digits(n)[0];
    ToIntUnsigned(s);
    LeadingDigits(n, rest);
  }

  lemma NegativeDecimal(n: int, rest: string)
    requires n < 0
    ensures Decimal(n) + rest == "-" + (Digits(-n) + rest)
  {
    assert Decimal(n) == "-" + Digits(-n);
  }

  /** A numeral that starts with a digit is read as its leading digits. */
  lemma ToIntUnsigned(s: string)
    requires |s| > 0 && IsDigit(s[0])
    ensures ToInt(s) == Clamp32(LeadingValue(s))
  {
  }

  /** After a minus sign, the leading digits are read negated. */
  lemma ToIntMinus(s: string, t: string)
    requires s == "-" + t && |t| > 0 && IsDigit(t[0])
    ensures ToInt(s) == Clamp32(-(LeadingValue(t) as int))
  {
    assert s[1..] == t;
  }

  // ---------------------------------------------------------------------
  // Dispatch (processCommand, lines 85-181)

  /** No colon at or after index `from`. */
  predicate ColonFreeFrom(s: string, from: nat) {
    forall k :: from <= k < |s| ==> s[k] != ':'
  }

  lemma PrefixAt(s: string, p: string, i: nat)
    requires HasPrefix(s, p) && i < |p|
    ensures s[i] == p[i]
  {
    assert s[..|p|][i] == s[i];
  }

  /** The verbs and prefixes `processCommand` tests are mutually exclusive,
      so the order of its tests only matters where the source says so. */
  lemma VerbsDistinct(cmd: string)
    ensures HasPrefix(cmd, "CONNECT:") ==> !HasPrefix(cmd, "TCPCONNECT:") && !HasPrefix(cmd, "TCPSEND:")
    ensures HasPrefix(cmd, "TCPCONNECT:") ==> !HasPrefix(cmd, "TCPSEND:") && !HasPrefix(cmd, "CONNECT:")
    ensures HasPrefix(cmd, "TCPSEND:") ==> cmd != "TCPCLOSE" && cmd[0] == 'T'
    ensures HasPrefix(cmd, "TCPCONNECT:") ==> cmd[0] == 'T'
  {
    if HasPrefix(cmd, "CONNECT:") {
      PrefixAt(cmd, "CONNECT:", 0);
    }
    if HasPrefix(cmd, "TCPCONNECT:") {
      PrefixAt(cmd, "TCPCONNECT:", 3);
      PrefixAt(cmd, "TCPCONNECT:", 0);
    }
    if HasPrefix(cmd, "TCPSEND:") {
      PrefixAt(cmd, "TCPSEND:", 3);
      PrefixAt(cmd, "TCPSEND:", 0);
    }
  }

  /** `CONNECT:` arguments: the SSID runs from index 8 to the first colon
      at or after index 8, the password is everything after that colon. */
  function ParseJoin(cmd: string): (r: Request)
    requires HasPrefix(cmd, "CONNECT:")
    ensures r.Join? || r.BadJoin?
    ensures r.Join? ==> cmd == "CONNECT:" + r.ssid + ":" + r.password && ':' !in r.ssid
    ensures r.BadJoin? <==> ColonFreeFrom(cmd, 8)
  {
    var colon := IndexFrom(cmd, ':', 8);
    if colon > 0 then
      var ssid := cmd[8..colon];
      assert ':' !in ssid by {
        forall k | 0 <= k < |ssid| ensures ssid[k] != ':' {
          assert ssid[k] == cmd[8 + k];
        }
      }
      assert cmd == cmd[..8] + ssid + [':'] + cmd[colon + 1..];
      Join(ssid, cmd[colon + 1..])
    else BadJoin
  }

  /** `TCPCONNECT:` arguments: the host runs from index 11 to the last colon,
      which must lie beyond index 11; the port is `toInt` of the rest. */
  function ParseOpen(cmd: string): (r: Request)
    requires HasPrefix(cmd, "TCPCONNECT:")
    ensures r.Open? || r.BadOpen?
    ensures r.Open? ==>
              && |r.host| > 0 && 12 + |r.host| <= |cmd|
              && cmd == "TCPCONNECT:" + r.host + ":" + cmd[12 + |r.host|..]
              && ColonFreeFrom(cmd, 12 + |r.host|)
              && r.port == ToInt(cmd[12 + |r.host|..])
    ensures r.BadOpen? <==> ColonFreeFrom(cmd, 12)
  {
    var colon := LastIndex(cmd, ':');
    assert cmd[10] == ':' by {
      PrefixAt(cmd, "TCPCONNECT:", 10);
    }
    if colon > 11 then
      var host := cmd[11..colon];
      assert cmd == cmd[..11] + host + [':'] + cmd[colon + 1..];
      Open(host, ToInt(cmd[colon + 1..]))
    else BadOpen
  }

  /** `processCommand`'s classification of a trimmed command: `CONNECT:`
      splits at the first colon from index 8, `TCPCONNECT:` at the last
      colon, which must lie beyond index 11. */
  function Parse(cmd: string): (r: Request)
    ensures HasPrefix(cmd, "CONNECT:") <==> r.Join? || r.BadJoin?
    ensures r.Join? ==> cmd == "CONNECT:" + r.ssid + ":" + r.password && ':' !in r.ssid
    ensures r.BadJoin? <==> HasPrefix(cmd, "CONNECT:") && ColonFreeFrom(cmd, 8)
    ensures r.Status? <==> cmd == "STATUS"
    ensures r.Scan? <==> cmd == "SCAN"
    ensures r.Leave? <==> cmd == "DISCONNECT"
    ensures HasPrefix(cmd, "TCPCONNECT:") <==> r.Open? || r.BadOpen?
    ensures r.Open? ==>
              && |r.host| > 0 && 12 + |r.host| <= |cmd|
              && cmd == "TCPCONNECT:" + r.host + ":" + cmd[12 + |r.host|..]
              && ColonFreeFrom(cmd, 12 + |r.host|)
              && r.port == ToInt(cmd[12 + |r.host|..])
    ensures r.BadOpen? <==> HasPrefix(cmd, "TCPCONNECT:") && ColonFreeFrom(cmd, 12)
    ensures r.Send? <==> HasPrefix(cmd, "TCPSEND:")
    ensures r.Send? ==> cmd == "TCPSEND:" + r.data
    ensures r.Close? <==> cmd == "TCPCLOSE"
    ensures r.Address? <==> cmd == "IP"
    ensures r.Unknown? ==> r.cmd == cmd
  {
    VerbsDistinct(cmd);
    if HasPrefix(cmd, "CONNECT:") then ParseJoin(cmd)
    else if cmd == "STATUS" then Status
    else if cmd == "SCAN" then Scan
    else if cmd == "DISCONNECT" then Leave
    else if HasPrefix(cmd, "TCPCONNECT:") then ParseOpen(cmd)
    else if HasPrefix(cmd, "TCPSEND:") then Send(cmd[8..])
    else if cmd == "TCPCLOSE" then Close
    else if cmd == "IP" then Address
    else Unknown(cmd)
  }

  /** A prefixed verb sent without its colon is an unknown command. */
  lemma BareVerbsUnknown(cmd: string)
    requires cmd == "CONNECT" || cmd == "TCPCONNECT" || cmd == "TCPSEND"
    ensures Parse(cmd) == Unknown(cmd)
  {
    if cmd == "TCPCONNECT" {
      PrefixMismatch(cmd, "TCPSEND:", 3);
    }
  }

  // ---------------------------------------------------------------------
  // Handlers (lines 183-285)

  /** The `i`-th reading of the link taken while joining; readings beyond
      the given ones say "not connected". */
  predicate Polled(polls: seq<bool>, i: nat) {
    i < |polls| && polls[i]
  }

  /** The join loop from attempt `k` on: it stops at the first connected
      reading or once 20 attempts have been made. */
  function AttemptsFrom(polls: seq<bool>, k: nat): (n: nat)
    requires k <= MaxJoinAttempts
    ensures k <= n <= MaxJoinAttempts
    ensures forall j :: k <= j < n ==> !Polled(polls, j)
    ensures n < MaxJoinAttempts ==> Polled(polls, n)
    decreases MaxJoinAttempts - k
  {
    if Polled(polls, k) || k == MaxJoinAttempts then k else AttemptsFrom(polls, k + 1)
  }

  function Dots(n: nat): (r: string)
    ensures |r| == n && forall i :: 0 <= i < n ==> r[i] == '.'
  {
    seq(n, _ => '.')
  }

  datatype Joined = Joined(up: bool, lines: seq<string>)

  /** `connectToWiFi`: echoes the SSID, prints one dot per failed poll (at
      most 20), then reports the reading taken after the loop. */
  function ConnectToWiFi(ssid: string, radio: Radio): (j: Joined)
    ensures |j.lines| >= 3 && j.lines[0] == "CONNECTING:" + ssid
    ensures |j.lines[1]| <= MaxJoinAttempts
    ensures forall k :: 0 <= k < |j.lines[1]| ==> j.lines[1][k] == '.' && !Polled(radio.polls, k)
    ensures |j.lines[1]| < MaxJoinAttempts ==> Polled(radio.polls, |j.lines[1]|)
    ensures j.up == Polled(radio.polls, |j.lines[1]| + 1)
    ensures j.up ==> j.lines[2..] == [JoinOk, "IP:" + radio.ip]
    ensures !j.up ==> j.lines[2..] == [JoinFailed]
  {
    var attempts := AttemptsFrom(radio.polls, 0);
    var up := Polled(radio.polls, attempts + 1);
    var head := ["CONNECTING:" + ssid, Dots(attempts)];
    var tail := if up then [JoinOk, "IP:" + radio.ip] else [JoinFailed];
    assert (head + tail)[2..] == tail;
    Joined(up, head + tail)
  }

  /** `getStatus`. */
  function StatusLines(up: bool, radio: Radio): seq<string> {
    if up then
      [LinkUp, "SSID:" + radio.ssid, "IP:" + radio.ip, "RSSI:" + Decimal(radio.rssi) + " dBm"]
    else
      [LinkDown]
  }

  /** The count `WiFi.scanNetworks()` returns. */
  function ScanCount(report: ScanReport): int {
    match report
    case ScanRunning => ScanRunningCode
    case ScanFailed => ScanFailedCode
    case Found(aps) => |aps|
  }

  function NetworkLine(ap: AccessPoint): string {
    "NETWORK:" + ap.ssid + ":" + Decimal(ap.rssi) + ":" + (if ap.auth == AuthOpen then "OPEN" else "SECURED")
  }

  /** `scanNetworks`: a banner, the count (or "No networks found" for zero),
      then one line per network for each index below the count -- none when
      the count is a negative failure code. */
  function ScanLines(report: ScanReport): (lines: seq<string>)
    ensures |lines| == 2 + (if report.Found? then |report.aps| else 0)
    ensures lines[0] == ScanBanner
    ensures ScanCount(report) == 0 <==> lines[1] == NoNetworks
    ensures ScanCount(report) != 0 ==> lines[1] == "SCAN:Found " + Decimal(ScanCount(report)) + " networks"
    ensures report.Found? ==> forall i :: 0 <= i < |report.aps| ==> lines[2 + i] == NetworkLine(report.aps[i])
  {
    var n := ScanCount(report);
    var aps := if report.Found? then report.aps else [];
    var header := if n == 0 then NoNetworks else "SCAN:Found " + Decimal(n) + " networks";
    assert n != 0 ==> header[..11] == "SCAN:Found " && header[10] == ' ';
    [ScanBanner, header] + seq(|aps|, i requires 0 <= i < |aps| => NetworkLine(aps[i]))
  }

  /** `connectTCP`: echoes host and port, then the outcome of the attempt. */
  function ConnectTcpLines(host: string, port: Int32, accepted: bool): seq<string> {
    ["TCP:Connecting to " + host + ":" + Decimal(port),
     if accepted then OpenOk else OpenFailed]
  }

  /** Runs one classified request. A failed `connect` leaves an existing
      session in place: the TCP client only replaces its socket on success. */
  function Execute(link: Link, req: Request, radio: Radio): (r: Reply)
    ensures |r.lines| >= 1
    ensures !req.Join? && !req.Leave? ==> r.link.wifiUp == link.wifiUp
    ensures !req.Open? && !req.Close? ==> r.link.tcpOpen == link.tcpOpen
    ensures req.Open? ==> r.link.tcpOpen == (radio.accepts || link.tcpOpen)
    ensures req.Status? || req.Scan? || req.Address? || req.Send? ==> r.link == link
  {
    match req
    case Join(ssid, _) =>
      var j := ConnectToWiFi(ssid, radio);
      Reply(link.(wifiUp := j.up), j.lines)
    case BadJoin => Reply(link, [BadJoinLine])
    case Status => Reply(link, StatusLines(link.wifiUp, radio))
    case Scan => Reply(link, ScanLines(radio.scan))
    case Leave => Reply(link.(wifiUp := false), [Disconnected])
    case Open(host, port) =>
      Reply(link.(tcpOpen := radio.accepts || link.tcpOpen), ConnectTcpLines(host, port, radio.accepts))
    case BadOpen => Reply(link, [BadOpenLine])
    case Send(_) => Reply(link, [if link.tcpOpen then Sent else NotOpen])
    case Close =>
      if link.tcpOpen then Reply(link.(tcpOpen := false), [Closed])
      else Reply(link, [NothingToClose])
    case Address =>
      Reply(link, if link.wifiUp then ["IP:" + radio.ip] else [NoWiFi])
    case Unknown(cmd) => Reply(link, [UnknownTag + cmd])
  }

  /** `connectToWiFi`'s effect: its lines, and the link it leaves. */
  lemma ExecuteJoin(link: Link, ssid: string, password: string, radio: Radio)
    ensures Execute(link, Join(ssid, password), radio) ==
              Reply(link.(wifiUp := ConnectToWiFi(ssid, radio).up), ConnectToWiFi(ssid, radio).lines)
  {
  }

  /** `getStatus` prints the link's state and changes nothing. */
  lemma ExecuteStatus(link: Link, radio: Radio)
    ensures Execute(link, Status, radio) == Reply(link, StatusLines(link.wifiUp, radio))
  {
  }

  /** `scanNetworks` prints its lines and changes nothing. */
  lemma ExecuteScan(link: Link, radio: Radio)
    ensures Execute(link, Scan, radio) == Reply(link, ScanLines(radio.scan))
  {
  }

  /** `connectTCP`'s effect: its two lines, and a session that is open
      after a successful attempt or if one was open before. */
  lemma ExecuteOpen(link: Link, host: string, port: Int32, radio: Radio)
    ensures Execute(link, Open(host, port), radio) ==
              Reply(link.(tcpOpen := radio.accepts || link.tcpOpen), ConnectTcpLines(host, port, radio.accepts))
  {
  }

  /** The replies that need no radio, and what each request does to the
      link. */
  lemma ExecuteReplies(link: Link, req: Request, radio: Radio)
    ensures var r := Execute(link, req, radio);
            && (req.Leave? ==> r.lines == [Disconnected] && !r.link.wifiUp)
            && (req.Close? && link.tcpOpen ==> r.lines == [Closed] && !r.link.tcpOpen)
            && (req.Close? && !link.tcpOpen ==> r.lines == [NothingToClose] && r.link == link)
            && (req.Send? ==> (r.lines == [Sent] <==> link.tcpOpen))
            && (req.Send? && !link.tcpOpen ==> r.lines == [NotOpen])
            && (req.Address? ==> (r.lines == ["IP:" + radio.ip] <==> link.wifiUp))
            && (req.BadJoin? ==> r.lines == [BadJoinLine] && r.link == link)
            && (req.BadOpen? ==> r.lines == [BadOpenLine] && r.link == link)
            && (req.Unknown? ==> r.lines == [UnknownTag + req.cmd] && r.link == link)
  {
    match req {
      case Send(_) =>
        assert Sent != NotOpen;
      case Address =>
        assert ("IP:" + radio.ip)[0] == 'I' && NoWiFi[0] == 'E';
      case _ =>
    }
  }

  /** `processCommand`: trims the line, classifies it and runs it. */
  function ProcessCommand(link: Link, raw: string, radio: Radio): Reply {
    Execute(link, Parse(Trim(raw, CSpaces)), radio)
  }

  // ---------------------------------------------------------------------
  // The serial loop

  function Head(radios: seq<Radio>): Radio {
    if |radios| > 0 then radios[0] else Quiet
  }

  function Tail(radios: seq<Radio>): seq<Radio> {
    if |radios| > 0 then radios[1..] else []
  }

  /** Dispatches complete command lines in order, each with the next radio. */
  function Run(link: Link, commands: seq<string>, radios: seq<Radio>): Reply
    decreases |commands|
  {
    if |commands| == 0 then Reply(link, [])
    else
      var first := ProcessCommand(link, commands[0], Head(radios));
      var rest := Run(first.link, commands[1..], Tail(radios));
      Reply(rest.link, first.lines + rest.lines)
  }

  datatype Served = Served(bridge: Bridge, lines: seq<string>)

  /** `loop`, over everything that arrives on the serial port: characters
      accumulate in the buffer, a terminator dispatches a non-empty buffer
      (consuming the next radio) and clears it. */
  function Serve(b: Bridge, input: string, radios: seq<Radio>): Served
    decreases |input|
  {
    if |input| == 0 then Served(b, [])
    else if IsTerminator(input[0]) then
      if |b.buffer| > 0 then
        var r := ProcessCommand(b.link, b.buffer, Head(radios));
        var rest := Serve(Bridge(r.link, []), input[1..], Tail(radios));
        Served(rest.bridge, r.lines + rest.lines)
      else Serve(b, input[1..], radios)
    else Serve(b.(buffer := b.buffer + [input[0]]), input[1..], radios)
  }

  /** The loop dispatches exactly the commands framing finds, in order, and
      keeps the unterminated rest in its buffer. */
  lemma {:induction false} ServeRunsFrames(b: Bridge, input: string, radios: seq<Radio>)
    ensures var f := Frame(b.buffer, input);
            var r := Run(b.link, f.commands, radios);
            Serve(b, input, radios) == Served(Bridge(r.link, f.rest), r.lines)
    decreases |input|
  {
    if |input| > 0 {
      if IsTerminator(input[0]) {
        if |b.buffer| > 0 {
          var r := ProcessCommand(b.link, b.buffer, Head(radios));
          ServeRunsFrames(Bridge(r.link, []), input[1..], Tail(radios));
          var f := Frame([], input[1..]);
          assert ([b.buffer] + f.commands)[1..] == f.commands;
        } else {
          ServeRunsFrames(b, input[1..], radios);
        }
      } else {
        ServeRunsFrames(b.(buffer := b.buffer + [input[0]]), input[1..], radios);
      }
    }
  }
}
