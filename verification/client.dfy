/** The host side of the bridge (beaglev/drivers/wifi/wifi.go): the command
    each call sends, the line filter applied to a read window, and how each
    call folds the window's lines into its result. The serial port and the
    clock are not modelled: a window is given as the reads it produced. */
module Client {
  import opened Text
  import opened Outcomes

  const DefaultBaud := 115200
  /** Timeout of one read on the port (`DefaultConfig`). */
  const ReadTimeoutMs := 1000
  /** Pause after opening the port while the ESP32 resets. */
  const SettleMs := 2000
  /** Pause after every write. */
  const SendPauseMs := 100
  /** How long each call collects lines after sending its command. */
  const ConnectWindowMs := 5000
  const StatusWindowMs := 1000
  const ScanWindowMs := 5000
  const IpWindowMs := 1000
  const TcpConnectWindowMs := 2000

  /** `Status`; a call starts from the zero value. */
  datatype Status = Status(connected: bool, ssid: string, ip: string, rssi: Int64)

  const ZeroStatus := Status(false, "", "", 0)

  /** `Network`: one scanned network. */
  datatype Network = Network(ssid: string, rssi: Int64, secured: bool)

  /** The client's operations, with their arguments. */
  datatype Call =
    | Connect(ssid: string, password: string)
    | Disconnect
    | GetStatus
    | Scan
    | GetIP
    | TCPConnect(host: string, port: Int64)
    | TCPSend(data: string)
    | TCPClose

  /** What a successful call returns. */
  datatype Answer = Done | StatusIs(status: Status) | Networks(list: seq<Network>) | Address(ip: string)

  // ---------------------------------------------------------------------
  // Commands (SendCommand and the command each call builds)

  /** The command line a call sends (without its newline). */
  function CommandOf(call: Call): (cmd: string)
    ensures |cmd| >= 2
    ensures call.Connect? ==> cmd == "CONNECT:" + call.ssid + ":" + call.password
    ensures call.TCPConnect? ==> cmd == "TCPCONNECT:" + call.host + ":" + Decimal(call.port)
    ensures call.TCPSend? ==> cmd == "TCPSEND:" + call.data
  {
    match call
    case Connect(ssid, password) => "CONNECT:" + ssid + ":" + password
    case Disconnect => "DISCONNECT"
    case GetStatus => "STATUS"
    case Scan => "SCAN"
    case GetIP => "IP"
    case TCPConnect(host, port) => "TCPCONNECT:" + host + ":" + Decimal(port)
    case TCPSend(data) => "TCPSEND:" + data
    case TCPClose => "TCPCLOSE"
  }

  /** `SendCommand`: the bytes written for a command. */
  function SendCommand(command: string): (bytes: string)
    ensures |bytes| == |command| + 1 && bytes[..|command|] == command && bytes[|command|] == '\n'
  {
    command + "\n"
  }

  /** How long a call reads after sending; 0 for calls that read nothing. */
  function WindowMs(call: Call): nat {
    match call
    case Connect(_, _) => ConnectWindowMs
    case GetStatus => StatusWindowMs
    case Scan => ScanWindowMs
    case GetIP => IpWindowMs
    case TCPConnect(_, _) => TcpConnectWindowMs
    case _ => 0
  }

  // ---------------------------------------------------------------------
  // Reading (ReadLine / ReadLines)

  /** One `ReadString('\n')` within a window: a line with its newline, or
      an error (a read timeout, say). */
  datatype RawRead = Line(text: string) | ReadFailed

  /** The characters a sequence of reads delivered, in order. */
  function Texts(got: seq<RawRead>): string
    decreases |got|
  {
    if |got| == 0 then [] else (match got[0] case Line(t) => t case ReadFailed => []) + Texts(got[1..])
  }

  /** The reads a window yields when `stream` arrives: one per newline-ended
      chunk, each ending at its only newline, together the stream up to its
      last newline. A chunk still unterminated when the window closes is
      lost. */
  function Receive(stream: string): (got: seq<RawRead>)
    ensures forall i :: 0 <= i < |got| ==> got[i].Line?
    ensures forall i :: 0 <= i < |got| ==>
              var t := got[i].text; t != [] && t[|t| - 1] == '\n' && '\n' !in t[..|t| - 1]
    ensures |Texts(got)| <= |stream| && stream[..|Texts(got)|] == Texts(got)
    ensures '\n' !in stream[|Texts(got)|..]
    decreases |stream|
  {
    var i := IndexFrom(stream, '\n', 0);
    if i < 0 then [] else
      var rest := Receive(stream[i + 1..]);
      ChunkAt(stream, i);
      TextsCons(stream[..i + 1], rest);
      SplitAfter(stream, i + 1, Texts(rest));
      [Line(stream[..i + 1])] + rest
  }

  /** The chunk up to the first newline ends at its only newline. */
  lemma ChunkAt(stream: string, i: int)
    requires i == IndexFrom(stream, '\n', 0) && i >= 0
    ensures var t := stream[..i + 1]; t != [] && t[|t| - 1] == '\n' && '\n' !in t[..|t| - 1]
  {
    assert stream[..i + 1][..i] == stream[..i];
  }

  lemma TextsCons(x: string, rest: seq<RawRead>)
    ensures Texts([Line(x)] + rest) == x + Texts(rest)
  {
    assert ([Line(x)] + rest)[1..] == rest;
  }

  lemma SplitAfter(s: string, n: nat, u: string)
    requires n <= |s| && |u| <= |s| - n && s[n..][..|u|] == u
    ensures s[..n + |u|] == s[..n] + u && s[n + |u|..] == s[n..][|u|..]
  {
  }

  /** `ReadLine`: the read's text with surrounding white space removed. */
  function ReadLine(r: RawRead): Option<string> {
    match r
    case Line(text) => Some(Trim(text, GoSpaces))
    case ReadFailed => None
  }

  /** What `ReadLines` keeps of one read: its trimmed text, unless the read
      failed or nothing is left. */
  function Keep(r: RawRead): (kept: seq<string>)
    ensures |kept| <= 1
    ensures r.Line? && Trim(r.text, GoSpaces) != [] ==> kept == [Trim(r.text, GoSpaces)]
    ensures kept == [] <==> r.ReadFailed? || Trim(r.text, GoSpaces) == []
    ensures forall i :: 0 <= i < |kept| ==> kept[i] != [] && Trimmed(kept[i], GoSpaces)
  {
    match ReadLine(r)
    case Some(line) =>
      if line == [] then [] else [line]
    case None => []
  }

  /** `ReadLines`: the trimmed, non-empty lines of a window, in arrival order;
      failed reads are skipped. */
  function ReadLines(window: seq<RawRead>): (lines: seq<string>)
    ensures |lines| <= |window|
    ensures forall i :: 0 <= i < |lines| ==> lines[i] != [] && Trimmed(lines[i], GoSpaces)
    ensures |window| == 1 ==> lines == Keep(window[0])
    ensures (forall j :: 0 <= j < |window| ==> window[j].Line? && Trim(window[j].text, GoSpaces) != []) ==>
              |lines| == |window|
    decreases |window|
  {
    if |window| == 0 then []
    else
      var rest := ReadLines(window[1..]);
      Keep(window[0]) + rest
  }

  /** `line` is what `Keep` makes of one of the window's reads. */
  predicate KeptFrom(window: seq<RawRead>, line: string) {
    exists j :: 0 <= j < |window| && Keep(window[j]) == [line]
  }

  lemma KeptFromTail(window: seq<RawRead>, line: string)
    requires |window| > 0 && KeptFrom(window[1..], line)
    ensures KeptFrom(window, line)
  {
    var j :| 0 <= j < |window[1..]| && Keep(window[1..][j]) == [line];
    assert window[j + 1] == window[1..][j];
  }

  lemma KeptFromHead(window: seq<RawRead>)
    requires |window| > 0
    ensures forall i :: 0 <= i < |Keep(window[0])| ==> KeptFrom(window, Keep(window[0])[i])
  {
    var k := Keep(window[0]);
    if |k| == 1 {
      assert k == [k[0]];
    }
  }

  lemma OriginsStep(window: seq<RawRead>, k: seq<string>, rest: seq<string>)
    requires forall i :: 0 <= i < |k| ==> KeptFrom(window, k[i])
    requires forall i :: 0 <= i < |rest| ==> KeptFrom(window, rest[i])
    ensures forall i :: 0 <= i < |k + rest| ==> KeptFrom(window, (k + rest)[i])
  {
    forall i | 0 <= i < |k + rest|
      ensures KeptFrom(window, (k + rest)[i])
    {
      if i < |k| {
        assert (k + rest)[i] == k[i];
      } else {
        assert (k + rest)[i] == rest[i - |k|];
      }
    }
  }

  /** Every kept line comes from one of the window's reads. */
  lemma {:induction false} ReadLinesOrigins(window: seq<RawRead>)
    ensures forall i :: 0 <= i < |ReadLines(window)| ==> KeptFrom(window, ReadLines(window)[i])
    decreases |window|
  {
    if |window| > 0 {
      var rest := ReadLines(window[1..]);
      ReadLinesOrigins(window[1..]);
      forall i | 0 <= i < |rest|
        ensures KeptFrom(window, rest[i])
      {
        KeptFromTail(window, rest[i]);
      }
      KeptFromHead(window);
      OriginsStep(window, Keep(window[0]), rest);
    }
  }

  /** A window read in two parts yields the lines of each part, in order. */
  lemma {:induction false} ReadLinesAppend(a: seq<RawRead>, b: seq<RawRead>)
    ensures ReadLines(a + b) == ReadLines(a) + ReadLines(b)
    decreases |a|
  {
    if |a| == 0 {
      assert a + b == b;
    } else {
      assert (a + b)[0] == a[0];
      assert (a + b)[1..] == a[1..] + b;
      ReadLinesAppend(a[1..], b);
    }
  }

  function AsReads(lines: seq<string>): (got: seq<RawRead>)
    ensures |got| == |lines|
    ensures forall i :: 0 <= i < |lines| ==> got[i] == Line(lines[i])
  {
    seq(|lines|, i requires 0 <= i < |lines| => Line(lines[i]))
  }

  /** Filtering a window again changes nothing. */
  lemma {:induction false} ReadLinesIdempotent(window: seq<RawRead>)
    ensures ReadLines(AsReads(ReadLines(window))) == ReadLines(window)
  {
    CleanLinesKept(ReadLines(window));
  }

  /** A read of a non-empty, already trimmed line keeps the line. */
  lemma KeepTrimmed(line: string)
    requires line != [] && Trimmed(line, GoSpaces)
    ensures Keep(Line(line)) == [line]
  {
    TrimKeeps(line, GoSpaces);
  }

  /** Lines that are non-empty and already trimmed pass the filter unchanged. */
  lemma {:induction false} CleanLinesKept(lines: seq<string>)
    requires forall i :: 0 <= i < |lines| ==> lines[i] != [] && Trimmed(lines[i], GoSpaces)
    ensures ReadLines(AsReads(lines)) == lines
    decreases |lines|
  {
    if |lines| > 0 {
      var w := AsReads(lines);
      KeepTrimmed(lines[0]);
      assert w[1..] == AsReads(lines[1..]);
      CleanLinesKept(lines[1..]);
    }
  }


  // ---------------------------------------------------------------------
  // Connect / TCPConnect: the first decisive line

  /** How the first decisive line of a window reads. */
  datatype Verdict = Accepted | Refused(line: string) | Undecided

  /** A line settles the call when `matches` finds the success mark or
      "ERROR" in it. */
  predicate Decisive(line: string, ok: string, matches: (string, string) -> bool) {
    matches(line, ok) || matches(line, "ERROR")
  }

  /** Scans the lines in order; within a line the success mark is tested
      before "ERROR". `wifi.go` tests with `strings.Contains`. */
  function FirstVerdict(lines: seq<string>, ok: string, matches: (string, string) -> bool): (v: Verdict)
    ensures v == Accepted <==>
              exists i :: 0 <= i < |lines| && matches(lines[i], ok)
                && forall j :: 0 <= j < i ==> !matches(lines[j], "ERROR")
    ensures v.Refused? ==>
              exists i :: 0 <= i < |lines| && lines[i] == v.line
                && matches(lines[i], "ERROR") && !matches(lines[i], ok)
                && forall j :: 0 <= j < i ==> !Decisive(lines[j], ok, matches)
    ensures v == Undecided <==> forall i :: 0 <= i < |lines| ==> !Decisive(lines[i], ok, matches)
    decreases |lines|
  {
    if |lines| == 0 then Undecided
    else if matches(lines[0], ok) then Accepted
    else if matches(lines[0], "ERROR") then Refused(lines[0])
    else
      var v := FirstVerdict(lines[1..], ok, matches);
      assert forall i :: 1 <= i < |lines| ==> lines[i] == lines[1..][i - 1];
      v
  }

  /** `Connect`'s result for the lines of its window. */
  function ConnectResult(lines: seq<string>): Result<()> {
    match FirstVerdict(lines, "OK:Connected", Contains)
    case Accepted => Ok(())
    case Refused(line) => Err("connection failed: " + line)
    case Undecided => Err("connection timeout")
  }

  /** `TCPConnect`'s result for the lines of its window. */
  function TcpConnectResult(lines: seq<string>): Result<()> {
    match FirstVerdict(lines, "OK:TCP connected", Contains)
    case Accepted => Ok(())
    case Refused(line) => Err("TCP connection failed: " + line)
    case Undecided => Err("TCP connection timeout")
  }

  /** A window in two parts: the second part only matters when the first
      has no decisive line. */
  lemma {:induction false} VerdictAppend(a: seq<string>, b: seq<string>, ok: string, matches: (string, string) -> bool)
    ensures FirstVerdict(a + b, ok, matches) ==
              if FirstVerdict(a, ok, matches).Undecided? then FirstVerdict(b, ok, matches)
              else FirstVerdict(a, ok, matches)
    decreases |a|
  {
    if |a| == 0 {
      assert a + b == b;
    } else {
      assert (a + b)[0] == a[0];
      assert (a + b)[1..] == a[1..] + b;
      VerdictAppend(a[1..], b, ok, matches);
    }
  }

  /** `Connect` as evidently intended: only a line that starts with the mark
      (as the firmware's answers do) is decisive, so an echoed SSID is not. */
  function ConnectResultStrict(lines: seq<string>): Result<()> {
    match FirstVerdict(lines, "OK:Connected", HasPrefix)
    case Accepted => Ok(())
    case Refused(line) => Err("connection failed: " + line)
    case Undecided => Err("connection timeout")
  }

  /** `TCPConnect` as evidently intended, likewise. */
  function TcpConnectResultStrict(lines: seq<string>): Result<()> {
    match FirstVerdict(lines, "OK:TCP connected", HasPrefix)
    case Accepted => Ok(())
    case Refused(line) => Err("TCP connection failed: " + line)
    case Undecided => Err("TCP connection timeout")
  }

  // ---------------------------------------------------------------------
  // GetStatus: a fold over the window, last line of each kind wins

  /** One step of `GetStatus`'s else-if chain. `connectedLine` says how a
      `STATUS:` line sets `Connected`. */
  function Absorb(st: Status, line: string, connectedLine: string -> bool): Status {
    if HasPrefix(line, "STATUS:") then st.(connected := connectedLine(line))
    else if HasPrefix(line, "SSID:") then st.(ssid := line[5..])
    else if HasPrefix(line, "IP:") then st.(ip := line[3..])
    else if HasPrefix(line, "RSSI:") then
      match ScanInt(line[5..])
      case Some(v) => st.(rssi := v)
      case None => st
    else st
  }

  function FoldStatus(st: Status, lines: seq<string>, connectedLine: string -> bool): Status
    decreases |lines|
  {
    if |lines| == 0 then st else FoldStatus(Absorb(st, lines[0], connectedLine), lines[1..], connectedLine)
  }

  /** How `wifi.go` reads a `STATUS:` line: connected when it contains
      "CONNECTED" anywhere. */
  predicate SaysConnected(line: string) {
    Contains(line, "CONNECTED")
  }

  /** `GetStatus`'s result for the lines of its window. */
  function StatusOf(lines: seq<string>): Status {
    FoldStatus(ZeroStatus, lines, SaysConnected)
  }

  /** `GetStatus` as evidently intended: connected only for the firmware's
      `STATUS:CONNECTED`. */
  predicate SaysConnectedExactly(line: string) {
    line == "STATUS:CONNECTED"
  }

  function StatusOfExact(lines: seq<string>): Status {
    FoldStatus(ZeroStatus, lines, SaysConnectedExactly)
  }

  /** The last line of the window that starts with `p`. */
  function LastWith(lines: seq<string>, p: string): (r: Option<string>)
    ensures r.Some? ==> HasPrefix(r.value, p) && r.value in lines
    ensures r.None? <==> forall i :: 0 <= i < |lines| ==> !HasPrefix(lines[i], p)
    ensures r.Some? ==> exists i :: 0 <= i < |lines| && lines[i] == r.value
                          && forall j :: i < j < |lines| ==> !HasPrefix(lines[j], p)
    decreases |lines|
  {
    if |lines| == 0 then None
    else if HasPrefix(lines[|lines| - 1], p) then Some(lines[|lines| - 1])
    else
      var r := LastWith(lines[..|lines| - 1], p);
      assert forall i :: 0 <= i < |lines| - 1 ==> lines[i] == lines[..|lines| - 1][i];
      r
  }

  /** The value of the last `RSSI:` line whose number scans. */
  function LastRssi(lines: seq<string>): Option<Int64>
    decreases |lines|
  {
    if |lines| == 0 then None
    else
      var l := lines[|lines| - 1];
      if HasPrefix(l, "RSSI:") && ScanInt(l[5..]).Some? then ScanInt(l[5..])
      else LastRssi(lines[..|lines| - 1])
  }

  lemma {:induction false} FoldSnoc(st: Status, a: seq<string>, l: string, connectedLine: string -> bool)
    ensures FoldStatus(st, a + [l], connectedLine) == Absorb(FoldStatus(st, a, connectedLine), l, connectedLine)
    decreases |a|
  {
    if |a| == 0 {
      assert a + [l] == [l];
    } else {
      assert (a + [l])[0] == a[0];
      assert (a + [l])[1..] == a[1..] + [l];
      FoldSnoc(Absorb(st, a[0], connectedLine), a[1..], l, connectedLine);
    }
  }

  /** A line starts with at most one of the four prefixes `GetStatus` tests. */
  lemma StatusPrefixesExclusive(line: string)
    ensures HasPrefix(line, "STATUS:") ==> !HasPrefix(line, "SSID:") && !HasPrefix(line, "IP:") && !HasPrefix(line, "RSSI:")
    ensures HasPrefix(line, "SSID:") ==> !HasPrefix(line, "IP:") && !HasPrefix(line, "RSSI:")
    ensures HasPrefix(line, "IP:") ==> !HasPrefix(line, "RSSI:")
  {
    if HasPrefix(line, "STATUS:") {
      assert line[..7][1] == line[1];
      assert line[..7][0] == line[0];
    }
    if HasPrefix(line, "SSID:") {
      assert line[..5][0] == line[0];
    }
    if HasPrefix(line, "IP:") {
      assert line[..3][0] == line[0];
    }
  }

  /** Every field of `GetStatus`'s result comes from the last line of its
      kind in the window, independently of the other kinds; `RSSI` from the
      last one whose number scans. Fields without such a line keep their
      zero value. */
  lemma StatusLastWins(lines: seq<string>, connectedLine: string -> bool)
    ensures var st := FoldStatus(ZeroStatus, lines, connectedLine);
            && st.connected == (match LastWith(lines, "STATUS:") case Some(l) => connectedLine(l) case None => false)
            && st.ssid == (match LastWith(lines, "SSID:") case Some(l) => l[5..] case None => "")
            && st.ip == (match LastWith(lines, "IP:") case Some(l) => l[3..] case None => "")
            && st.rssi == (match LastRssi(lines) case Some(v) => v case None => 0)
  {
    ConnectedLastWins(lines, connectedLine);
    SsidLastWins(lines, connectedLine);
    IpLastWins(lines, connectedLine);
    RssiLastWins(lines, connectedLine);
  }

  lemma {:induction false} ConnectedLastWins(lines: seq<string>, connectedLine: string -> bool)
    ensures FoldStatus(ZeroStatus, lines, connectedLine).connected ==
              (match LastWith(lines, "STATUS:") case Some(l) => connectedLine(l) case None => false)
    decreases |lines|
  {
    if |lines| > 0 {
      var a := lines[..|lines| - 1];
      var l := lines[|lines| - 1];
      Snoc(lines);
      ConnectedLastWins(a, connectedLine);
      FoldSnoc(ZeroStatus, a, l, connectedLine);
    }
  }

  lemma {:induction false} SsidLastWins(lines: seq<string>, connectedLine: string -> bool)
    ensures FoldStatus(ZeroStatus, lines, connectedLine).ssid ==
              (match LastWith(lines, "SSID:") case Some(l) => l[5..] case None => "")
    decreases |lines|
  {
    if |lines| > 0 {
      var a := lines[..|lines| - 1];
      var l := lines[|lines| - 1];
      Snoc(lines);
      SsidLastWins(a, connectedLine);
      FoldSnoc(ZeroStatus, a, l, connectedLine);
      StatusPrefixesExclusive(l);
    }
  }

  lemma {:induction false} IpLastWins(lines: seq<string>, connectedLine: string -> bool)
    ensures FoldStatus(ZeroStatus, lines, connectedLine).ip ==
              (match LastWith(lines, "IP:") case Some(l) => l[3..] case None => "")
    decreases |lines|
  {
    if |lines| > 0 {
      var a := lines[..|lines| - 1];
      var l := lines[|lines| - 1];
      Snoc(lines);
      IpLastWins(a, connectedLine);
      FoldSnoc(ZeroStatus, a, l, connectedLine);
      StatusPrefixesExclusive(l);
    }
  }

  lemma {:induction false} RssiLastWins(lines: seq<string>, connectedLine: string -> bool)
    ensures FoldStatus(ZeroStatus, lines, connectedLine).rssi ==
              (match LastRssi(lines) case Some(v) => v case None => 0)
    decreases |lines|
  {
    if |lines| > 0 {
      var a := lines[..|lines| - 1];
      var l := lines[|lines| - 1];
      Snoc(lines);
      RssiLastWins(a, connectedLine);
      FoldSnoc(ZeroStatus, a, l, connectedLine);
      StatusPrefixesExclusive(l);
    }
  }

  /** The line the firmware prints when the link is down sets `Connected`. */
  lemma DisconnectedReadsAsConnected()
    ensures StatusOf(["STATUS:DISCONNECTED"]).connected
  {
    var line := "STATUS:DISCONNECTED";
    assert OccursAt(line, "CONNECTED", 10);
    ContainsAt(line, "CONNECTED", 10);
    assert HasPrefix(line, "STATUS:");
    assert FoldStatus(ZeroStatus, [line], SaysConnected) == FoldStatus(Absorb(ZeroStatus, line, SaysConnected), [], SaysConnected);
  }

  // ---------------------------------------------------------------------
  // Scan

  /** One `NETWORK:` line: its remainder split at every colon must give at
      least three fields -- SSID, RSSI (0 when it does not scan) and the
      security word. */
  function ParseNetwork(line: string): (n: Option<Network>)
    ensures n.Some? ==> HasPrefix(line, "NETWORK:")
    ensures n.Some? <==> HasPrefix(line, "NETWORK:") && |Split(line[8..], ':')| >= 3
    ensures n.Some? ==> var parts := Split(line[8..], ':');
              n.value.ssid == parts[0] && (n.value.secured <==> parts[2] == "SECURED")
    ensures n.Some? ==> var parts := Split(line[8..], ':');
              n.value.rssi == match ScanInt(parts[1]) case Some(v) => v case None => 0
  {
    if !HasPrefix(line, "NETWORK:") then None
    else
      var parts := Split(line[8..], ':');
      if |parts| < 3 then None
      else
        var rssi := match ScanInt(parts[1]) case Some(v) => v case None => 0;
        Some(Network(parts[0], rssi, parts[2] == "SECURED"))
  }

  function CountPrefixed(lines: seq<string>, p: string): (n: nat)
    ensures n <= |lines|
    decreases |lines|
  {
    if |lines| == 0 then 0 else (if HasPrefix(lines[0], p) then 1 else 0) + CountPrefixed(lines[1..], p)
  }

  /** `Scan`'s result: the networks of the well-formed `NETWORK:` lines, in
      line order; every other line is skipped without error. */
  function ScanResult(lines: seq<string>): (nets: seq<Network>)
    ensures |nets| <= CountPrefixed(lines, "NETWORK:")
    decreases |lines|
  {
    if |lines| == 0 then []
    else
      var rest := ScanResult(lines[1..]);
      match ParseNetwork(lines[0])
      case Some(n) => [n] + rest
      case None => rest
  }

  /** Scanning a window in two parts gives the networks of each part, in order. */
  lemma {:induction false} ScanResultAppend(a: seq<string>, b: seq<string>)
    ensures ScanResult(a + b) == ScanResult(a) + ScanResult(b)
    decreases |a|
  {
    if |a| == 0 {
      assert a + b == b;
    } else {
      assert (a + b)[0] == a[0];
      assert (a + b)[1..] == a[1..] + b;
      ScanResultAppend(a[1..], b);
    }
  }

  /** A `NETWORK:` line with fewer than three fields is dropped without
      disturbing the networks around it. */
  lemma MalformedNetworkSkipped(a: seq<string>, line: string, b: seq<string>)
    requires HasPrefix(line, "NETWORK:") && |Split(line[8..], ':')| < 3
    ensures ScanResult(a + [line] + b) == ScanResult(a) + ScanResult(b)
  {
    assert ParseNetwork(line).None?;
    assert ScanResult([line]) == ScanResult([line][1..]);
    assert ScanResult([line]) == [];
    ScanResultAppend(a + [line], b);
    ScanResultAppend(a, [line]);
    assert ScanResult(a + [line]) == ScanResult(a);
  }

  // ---------------------------------------------------------------------
  // GetIP

  /** `GetIP`'s result: the text after the first `IP:` line's prefix. */
  function FindIP(lines: seq<string>): (r: Result<string>)
    ensures r.Ok? <==> exists i :: 0 <= i < |lines| && HasPrefix(lines[i], "IP:")
    ensures r.Ok? ==> exists i :: 0 <= i < |lines| && lines[i] == "IP:" + r.value
                        && forall j :: 0 <= j < i ==> !HasPrefix(lines[j], "IP:")
    ensures r.Err? ==> r.message == "no IP address received"
    decreases |lines|
  {
    if |lines| == 0 then Err("no IP address received")
    else if HasPrefix(lines[0], "IP:") then
      assert lines[0] == "IP:" + lines[0][3..];
      Ok(lines[0][3..])
    else
      var r := FindIP(lines[1..]);
      assert forall i :: 1 <= i < |lines| ==> lines[i] == lines[1..][i - 1];
      r
  }

  // ---------------------------------------------------------------------
  // fmt.Sscanf "%d"

  /** `fmt.Sscanf(s, "%d", &x)`: blanks, an optional sign, at least one
      digit, and a value that fits a 64-bit `int`; otherwise no value (and
      the caller's variable keeps its old value). */
  function ScanInt(s: string): Option<Int64> {
    var t := TrimLeft(s, Blanks);
    if |t| == 0 || t[0] == '\n' then None
    else if t[0] == '-' then ScanDigits(t[1..], true)
    else if t[0] == '+' then ScanDigits(t[1..], false)
    else ScanDigits(t, false)
  }

  /** The digits after the sign: at least one, and in range once signed. */
  function ScanDigits(u: string, negative: bool): Option<Int64> {
    var v: int := if negative then -(LeadingValue(u) as int) else LeadingValue(u);
    if DigitRun(u) == 0 || v < -0x8000_0000_0000_0000 || v > 0x7fff_ffff_ffff_ffff then None
    else Some(v)
  }

  /** The digits of `m` followed by non-digit text scan back as `m`, signed. */
  lemma ScanDigitsOf(m: nat, rest: string, negative: bool)
    requires rest == [] || !IsDigit(rest[0])
    requires if negative then m <= 0x8000_0000_0000_0000 else m <= 0x7fff_ffff_ffff_ffff
    ensures ScanDigits(Digits(m) + rest, negative) == Some(if negative then -(m as int) else m as int)
  {
    DigitRunStops(Digits(m), rest);
    LeadingDigits(m, rest);
  }

  /** A digit needs no skipping and no sign. */
  lemma ScanIntUnsigned(d: string)
    requires |d| > 0 && IsDigit(d[0])
    ensures ScanInt(d) == ScanDigits(d, false)
  {
    assert TrimLeft(d, Blanks) == d;
  }

  /** A minus sign followed by a digit reads negative. */
  lemma ScanIntSigned(d: string)
    requires |d| > 0 && IsDigit(d[0])
    ensures ScanInt("-" + d) == ScanDigits(d, true)
  {
    var s := "-" + d;
    assert TrimLeft(s, Blanks) == s;
    assert s[1..] == d;
  }

  /** `%d` reads back every value `%d` or `Print::print` writes, whatever
      non-digit text follows it (" dBm", ":SECURED"). */
  lemma ScanIntDecimal(n: Int64, rest: string)
    requires rest == [] || !IsDigit(rest[0])
    ensures ScanInt(Decimal(n) + rest) == Some(n)
  {
    if n < 0 {
      var m: nat := -(n as int);
      var d := Digits(m) + rest;
      assert d[0] == Digits(m)[0];
      assert Decimal(n) + rest == "-" + d;
      ScanIntSigned(d);
      ScanDigitsOf(m, rest, true);
    } else {
      var d := Digits(n) + rest;
      assert d[0] == Digits(n)[0];
      ScanIntUnsigned(d);
      ScanDigitsOf(n, rest, false);
    }
  }

  // ---------------------------------------------------------------------
  // The calls

  /** How a call concludes from the kept lines of its window. */
  function Conclude(call: Call, lines: seq<string>): (r: Result<Answer>)
    ensures call.Disconnect? || call.TCPSend? || call.TCPClose? ==> r == Ok(Done)
    ensures call.GetStatus? ==> r.Ok? && r.value.StatusIs?
    ensures call.Scan? ==> r.Ok? && r.value.Networks?
    ensures r.Ok? && call.GetIP? ==> r.value.Address?
    ensures r.Ok? && (call.Connect? || call.TCPConnect?) ==> r.value == Done
  {
    match call
    case Connect(_, _) => if ConnectResult(lines).Ok? then Ok(Done) else Err(ConnectResult(lines).message)
    case Disconnect => Ok(Done)
    case GetStatus => Ok(StatusIs(StatusOf(lines)))
    case Scan => Ok(Networks(ScanResult(lines)))
    case GetIP => if FindIP(lines).Ok? then Ok(Address(FindIP(lines).value)) else Err(FindIP(lines).message)
    case TCPConnect(_, _) => if TcpConnectResult(lines).Ok? then Ok(Done) else Err(TcpConnectResult(lines).message)
    case TCPSend(_) => Ok(Done)
    case TCPClose => Ok(Done)
  }

  /** A call, given whether its write failed and what its window read: a
      failed write is reported as such and nothing is read; otherwise the
      call concludes from the kept lines. */
  function Perform(call: Call, writeError: Option<string>, window: seq<RawRead>): (r: Result<Answer>)
    ensures writeError.Some? ==> r == Err("failed to send command: " + writeError.value)
    ensures writeError.None? ==> r == Conclude(call, ReadLines(window))
  {
    if writeError.Some? then Err("failed to send command: " + writeError.value)
    else Conclude(call, ReadLines(window))
  }
}
