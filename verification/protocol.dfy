/** The two ends of the serial line together: what the client's commands
    become in the firmware, and what the client makes of the firmware's
    replies. Each reply round trip assumes the client's window stays open
    until every printed line has arrived. */
module Protocol {
  import opened Text
  import opened Outcomes
  import F = Firmware
  import C = Client

  // ---------------------------------------------------------------------
  // The wire

  /** The bytes `Serial.println` sends for each line: the line, then "\r\n". */
  function Wire(lines: seq<string>): string
    decreases |lines|
  {
    if |lines| == 0 then [] else lines[0] + "\r\n" + Wire(lines[1..])
  }

  /** A line that reaches the client as one read. */
  predicate OneLine(s: string) {
    '\n' !in s
  }

  /** A line that the client's filter keeps exactly as printed. */
  predicate Clean(s: string) {
    s != [] && OneLine(s) && !IsGoSpace(s[0]) && !IsGoSpace(s[|s| - 1])
  }

  /** What one printed line becomes at the client: trimmed, and gone when
      nothing is left. */
  function Kept(line: string): seq<string> {
    var t := Trim(line, GoSpaces);
    if t == [] then [] else [t]
  }

  /** The lines a client window keeps when the firmware prints `lines`,
      line by line. */
  function Heard(lines: seq<string>): seq<string>
    decreases |lines|
  {
    if |lines| == 0 then [] else Kept(lines[0]) + Heard(lines[1..])
  }

  lemma ReceiveLine(line: string, tail: string)
    requires OneLine(line)
    ensures C.Receive(line + "\r\n" + tail) == [C.Line(line + "\r\n")] + C.Receive(tail)
  {
    var s := line + "\r\n" + tail;
    forall k | 0 <= k < |line| + 1
      ensures s[k] != '\n'
    {
      if k < |line| {
        assert s[k] == line[k];
      }
    }
    assert s[|line| + 1] == '\n';
    assert IndexFrom(s, '\n', 0) == |line| + 1;
    assert s[..|line| + 2] == line + "\r\n";
    assert s[|line| + 2..] == tail;
  }

  /** The client's reads and filter, applied to the bytes the firmware
      prints, keep exactly the lines `Heard` says: each printed line is one
      read, and the "\r\n" `println` adds is trimmed away. */
  lemma {:induction false} WindowHears(lines: seq<string>)
    requires forall i :: 0 <= i < |lines| ==> OneLine(lines[i])
    ensures C.ReadLines(C.Receive(Wire(lines))) == Heard(lines)
    decreases |lines|
  {
    if |lines| > 0 {
      var window := C.Receive(Wire(lines));
      WireStep(lines);
      assert window[1..] == C.Receive(Wire(lines[1..]));
      PrintedRead(lines[0]);
      WindowHears(lines[1..]);
    }
  }

  /** The first printed line arrives as the first read. */
  lemma WireStep(lines: seq<string>)
    requires |lines| > 0 && OneLine(lines[0])
    ensures C.Receive(Wire(lines)) == [C.Line(lines[0] + "\r\n")] + C.Receive(Wire(lines[1..]))
  {
    assert Wire(lines) == lines[0] + "\r\n" + Wire(lines[1..]);
    ReceiveLine(lines[0], Wire(lines[1..]));
  }

  /** The "\r\n" `println` adds is trimmed away. */
  lemma PrintedRead(line: string)
    ensures C.Keep(C.Line(line + "\r\n")) == Kept(line)
  {
    assert All("\r\n", GoSpaces);
    TrimSpacesAfter(line, "\r\n", GoSpaces);
  }

  /** Printing two batches of lines is heard as the two batches in order. */
  lemma {:induction false} HeardAppend(a: seq<string>, b: seq<string>)
    ensures Heard(a + b) == Heard(a) + Heard(b)
    decreases |a|
  {
    if |a| == 0 {
      assert a + b == b;
    } else {
      assert (a + b)[0] == a[0];
      assert (a + b)[1..] == a[1..] + b;
      HeardAppend(a[1..], b);
    }
  }

  /** Clean lines are heard exactly as printed. */
  lemma {:induction false} HeardClean(lines: seq<string>)
    requires forall i :: 0 <= i < |lines| ==> Clean(lines[i])
    ensures Heard(lines) == lines
    decreases |lines|
  {
    if |lines| > 0 {
      TrimKeeps(lines[0], GoSpaces);
      HeardClean(lines[1..]);
    }
  }

  // ---------------------------------------------------------------------
  // Commands: client to firmware

  /** The request each call's command should become in the firmware. The
      port travels as decimal text and `toInt` saturates it to 32 bits. */
  function Intended(call: C.Call): F.Request {
    match call
    case Connect(ssid, password) => F.Join(ssid, password)
    case Disconnect => F.Leave
    case GetStatus => F.Status
    case Scan => F.Scan
    case GetIP => F.Address
    case TCPConnect(host, port) => F.Open(host, F.Clamp32(port))
    case TCPSend(data) => F.Send(data)
    case TCPClose => F.Close
  }

  /** Arguments that a command line carries intact: no line breaks, an SSID
      without a colon, a non-empty host, and no trailing white space for the
      firmware's `trim` to remove. */
  predicate Transmissible(call: C.Call) {
    match call
    case Connect(ssid, password) =>
      && F.Unbroken(ssid) && F.Unbroken(password) && ':' !in ssid
      && (password == [] || !IsCSpace(password[|password| - 1]))
    case TCPConnect(host, _) => F.Unbroken(host) && host != []
    case TCPSend(data) => F.Unbroken(data) && (data == [] || !IsCSpace(data[|data| - 1]))
    case _ => true
  }

  lemma FirstColonAt(x: string, y: string)
    requires ':' !in x
    ensures IndexFrom(x + ":" + y, ':', 0) == |x|
  {
    var s := x + ":" + y;
    assert s[|x|] == ':';
    forall k | 0 <= k < |x|
      ensures s[k] == x[k]
    {
    }
  }

  lemma {:induction false} LastColonAt(x: string, y: string)
    requires ':' !in y
    ensures LastIndex(x + ":" + y, ':') == |x|
    decreases |y|
  {
    var s := x + ":" + y;
    if y == [] {
      assert s[|s| - 1] == ':';
    } else {
      var y' := y[..|y| - 1];
      assert s[|s| - 1] == y[|y| - 1];
      assert s[..|s| - 1] == x + ":" + y';
      LastColonAt(x, y');
    }
  }

  /** Splitting at the first colon is unique. */
  lemma FirstColonUnique(x: string, y: string, a: string, b: string)
    requires ':' !in x && ':' !in a && x + ":" + y == a + ":" + b
    ensures x == a && y == b
  {
    var s := x + ":" + y;
    FirstColonAt(x, y);
    FirstColonAt(a, b);
    assert x == s[..|x|] && a == s[..|a|];
    assert y == s[|x| + 1..] && b == s[|a| + 1..];
  }

  /** Splitting at the last colon is unique. */
  lemma LastColonUnique(x: string, y: string, a: string, b: string)
    requires ':' !in y && ':' !in b && x + ":" + y == a + ":" + b
    ensures x == a && y == b
  {
    var s := x + ":" + y;
    LastColonAt(x, y);
    LastColonAt(a, b);
    assert x == s[..|x|] && a == s[..|a|];
    assert y == s[|x| + 1..] && b == s[|a| + 1..];
  }

  /** A decimal numeral has no colon and no line break. */
  lemma DecimalPlain(n: int)
    ensures ':' !in Decimal(n) && F.Unbroken(Decimal(n)) && OneLine(Decimal(n))
    ensures !IsCSpace(Decimal(n)[0]) && !IsCSpace(Decimal(n)[|Decimal(n)| - 1])
    ensures IsDigit(Decimal(n)[|Decimal(n)| - 1])
  {
    var d := Decimal(n);
    forall k | 0 <= k < |d|
      ensures d[k] != ':' && !F.IsTerminator(d[k]) && d[k] != '\n'
    {
      if n < 0 && k > 0 {
        assert d[1..][k - 1] == d[k];
      }
    }
    if n < 0 {
      assert d[1..][|d| - 2] == d[|d| - 1];
    }
  }

  lemma JoinShape(ssid: string, password: string)
    requires ':' !in ssid
    ensures var cmd := "CONNECT:" + ssid + ":" + password;
            HasPrefix(cmd, "CONNECT:") && !F.ColonFreeFrom(cmd, 8) && cmd[8..] == ssid + ":" + password
  {
    var cmd := "CONNECT:" + ssid + ":" + password;
    var args := ssid + ":" + password;
    assert cmd == "CONNECT:" + args;
    PrefixOf("CONNECT:", args);
    assert cmd[8 + |ssid|] == args[|ssid|] == ':';
  }

  lemma JoinArgs(cmd: string)
    requires HasPrefix(cmd, "CONNECT:") && !F.ColonFreeFrom(cmd, 8)
    ensures F.Parse(cmd).Join?
    ensures cmd[8..] == F.Parse(cmd).ssid + ":" + F.Parse(cmd).password && ':' !in F.Parse(cmd).ssid
  {
    var r := F.Parse(cmd);
    var parsed := r.ssid + ":" + r.password;
    assert cmd == "CONNECT:" + parsed;
    PrefixOf("CONNECT:", parsed);
  }

  lemma JoinDelivered(ssid: string, password: string)
    requires ':' !in ssid
    ensures F.Parse("CONNECT:" + ssid + ":" + password) == F.Join(ssid, password)
  {
    var cmd := "CONNECT:" + ssid + ":" + password;
    JoinShape(ssid, password);
    JoinArgs(cmd);
    var r := F.Parse(cmd);
    FirstColonUnique(ssid, password, r.ssid, r.password);
  }

  lemma OpenSplit(host: string, tail: string)
    requires host != [] && ':' !in tail
    ensures F.Parse("TCPCONNECT:" + host + ":" + tail) == F.Open(host, F.ToInt(tail))
  {
    var cmd := "TCPCONNECT:" + host + ":" + tail;
    assert HasPrefix(cmd, "TCPCONNECT:");
    assert cmd[11 + |host|] == ':';
    assert !F.ColonFreeFrom(cmd, 12);
    var r := F.Parse(cmd);
    var t := cmd[12 + |r.host|..];
    forall j | 0 <= j < |t|
      ensures t[j] != ':'
    {
      assert t[j] == cmd[12 + |r.host| + j];
    }
    LastColonUnique("TCPCONNECT:" + host, tail, "TCPCONNECT:" + r.host, t);
    assert host == ("TCPCONNECT:" + host)[11..];
    assert r.host == ("TCPCONNECT:" + r.host)[11..];
  }

  /** A port printed in decimal reads back as its 32-bit saturation. */
  lemma PortReadBack(port: int)
    ensures F.ToInt(Decimal(port)) == F.Clamp32(port)
  {
    F.ToIntDecimal(port, []);
    assert Decimal(port) + [] == Decimal(port);
  }

  lemma OpenDelivered(host: string, port: int)
    requires host != []
    ensures F.Parse("TCPCONNECT:" + host + ":" + Decimal(port)) == F.Open(host, F.Clamp32(port))
  {
    DecimalPlain(port);
    OpenSplit(host, Decimal(port));
    PortReadBack(port);
  }

  lemma UnbrokenJoin(a: string, b: string)
    requires F.Unbroken(a) && F.Unbroken(b)
    ensures F.Unbroken(a + b)
  {
    forall k | 0 <= k < |a + b|
      ensures !F.IsTerminator((a + b)[k])
    {
      if k >= |a| {
        assert (a + b)[k] == b[k - |a|];
      }
    }
  }

  /** `a + b + c` ends as `c` does, when `c` is not empty. */
  lemma PlainTriple(a: string, b: string, c: string)
    requires F.Unbroken(a) && F.Unbroken(b) && F.Unbroken(c)
    requires |a| > 0 && !IsCSpace(a[0])
    ensures F.Unbroken(a + b + c) && (a + b + c)[0] == a[0]
    ensures |c| > 0 ==> (a + b + c)[|a + b + c| - 1] == c[|c| - 1]
  {
    UnbrokenJoin(a, b);
    UnbrokenJoin(a + b, c);
  }

  lemma JoinCommandPlain(ssid: string, password: string)
    requires F.Unbroken(ssid) && F.Unbroken(password)
    requires password == [] || !IsCSpace(password[|password| - 1])
    ensures var cmd := "CONNECT:" + ssid + ":" + password;
            F.Unbroken(cmd) && !IsCSpace(cmd[0]) && !IsCSpace(cmd[|cmd| - 1])
  {
    UnbrokenJoin(ssid, ":");
    PlainTriple("CONNECT:", ssid + ":", password);
    assert "CONNECT:" + ssid + ":" + password == "CONNECT:" + (ssid + ":") + password;
  }

  lemma OpenCommandPlain(host: string, port: int)
    requires F.Unbroken(host)
    ensures var cmd := "TCPCONNECT:" + host + ":" + Decimal(port);
            F.Unbroken(cmd) && !IsCSpace(cmd[0]) && !IsCSpace(cmd[|cmd| - 1])
  {
    DecimalPlain(port);
    UnbrokenJoin(host, ":");
    PlainTriple("TCPCONNECT:", host + ":", Decimal(port));
    assert "TCPCONNECT:" + host + ":" + Decimal(port) == "TCPCONNECT:" + (host + ":") + Decimal(port);
  }

  lemma SendCommandPlain(data: string)
    requires F.Unbroken(data) && (data == [] || !IsCSpace(data[|data| - 1]))
    ensures var cmd := "TCPSEND:" + data;
            F.Unbroken(cmd) && !IsCSpace(cmd[0]) && !IsCSpace(cmd[|cmd| - 1])
  {
    PlainTriple("TCPSEND:", data, []);
    assert "TCPSEND:" + data + [] == "TCPSEND:" + data;
  }

  /** The command line of a transmissible call has no line break and
      nothing for `trim` to remove. */
  lemma CommandPlain(call: C.Call)
    requires Transmissible(call)
    ensures var cmd := C.CommandOf(call);
            F.Unbroken(cmd) && !IsCSpace(cmd[0]) && !IsCSpace(cmd[|cmd| - 1])
  {
    match call
    case Connect(ssid, password) => JoinCommandPlain(ssid, password);
    case TCPConnect(host, port) => OpenCommandPlain(host, port);
    case TCPSend(data) => SendCommandPlain(data);
    case _ =>
  }

  /** Every call's command, sent as the client sends it, is dispatched by
      the firmware exactly once, leaves nothing in the buffer, and is
      classified as the request the call means. */
  lemma CommandDelivered(call: C.Call)
    requires Transmissible(call)
    ensures F.Frame([], C.SendCommand(C.CommandOf(call))) == F.Framed([C.CommandOf(call)], [])
    ensures F.Parse(Trim(C.CommandOf(call), CSpaces)) == Intended(call)
  {
    var cmd := C.CommandOf(call);
    CommandPlain(call);
    F.FrameCrLf(cmd);
    TrimKeeps(cmd, CSpaces);
    match call {
      case Connect(ssid, password) => JoinDelivered(ssid, password);
      case TCPConnect(host, port) => OpenDelivered(host, port);
      case TCPSend(data) =>
        F.VerbsDistinct(cmd);
        assert HasPrefix(cmd, "TCPSEND:");
        assert cmd[8..] == data;
      case _ =>
    }
  }

  /** End to end: the firmware answers a call's command with the reply of
      the intended request, run against the radio of the moment, and its
      buffer is empty afterwards. */
  lemma CallServed(call: C.Call, link: F.Link, radios: seq<F.Radio>)
    requires Transmissible(call)
    ensures var r := F.Execute(link, Intended(call), F.Head(radios));
            F.Serve(F.Bridge(link, []), C.SendCommand(C.CommandOf(call)), radios)
              == F.Served(F.Bridge(r.link, []), r.lines)
  {
    CommandDelivered(call);
    CommandServed(C.CommandOf(call), Intended(call), link, radios);
  }

  /** A command line that the serial loop frames whole and that `trim` and
      the verb test turn into `req` is answered with `req`'s reply. */
  lemma CommandServed(cmd: string, req: F.Request, link: F.Link, radios: seq<F.Radio>)
    requires F.Frame([], C.SendCommand(cmd)) == F.Framed([cmd], [])
    requires F.Parse(Trim(cmd, CSpaces)) == req
    ensures var r := F.Execute(link, req, F.Head(radios));
            F.Serve(F.Bridge(link, []), C.SendCommand(cmd), radios) == F.Served(F.Bridge(r.link, []), r.lines)
  {
    F.ServeRunsFrames(F.Bridge(link, []), C.SendCommand(cmd), radios);
    var r := F.Execute(link, req, F.Head(radios));
    assert F.Run(link, [cmd], radios) == F.Reply(r.link, r.lines + []);
  }

  /** A colon in the SSID moves the split: the firmware joins the network
      named by the text before it, with the rest as password. */
  lemma ColonInSsidShifts(a: string, b: string, password: string)
    requires ':' !in a
    ensures F.Parse(C.CommandOf(C.Connect(a + ":" + b, password))) == F.Join(a, b + ":" + password)
  {
    assert "CONNECT:" + (a + ":" + b) + ":" + password == "CONNECT:" + a + ":" + (b + ":" + password);
    JoinDelivered(a, b + ":" + password);
  }

  /** An empty host is rejected by the firmware as a malformed command. */
  lemma EmptyHostRejected(port: Int64)
    ensures F.Parse(C.CommandOf(C.TCPConnect("", port))) == F.BadOpen
  {
    var digits := Decimal(port);
    var cmd := "TCPCONNECT:" + "" + ":" + digits;
    assert HasPrefix(cmd, "TCPCONNECT:");
    DecimalPlain(port);
    forall k | 12 <= k < |cmd|
      ensures cmd[k] != ':'
    {
      assert cmd[k] == digits[k - 12];
    }
  }

  // ---------------------------------------------------------------------
  // Replies: firmware to client

  /** One call over the line: the client's command bytes go through the
      firmware's serial loop, with `radio` answering, and the client reads
      everything the firmware prints. */
  function Exchange(call: C.Call, link: F.Link, radio: F.Radio): (F.Link, Result<C.Answer>) {
    var s := F.Serve(F.Bridge(link, []), C.SendCommand(C.CommandOf(call)), [radio]);
    (s.bridge.link, C.Perform(call, None, C.Receive(Wire(s.lines))))
  }

  /** Text that survives inside a printed line when it ends that line: no
      newline, and no white space at its end for the client to trim. */
  predicate Readable(s: string) {
    OneLine(s) && (s == [] || !IsGoSpace(s[|s| - 1]))
  }

  lemma PrefixOf(p: string, s: string)
    ensures HasPrefix(p + s, p) && (p + s)[|p|..] == s
  {
    assert (p + s)[..|p|] == p;
  }

  /** A line made of a tag and readable text is heard as printed. */
  lemma TaggedClean(tag: string, text: string)
    requires |tag| > 0 && OneLine(tag) && !IsGoSpace(tag[0]) && !IsGoSpace(tag[|tag| - 1])
    requires Readable(text)
    ensures Clean(tag + text)
  {
    var s := tag + text;
    assert s[0] == tag[0];
    assert s[|s| - 1] == if text == [] then tag[|tag| - 1] else text[|text| - 1];
  }

  lemma {:induction false} ReadsHeard(lines: seq<string>)
    requires forall i :: 0 <= i < |lines| ==> Clean(lines[i])
    ensures C.ReadLines(C.Receive(Wire(lines))) == lines
  {
    WindowHears(lines);
    HeardClean(lines);
  }

  /** A call whose window receives clean lines concludes from exactly
      those lines. */
  lemma PerformClean(call: C.Call, lines: seq<string>)
    requires forall i :: 0 <= i < |lines| ==> Clean(lines[i])
    ensures C.Perform(call, None, C.Receive(Wire(lines))) == C.Conclude(call, lines)
  {
    ReadsHeard(lines);
  }

  /** A transmissible call's exchange is the intended request's reply, as
      the client reads it. */
  lemma ExchangeVia(call: C.Call, link: F.Link, radio: F.Radio, lines: seq<string>, answer: Result<C.Answer>)
    requires Transmissible(call)
    requires F.Execute(link, Intended(call), radio).lines == lines
    requires C.Perform(call, None, C.Receive(Wire(lines))) == answer
    ensures Exchange(call, link, radio) == (F.Execute(link, Intended(call), radio).link, answer)
  {
    CallServed(call, link, [radio]);
    assert F.Head([radio]) == radio;
  }

  /** A reply of one clean line concludes the call from that line. */
  lemma OneLineExchange(call: C.Call, link: F.Link, radio: F.Radio, line: string)
    requires Transmissible(call)
    requires F.Execute(link, Intended(call), radio).lines == [line]
    requires Clean(line)
    ensures Exchange(call, link, radio) == (F.Execute(link, Intended(call), radio).link, C.Conclude(call, [line]))
  {
    PerformClean(call, [line]);
    ExchangeVia(call, link, radio, [line], C.Conclude(call, [line]));
  }

  /** The status fields as `GetStatus` folds the lines of `getStatus`, for
      any reading of the `STATUS:` line. */
  lemma StatusFold(up: bool, radio: F.Radio, connectedLine: string -> bool)
    ensures C.FoldStatus(C.ZeroStatus, F.StatusLines(up, radio), connectedLine) ==
              if up then C.Status(connectedLine(F.LinkUp), radio.ssid, radio.ip, radio.rssi)
              else C.Status(connectedLine(F.LinkDown), "", "", 0)
  {
    var z := C.ZeroStatus;
    if up {
      var l1, l2, l3 := "SSID:" + radio.ssid, "IP:" + radio.ip, "RSSI:" + Decimal(radio.rssi) + " dBm";
      Fold4(z, F.LinkUp, l1, l2, l3, connectedLine);
      AbsorbLink(z, F.LinkUp, connectedLine);
      var s1 := z.(connected := connectedLine(F.LinkUp));
      AbsorbSsid(s1, radio.ssid, connectedLine);
      AbsorbIp(s1.(ssid := radio.ssid), radio.ip, connectedLine);
      AbsorbRssi(s1.(ssid := radio.ssid).(ip := radio.ip), radio.rssi, connectedLine);
    } else {
      AbsorbLink(z, F.LinkDown, connectedLine);
      assert C.FoldStatus(z, [F.LinkDown], connectedLine) == C.FoldStatus(C.Absorb(z, F.LinkDown, connectedLine), [], connectedLine);
    }
  }

  lemma Fold4(st: C.Status, l0: string, l1: string, l2: string, l3: string, c: string -> bool)
    ensures C.FoldStatus(st, [l0, l1, l2, l3], c) == C.Absorb(C.Absorb(C.Absorb(C.Absorb(st, l0, c), l1, c), l2, c), l3, c)
  {
    var s1 := C.Absorb(st, l0, c);
    var s2 := C.Absorb(s1, l1, c);
    var s3 := C.Absorb(s2, l2, c);
    assert [l0, l1, l2, l3][1..] == [l1, l2, l3];
    assert [l1, l2, l3][1..] == [l2, l3];
    assert [l2, l3][1..] == [l3];
    assert C.FoldStatus(st, [l0, l1, l2, l3], c) == C.FoldStatus(s1, [l1, l2, l3], c);
    assert C.FoldStatus(s1, [l1, l2, l3], c) == C.FoldStatus(s2, [l2, l3], c);
    assert C.FoldStatus(s2, [l2, l3], c) == C.FoldStatus(s3, [l3], c);
    assert C.FoldStatus(s3, [l3], c) == C.FoldStatus(C.Absorb(s3, l3, c), [], c);
  }

  lemma AbsorbSsid(st: C.Status, ssid: string, c: string -> bool)
    ensures C.Absorb(st, "SSID:" + ssid, c) == st.(ssid := ssid)
  {
    var l := "SSID:" + ssid;
    PrefixOf("SSID:", ssid);
    PrefixMismatch(l, "STATUS:", 1);
  }

  lemma AbsorbIp(st: C.Status, ip: string, c: string -> bool)
    ensures C.Absorb(st, "IP:" + ip, c) == st.(ip := ip)
  {
    var l := "IP:" + ip;
    PrefixOf("IP:", ip);
    PrefixMismatch(l, "STATUS:", 0);
    PrefixMismatch(l, "SSID:", 0);
  }

  lemma AbsorbRssi(st: C.Status, rssi: Int64, c: string -> bool)
    ensures C.Absorb(st, "RSSI:" + Decimal(rssi) + " dBm", c) == st.(rssi := rssi)
  {
    var d := Decimal(rssi);
    var l := "RSSI:" + d + " dBm";
    PrefixOf("RSSI:", d + " dBm");
    assert l == "RSSI:" + (d + " dBm");
    PrefixMismatch(l, "STATUS:", 0);
    PrefixMismatch(l, "SSID:", 0);
    PrefixMismatch(l, "IP:", 0);
    C.ScanIntDecimal(rssi, " dBm");
  }

  lemma AbsorbLink(st: C.Status, line: string, c: string -> bool)
    requires line == F.LinkUp || line == F.LinkDown
    ensures C.Absorb(st, line, c) == st.(connected := c(line))
  {
    assert line[..7] == "STATUS:";
  }

  lemma StatusLinesClean(up: bool, radio: F.Radio)
    requires Readable(radio.ssid) && Readable(radio.ip)
    ensures forall i :: 0 <= i < |F.StatusLines(up, radio)| ==> Clean(F.StatusLines(up, radio)[i])
  {
    if up {
      TaggedClean("SSID:", radio.ssid);
      TaggedClean("IP:", radio.ip);
      var d := Decimal(radio.rssi);
      DecimalPlain(radio.rssi);
      assert "RSSI:" + d + " dBm" == "RSSI:" + (d + " dBm");
      TaggedClean("RSSI:", d + " dBm");
    }
  }

  /** `GetStatus`'s reading of `getStatus`'s lines. */
  lemma StatusLinesRead(up: bool, radio: F.Radio)
    requires Readable(radio.ssid) && Readable(radio.ip)
    ensures C.StatusOf(F.StatusLines(up, radio)) ==
              if up then C.Status(true, radio.ssid, radio.ip, radio.rssi) else C.Status(true, "", "", 0)
  {
    StatusFold(up, radio, C.SaysConnected);
    if up {
      ContainsAt(F.LinkUp, "CONNECTED", 7);
    } else {
      C.DisconnectedReadsAsConnected();
    }
  }

  /** `GetStatus` against `getStatus`, as written: a joined link reads back
      exactly, and a link that is down reads as connected with empty
      fields, because "STATUS:DISCONNECTED" contains "CONNECTED". */
  lemma StatusExchange(link: F.Link, radio: F.Radio)
    requires Readable(radio.ssid) && Readable(radio.ip)
    ensures Exchange(C.GetStatus, link, radio) ==
              (link, Ok(C.StatusIs(
                if link.wifiUp then C.Status(true, radio.ssid, radio.ip, radio.rssi)
                else C.Status(true, "", "", 0))))
  {
    if link.wifiUp {
      StatusExchangeUp(C.GetStatus, link, radio);
    } else {
      StatusExchangeDown(C.GetStatus, link, radio);
    }
  }

  lemma StatusExchangeUp(call: C.Call, link: F.Link, radio: F.Radio)
    requires call.GetStatus?
    requires Readable(radio.ssid) && Readable(radio.ip) && link.wifiUp
    ensures Exchange(call, link, radio) == (link, Ok(C.StatusIs(C.Status(true, radio.ssid, radio.ip, radio.rssi))))
  {
    var lines := F.StatusLines(true, radio);
    StatusAnswer(call, true, radio);
    F.ExecuteStatus(link, radio);
    ExchangeVia(call, link, radio, lines, Ok(C.StatusIs(C.Status(true, radio.ssid, radio.ip, radio.rssi))));
  }

  lemma StatusExchangeDown(call: C.Call, link: F.Link, radio: F.Radio)
    requires call.GetStatus?
    requires !link.wifiUp
    ensures Exchange(call, link, radio) == (link, Ok(C.StatusIs(C.Status(true, "", "", 0))))
  {
    LinkDownRead();
    OneLineExchange(call, link, radio, F.LinkDown);
  }

  /** What `GetStatus` makes of `getStatus`'s lines. */
  lemma StatusAnswer(call: C.Call, up: bool, radio: F.Radio)
    requires call.GetStatus?
    requires Readable(radio.ssid) && Readable(radio.ip)
    ensures C.Perform(call, None, C.Receive(Wire(F.StatusLines(up, radio)))) ==
              Ok(C.StatusIs(if up then C.Status(true, radio.ssid, radio.ip, radio.rssi) else C.Status(true, "", "", 0)))
  {
    var lines := F.StatusLines(up, radio);
    StatusLinesClean(up, radio);
    PerformClean(call, lines);
    StatusLinesRead(up, radio);
  }

  /** The line of a link that is down is heard as printed; as written it
      reads as connected, and exactly it reads as the zero status. */
  lemma LinkDownRead()
    ensures Clean(F.LinkDown)
    ensures C.StatusOf([F.LinkDown]) == C.Status(true, "", "", 0)
    ensures C.StatusOfExact([F.LinkDown]) == C.ZeroStatus
  {
    StatusFold(false, F.Quiet, C.SaysConnected);
    StatusFold(false, F.Quiet, C.SaysConnectedExactly);
    C.DisconnectedReadsAsConnected();
  }

  /** With the exact reading of the `STATUS:` line, `GetStatus` reports the
      firmware's link state, and its fields, in every case. */
  lemma StatusExchangeExact(link: F.Link, radio: F.Radio)
    requires Readable(radio.ssid) && Readable(radio.ip)
    ensures var r := F.Execute(link, F.Status, radio);
            C.StatusOfExact(C.ReadLines(C.Receive(Wire(r.lines)))) ==
              if link.wifiUp then C.Status(true, radio.ssid, radio.ip, radio.rssi) else C.ZeroStatus
  {
    var lines := F.StatusLines(link.wifiUp, radio);
    assert F.Execute(link, F.Status, radio).lines == lines;
    StatusReadExact(link.wifiUp, radio);
  }

  lemma StatusReadExact(up: bool, radio: F.Radio)
    requires Readable(radio.ssid) && Readable(radio.ip)
    ensures C.StatusOfExact(C.ReadLines(C.Receive(Wire(F.StatusLines(up, radio))))) ==
              if up then C.Status(true, radio.ssid, radio.ip, radio.rssi) else C.ZeroStatus
  {
    var lines := F.StatusLines(up, radio);
    StatusLinesClean(up, radio);
    ReadsHeard(lines);
    if up {
      StatusFold(true, radio, C.SaysConnectedExactly);
    } else {
      LinkDownRead();
    }
  }

  // ---------------------------------------------------------------------
  // SCAN

  /** The client's view of an access point the firmware lists. */
  function AsNetwork(ap: F.AccessPoint): C.Network {
    C.Network(ap.ssid, ap.rssi, ap.auth != F.AuthOpen)
  }

  function Networks(aps: seq<F.AccessPoint>): seq<C.Network>
    decreases |aps|
  {
    if |aps| == 0 then [] else [AsNetwork(aps[0])] + Networks(aps[1..])
  }

  /** An SSID that a `NETWORK:` line carries intact: the client splits the
      line at colons and reads it line by line. */
  predicate Listable(ssid: string) {
    ':' !in ssid && OneLine(ssid)
  }

  /** Three colon-free fields joined by colons split back into themselves. */
  lemma ThreeFields(a: string, b: string, c: string)
    requires ':' !in a && ':' !in b && ':' !in c
    ensures Split(a + ":" + b + ":" + c, ':') == [a, b, c]
  {
    assert a + ":" + b + ":" + c == a + [':'] + (b + [':'] + c);
    SplitField(a, ':', b + [':'] + c);
    SplitField(b, ':', c);
    SplitWhole(c, ':');
  }

  lemma NetworkFields(ap: F.AccessPoint)
    requires Listable(ap.ssid)
    ensures var mark := if ap.auth == F.AuthOpen then "OPEN" else "SECURED";
            && HasPrefix(F.NetworkLine(ap), "NETWORK:")
            && Split(F.NetworkLine(ap)[8..], ':') == [ap.ssid, Decimal(ap.rssi), mark]
  {
    var d := Decimal(ap.rssi);
    var mark := if ap.auth == F.AuthOpen then "OPEN" else "SECURED";
    var body := ap.ssid + ":" + d + ":" + mark;
    assert F.NetworkLine(ap) == "NETWORK:" + body;
    PrefixOf("NETWORK:", body);
    DecimalPlain(ap.rssi);
    ThreeFields(ap.ssid, d, mark);
  }

  lemma NetworkLineClean(ap: F.AccessPoint)
    requires Listable(ap.ssid)
    ensures Clean(F.NetworkLine(ap))
  {
    var d := Decimal(ap.rssi);
    var mark := if ap.auth == F.AuthOpen then "OPEN" else "SECURED";
    DecimalPlain(ap.rssi);
    TaggedClean("NETWORK:", ap.ssid + ":" + d + ":" + mark);
    assert F.NetworkLine(ap) == "NETWORK:" + (ap.ssid + ":" + d + ":" + mark);
  }

  /** A network line is heard as printed and parses back to the network. */
  lemma NetworkLineRead(ap: F.AccessPoint)
    requires Listable(ap.ssid)
    ensures Clean(F.NetworkLine(ap))
    ensures C.ParseNetwork(F.NetworkLine(ap)) == Some(AsNetwork(ap))
  {
    NetworkLineClean(ap);
    NetworkFields(ap);
    C.ScanIntDecimal(ap.rssi, []);
    assert Decimal(ap.rssi) + [] == Decimal(ap.rssi);
  }

  lemma {:induction false} NetworkLinesRead(lines: seq<string>, aps: seq<F.AccessPoint>)
    requires |lines| == |aps|
    requires forall i :: 0 <= i < |aps| ==> Listable(aps[i].ssid) && lines[i] == F.NetworkLine(aps[i])
    ensures C.ScanResult(lines) == Networks(aps)
    ensures forall i :: 0 <= i < |lines| ==> Clean(lines[i])
    decreases |aps|
  {
    if |aps| > 0 {
      NetworkLineRead(aps[0]);
      NetworkLinesRead(lines[1..], aps[1..]);
      forall i | 0 <= i < |lines|
        ensures Clean(lines[i])
      {
        if i > 0 {
          assert lines[i] == lines[1..][i - 1];
        }
      }
    }
  }

  /** Lines without the `NETWORK:` prefix contribute no networks. */
  lemma TwoSkipped(x: string, y: string)
    requires !HasPrefix(x, "NETWORK:") && !HasPrefix(y, "NETWORK:")
    ensures C.ScanResult([x, y]) == []
  {
    assert [x, y][1..] == [y];
    assert C.ScanResult([y]) == C.ScanResult([y][1..]);
  }

  /** The count line `scanNetworks` prints for `n`. */
  function CountLine(n: int): string {
    if n == 0 then F.NoNetworks else FoundLine(Decimal(n))
  }

  function FoundLine(count: string): string {
    "SCAN:Found " + count + " networks"
  }

  /** Whatever count it carries, the "found" line is clean and lists no network. */
  lemma FoundLinePlain(count: string)
    requires OneLine(count)
    ensures Clean(FoundLine(count)) && !HasPrefix(FoundLine(count), "NETWORK:")
  {
    var h := FoundLine(count);
    assert h == "SCAN:Found" + (" " + count + " networks");
    TaggedClean("SCAN:Found", " " + count + " networks");
    assert h[1] == 'C';
    PrefixMismatch(h, "NETWORK:", 1);
  }

  lemma CountLinePlain(n: int)
    ensures Clean(CountLine(n)) && !HasPrefix(CountLine(n), "NETWORK:")
  {
    if n == 0 {
      PrefixMismatch(F.NoNetworks, "NETWORK:", 1);
    } else {
      DecimalPlain(n);
      FoundLinePlain(Decimal(n));
    }
  }

  lemma BannerPlain()
    ensures Clean(F.ScanBanner) && !HasPrefix(F.ScanBanner, "NETWORK:")
  {
    PrefixMismatch(F.ScanBanner, "NETWORK:", 1);
  }

  /** The banner and count lines of `scanNetworks` are heard as printed and
      contribute no networks. */
  lemma ScanHeader(report: F.ScanReport)
    ensures var lines := F.ScanLines(report);
            Clean(lines[0]) && Clean(lines[1]) && C.ScanResult(lines[..2]) == []
  {
    var lines := F.ScanLines(report);
    var n := F.ScanCount(report);
    assert lines[1] == CountLine(n);
    CountLinePlain(n);
    BannerPlain();
    assert lines[..2] == [lines[0], lines[1]];
    TwoSkipped(lines[0], lines[1]);
  }

  /** `Scan`'s reading of `scanNetworks`'s lines: the listed networks, in
      order, and none for a negative count. */
  lemma ScanLinesRead(report: F.ScanReport)
    requires report.Found? ==> forall i :: 0 <= i < |report.aps| ==> Listable(report.aps[i].ssid)
    ensures forall i :: 0 <= i < |F.ScanLines(report)| ==> Clean(F.ScanLines(report)[i])
    ensures C.ScanResult(F.ScanLines(report)) == if report.Found? then Networks(report.aps) else []
  {
    var lines := F.ScanLines(report);
    var aps := if report.Found? then report.aps else [];
    NetworkLinesRead(lines[2..], aps);
    assert Networks([]) == [];
    ScanHeader(report);
    assert lines == lines[..2] + lines[2..];
    C.ScanResultAppend(lines[..2], lines[2..]);
    forall i | 0 <= i < |lines|
      ensures Clean(lines[i])
    {
      if i >= 2 {
        assert lines[i] == lines[2..][i - 2];
      }
    }
  }

  /** `Scan` against `scanNetworks`: every listed network comes back with
      its SSID, signal and security flag, in order; a failed or unfinished
      scan yields an empty list, not an error. */
  lemma ScanExchange(link: F.Link, radio: F.Radio)
    requires radio.scan.Found? ==> forall i :: 0 <= i < |radio.scan.aps| ==> Listable(radio.scan.aps[i].ssid)
    ensures Exchange(C.Scan, link, radio) ==
              (link, Ok(C.Networks(if radio.scan.Found? then Networks(radio.scan.aps) else [])))
  {
    ScanServed(C.Scan, link, radio);
  }

  lemma ScanServed(call: C.Call, link: F.Link, radio: F.Radio)
    requires call.Scan?
    requires radio.scan.Found? ==> forall i :: 0 <= i < |radio.scan.aps| ==> Listable(radio.scan.aps[i].ssid)
    ensures Exchange(call, link, radio) ==
              (link, Ok(C.Networks(if radio.scan.Found? then Networks(radio.scan.aps) else [])))
  {
    var lines := F.ScanLines(radio.scan);
    ScanLinesRead(radio.scan);
    PerformClean(call, lines);
    F.ExecuteScan(link, radio);
    ExchangeVia(call, link, radio, lines, Ok(C.Networks(C.ScanResult(lines))));
  }

  // ---------------------------------------------------------------------
  // IP

  /** `GetIP`'s reading of the two replies of the `IP` command. */
  lemma AddressRead(ip: string)
    requires Readable(ip)
    ensures Clean("IP:" + ip) && C.FindIP(["IP:" + ip]) == Ok(ip)
  {
    TaggedClean("IP:", ip);
    PrefixOf("IP:", ip);
  }

  lemma NoAddressRead()
    ensures Clean(F.NoWiFi) && C.FindIP([F.NoWiFi]) == Err("no IP address received")
  {
    NoWiFiClean();
    var l := F.NoWiFi;
    PrefixMismatch(l, "IP:", 0);
    assert C.FindIP([l]) == C.FindIP([l][1..]);
  }

  lemma NoWiFiClean()
    ensures Clean(F.NoWiFi)
  {
  }

  /** `GetIP` against the `IP` command: the address when the link is up,
      the client's own error otherwise. */
  lemma AddressExchange(link: F.Link, radio: F.Radio)
    requires Readable(radio.ip)
    ensures Exchange(C.GetIP, link, radio) ==
              (link, if link.wifiUp then Ok(C.Address(radio.ip)) else Err("no IP address received"))
  {
    if link.wifiUp {
      AddressExchangeUp(C.GetIP, link, radio);
    } else {
      AddressExchangeDown(C.GetIP, link, radio);
    }
  }

  lemma AddressExchangeUp(call: C.Call, link: F.Link, radio: F.Radio)
    requires call.GetIP?
    requires Readable(radio.ip) && link.wifiUp
    ensures Exchange(call, link, radio) == (link, Ok(C.Address(radio.ip)))
  {
    AddressRead(radio.ip);
    OneLineExchange(call, link, radio, "IP:" + radio.ip);
  }

  lemma AddressExchangeDown(call: C.Call, link: F.Link, radio: F.Radio)
    requires call.GetIP?
    requires !link.wifiUp
    ensures Exchange(call, link, radio) == (link, Err("no IP address received"))
  {
    NoAddressRead();
    OneLineExchange(call, link, radio, F.NoWiFi);
  }

  // ---------------------------------------------------------------------
  // CONNECT and TCPCONNECT: the first decisive line

  /** A call whose window receives single lines concludes from what the
      client keeps of them. */
  lemma PerformHeard(call: C.Call, lines: seq<string>)
    requires forall i :: 0 <= i < |lines| ==> OneLine(lines[i])
    ensures C.Perform(call, None, C.Receive(Wire(lines))) == C.Conclude(call, Heard(lines))
  {
    WindowHears(lines);
  }

  /** A line that starts with a non-blank is kept, trimmed at its end only. */
  lemma KeptLead(s: string)
    requires |s| > 0 && !IsGoSpace(s[0])
    ensures Kept(s) == [Trim(s, GoSpaces)] && Trim(s, GoSpaces)[0] == s[0]
  {
    assert TrimLeft(s, GoSpaces) == s;
  }

  /** A line of dots settles nothing, however it is matched. */
  lemma DotsQuiet(dots: string, ok: string)
    requires forall k :: 0 <= k < |dots| ==> dots[k] == '.'
    requires |ok| > 0 && ok[0] != '.'
    ensures forall i :: 0 <= i < |Kept(dots)| ==> !C.Decisive(Kept(dots)[i], ok, Contains)
    ensures forall i :: 0 <= i < |Kept(dots)| ==> !C.Decisive(Kept(dots)[i], ok, HasPrefix)
  {
    if dots != [] {
      KeptLead(dots);
      TrimKeeps(dots, GoSpaces);
      AbsentHead(dots, ok);
      AbsentHead(dots, "ERROR");
      PrefixMismatch(dots, ok, 0);
      PrefixMismatch(dots, "ERROR", 0);
    }
  }

  /** The firmware's verdict lines, under both readings. */
  lemma JoinedLine()
    ensures Clean(F.JoinOk)
    ensures Contains(F.JoinOk, "OK:Connected") && HasPrefix(F.JoinOk, "OK:Connected")
  {
    PrefixContained(F.JoinOk, "OK:Connected");
  }

  lemma JoinFailedLine()
    ensures Clean(F.JoinFailed)
    ensures !Contains(F.JoinFailed, "OK:Connected") && Contains(F.JoinFailed, "ERROR")
    ensures !HasPrefix(F.JoinFailed, "OK:Connected") && HasPrefix(F.JoinFailed, "ERROR")
  {
    JoinFailedClean();
    JoinFailedAbsent();
    JoinFailedError();
    PrefixMismatch(F.JoinFailed, "OK:Connected", 0);
  }

  lemma JoinFailedClean()
    ensures Clean(F.JoinFailed)
  {
  }

  lemma JoinFailedAbsent()
    ensures !Contains(F.JoinFailed, "OK:Connected")
  {
    AbsentChar(F.JoinFailed, "OK:Connected", 1);
  }

  lemma JoinFailedError()
    ensures HasPrefix(F.JoinFailed, "ERROR") && Contains(F.JoinFailed, "ERROR")
  {
    PrefixContained(F.JoinFailed, "ERROR");
  }

  lemma OpenedLine()
    ensures Clean(F.OpenOk)
    ensures Contains(F.OpenOk, "OK:TCP connected") && HasPrefix(F.OpenOk, "OK:TCP connected")
  {
    PrefixContained(F.OpenOk, "OK:TCP connected");
  }

  lemma OpenFailedLine()
    ensures Clean(F.OpenFailed)
    ensures !Contains(F.OpenFailed, "OK:TCP connected") && Contains(F.OpenFailed, "ERROR")
    ensures !HasPrefix(F.OpenFailed, "OK:TCP connected") && HasPrefix(F.OpenFailed, "ERROR")
  {
    OpenFailedClean();
    OpenFailedAbsent();
    OpenFailedError();
    PrefixMismatch(F.OpenFailed, "OK:TCP connected", 0);
  }

  lemma OpenFailedClean()
    ensures Clean(F.OpenFailed)
  {
  }

  lemma OpenFailedAbsent()
    ensures !Contains(F.OpenFailed, "OK:TCP connected")
  {
    AbsentChar(F.OpenFailed, "OK:TCP connected", 1);
  }

  lemma OpenFailedError()
    ensures HasPrefix(F.OpenFailed, "ERROR") && Contains(F.OpenFailed, "ERROR")
  {
    PrefixContained(F.OpenFailed, "ERROR");
  }

  /** The verdict on a reply made of an echo, lines that settle nothing,
      and the firmware's own decisive line: the echo decides if it can,
      otherwise the firmware's line does. */
  lemma {:induction false} ReplyVerdict(echo: string, quiet: seq<string>, verdict: string, after: seq<string>, ok: string, matches: (string, string) -> bool)
    requires forall i :: 0 <= i < |quiet| ==> !C.Decisive(quiet[i], ok, matches)
    requires C.Decisive(verdict, ok, matches)
    ensures C.FirstVerdict([echo] + quiet + [verdict] + after, ok, matches) ==
              if matches(echo, ok) then C.Accepted
              else if matches(echo, "ERROR") then C.Refused(echo)
              else if matches(verdict, ok) then C.Accepted
              else C.Refused(verdict)
  {
    C.VerdictAppend([echo], quiet + [verdict] + after, ok, matches);
    Regroup3([echo] + quiet, [verdict], after);
    Regroup3([echo], quiet, [verdict] + after);
    assert C.FirstVerdict([echo], ok, matches) == C.FirstVerdict([echo][1..], ok, matches) || C.Decisive(echo, ok, matches);
    C.VerdictAppend(quiet, [verdict] + after, ok, matches);
    Regroup3(quiet, [verdict], after);
    assert C.FirstVerdict([verdict] + after, ok, matches) ==
             if matches(verdict, ok) then C.Accepted else C.Refused(verdict);
  }

  /** A reply that starts with an echo and a second line: the echo is kept
      trimmed, the second line as `Kept` says. */
  lemma HeardOpening(echo: string, second: string, tail: seq<string>)
    requires |echo| > 0 && !IsGoSpace(echo[0])
    ensures Heard([echo, second] + tail) == [Trim(echo, GoSpaces)] + Kept(second) + Heard(tail)
  {
    var lines := [echo, second] + tail;
    assert lines[1..] == [second] + tail;
    assert ([second] + tail)[1..] == tail;
    assert Heard([second] + tail) == Kept(second) + Heard(tail);
    assert Heard(lines) == Kept(echo) + Heard([second] + tail);
    KeptLead(echo);
  }

  /** A clean line heard in front of others is kept as it is. */
  lemma HeardFront(v: string, after: seq<string>)
    requires Clean(v)
    ensures Heard([v] + after) == [v] + Heard(after)
  {
    TrimKeeps(v, GoSpaces);
    assert ([v] + after)[1..] == after;
  }

  lemma HeardSingle(x: string)
    ensures Heard([x]) == Kept(x)
  {
    assert [x][1..] == [];
  }

  /** A reply made of an echo, a second line and a clean verdict is heard
      as the trimmed echo, what is kept of the second line, the verdict,
      and what is heard of the rest. */
  lemma ReplyHeard(echo: string, second: string, verdict: string, after: seq<string>)
    requires |echo| > 0 && !IsGoSpace(echo[0])
    requires Clean(verdict)
    ensures Heard([echo, second, verdict] + after) ==
              [Trim(echo, GoSpaces)] + Kept(second) + [verdict] + Heard(after)
  {
    Cons3(echo, second, verdict, after);
    HeardOpening(echo, second, [verdict] + after);
    HeardFront(verdict, after);
    Regroup4([Trim(echo, GoSpaces)], Kept(second), [verdict], Heard(after));
  }


  /** Every line `connectToWiFi` prints is a single line. */
  lemma JoinLines(ssid: string, radio: F.Radio)
    requires OneLine(ssid) && OneLine(radio.ip)
    ensures var j := F.ConnectToWiFi(ssid, radio);
            forall i :: 0 <= i < |j.lines| ==> OneLine(j.lines[i])
  {
    var dots := F.ConnectToWiFi(ssid, radio).lines[1];
    forall k | 0 <= k < |dots|
      ensures dots[k] != '\n'
    {
    }
  }

  /** What the client hears of a successful `connectToWiFi`: the trimmed
      echo, the dots if there were any, the verdict and the address. */
  lemma JoinHeardUp(ssid: string, radio: F.Radio)
    requires OneLine(ssid) && OneLine(radio.ip)
    requires F.ConnectToWiFi(ssid, radio).up
    ensures var j := F.ConnectToWiFi(ssid, radio);
            Heard(j.lines) ==
              [Trim("CONNECTING:" + ssid, GoSpaces)] + Kept(j.lines[1]) + [F.JoinOk] + Kept("IP:" + radio.ip)
  {
    var j := F.ConnectToWiFi(ssid, radio);
    var verdict := F.JoinOk;
    assert Clean(verdict);
    assert j.lines == ["CONNECTING:" + ssid, j.lines[1], verdict] + ["IP:" + radio.ip];
    ReplyHeard("CONNECTING:" + ssid, j.lines[1], verdict, ["IP:" + radio.ip]);
    HeardSingle("IP:" + radio.ip);
  }

  /** What the client hears of a failed `connectToWiFi`: the trimmed echo,
      the dots, and the verdict. */
  lemma JoinHeardDown(ssid: string, radio: F.Radio)
    requires OneLine(ssid) && OneLine(radio.ip)
    requires !F.ConnectToWiFi(ssid, radio).up
    ensures var j := F.ConnectToWiFi(ssid, radio);
            Heard(j.lines) == [Trim("CONNECTING:" + ssid, GoSpaces)] + Kept(j.lines[1]) + [F.JoinFailed]
  {
    var j := F.ConnectToWiFi(ssid, radio);
    var verdict := F.JoinFailed;
    assert Clean(verdict);
    assert j.lines == ["CONNECTING:" + ssid, j.lines[1], verdict] + [];
    ReplyHeard("CONNECTING:" + ssid, j.lines[1], verdict, []);
  }

  /** `Connect`'s result for an echo, lines that settle nothing and a
      decisive line, under the code's reading and under the strict one. */
  lemma ConnectReply(echo: string, quiet: seq<string>, verdict: string, after: seq<string>)
    requires forall i :: 0 <= i < |quiet| ==> !C.Decisive(quiet[i], "OK:Connected", Contains)
    requires forall i :: 0 <= i < |quiet| ==> !C.Decisive(quiet[i], "OK:Connected", HasPrefix)
    requires C.Decisive(verdict, "OK:Connected", Contains) && C.Decisive(verdict, "OK:Connected", HasPrefix)
    ensures C.ConnectResult([echo] + quiet + [verdict] + after) ==
              if Contains(echo, "OK:Connected") then Ok(())
              else if Contains(echo, "ERROR") then Err("connection failed: " + echo)
              else if Contains(verdict, "OK:Connected") then Ok(())
              else Err("connection failed: " + verdict)
    ensures C.ConnectResultStrict([echo] + quiet + [verdict] + after) ==
              if HasPrefix(echo, "OK:Connected") then Ok(())
              else if HasPrefix(echo, "ERROR") then Err("connection failed: " + echo)
              else if HasPrefix(verdict, "OK:Connected") then Ok(())
              else Err("connection failed: " + verdict)
  {
    ReplyVerdict(echo, quiet, verdict, after, "OK:Connected", Contains);
    ReplyVerdict(echo, quiet, verdict, after, "OK:Connected", HasPrefix);
  }

  /** `TCPConnect`'s result, likewise. */
  lemma OpenReply(echo: string, quiet: seq<string>, verdict: string, after: seq<string>)
    requires forall i :: 0 <= i < |quiet| ==> !C.Decisive(quiet[i], "OK:TCP connected", Contains)
    requires forall i :: 0 <= i < |quiet| ==> !C.Decisive(quiet[i], "OK:TCP connected", HasPrefix)
    requires C.Decisive(verdict, "OK:TCP connected", Contains) && C.Decisive(verdict, "OK:TCP connected", HasPrefix)
    ensures C.TcpConnectResult([echo] + quiet + [verdict] + after) ==
              if Contains(echo, "OK:TCP connected") then Ok(())
              else if Contains(echo, "ERROR") then Err("TCP connection failed: " + echo)
              else if Contains(verdict, "OK:TCP connected") then Ok(())
              else Err("TCP connection failed: " + verdict)
    ensures C.TcpConnectResultStrict([echo] + quiet + [verdict] + after) ==
              if HasPrefix(echo, "OK:TCP connected") then Ok(())
              else if HasPrefix(echo, "ERROR") then Err("TCP connection failed: " + echo)
              else if HasPrefix(verdict, "OK:TCP connected") then Ok(())
              else Err("TCP connection failed: " + verdict)
  {
    ReplyVerdict(echo, quiet, verdict, after, "OK:TCP connected", Contains);
    ReplyVerdict(echo, quiet, verdict, after, "OK:TCP connected", HasPrefix);
  }

  /** `Connect`'s answer for a reply of an echo, a line of dots and a
      decisive verdict line, under the code's reading and the strict one. */
  lemma JoinAnswer(ssid: string, password: string, lines: seq<string>, echo: string, dots: string, verdict: string, after: seq<string>)
    requires lines == [echo, dots, verdict] + after
    requires forall i :: 0 <= i < |lines| ==> OneLine(lines[i])
    requires |echo| > 0 && !IsGoSpace(echo[0]) && Clean(verdict)
    requires forall k :: 0 <= k < |dots| ==> dots[k] == '.'
    requires C.Decisive(verdict, "OK:Connected", Contains) && C.Decisive(verdict, "OK:Connected", HasPrefix)
    ensures var e := Trim(echo, GoSpaces);
            C.Perform(C.Connect(ssid, password), None, C.Receive(Wire(lines))) ==
              if Contains(e, "OK:Connected") then Ok(C.Done)
              else if Contains(e, "ERROR") then Err("connection failed: " + e)
              else if Contains(verdict, "OK:Connected") then Ok(C.Done)
              else Err("connection failed: " + verdict)
    ensures var e := Trim(echo, GoSpaces);
            C.ConnectResultStrict(C.ReadLines(C.Receive(Wire(lines)))) ==
              if HasPrefix(e, "OK:Connected") then Ok(())
              else if HasPrefix(e, "ERROR") then Err("connection failed: " + e)
              else if HasPrefix(verdict, "OK:Connected") then Ok(())
              else Err("connection failed: " + verdict)
  {
    WindowHears(lines);
    PerformHeard(C.Connect(ssid, password), lines);
    ReplyHeard(echo, dots, verdict, after);
    DotsQuiet(dots, "OK:Connected");
    ConnectReply(Trim(echo, GoSpaces), Kept(dots), verdict, Heard(after));
  }

  /** `Connect` when the firmware joins the network. */
  lemma JoinAnswerUp(ssid: string, password: string, radio: F.Radio)
    requires OneLine(ssid) && OneLine(radio.ip)
    requires F.ConnectToWiFi(ssid, radio).up
    ensures var echo := Trim("CONNECTING:" + ssid, GoSpaces);
            var lines := F.ConnectToWiFi(ssid, radio).lines;
            && C.Perform(C.Connect(ssid, password), None, C.Receive(Wire(lines))) ==
                 (if Contains(echo, "OK:Connected") then Ok(C.Done)
                  else if Contains(echo, "ERROR") then Err("connection failed: " + echo)
                  else Ok(C.Done))
            && C.ConnectResultStrict(C.ReadLines(C.Receive(Wire(lines)))) == Ok(())
  {
    var j := F.ConnectToWiFi(ssid, radio);
    var raw := "CONNECTING:" + ssid;
    JoinLines(ssid, radio);
    KeptLead(raw);
    PrefixMismatch(Trim(raw, GoSpaces), "OK:Connected", 0);
    PrefixMismatch(Trim(raw, GoSpaces), "ERROR", 0);
    JoinedLine();
    assert j.lines == [raw, j.lines[1], F.JoinOk] + ["IP:" + radio.ip];
    JoinAnswer(ssid, password, j.lines, raw, j.lines[1], F.JoinOk, ["IP:" + radio.ip]);
  }

  /** `Connect` when the firmware gives up. */
  lemma JoinAnswerDown(ssid: string, password: string, radio: F.Radio)
    requires OneLine(ssid) && OneLine(radio.ip)
    requires !F.ConnectToWiFi(ssid, radio).up
    ensures var echo := Trim("CONNECTING:" + ssid, GoSpaces);
            var lines := F.ConnectToWiFi(ssid, radio).lines;
            && C.Perform(C.Connect(ssid, password), None, C.Receive(Wire(lines))) ==
                 (if Contains(echo, "OK:Connected") then Ok(C.Done)
                  else if Contains(echo, "ERROR") then Err("connection failed: " + echo)
                  else Err("connection failed: " + F.JoinFailed))
            && C.ConnectResultStrict(C.ReadLines(C.Receive(Wire(lines)))) ==
                 Err("connection failed: " + F.JoinFailed)
  {
    var j := F.ConnectToWiFi(ssid, radio);
    var raw := "CONNECTING:" + ssid;
    JoinLines(ssid, radio);
    KeptLead(raw);
    PrefixMismatch(Trim(raw, GoSpaces), "OK:Connected", 0);
    PrefixMismatch(Trim(raw, GoSpaces), "ERROR", 0);
    JoinFailedLine();
    assert j.lines == [raw, j.lines[1], F.JoinFailed] + [];
    JoinAnswer(ssid, password, j.lines, raw, j.lines[1], F.JoinFailed, []);
  }

  /** `Connect` against `connectToWiFi`, as written: the echoed SSID line is
      tested first, so an SSID that contains "ERROR" fails the call whatever
      the radio does; otherwise the client reports what the firmware found.
      An SSID that the command line carries has no colon, so its echo never
      holds "OK:Connected" (`NoJoinMark`). */
  lemma JoinExchange(ssid: string, password: string, link: F.Link, radio: F.Radio)
    requires Transmissible(C.Connect(ssid, password)) && OneLine(radio.ip)
    ensures var j := F.ConnectToWiFi(ssid, radio);
            var echo := Trim("CONNECTING:" + ssid, GoSpaces);
            Exchange(C.Connect(ssid, password), link, radio) ==
              (link.(wifiUp := j.up),
               if Contains(echo, "ERROR") then Err("connection failed: " + echo)
               else if j.up then Ok(C.Done)
               else Err("connection failed: " + F.JoinFailed))
  {
    JoinServed(C.Connect(ssid, password), link, radio);
  }

  /** When a radio stays connected once it has connected, a failed join has
      waited through all 20 polls. That is 20 pauses of 500 ms, longer than
      `Connect`'s 5-second window. So with the source's own constants the
      window closes before "ERROR:Connection failed" is printed. `Connect`
      then reports "connection timeout", and the verdict line is left on
      the wire for the next call that reads (`StaleRefusal`).
      `JoinExchange` assumes a window long enough for the whole reply. */
  lemma FailedJoinOutlastsWindow(ssid: string, radio: F.Radio)
    requires forall k: nat :: F.Polled(radio.polls, k) ==> F.Polled(radio.polls, k + 1)
    requires !F.ConnectToWiFi(ssid, radio).up
    ensures var j := F.ConnectToWiFi(ssid, radio);
            |j.lines[1]| == F.MaxJoinAttempts && |j.lines[1]| * F.JoinPollMs > C.ConnectWindowMs
  {
  }

  lemma JoinServed(call: C.Call, link: F.Link, radio: F.Radio)
    requires call.Connect? && Transmissible(call) && OneLine(radio.ip)
    ensures var j := F.ConnectToWiFi(call.ssid, radio);
            var echo := Trim("CONNECTING:" + call.ssid, GoSpaces);
            Exchange(call, link, radio) ==
              (link.(wifiUp := j.up),
               if Contains(echo, "ERROR") then Err("connection failed: " + echo)
               else if j.up then Ok(C.Done)
               else Err("connection failed: " + F.JoinFailed))
  {
    var ssid, password := call.ssid, call.password;
    var j := F.ConnectToWiFi(ssid, radio);
    var echo := Trim("CONNECTING:" + ssid, GoSpaces);
    var answer :=
      if Contains(echo, "ERROR") then Err("connection failed: " + echo)
      else if j.up then Ok(C.Done)
      else Err("connection failed: " + F.JoinFailed);
    UnbrokenOneLine(ssid);
    NoJoinMark(ssid);
    if j.up {
      JoinAnswerUp(ssid, password, radio);
    } else {
      JoinAnswerDown(ssid, password, radio);
    }
    assert Intended(call) == F.Join(ssid, password);
    F.ExecuteJoin(link, ssid, password, radio);
    ExchangeVia(call, link, radio, j.lines, answer);
  }

  lemma UnbrokenOneLine(s: string)
    requires F.Unbroken(s)
    ensures OneLine(s)
  {
    forall i | 0 <= i < |s|
      ensures s[i] != '\n'
    {
      assert !F.IsTerminator(s[i]);
    }
  }

  /** The echo of an SSID without a colon never holds "OK:Connected": its
      only colon closes "CONNECTING", where "OK" would have to stand in
      place of "NG". */
  lemma NoJoinMark(ssid: string)
    requires ':' !in ssid
    ensures !Contains(Trim("CONNECTING:" + ssid, GoSpaces), "OK:Connected")
  {
    var raw := "CONNECTING:" + ssid;
    var e := Trim(raw, GoSpaces);
    assert TrimLeft(raw, GoSpaces) == raw;
    assert e == raw[..|e|];
    forall p | 0 <= p <= |e| - |"OK:Connected"|
      ensures !OccursAt(e, "OK:Connected", p)
    {
      NoMarkAt(raw, e, ssid, p);
    }
  }

  lemma NoMarkAt(raw: string, e: string, ssid: string, p: int)
    requires raw == "CONNECTING:" + ssid && ':' !in ssid
    requires |e| <= |raw| && e == raw[..|e|]
    requires 0 <= p <= |e| - |"OK:Connected"|
    ensures !OccursAt(e, "OK:Connected", p)
  {
    var w := e[p..p + |"OK:Connected"|];
    assert w[0] == raw[p] && w[2] == raw[p + 2];
    if p + 2 < 11 {
      assert raw[p + 2] == "CONNECTING:"[p + 2];
      assert raw[p] == "CONNECTING:"[p];
      assert raw[p] != 'O' || raw[p + 2] != ':';
    } else {
      assert raw[p + 2] == ssid[p + 2 - 11];
      assert raw[p + 2] != ':';
    }
  }

  /** With the strict reading, `Connect` reports exactly what the firmware
      found, whatever the SSID. */
  lemma JoinExchangeStrict(ssid: string, radio: F.Radio)
    requires OneLine(ssid) && OneLine(radio.ip)
    ensures var j := F.ConnectToWiFi(ssid, radio);
            C.ConnectResultStrict(C.ReadLines(C.Receive(Wire(j.lines)))) ==
              if j.up then Ok(()) else Err("connection failed: " + F.JoinFailed)
  {
    if F.ConnectToWiFi(ssid, radio).up {
      JoinAnswerUp(ssid, "", radio);
    } else {
      JoinAnswerDown(ssid, "", radio);
    }
  }

  /** The echo `connectTCP` prints is heard as printed. */
  lemma OpenEchoClean(host: string, port: Int32)
    requires OneLine(host)
    ensures var echo := "TCP:Connecting to " + host + ":" + Decimal(port);
            Clean(echo) && echo[0] == 'T'
  {
    var d := Decimal(port);
    DecimalPlain(port);
    assert "TCP:Connecting to " + host + ":" + d == "TCP:Connecting to" + (" " + host + ":" + d);
    TaggedClean("TCP:Connecting to", " " + host + ":" + d);
  }

  /** `TCPConnect`'s conclusion from an echo and a decisive verdict line. */
  lemma OpenConclude(host: string, port: Int64, echo: string, verdict: string)
    requires C.Decisive(verdict, "OK:TCP connected", Contains)
    ensures C.Conclude(C.TCPConnect(host, port), [echo, verdict]) ==
              if Contains(echo, "OK:TCP connected") then Ok(C.Done)
              else if Contains(echo, "ERROR") then Err("TCP connection failed: " + echo)
              else if Contains(verdict, "OK:TCP connected") then Ok(C.Done)
              else Err("TCP connection failed: " + verdict)
  {
    ReplyVerdict(echo, [], verdict, [], "OK:TCP connected", Contains);
    assert [echo] + [] + [verdict] + [] == [echo, verdict];
  }

  /** The strict reading of the same two lines. */
  lemma OpenConcludeStrict(echo: string, verdict: string)
    requires C.Decisive(verdict, "OK:TCP connected", HasPrefix)
    ensures C.TcpConnectResultStrict([echo, verdict]) ==
              if HasPrefix(echo, "OK:TCP connected") then Ok(())
              else if HasPrefix(echo, "ERROR") then Err("TCP connection failed: " + echo)
              else if HasPrefix(verdict, "OK:TCP connected") then Ok(())
              else Err("TCP connection failed: " + verdict)
  {
    ReplyVerdict(echo, [], verdict, [], "OK:TCP connected", HasPrefix);
    assert [echo] + [] + [verdict] + [] == [echo, verdict];
  }

  /** `TCPConnect`'s answer for a clean echo and a decisive verdict line,
      under the code's reading and the strict one. */
  lemma OpenAnswer(host: string, port: Int64, echo: string, verdict: string)
    requires Clean(echo) && Clean(verdict)
    requires C.Decisive(verdict, "OK:TCP connected", Contains) && C.Decisive(verdict, "OK:TCP connected", HasPrefix)
    ensures C.Perform(C.TCPConnect(host, port), None, C.Receive(Wire([echo, verdict]))) ==
              C.Conclude(C.TCPConnect(host, port), [echo, verdict])
    ensures C.ReadLines(C.Receive(Wire([echo, verdict]))) == [echo, verdict]
  {
    ReadsHeard([echo, verdict]);
  }

  /** `TCPConnect` when the server accepts. */
  lemma OpenAnswerAccepted(host: string, port: Int64)
    requires OneLine(host)
    ensures var echo := "TCP:Connecting to " + host + ":" + Decimal(F.Clamp32(port));
            var lines := F.ConnectTcpLines(host, F.Clamp32(port), true);
            C.Perform(C.TCPConnect(host, port), None, C.Receive(Wire(lines))) ==
              if Contains(echo, "OK:TCP connected") then Ok(C.Done)
              else if Contains(echo, "ERROR") then Err("TCP connection failed: " + echo)
              else Ok(C.Done)
  {
    var echo := "TCP:Connecting to " + host + ":" + Decimal(F.Clamp32(port));
    OpenEchoClean(host, F.Clamp32(port));
    OpenedLine();
    OpenAnswer(host, port, echo, F.OpenOk);
    OpenConclude(host, port, echo, F.OpenOk);
  }

  /** `TCPConnect` when the server refuses. */
  lemma OpenAnswerRefused(host: string, port: Int64)
    requires OneLine(host)
    ensures var echo := "TCP:Connecting to " + host + ":" + Decimal(F.Clamp32(port));
            var lines := F.ConnectTcpLines(host, F.Clamp32(port), false);
            C.Perform(C.TCPConnect(host, port), None, C.Receive(Wire(lines))) ==
              if Contains(echo, "OK:TCP connected") then Ok(C.Done)
              else if Contains(echo, "ERROR") then Err("TCP connection failed: " + echo)
              else Err("TCP connection failed: " + F.OpenFailed)
  {
    var echo := "TCP:Connecting to " + host + ":" + Decimal(F.Clamp32(port));
    OpenEchoClean(host, F.Clamp32(port));
    OpenFailedLine();
    OpenAnswer(host, port, echo, F.OpenFailed);
    OpenConclude(host, port, echo, F.OpenFailed);
  }

  /** What `TCPConnect` makes of `connectTCP`'s lines, either way. */
  lemma OpenRead(host: string, port: Int64, accepted: bool)
    requires OneLine(host)
    ensures var echo := "TCP:Connecting to " + host + ":" + Decimal(F.Clamp32(port));
            C.Perform(C.TCPConnect(host, port), None, C.Receive(Wire(F.ConnectTcpLines(host, F.Clamp32(port), accepted)))) ==
              if Contains(echo, "OK:TCP connected") then Ok(C.Done)
              else if Contains(echo, "ERROR") then Err("TCP connection failed: " + echo)
              else if accepted then Ok(C.Done)
              else Err("TCP connection failed: " + F.OpenFailed)
  {
    if accepted {
      OpenAnswerAccepted(host, port);
    } else {
      OpenAnswerRefused(host, port);
    }
  }

  /** `TCPConnect` against `connectTCP`, as written: the echoed host line is
      tested first, so a host that contains "OK:TCP connected" or "ERROR"
      decides the call by itself; otherwise the client reports whether the
      server accepted. A refused attempt leaves an open session open. */
  lemma OpenExchange(host: string, port: Int64, link: F.Link, radio: F.Radio)
    requires F.Unbroken(host) && host != []
    ensures var echo := "TCP:Connecting to " + host + ":" + Decimal(F.Clamp32(port));
            Exchange(C.TCPConnect(host, port), link, radio) ==
              (link.(tcpOpen := radio.accepts || link.tcpOpen),
               if Contains(echo, "OK:TCP connected") then Ok(C.Done)
               else if Contains(echo, "ERROR") then Err("TCP connection failed: " + echo)
               else if radio.accepts then Ok(C.Done)
               else Err("TCP connection failed: " + F.OpenFailed))
  {
    UnbrokenOneLine(host);
    OpenRead(host, port, radio.accepts);
    OpenVia(host, port, link, radio);
  }

  /** `TCPConnect`'s exchange is what the client reads of `connectTCP`'s
      lines, and the link as `connectTCP` leaves it. */
  lemma OpenVia(host: string, port: Int64, link: F.Link, radio: F.Radio)
    requires F.Unbroken(host) && host != []
    ensures var lines := F.ConnectTcpLines(host, F.Clamp32(port), radio.accepts);
            Exchange(C.TCPConnect(host, port), link, radio) ==
              (link.(tcpOpen := radio.accepts || link.tcpOpen), C.Perform(C.TCPConnect(host, port), None, C.Receive(Wire(lines))))
  {
    OpenServed(C.TCPConnect(host, port), link, radio);
  }

  lemma OpenServed(call: C.Call, link: F.Link, radio: F.Radio)
    requires call.TCPConnect? && Transmissible(call)
    ensures var lines := F.ConnectTcpLines(call.host, F.Clamp32(call.port), radio.accepts);
            Exchange(call, link, radio) ==
              (link.(tcpOpen := radio.accepts || link.tcpOpen), C.Perform(call, None, C.Receive(Wire(lines))))
  {
    var host, port := call.host, call.port;
    var lines := F.ConnectTcpLines(host, F.Clamp32(port), radio.accepts);
    OpenExecuted(host, port, link, radio);
    ExchangeVia(call, link, radio, lines, C.Perform(call, None, C.Receive(Wire(lines))));
  }

  /** An empty host never reaches `connectTCP`: the firmware answers the
      malformed command, the link stays as it was, and the client reports
      that answer as the failure. */
  lemma EmptyHostExchange(port: Int64, link: F.Link, radio: F.Radio)
    ensures Exchange(C.TCPConnect("", port), link, radio) == (link, Err("TCP connection failed: " + F.BadOpenLine))
  {
    EmptyHostServed(C.TCPConnect("", port), link, radio);
  }

  lemma EmptyHostServed(call: C.Call, link: F.Link, radio: F.Radio)
    requires call.TCPConnect? && call.host == []
    ensures Exchange(call, link, radio) == (link, Err("TCP connection failed: " + F.BadOpenLine))
  {
    EmptyHostFirmware(call, link, radio);
    EmptyHostAnswer(call);
  }

  /** The firmware's side: one line of complaint, the link unchanged. */
  lemma EmptyHostFirmware(call: C.Call, link: F.Link, radio: F.Radio)
    requires call.TCPConnect? && call.host == []
    ensures F.Serve(F.Bridge(link, []), C.SendCommand(C.CommandOf(call)), [radio]) ==
              F.Served(F.Bridge(link, []), [F.BadOpenLine])
  {
    var cmd := C.CommandOf(call);
    OpenCommandPlain(call.host, call.port);
    F.FrameCrLf(cmd);
    TrimKeeps(cmd, CSpaces);
    EmptyHostRejected(call.port);
    CommandServed(cmd, F.BadOpen, link, [radio]);
    assert F.Head([radio]) == radio;
    F.ExecuteReplies(link, F.BadOpen, radio);
  }

  /** The client's side: the complaint is the verdict. */
  lemma EmptyHostAnswer(call: C.Call)
    requires call.TCPConnect?
    ensures C.Perform(call, None, C.Receive(Wire([F.BadOpenLine]))) == Err("TCP connection failed: " + F.BadOpenLine)
  {
    BadOpenRead();
    OpenRefusedBy(call, F.BadOpenLine);
  }

  /** A reply of one refusing line fails `TCPConnect` on it. */
  lemma OpenRefusedBy(call: C.Call, v: string)
    requires call.TCPConnect? && Clean(v) && Contains(v, "ERROR") && !Contains(v, "OK:TCP connected")
    ensures C.Perform(call, None, C.Receive(Wire([v]))) == Err("TCP connection failed: " + v)
  {
    PerformClean(call, [v]);
    OpenConcludeRefused(call, v);
  }

  lemma OpenConcludeRefused(call: C.Call, v: string)
    requires call.TCPConnect? && Contains(v, "ERROR") && !Contains(v, "OK:TCP connected")
    ensures C.Conclude(call, [v]) == Err("TCP connection failed: " + v)
  {
    VerdictRefused(v, [], "OK:TCP connected");
    assert [v] + [] == [v];
  }

  /** The firmware's answer to a malformed `TCPCONNECT` is heard as printed
      and refuses the connection. */
  lemma BadOpenRead()
    ensures Clean(F.BadOpenLine)
    ensures !Contains(F.BadOpenLine, "OK:TCP connected") && Contains(F.BadOpenLine, "ERROR")
  {
    BadOpenClean();
    BadOpenAbsent();
    BadOpenError();
  }

  lemma BadOpenClean()
    ensures Clean(F.BadOpenLine)
  {
  }

  lemma BadOpenAbsent()
    ensures !Contains(F.BadOpenLine, "OK:TCP connected")
  {
    AbsentChar(F.BadOpenLine, "OK:TCP connected", 1);
  }

  lemma BadOpenError()
    ensures Contains(F.BadOpenLine, "ERROR")
  {
    PrefixContained(F.BadOpenLine, "ERROR");
  }

  /** The firmware's side of `TCPConnect`: `connectTCP` on the saturated port. */
  lemma OpenExecuted(host: string, port: Int64, link: F.Link, radio: F.Radio)
    ensures F.Execute(link, Intended(C.TCPConnect(host, port)), radio) ==
              F.Reply(link.(tcpOpen := radio.accepts || link.tcpOpen), F.ConnectTcpLines(host, F.Clamp32(port), radio.accepts))
  {
    assert Intended(C.TCPConnect(host, port)) == F.Open(host, F.Clamp32(port));
    F.ExecuteOpen(link, host, F.Clamp32(port), radio);
  }

  /** The strict reading of an echo that starts with 'T' and a decisive
      verdict line: the verdict decides. */
  lemma StrictTwoLines(echo: string, verdict: string)
    requires Clean(echo) && echo[0] == 'T' && Clean(verdict)
    requires C.Decisive(verdict, "OK:TCP connected", HasPrefix)
    ensures C.TcpConnectResultStrict(C.ReadLines(C.Receive(Wire([echo, verdict])))) ==
              if HasPrefix(verdict, "OK:TCP connected") then Ok(()) else Err("TCP connection failed: " + verdict)
  {
    PrefixMismatch(echo, "OK:TCP connected", 0);
    PrefixMismatch(echo, "ERROR", 0);
    ReadsHeard([echo, verdict]);
    OpenConcludeStrict(echo, verdict);
  }

  lemma OpenStrictAccepted(host: string, port: Int64)
    requires OneLine(host)
    ensures C.TcpConnectResultStrict(C.ReadLines(C.Receive(Wire(F.ConnectTcpLines(host, F.Clamp32(port), true))))) == Ok(())
  {
    var echo := "TCP:Connecting to " + host + ":" + Decimal(F.Clamp32(port));
    OpenEchoClean(host, F.Clamp32(port));
    OpenedLine();
    assert F.ConnectTcpLines(host, F.Clamp32(port), true) == [echo, F.OpenOk];
    StrictTwoLines(echo, F.OpenOk);
  }

  lemma OpenStrictRefused(host: string, port: Int64)
    requires OneLine(host)
    ensures C.TcpConnectResultStrict(C.ReadLines(C.Receive(Wire(F.ConnectTcpLines(host, F.Clamp32(port), false))))) ==
              Err("TCP connection failed: " + F.OpenFailed)
  {
    var echo := "TCP:Connecting to " + host + ":" + Decimal(F.Clamp32(port));
    OpenEchoClean(host, F.Clamp32(port));
    OpenFailedLine();
    assert F.ConnectTcpLines(host, F.Clamp32(port), false) == [echo, F.OpenFailed];
    StrictTwoLines(echo, F.OpenFailed);
  }

  /** With the strict reading, `TCPConnect` reports exactly whether the
      server accepted, whatever the host. */
  lemma OpenExchangeStrict(host: string, port: Int64, accepted: bool)
    requires OneLine(host)
    ensures var lines := F.ConnectTcpLines(host, F.Clamp32(port), accepted);
            C.TcpConnectResultStrict(C.ReadLines(C.Receive(Wire(lines)))) ==
              if accepted then Ok(()) else Err("TCP connection failed: " + F.OpenFailed)
  {
    if accepted {
      OpenStrictAccepted(host, port);
    } else {
      OpenStrictRefused(host, port);
    }
  }

  // ---------------------------------------------------------------------
  // What the echo lines do to the verdict

  /** Any SSID that contains "ERROR" makes `Connect` fail, even when the
      firmware joins the network: the echoed line is read as the verdict. */
  lemma EchoErrorFailsJoin(ssid: string, password: string, link: F.Link, radio: F.Radio)
    requires Transmissible(C.Connect(ssid, password)) && OneLine(radio.ip)
    requires Contains(ssid, "ERROR") && !IsGoSpace(ssid[|ssid| - 1])
    ensures Exchange(C.Connect(ssid, password), link, radio) ==
              (link.(wifiUp := F.ConnectToWiFi(ssid, radio).up), Err("connection failed: " + ("CONNECTING:" + ssid)))
  {
    EchoErrorServed(C.Connect(ssid, password), link, radio);
  }

  lemma EchoErrorServed(call: C.Call, link: F.Link, radio: F.Radio)
    requires call.Connect? && Transmissible(call) && OneLine(radio.ip)
    requires Contains(call.ssid, "ERROR") && !IsGoSpace(call.ssid[|call.ssid| - 1])
    ensures Exchange(call, link, radio) ==
              (link.(wifiUp := F.ConnectToWiFi(call.ssid, radio).up), Err("connection failed: " + ("CONNECTING:" + call.ssid)))
  {
    UnbrokenOneLine(call.ssid);
    EchoKeepsError(call.ssid);
    JoinServed(call, link, radio);
  }

  /** The echo of such an SSID reaches the client whole, "ERROR" and all. */
  lemma EchoKeepsError(ssid: string)
    requires OneLine(ssid) && Contains(ssid, "ERROR") && !IsGoSpace(ssid[|ssid| - 1])
    ensures var raw := "CONNECTING:" + ssid;
            Trim(raw, GoSpaces) == raw && Contains(raw, "ERROR")
  {
    var raw := "CONNECTING:" + ssid;
    TaggedClean("CONNECTING:", ssid);
    TrimKeeps(raw, GoSpaces);
    ContainsWithin("CONNECTING:", ssid, [], "ERROR");
    assert raw + [] == raw;
  }

  /** The witness: the SSID "MY-ERROR-NET", a radio that reports the link
      at every poll, and the client reports a failed connection while
      the firmware is joined. */
  lemma EchoErrorJoinWitness(password: string, link: F.Link)
    requires Transmissible(C.Connect("MY-ERROR-NET", password))
    ensures var radio := F.Quiet.(polls := [true, true]);
            && F.ConnectToWiFi("MY-ERROR-NET", radio).up
            && Exchange(C.Connect("MY-ERROR-NET", password), link, radio) ==
                 (link.(wifiUp := true), Err("connection failed: CONNECTING:MY-ERROR-NET"))
  {
    var ssid := "MY-ERROR-NET";
    var radio := F.Quiet.(polls := [true, true]);
    ErrorNetName();
    JoinsAtOnce(ssid, radio);
    EchoErrorFailsJoin(ssid, password, link, radio);
  }

  lemma ErrorNetName()
    ensures Contains("MY-ERROR-NET", "ERROR") && !IsGoSpace('T')
    ensures "connection failed: " + ("CONNECTING:" + "MY-ERROR-NET") == "connection failed: CONNECTING:MY-ERROR-NET"
  {
    assert OccursAt("MY-ERROR-NET", "ERROR", 3);
  }

  /** A radio that reports the link at every poll joins at once. */
  lemma JoinsAtOnce(ssid: string, radio: F.Radio)
    requires radio.polls == [true, true]
    ensures F.ConnectToWiFi(ssid, radio).up
  {
  }

  /** A colon in the SSID is not an error at either end: the call is the
      same exchange as one whose SSID stops at the colon and whose password
      carries the rest. */
  lemma ColonSsidExchange(a: string, b: string, password: string, link: F.Link, radio: F.Radio)
    ensures Exchange(C.Connect(a + ":" + b, password), link, radio) ==
              Exchange(C.Connect(a, b + ":" + password), link, radio)
  {
    var c1, c2 := C.Connect(a + ":" + b, password), C.Connect(a, b + ":" + password);
    assert C.CommandOf(c1) == C.CommandOf(c2);
    forall window: seq<C.RawRead>
      ensures C.Perform(c1, None, window) == C.Perform(c2, None, window)
    {
      assert C.Conclude(c1, C.ReadLines(window)) == C.Conclude(c2, C.ReadLines(window));
    }
  }

  /** The client never reads the reply to `TCPClose`: when there is no
      session, the firmware's complaint waits on the line, and the next
      `Connect` reads it first and fails on it, whatever follows. */
  lemma StaleCloseFailsJoin(ssid: string, password: string, link: F.Link, radio: F.Radio, later: seq<string>)
    requires !link.tcpOpen
    requires forall i :: 0 <= i < |later| ==> OneLine(later[i])
    ensures var stale := F.Execute(link, F.Close, radio).lines;
            C.Perform(C.Connect(ssid, password), None, C.Receive(Wire(stale + later))) ==
              Err("connection failed: " + F.NothingToClose)
  {
    F.ExecuteReplies(link, F.Close, radio);
    NothingToCloseRead();
    StaleRefusal(C.Connect(ssid, password), F.NothingToClose, later);
  }

  /** A refusing line left in front of a join's window decides it. */
  lemma StaleRefusal(call: C.Call, v: string, later: seq<string>)
    requires call.Connect? && Clean(v) && Contains(v, "ERROR") && !Contains(v, "OK:Connected")
    requires forall i :: 0 <= i < |later| ==> OneLine(later[i])
    ensures C.Perform(call, None, C.Receive(Wire([v] + later))) == Err("connection failed: " + v)
  {
    OneLineCons(v, later);
    PerformHeard(call, [v] + later);
    JoinRefusedBy(call, v, later);
  }

  lemma OneLineCons(v: string, later: seq<string>)
    requires OneLine(v) && forall i :: 0 <= i < |later| ==> OneLine(later[i])
    ensures forall i :: 0 <= i < |[v] + later| ==> OneLine(([v] + later)[i])
  {
    var lines := [v] + later;
    forall i | 0 <= i < |lines|
      ensures OneLine(lines[i])
    {
      if i > 0 {
        assert lines[i] == later[i - 1];
      }
    }
  }

  /** What a join makes of a window that starts with a refusing line. */
  lemma JoinRefusedBy(call: C.Call, v: string, later: seq<string>)
    requires call.Connect? && Clean(v) && Contains(v, "ERROR") && !Contains(v, "OK:Connected")
    ensures C.Conclude(call, Heard([v] + later)) == Err("connection failed: " + v)
  {
    HeardFront(v, later);
    RefusedFirst(v, Heard(later));
  }

  /** A window whose first line refuses a join fails `Connect` on it. */
  lemma RefusedFirst(v: string, rest: seq<string>)
    requires Contains(v, "ERROR") && !Contains(v, "OK:Connected")
    ensures C.ConnectResult([v] + rest) == Err("connection failed: " + v)
  {
    VerdictRefused(v, rest, "OK:Connected");
  }

  /** A first line with "ERROR" and without the success mark is the verdict. */
  lemma VerdictRefused(v: string, rest: seq<string>, ok: string)
    requires Contains(v, "ERROR") && !Contains(v, ok)
    ensures C.FirstVerdict([v] + rest, ok, Contains) == C.Refused(v)
  {
    assert ([v] + rest)[0] == v;
  }

  /** The firmware's complaint about a missing session is heard as printed
      and refuses a join. */
  lemma NothingToCloseRead()
    ensures Clean(F.NothingToClose)
    ensures !Contains(F.NothingToClose, "OK:Connected") && Contains(F.NothingToClose, "ERROR")
  {
    NothingToCloseClean();
    NothingToCloseAbsent();
    NothingToCloseError();
  }

  lemma NothingToCloseClean()
    ensures Clean(F.NothingToClose)
  {
  }

  lemma NothingToCloseAbsent()
    ensures !Contains(F.NothingToClose, "OK:Connected")
  {
    AbsentChar(F.NothingToClose, "OK:Connected", 1);
  }

  lemma NothingToCloseError()
    ensures Contains(F.NothingToClose, "ERROR")
  {
    PrefixContained(F.NothingToClose, "ERROR");
  }

  /** Any host that contains "OK:TCP connected" makes `TCPConnect`
      succeed, whether or not the server accepts. */
  lemma EchoFakesOpen(host: string, port: Int64, link: F.Link, radio: F.Radio)
    requires F.Unbroken(host) && Contains(host, "OK:TCP connected")
    ensures Exchange(C.TCPConnect(host, port), link, radio) ==
              (link.(tcpOpen := radio.accepts || link.tcpOpen), Ok(C.Done))
  {
    ContainsWithin3("TCP:Connecting to ", host, ":", Decimal(F.Clamp32(port)), "OK:TCP connected");
    OpenExchange(host, port, link, radio);
  }

  /** The witness: a refusing server, a host named "OK:TCP connected", and
      the client reports a session that the firmware does not have. */
  lemma EchoFakesOpenRefused(port: Int64)
    ensures var link := F.Link(true, false);
            var radio := F.Quiet;
            && !radio.accepts
            && Exchange(C.TCPConnect("OK:TCP connected", port), link, radio) == (link, Ok(C.Done))
  {
    OpenedLine();
    EchoFakesOpen("OK:TCP connected", port, F.Link(true, false), F.Quiet);
  }
}
