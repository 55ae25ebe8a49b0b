# ESP32 WiFi bridge: the serial line protocol, from both ends

An ESP32 acts as a WiFi modem for a BeagleV board. The two ends talk over a serial line, one text line per command and one or more text lines per reply:

- the host (the Go package `wifi`) writes a command such as `CONNECT:ssid:password`;
- the firmware (`main.cpp`) frames the bytes into lines, dispatches the line, talks to the radio or TCP stack, and prints its reply lines;
- the host reads lines for a fixed window and classifies them by substring or prefix.

This Dafny project models both ends as pure functions over strings, and proves properties of each end and of the round trips between them:

- **`Text`**: the string primitives both ends rely on:
  - `strings.TrimSpace` and `String::trim`, with their two notions of white space;
  - `indexOf` and `lastIndexOf`;
  - `strings.Split`;
  - decimal printing.
- **`Firmware`**: `main.cpp`:
  - the `loop` that assembles command lines (`Frame`, `Serve`);
  - `processCommand`'s classification and index-based argument splitting (`Parse`);
  - `String::toInt` (`ToInt`);
  - the lines every handler prints and the two link flags it changes (`Execute`). The flags are "WiFi joined" and "TCP session open".
  
  Every hardware answer is an input, a `Radio` record: the join polls, SSID, address, signal, scan report, and whether the TCP connect succeeds.
- **`Client`**: `wifi.go`:
  - the command each call sends (`CommandOf`, `SendCommand`);
  - the read filter (`Receive`, `ReadLines`);
  - the first-decisive-line rule of `Connect` and `TCPConnect` (`FirstVerdict`);
  - the `GetStatus` fold, the `Scan` parser, `GetIP`, and `fmt.Sscanf("%d")` (`ScanInt`).
  
  A read window is given as the reads it produced, so no clock is modelled.
- **`Protocol`**: the two ends together:
  - every command the client builds is framed, trimmed and parsed by the firmware into the request the call means (`CommandDelivered`, `CallServed`);
  - one call end to end (`Exchange`): the command's bytes go through the firmware's serial loop (`Firmware.Serve`) with the radio of the moment, and the client reads every line printed in reply;
  - what each call returns (`StatusExchange`, `ScanExchange`, `AddressExchange`, `JoinExchange`, `OpenExchange`), for calls whose arguments the command line carries intact (`Transmissible`);
  - what happens to the other calls (`ColonSsidExchange`, `EmptyHostExchange`), and to a reply that nobody reads (`StaleCloseFailsJoin`).
- **`AutoConnect`**: the example client `simple-connect.go`:
  - the strongest-known-network choice;
  - the reconnect decision of its monitoring service.

Three quirks of the host side are modelled as written: the `STATUS:` reading by substring, the echo lines tested like verdicts, and the shared range variable before Go 1.22. Each also has a corrected counterpart; see "## Findings".

The client's `TCPConnect` window is 2 seconds (`wifi.go:223`, `Client.TcpConnectWindowMs`).

## Model

| member | source | states |
|---|---|---|
| Text.TrimPrefix | beaglev/drivers/wifi/wifi.go:163 | with the prefix present, the input is the prefix followed by the result; otherwise the input is returned unchanged |
| Text.IndexFrom | firmware/esp32-wifi/src/main.cpp:92 | `indexOf(c, from)` is -1 or an index at or after `from` holding `c`, with no earlier such index from `from` on |
| Text.LastIndex | firmware/esp32-wifi/src/main.cpp:127 | `lastIndexOf(c)` is -1 or an index holding `c` with no `c` after it |
| Text.Split | beaglev/drivers/wifi/wifi.go:185 | `strings.Split` yields at least one part and no part contains the separator |
| Text.JoinSplit | beaglev/drivers/wifi/wifi.go:185 | joining the parts with the separator gives back the input, so splitting loses nothing |
| Text.SplitField | beaglev/drivers/wifi/wifi.go:185 | a separator-free field followed by the separator becomes the first part |
| Text.Trim | beaglev/drivers/wifi/wifi.go:101 | the trimmed text is a slice of the input with only trimmed characters before and after it, and it neither starts nor ends with one |
| Text.TrimKeeps | firmware/esp32-wifi/src/main.cpp:87 | text that neither starts nor ends with white space is left as it is by `trim`/`TrimSpace` |
| Text.TrimIdempotent | beaglev/drivers/wifi/wifi.go:101 | trimming twice is trimming once |
| Text.TrimSpacesAfter | beaglev/drivers/wifi/wifi.go:101 | trailing white space, such as the "\r\n" `println` adds, does not change the trimmed text |
| Text.Decimal | firmware/esp32-wifi/src/main.cpp:242 | a printed integer starts with '-' exactly when it is negative and is otherwise all digits |
| Text.DigitsValue | firmware/esp32-wifi/src/main.cpp:250 | reading back the digits printed for n gives n |
| Text.LeadingDigits | beaglev/drivers/wifi/wifi.go:191 | the leading digit run of a numeral followed by a non-digit has the numeral's value |
| Firmware.Frame | firmware/esp32-wifi/src/main.cpp:49-66 | no dispatched command is empty, none holds '\n' or '\r', and the buffer is empty after input that ends in a terminator |
| Firmware.FrameFields | firmware/esp32-wifi/src/main.cpp:49-66 | the commands the loop dispatches, then the partial line in its buffer, are exactly the maximal terminator-free runs of all input received |
| Firmware.FrameAccumulates | firmware/esp32-wifi/src/main.cpp:62-65 | characters before any terminator only extend the buffer |
| Firmware.FrameCrLf | firmware/esp32-wifi/src/main.cpp:53-60 | a command followed by "\r\n" (or "\n") is dispatched exactly once and leaves an empty buffer |
| Firmware.ServeRunsFrames | firmware/esp32-wifi/src/main.cpp:49-66 | the serial loop runs exactly the framed commands, in order, and keeps the unterminated rest in its buffer |
| Firmware.Clamp32 | firmware/esp32-wifi/src/main.cpp:131 | values inside the 32-bit `long` range are kept; others saturate at the nearer bound |
| Firmware.ToIntDecimal | firmware/esp32-wifi/src/main.cpp:131 | `toInt` of any printed integer, followed by a non-digit or nothing, is that integer saturated to 32 bits |
| Firmware.ToIntMinus | firmware/esp32-wifi/src/main.cpp:131 | after a minus sign, `toInt` reads the following digits negated |
| Firmware.VerbsDistinct | firmware/esp32-wifi/src/main.cpp:90-148 | the prefixes `CONNECT:`, `TCPCONNECT:`, `TCPSEND:` exclude one another, so the order of the tests does not matter |
| Firmware.ParseJoin | firmware/esp32-wifi/src/main.cpp:90-102 | the SSID runs from index 8 to the first later colon and holds no colon; the password is the rest, colons included; the format error occurs exactly when no colon follows index 8 |
| Firmware.ParseOpen | firmware/esp32-wifi/src/main.cpp:125-137 | the host runs from index 11 to the last colon and is non-empty; the port is `toInt` of the colon-free rest; the format error occurs exactly when no colon lies beyond index 11 |
| Firmware.Parse | firmware/esp32-wifi/src/main.cpp:85-181 | each request kind occurs exactly for its verb or prefix, and its arguments rebuild the command; anything else is unknown and keeps the command text |
| Firmware.BareVerbsUnknown | firmware/esp32-wifi/src/main.cpp:175-180 | `CONNECT`, `TCPCONNECT` or `TCPSEND` without a colon is an unknown command |
| Firmware.AttemptsFrom | firmware/esp32-wifi/src/main.cpp:190-196 | the join loop stops at the first connected poll or after 20 attempts, and every poll before the stop read "not connected" |
| Firmware.ConnectToWiFi | firmware/esp32-wifi/src/main.cpp:183-209 | the reply is the SSID echo, one dot per failed poll (at most 20), then `OK:Connected` and the address exactly when the final poll is connected, else `ERROR:Connection failed` |
| Firmware.ScanLines | firmware/esp32-wifi/src/main.cpp:230-255 | the reply is the banner, then `SCAN:No networks found` exactly when the count is zero or the count line otherwise, then one `NETWORK:` line per reported network, in order |
| Firmware.Execute | firmware/esp32-wifi/src/main.cpp:105-181 | only `CONNECT` and `DISCONNECT` change the WiFi flag; only `TCPCONNECT` and `TCPCLOSE` change the session flag; a failed connect keeps an open session; queries change nothing |
| Firmware.ExecuteReplies | firmware/esp32-wifi/src/main.cpp:117-181 | `DISCONNECT` answers `OK:Disconnected`; `TCPCLOSE` closes an open session or answers the no-session error without change; `TCPSEND` answers `OK:Data sent` iff a session is open; `IP` prints the address iff joined; format errors and unknown commands change nothing |
| Firmware.ExecuteOpen | firmware/esp32-wifi/src/main.cpp:257-272 | `TCPCONNECT` prints its echo and outcome, and the session is open after it iff the attempt succeeded or one was open before |
| Firmware.ExecuteJoin | firmware/esp32-wifi/src/main.cpp:183-209 | `CONNECT` prints `connectToWiFi`'s lines and sets the WiFi flag to its outcome, leaving the session flag alone |
| Firmware.ExecuteScan | firmware/esp32-wifi/src/main.cpp:112-115 | `SCAN` prints the scan lines and changes no flag |
| Client.CommandOf | beaglev/drivers/wifi/wifi.go:123-245 | `Connect`, `TCPConnect` and `TCPSend` build `CONNECT:ssid:password`, `TCPCONNECT:host:decimal(port)` and `TCPSEND:data` |
| Client.SendCommand | beaglev/drivers/wifi/wifi.go:86-93 | the bytes written are the command followed by one newline |
| Client.Receive | beaglev/drivers/wifi/wifi.go:96-102 | a window yields only successful reads, each ending at its only '\n'; together they are the stream up to its last '\n', and no '\n' is left after them |
| Client.Keep | beaglev/drivers/wifi/wifi.go:96-116 | a read contributes its trimmed text when that is non-empty, and nothing iff the read failed or the trimmed text is empty |
| Client.ReadLines | beaglev/drivers/wifi/wifi.go:105-120 | the kept lines are no more than the reads, every one non-empty and trimmed; a single read gives what it keeps, and reads that all keep a line give one line each |
| Client.ReadLinesOrigins | beaglev/drivers/wifi/wifi.go:110-116 | every kept line is the trimmed text of some read of the window |
| Client.ReadLinesAppend | beaglev/drivers/wifi/wifi.go:105-120 | a window read in two parts keeps the lines of each part, in arrival order |
| Client.ReadLinesIdempotent | beaglev/drivers/wifi/wifi.go:105-120 | filtering the kept lines again changes nothing |
| Client.CleanLinesKept | beaglev/drivers/wifi/wifi.go:105-120 | non-empty, already trimmed lines pass the filter unchanged |
| Client.FirstVerdict | beaglev/drivers/wifi/wifi.go:133-142 | success iff some line has the success mark and no earlier line has "ERROR"; failure carries the first decisive line; undecided iff no line is decisive |
| Client.VerdictAppend | beaglev/drivers/wifi/wifi.go:133-142 | lines after the first decisive line cannot change the verdict |
| Client.LastWith | beaglev/drivers/wifi/wifi.go:159-169 | the line the status fold settles on for a prefix is a line of the window with that prefix and no later line has the prefix; there is none iff no line has it |
| Client.StatusLastWins | beaglev/drivers/wifi/wifi.go:157-171 | each `Status` field comes from the last line of its kind (for RSSI, the last that scans) and keeps its zero value when there is none |
| Client.ConnectedLastWins | beaglev/drivers/wifi/wifi.go:160-161 | `Connected` is the reading of the last `STATUS:` line, false when there is none |
| Client.SsidLastWins | beaglev/drivers/wifi/wifi.go:162-163 | `SSID` is the text after the last `SSID:` line's prefix, empty when there is none |
| Client.IpLastWins | beaglev/drivers/wifi/wifi.go:164-165 | `IP` is the text after the last `IP:` line's prefix, empty when there is none |
| Client.RssiLastWins | beaglev/drivers/wifi/wifi.go:166-167 | `RSSI` is the value of the last `RSSI:` line whose number scans, 0 when there is none |
| Client.StatusPrefixesExclusive | beaglev/drivers/wifi/wifi.go:160-166 | a line starts with at most one of the four status prefixes, so the else-if chain sets one field per line |
| Client.DisconnectedReadsAsConnected | beaglev/drivers/wifi/wifi.go:160-161 | the firmware's `STATUS:DISCONNECTED` line sets `Connected` |
| Client.ParseNetwork | beaglev/drivers/wifi/wifi.go:184-193 | a network is produced iff the line has the `NETWORK:` prefix and at least three colon fields; its SSID is the first field, its RSSI the `%d` reading of the second (0 when that fails), and it is secured iff the third is exactly `SECURED` |
| Client.ScanResult | beaglev/drivers/wifi/wifi.go:181-197 | the result has at most one network per `NETWORK:` line |
| Client.ScanResultAppend | beaglev/drivers/wifi/wifi.go:183-195 | scanning a window in two parts gives the networks of each part, in order |
| Client.MalformedNetworkSkipped | beaglev/drivers/wifi/wifi.go:186 | a `NETWORK:` line with fewer than three fields is dropped without disturbing the networks around it |
| Client.FindIP | beaglev/drivers/wifi/wifi.go:207-213 | success iff some line has the `IP:` prefix, and the address is the suffix of the first such line; otherwise the error is "no IP address received" |
| Client.ScanIntDecimal | beaglev/drivers/wifi/wifi.go:167 | `%d` reads back every 64-bit integer printed in decimal, whatever non-digit text follows it |
| Client.Conclude | beaglev/drivers/wifi/wifi.go:123-245 | `Disconnect`, `TCPSend` and `TCPClose` always succeed once sent; `GetStatus` and `Scan` always return a status or a list; `GetIP` succeeds only with an address; a successful `Connect` or `TCPConnect` returns nothing more |
| Client.Perform | beaglev/drivers/wifi/wifi.go:86-93 | a failed write is reported as "failed to send command" and reads nothing; otherwise the call concludes from the kept lines of its window |
| Protocol.WindowHears | beaglev/drivers/wifi/wifi.go:96-120 | the reads and filter of the client, applied to printed lines, keep each line's trimmed text when not empty, in order |
| Protocol.PrintedRead | beaglev/drivers/wifi/wifi.go:101 | the "\r\n" `println` adds is trimmed away by `ReadLine` |
| Protocol.HeardAppend | firmware/esp32-wifi/src/main.cpp:185-207 | two batches of printed lines are heard as the two batches in order |
| Protocol.HeardClean | beaglev/drivers/wifi/wifi.go:105-120 | lines without surrounding white space are heard exactly as printed |
| Protocol.LastColonAt | firmware/esp32-wifi/src/main.cpp:127 | the last colon of `x:y` with a colon-free `y` is the one after `x` |
| Protocol.FirstColonUnique | firmware/esp32-wifi/src/main.cpp:92-96 | splitting at the first colon recovers the parts, since the SSID has no colon |
| Protocol.LastColonUnique | firmware/esp32-wifi/src/main.cpp:127-131 | splitting at the last colon recovers the parts, since the port has no colon |
| Protocol.JoinDelivered | firmware/esp32-wifi/src/main.cpp:90-97 | the firmware parses `CONNECT:ssid:password` back into the same SSID and password whenever the SSID has no colon |
| Protocol.OpenSplit | firmware/esp32-wifi/src/main.cpp:127-131 | `TCPCONNECT:host:rest` with a non-empty host and colon-free rest parses to that host and `toInt(rest)` |
| Protocol.PortReadBack | firmware/esp32-wifi/src/main.cpp:131 | the port the client prints is read back as its 32-bit saturation |
| Protocol.OpenDelivered | firmware/esp32-wifi/src/main.cpp:125-132 | the firmware parses the client's `TCPCONNECT` line back into the same host and the saturated port |
| Protocol.CommandPlain | firmware/esp32-wifi/src/main.cpp:87 | a transmissible call's command has no line break and nothing for `trim` to remove |
| Protocol.CommandDelivered | beaglev/drivers/wifi/wifi.go:86-93 | every transmissible call's command, sent with its newline, is dispatched once, leaves an empty buffer, and parses to the request the call means |
| Protocol.CallServed | firmware/esp32-wifi/src/main.cpp:49-66 | end to end, the firmware answers a call's bytes with the reply of the intended request and an empty buffer |
| Protocol.CommandServed | firmware/esp32-wifi/src/main.cpp:49-66 | a command line that is framed whole and parses to a request is answered with that request's reply, leaving the buffer empty |
| Protocol.ColonInSsidShifts | firmware/esp32-wifi/src/main.cpp:92-96 | an SSID with a colon is cut at it, and the rest is joined onto the password |
| Protocol.EmptyHostRejected | firmware/esp32-wifi/src/main.cpp:128-137 | `TCPConnect` with an empty host is rejected by the firmware as malformed |
| Protocol.StatusFold | beaglev/drivers/wifi/wifi.go:157-171 | whatever the reading of the `STATUS:` line, the fold of `getStatus`'s four lines recovers the SSID, address and signal, and the fold of the single down line leaves them zero |
| Protocol.StatusLinesRead | firmware/esp32-wifi/src/main.cpp:211-228 | as written, `getStatus`'s lines read as connected whether the link is up or down |
| Protocol.LinkDownRead | firmware/esp32-wifi/src/main.cpp:226 | the down line is heard as printed; as written it reads as connected, and with the exact reading it gives the zero status |
| Protocol.StatusExchange | beaglev/drivers/wifi/wifi.go:151-172 | `GetStatus` against the firmware returns the radio's SSID, address and signal when joined, and "connected" with empty fields when not |
| Protocol.StatusExchangeExact | beaglev/drivers/wifi/wifi.go:160-161 | with the exact reading, `GetStatus` reports the link state and fields the firmware has, in every case |
| Protocol.ThreeFields | beaglev/drivers/wifi/wifi.go:185 | three colon-free fields joined by colons split back into themselves |
| Protocol.NetworkLineRead | firmware/esp32-wifi/src/main.cpp:247-252 | a network line is heard as printed and parses back to that network's SSID, signal and security |
| Protocol.NetworkLinesRead | beaglev/drivers/wifi/wifi.go:183-195 | the network lines of a scan parse back to the listed networks, in order |
| Protocol.ScanHeader | firmware/esp32-wifi/src/main.cpp:232-243 | the banner and count lines are heard as printed and add no network |
| Protocol.ScanLinesRead | firmware/esp32-wifi/src/main.cpp:230-255 | `Scan` reads `scanNetworks`'s lines as the listed networks, in order, and none for a failed or running scan |
| Protocol.ScanExchange | beaglev/drivers/wifi/wifi.go:175-198 | `Scan` against the firmware returns every listed network with its SSID, signal and security flag, in order, and leaves the link alone |
| Protocol.AddressRead | firmware/esp32-wifi/src/main.cpp:166-167 | the `IP:` line is heard as printed and yields the address |
| Protocol.NoAddressRead | firmware/esp32-wifi/src/main.cpp:171 | the not-joined line yields the client's "no IP address received" error |
| Protocol.AddressExchange | beaglev/drivers/wifi/wifi.go:201-214 | `GetIP` against the firmware returns the address iff joined, the error otherwise |
| Protocol.DotsQuiet | firmware/esp32-wifi/src/main.cpp:191-197 | the line of progress dots settles nothing, under either reading |
| Protocol.ReplyVerdict | beaglev/drivers/wifi/wifi.go:133-140 | for an echo, lines that settle nothing and a decisive line, the echo decides if it can, else the decisive line does |
| Protocol.ReplyHeard | beaglev/drivers/wifi/wifi.go:105-120 | an echo, a second line and a clean verdict are heard as the trimmed echo, the kept second line and the verdict |
| Protocol.JoinLines | firmware/esp32-wifi/src/main.cpp:185-207 | every line `connectToWiFi` prints is one line on the wire |
| Protocol.JoinHeardUp | firmware/esp32-wifi/src/main.cpp:199-204 | a successful join is heard as echo, dots, `OK:Connected`, address |
| Protocol.JoinHeardDown | firmware/esp32-wifi/src/main.cpp:205-208 | a failed join is heard as echo, dots, `ERROR:Connection failed` |
| Protocol.ConnectReply | beaglev/drivers/wifi/wifi.go:133-142 | `Connect`'s result for an echo, quiet lines and a verdict, under the substring test and the prefix test |
| Protocol.OpenReply | beaglev/drivers/wifi/wifi.go:224-233 | `TCPConnect`'s result for an echo, quiet lines and a verdict, under both tests |
| Protocol.JoinAnswer | beaglev/drivers/wifi/wifi.go:130-142 | `Connect`'s answer for a reply of an echo, dots and a verdict, under both tests |
| Protocol.JoinAnswerUp | beaglev/drivers/wifi/wifi.go:133-142 | when the firmware joins, `Connect` succeeds unless the echo says "ERROR"; the prefix test always succeeds |
| Protocol.JoinAnswerDown | beaglev/drivers/wifi/wifi.go:133-142 | when the firmware gives up, `Connect` fails with its line unless the echo decides; the prefix test always fails with it |
| Protocol.JoinExchange | beaglev/drivers/wifi/wifi.go:123-143 | `Connect` through the firmware's serial loop: an echo containing "ERROR" fails the call; otherwise, given a window that holds the whole reply, the result is the firmware's outcome; the link takes the join's outcome |
| Protocol.NoJoinMark | firmware/esp32-wifi/src/main.cpp:185-186 | the echo of an SSID without a colon never contains "OK:Connected" |
| Protocol.EchoErrorFailsJoin | beaglev/drivers/wifi/wifi.go:133-139 | any SSID containing "ERROR" fails `Connect` with its echo as the message, whatever the radio does, while the link takes the join's outcome |
| Protocol.EchoErrorJoinWitness | beaglev/drivers/wifi/wifi.go:137-138 | with SSID `MY-ERROR-NET` and a radio that joins, `Connect` fails with "connection failed: CONNECTING:MY-ERROR-NET" while the firmware is joined |
| Protocol.ColonSsidExchange | beaglev/drivers/wifi/wifi.go:124 | a `Connect` whose SSID holds a colon is the same exchange as one whose SSID stops at the colon and whose password carries the rest |
| Protocol.FailedJoinOutlastsWindow | firmware/esp32-wifi/src/main.cpp:191-208 | when the radio stays connected once it connects, a failed join has printed all 20 dots. Its verdict comes after 20 pauses of 500 ms, later than `Connect`'s 5-second window (`wifi.go:130`) |
| Protocol.JoinExchangeStrict | beaglev/drivers/wifi/wifi.go:133-142 | with the prefix test, `Connect` reports exactly the firmware's outcome, whatever the SSID |
| Protocol.OpenEchoClean | firmware/esp32-wifi/src/main.cpp:259-262 | the host and port echo is heard as printed and starts with 'T' |
| Protocol.OpenConclude | beaglev/drivers/wifi/wifi.go:224-233 | `TCPConnect`'s conclusion from an echo and a decisive line |
| Protocol.OpenConcludeStrict | beaglev/drivers/wifi/wifi.go:224-233 | the same conclusion under the prefix test |
| Protocol.OpenAnswer | beaglev/drivers/wifi/wifi.go:223-233 | a clean echo and verdict reach `TCPConnect` unchanged |
| Protocol.OpenRead | beaglev/drivers/wifi/wifi.go:223-233 | `TCPConnect` reads `connectTCP`'s lines as the server's answer unless the echo decides |
| Protocol.OpenVia | beaglev/drivers/wifi/wifi.go:217-234 | for a non-empty host without line breaks, the `TCPConnect` exchange is the client's reading of `connectTCP`'s lines with the link `connectTCP` leaves |
| Protocol.OpenExchange | beaglev/drivers/wifi/wifi.go:217-234 | `TCPConnect` through the firmware's serial loop: the echo decides if it contains a mark, otherwise the server's answer; a refusal keeps an open session |
| Protocol.EmptyHostExchange | firmware/esp32-wifi/src/main.cpp:134-137 | `TCPConnect` with an empty host leaves the link as it was and fails with the firmware's format error |
| Protocol.StrictTwoLines | beaglev/drivers/wifi/wifi.go:224-233 | under the prefix test the echo never decides and the verdict line does |
| Protocol.OpenExchangeStrict | beaglev/drivers/wifi/wifi.go:224-233 | with the prefix test, `TCPConnect` reports exactly whether the server accepted, whatever the host |
| Protocol.EchoFakesOpen | beaglev/drivers/wifi/wifi.go:224-227 | any host without line breaks containing "OK:TCP connected" makes `TCPConnect` succeed whether or not the server accepts |
| Protocol.EchoFakesOpenRefused | beaglev/drivers/wifi/wifi.go:224-227 | with a refusing server, `TCPConnect("OK:TCP connected", …)` reports a session the firmware does not have |
| Protocol.StaleCloseFailsJoin | beaglev/drivers/wifi/wifi.go:242-245 | `TCPClose` reads nothing, so without a session the firmware's "ERROR:No active TCP connection" waits on the line and fails the next `Connect`, whatever that join prints |
| Protocol.StaleRefusal | beaglev/drivers/wifi/wifi.go:133-139 | a refusing line left in front of a join's window decides the join |
| AutoConnect.Strongest | beaglev/drivers/wifi/examples/simple-connect.go:76-83 | the chosen network is known and carries its password; it is at least as strong as every known network and strictly stronger than the known ones before it; nothing is chosen iff no network is known |
| AutoConnect.StrongestUnique | beaglev/drivers/wifi/examples/simple-connect.go:76-83 | the loop's choice is exactly the network the independent definition of "strongest, earliest among equals" describes |
| AutoConnect.Plan | beaglev/drivers/wifi/examples/simple-connect.go:85-97 | `Connect` is called iff some scanned network is known, with that network's password |
| AutoConnect.FirstKnown | beaglev/drivers/wifi/examples/simple-connect.go:76-77 | the first known network scanned, with no known network before it |
| AutoConnect.SharedLoopKeepsFirst | beaglev/drivers/wifi/examples/simple-connect.go:76-83 | with one shared range variable, the first known network's password is kept for good |
| AutoConnect.SharedPlanMixes | beaglev/drivers/wifi/examples/simple-connect.go:76-89 | with one shared range variable, the example connects to the last scanned SSID with the first known network's password |
| AutoConnect.SharedVariableCounterexample | beaglev/drivers/wifi/examples/simple-connect.go:79 | a known network then a stronger unknown one: the intended loop picks the known one, and the shared variable sends its password to the unknown one |
| AutoConnect.Tick | beaglev/drivers/wifi/examples/simple-connect.go:126-139 | a tick reconnects, with the configured credentials, iff `GetStatus` succeeded and says not connected |
| AutoConnect.NeverReconnects | beaglev/drivers/wifi/examples/simple-connect.go:126-139 | as written, the service never reconnects against this firmware, whatever the link state |
| AutoConnect.ReconnectsWhenDown | beaglev/drivers/wifi/examples/simple-connect.go:132-134 | with the exact `STATUS:` reading, a tick reconnects iff the firmware's link is down |

## Left out

- Serial I/O and time. The port's open, write and read calls are not modelled, nor `bufio` buffering, every `time.Sleep` and `delay`, or the wall-clock deadline of `ReadLines`. A window is given as the reads it produced. The window lengths and pauses are kept only as named constants in `Client` and `Firmware`.
- The radio and the TCP stack are inputs (`Firmware.Radio`). Once the given answers run out, `Firmware.Head` supplies a radio that never joins and finds nothing (`Firmware.Quiet`). This is a modelling default, not firmware behaviour.
- A link that drops by itself is not modelled. So is the effect of `WiFi.disconnect()` on an open TCP session. The link flags change only through commands.
- `tcpClient.connect` takes the port as a 16-bit value. Which server is reached is the radio's answer, so the narrowing from `int` is not modelled; the echoed port is the 32-bit value, as printed.
- The unsolicited `TCPDATA:` forwarding (`main.cpp:69-79`) is not modelled, because it depends on socket timing. Such lines may interleave with a window. The first-decisive-line lemmas take any quiet lines between the echo and the verdict, but not unsolicited lines that are themselves decisive.
- The `setup` banner is not modelled, nor the `Close` nil check.
- The command-line tool `cmd/wifi-control/main.go` is not part of this model.
- The `httpRequest` and `simpleConnect` example bodies are not modelled, nor the ticker loop; only the selection and reconnect rules are.
- Characters are Unicode scalar values, not bytes. Every delimiter involved is ASCII, so splitting and searching agree with the byte-level code. A NUL byte inside a command is not modelled.
- A reply line that has not fully arrived when the window closes is lost (`Client.Receive`). The round-trip lemmas assume the window stays open until the whole reply has arrived. For `Connect` this fails on every failed join (see `Protocol.JoinExchange` below).
- Client.Receive: models every read as a complete line. `ReadLine` drops the data a failing read has already taken (`wifi.go:97-100`), so a slow reply can lose the head of a line in the middle of a window; this is not modelled.
- `Disconnect`, `TCPSend` and `TCPClose` send without reading (`wifi.go:146-148`, `236-245`), so their replies stay on the line and are read by the next call that reads. `Protocol.Exchange` gives each call a fresh line; `Protocol.StaleCloseFailsJoin` states the effect for one case (an idle `TCPCLOSE` before a `Connect`), and other carried-over replies are not modelled.
- Protocol.StatusExchange: covers SSIDs and addresses that hold no newline and do not end in white space; otherwise the client's trim alters the field.
- Protocol.ScanExchange: covers SSIDs without a colon or newline; a colon shifts the fields, as `Client.ParseNetwork` states.
- Protocol.CommandDelivered: covers calls whose arguments carry no line break, an SSID without a colon, a non-empty host, and no trailing white space in the password or data. `Protocol.ColonInSsidShifts`, `Protocol.ColonSsidExchange`, `Protocol.EmptyHostRejected` and `Protocol.EmptyHostExchange` state what happens to a colon in the SSID and to an empty host. Line breaks and trailing white space in arguments are not modelled end to end.
- Protocol.JoinExchange: covers the same transmissible calls, and addresses without a newline. It also assumes `Connect`'s window lasts until the verdict is printed, which the source's own constants do not give. `connectToWiFi` pauses 500 ms per failed poll, up to 20 times (`main.cpp:191-195`), before it prints "ERROR:Connection failed" (`main.cpp:205-208`). `Connect` reads for only 5 seconds (`wifi.go:130`). So a failed join reaches `Connect` as "connection timeout" (`wifi.go:142`), not as the failure branch stated here and in `Protocol.JoinAnswerDown`. The same holds for a successful join that needs more than about 9 polls. The late verdict stays on the line for the next call that reads, where `Protocol.StaleRefusal` decides a later `Connect` by it. `Protocol.FailedJoinOutlastsWindow` states the 10-second wait. Which of these lines fall inside the window is a matter of timing and is not modelled.
- Protocol.OpenExchange: covers hosts without line breaks.
- Client.ScanResult: its own contract only bounds the count. The contents are stated by `Client.ParseNetwork`, `Client.MalformedNetworkSkipped` and `Protocol.ScanLinesRead`.

## Findings

| source | as written | input that shows it | evidently intended | confidence | as-written member | corrected member |
|---|---|---|---|---|---|---|
| beaglev/drivers/wifi/wifi.go:161 | `Connected` is set when the `STATUS:` line contains "CONNECTED" | the firmware's own `STATUS:DISCONNECTED` (main.cpp:226) | connected only for `STATUS:CONNECTED` | high; not executed | Protocol.StatusExchange | Protocol.StatusExchangeExact |
| beaglev/drivers/wifi/examples/simple-connect.go:132 | the reconnect tests `status.Connected`, which the fold above sets for a link that is down | any tick while the link is down | reconnect when the firmware reports the link down | high; not executed | AutoConnect.NeverReconnects | AutoConnect.ReconnectsWhenDown |
| beaglev/drivers/wifi/wifi.go:137 | every window line is tested with `strings.Contains(line, "ERROR")`, including the `CONNECTING:<ssid>` echo | SSID `MY-ERROR-NET` with a radio that joins: `Connect` fails with "connection failed: CONNECTING:MY-ERROR-NET" while the firmware is joined | only the firmware's verdict line decides | medium; not executed | Protocol.EchoErrorJoinWitness | Protocol.JoinExchangeStrict |
| beaglev/drivers/wifi/wifi.go:225 | likewise for the `TCP:Connecting to <host>:<port>` echo | host `OK:TCP connected` with a refusing server: the call succeeds | only the firmware's verdict line decides | medium; not executed | Protocol.EchoFakesOpenRefused | Protocol.OpenExchangeStrict |
| beaglev/drivers/wifi/examples/simple-connect.go:79 | `bestNetwork = &network` points at the range variable, which before Go 1.22 is one variable for the whole loop | scan `HomeWiFi` at -40 dBm, then unknown `Cafe` at -30: it connects to `Cafe` with `HomeWiFi`'s password | the strongest known network with its own password | depends on the Go version the example is built with; not executed | AutoConnect.SharedVariableCounterexample | AutoConnect.Plan |

The client model keeps the as-written readings: `Client.Conclude` uses the substring tests. The corrected readings (`Client.StatusOfExact`, `Client.ConnectResultStrict`, `Client.TcpConnectResultStrict`) are used by the strict lemmas and by `AutoConnect.ReconnectsWhenDown`.
