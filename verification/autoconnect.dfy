/** The example client's policies: `autoConnect` picks the strongest scanned
    network it has a password for, and the monitoring service reconnects
    when `GetStatus` reports the link down. */
module AutoConnect {
  import opened Outcomes
  import F = Firmware
  import C = Client
  import P = Protocol

  // ---------------------------------------------------------------------
  // Strongest known network (autoConnect)

  /** The loop's two variables: which scanned network `bestNetwork` points
      to, by index, and `bestPassword`. */
  datatype Best = Best(index: Option<nat>, password: string)

  /** The scan loop over `nets`, with a fresh variable per iteration (Go
      1.22 and later): a known network replaces the current best only when
      its signal is strictly stronger. */
  function Strongest(nets: seq<C.Network>, known: map<string, string>): (b: Best)
    ensures b.index.Some? ==>
              && b.index.value < |nets|
              && nets[b.index.value].ssid in known
              && b.password == known[nets[b.index.value].ssid]
    ensures b.index.None? <==> forall j :: 0 <= j < |nets| ==> nets[j].ssid !in known
    ensures b.index.Some? ==>
              forall j :: 0 <= j < |nets| && nets[j].ssid in known ==> nets[j].rssi <= nets[b.index.value].rssi
    ensures b.index.Some? ==>
              forall j :: 0 <= j < b.index.value && nets[j].ssid in known ==> nets[j].rssi < nets[b.index.value].rssi
    decreases |nets|
  {
    if |nets| == 0 then Best(None, "")
    else
      var n := |nets| - 1;
      var before := Strongest(nets[..n], known);
      var net := nets[n];
      assert forall j :: 0 <= j < n ==> nets[..n][j] == nets[j];
      if net.ssid in known && (before.index.None? || net.rssi > nets[before.index.value].rssi) then
        Best(Some(n), known[net.ssid])
      else
        before
  }

  /** The strongest known network, independently of the loop: known, at
      least as strong as every known network, and strictly stronger than
      the known networks scanned before it. */
  predicate IsStrongest(nets: seq<C.Network>, known: map<string, string>, i: nat) {
    && i < |nets|
    && nets[i].ssid in known
    && (forall j :: 0 <= j < |nets| && nets[j].ssid in known ==> nets[j].rssi <= nets[i].rssi)
    && (forall j :: 0 <= j < i && nets[j].ssid in known ==> nets[j].rssi < nets[i].rssi)
  }

  /** The loop picks exactly the network `IsStrongest` describes. */
  lemma StrongestUnique(nets: seq<C.Network>, known: map<string, string>, i: nat)
    ensures Strongest(nets, known).index == Some(i) <==> IsStrongest(nets, known, i)
  {
    var b := Strongest(nets, known);
    if IsStrongest(nets, known, i) {
      assert b.index.Some?;
    }
  }

  /** What `autoConnect` does after the loop: connect to the chosen network
      with its password, or nothing when no scanned network is known. */
  function Plan(nets: seq<C.Network>, known: map<string, string>): (call: Option<C.Call>)
    ensures call.None? <==> forall j :: 0 <= j < |nets| ==> nets[j].ssid !in known
    ensures call.Some? ==> call.value.Connect? && call.value.ssid in known && call.value.password == known[call.value.ssid]
  {
    var b := Strongest(nets, known);
    match b.index
    case None => None
    case Some(i) => Some(C.Connect(nets[i].ssid, b.password))
  }

  // ---------------------------------------------------------------------
  // The same loop before Go 1.22

  /** Before Go 1.22 the range variable is one variable for the whole loop,
      so `&network` always points at it: in every iteration `bestNetwork`
      reads back the network being looked at, and after the loop it holds
      the last scanned one. `pointed` says whether `bestNetwork` is set. */
  datatype Shared = Shared(pointed: bool, password: string)

  function SharedStep(st: Shared, net: C.Network, known: map<string, string>): Shared {
    // `bestNetwork.RSSI` reads the range variable, which now holds `net`.
    var bestRssi := net.rssi;
    if net.ssid in known && (!st.pointed || net.rssi > bestRssi) then Shared(true, known[net.ssid])
    else st
  }

  function SharedLoop(st: Shared, nets: seq<C.Network>, known: map<string, string>): Shared
    decreases |nets|
  {
    if |nets| == 0 then st else SharedLoop(SharedStep(st, nets[0], known), nets[1..], known)
  }

  function SharedPlan(nets: seq<C.Network>, known: map<string, string>): Option<C.Call> {
    var st := SharedLoop(Shared(false, ""), nets, known);
    if st.pointed then Some(C.Connect(nets[|nets| - 1].ssid, st.password)) else None
  }

  /** The index of the first scanned network that is known, if any. */
  function FirstKnown(nets: seq<C.Network>, known: map<string, string>): (r: Option<nat>)
    ensures r.Some? ==> r.value < |nets| && nets[r.value].ssid in known
    ensures r.Some? ==> forall j :: 0 <= j < r.value ==> nets[j].ssid !in known
    ensures r.None? <==> forall j :: 0 <= j < |nets| ==> nets[j].ssid !in known
    decreases |nets|
  {
    if |nets| == 0 then None
    else if nets[0].ssid in known then Some(0)
    else
      match FirstKnown(nets[1..], known)
      case None => None
      case Some(i) => Some(i + 1)
  }

  /** With the shared variable the strict comparison never succeeds once a
      network is chosen: the first known network's password stays. */
  lemma {:induction false} SharedLoopKeepsFirst(st: Shared, nets: seq<C.Network>, known: map<string, string>)
    ensures var r := SharedLoop(st, nets, known);
            if st.pointed then r == st
            else match FirstKnown(nets, known)
              case None => r == st
              case Some(i) => r == Shared(true, known[nets[i].ssid])
    decreases |nets|
  {
    if |nets| > 0 {
      SharedLoopKeepsFirst(SharedStep(st, nets[0], known), nets[1..], known);
      if !st.pointed && nets[0].ssid !in known {
        match FirstKnown(nets[1..], known) {
          case None =>
          case Some(i) => assert nets[1..][i] == nets[i + 1];
        }
      }
    }
  }

  /** As written, before Go 1.22: when any scanned network is known, the
      example connects to the LAST scanned network with the password of the
      FIRST known one. */
  lemma SharedPlanMixes(nets: seq<C.Network>, known: map<string, string>)
    ensures SharedPlan(nets, known) ==
              match FirstKnown(nets, known)
              case None => None
              case Some(i) => Some(C.Connect(nets[|nets| - 1].ssid, known[nets[i].ssid]))
  {
    SharedLoopKeepsFirst(Shared(false, ""), nets, known);
  }

  /** A scan that shows the two loops apart: a known network, then a
      stronger unknown one. With the shared variable the example sends the
      known network's password to the unknown network. */
  lemma SharedVariableCounterexample()
    ensures var nets := [C.Network("HomeWiFi", -40, true), C.Network("Cafe", -30, false)];
            var known := map["HomeWiFi" := "password1"];
            && Plan(nets, known) == Some(C.Connect("HomeWiFi", "password1"))
            && SharedPlan(nets, known) == Some(C.Connect("Cafe", "password1"))
  {
    var nets := [C.Network("HomeWiFi", -40, true), C.Network("Cafe", -30, false)];
    var known := map["HomeWiFi" := "password1"];
    assert nets[0].ssid in known && nets[1].ssid !in known;
    StrongestUnique(nets, known, 0);
    SharedPlanMixes(nets, known);
  }

  // ---------------------------------------------------------------------
  // The monitoring service (runAsService)

  /** One tick of the service: a failed `GetStatus` is logged and skipped;
      a status that says not connected triggers a reconnect. */
  predicate ShouldReconnect(status: Result<C.Answer>) {
    status.Ok? && status.value.StatusIs? && !status.value.status.connected
  }

  /** The call a tick makes, if any. */
  function Tick(status: Result<C.Answer>, ssid: string, password: string): (call: Option<C.Call>)
    ensures call.Some? <==> status.Ok? && status.value.StatusIs? && !status.value.status.connected
    ensures call.Some? ==> call.value == C.Connect(ssid, password)
  {
    if ShouldReconnect(status) then Some(C.Connect(ssid, password)) else None
  }

  /** As written, the service never reconnects against this firmware: the
      status of a link that is down reads as connected. */
  lemma NeverReconnects(link: F.Link, radio: F.Radio, ssid: string, password: string)
    requires P.Readable(radio.ssid) && P.Readable(radio.ip)
    ensures Tick(P.Exchange(C.GetStatus, link, radio).1, ssid, password) == None
  {
    P.StatusExchange(link, radio);
  }

  /** With the exact reading of the `STATUS:` line, a tick reconnects
      exactly when the firmware's link is down. */
  lemma ReconnectsWhenDown(link: F.Link, radio: F.Radio, ssid: string, password: string)
    requires P.Readable(radio.ssid) && P.Readable(radio.ip)
    ensures var r := F.Execute(link, F.Status, radio);
            var st := C.StatusOfExact(C.ReadLines(C.Receive(P.Wire(r.lines))));
            Tick(Ok(C.StatusIs(st)), ssid, password).Some? <==> !link.wifiUp
  {
    P.StatusExchangeExact(link, radio);
  }
}
