/**
 * The Doormon firmware (src/main.c): the Wi-Fi station state machine driven
 * by wifi_event_handler, the decision wifi_init_sta takes on the two
 * event-group bits, the trigger latch shared by the interrupt handler and the
 * HTTP handlers, the fixed JSON response bodies and the boot order of app_main.
 *
 * The driver calls (esp_wifi_connect, xEventGroupSetBits, gpio and httpd
 * set-up, nvs_flash_*) are not modelled; their effects appear as results
 * ("a connect is issued"), as the fields of Doormon, or as inputs.
 */
module Firmware {
  import opened Wrappers

  /** WIFI_MAX_RETRY */
  const WifiMaxRetry: int := 5

  /** Size of the buffer status_get_handler formats its body into, NUL included. */
  const StatusBufferSize: int := 32

  // ---------------------------------------------------------------------
  // Wi-Fi station state machine
  // ---------------------------------------------------------------------

  /** The events that reach wifi_event_handler. It is registered for every
      WIFI_EVENT and for IP_EVENT_STA_GOT_IP; a WIFI_EVENT other than
      STA_START and STA_DISCONNECTED arrives as OtherWifiEvent. */
  datatype WifiEvent = StaStart | StaDisconnected | StaGotIp | OtherWifiEvent

  /** s_retry_num and the CONNECTED and FAIL bits of s_wifi_event_group. */
  datatype WifiState = WifiState(retryNum: int, connectedBit: bool, failBit: bool)

  /** What wifi_init_sta starts from: a fresh event group and a zero counter. */
  const WifiStart := WifiState(0, false, false)

  predicate RetryInRange(s: WifiState) {
    0 <= s.retryNum <= WifiMaxRetry
  }

  /** One call of wifi_event_handler: the new state, and whether the
      handler calls esp_wifi_connect. */
  function WifiStep(s: WifiState, e: WifiEvent): (WifiState, bool)
  {
    match e
    case StaStart => (s, true)
    case StaDisconnected =>
      if s.retryNum < WifiMaxRetry then (s.(retryNum := s.retryNum + 1), true)
      else (s.(failBit := true), false)
    case StaGotIp => (s.(retryNum := 0, connectedBit := true), false)
    case OtherWifiEvent => (s, false)
  }

  /** The state after the handler has run on each event in turn. */
  function WifiRun(s: WifiState, events: seq<WifiEvent>): WifiState
    decreases |events|
  {
    if events == [] then s else WifiRun(WifiStep(s, events[0]).0, events[1..])
  }

  /** How often the handler calls esp_wifi_connect while it runs on the events. */
  function ConnectCalls(s: WifiState, events: seq<WifiEvent>): nat
    decreases |events|
  {
    if events == [] then 0
    else (if WifiStep(s, events[0]).1 then 1 else 0) + ConnectCalls(WifiStep(s, events[0]).0, events[1..])
  }

  function Repeat(e: WifiEvent, n: nat): seq<WifiEvent>
  {
    if n == 0 then [] else [e] + Repeat(e, n - 1)
  }

  function Disconnects(events: seq<WifiEvent>): nat
  {
    if events == [] then 0
    else (if events[0] == StaDisconnected then 1 else 0) + Disconnects(events[1..])
  }

  /** Starting in range, the retry counter stays within 0..WIFI_MAX_RETRY
      whatever events arrive. */
  lemma {:induction false} RetryStaysInRange(s: WifiState, events: seq<WifiEvent>)
    requires RetryInRange(s)
    ensures RetryInRange(WifiRun(s, events))
    decreases |events|
  {
    if events != [] {
      RetryStaysInRange(WifiStep(s, events[0]).0, events[1..]);
    }
  }

  /** The handler only sets bits: FAIL, once set, stays set, and CONNECTED is
      set after the events exactly when it was set before or an address was
      acquired among them. */
  lemma {:induction false} BitsAreSticky(s: WifiState, events: seq<WifiEvent>)
    ensures s.failBit ==> WifiRun(s, events).failBit
    ensures WifiRun(s, events).connectedBit <==> s.connectedBit || StaGotIp in events
    decreases |events|
  {
    if events != [] {
      BitsAreSticky(WifiStep(s, events[0]).0, events[1..]);
      assert events == [events[0]] + events[1..];
    }
  }

  /** Between two address acquisitions (and with no station start), the
      counter counts exactly the reconnects issued, so disconnects cause at
      most WIFI_MAX_RETRY reconnects. */
  lemma {:induction false} RetryCountsReconnects(s: WifiState, events: seq<WifiEvent>)
    requires RetryInRange(s)
    requires forall k :: 0 <= k < |events| ==> events[k] != StaGotIp && events[k] != StaStart
    ensures ConnectCalls(s, events) == WifiRun(s, events).retryNum - s.retryNum
    ensures ConnectCalls(s, events) <= WifiMaxRetry - s.retryNum
    decreases |events|
  {
    if events != [] {
      var tail := events[1..];
      assert forall k :: 0 <= k < |tail| ==> tail[k] == events[k + 1];
      RetryCountsReconnects(WifiStep(s, events[0]).0, tail);
    }
  }

  /** n disconnects in a row: the counter climbs to WIFI_MAX_RETRY and stops
      there, CONNECTED is untouched, and FAIL is set once a disconnect finds
      the counter already at the maximum. */
  lemma {:induction false} DisconnectsExhaustRetries(s: WifiState, n: nat)
    requires RetryInRange(s)
    ensures WifiRun(s, Repeat(StaDisconnected, n)) ==
      WifiState(if s.retryNum + n <= WifiMaxRetry then s.retryNum + n else WifiMaxRetry,
                s.connectedBit,
                s.failBit || s.retryNum + n > WifiMaxRetry)
    decreases n
  {
    if n > 0 {
      var r := Repeat(StaDisconnected, n);
      assert r[0] == StaDisconnected && r[1..] == Repeat(StaDisconnected, n - 1);
      DisconnectsExhaustRetries(WifiStep(s, StaDisconnected).0, n - 1);
    }
  }

  // ---------------------------------------------------------------------
  // wifi_init_sta: waiting for either bit
  // ---------------------------------------------------------------------

  /** What the wait in wifi_init_sta yields: still blocked, or returned with
      wifi_init_sta's result. */
  datatype WaitResult = Blocked | Returned(connected: bool)

  /** wifi_init_sta's decision on the bits: the wait returns as soon as
      either bit is set, and the result is false whenever FAIL is set. */
  function WaitBits(s: WifiState): (r: WaitResult)
    ensures r.Blocked? <==> !s.connectedBit && !s.failBit
    ensures r == Returned(false) <==> s.failBit
    ensures r == Returned(true) <==> s.connectedBit && !s.failBit
  {
    if !s.connectedBit && !s.failBit then Blocked
    else if s.failBit then Returned(false)
    else Returned(true)
  }

  /** The wait of wifi_init_sta while the event task runs the handler on the
      events in turn: it ends at the first state with a bit set. If the events
      run out first the result is Blocked (the real wait has no timeout). */
  function WaitFor(s: WifiState, events: seq<WifiEvent>): (WifiState, WaitResult)
    decreases |events|
  {
    if WaitBits(s).Returned? || events == [] then (s, WaitBits(s))
    else WaitFor(WifiStep(s, events[0]).0, events[1..])
  }

  /** How many events of the trace the wait delivers before it returns (or
      all of them when it stays blocked). */
  function Consumed(s: WifiState, events: seq<WifiEvent>): (n: nat)
    ensures n <= |events|
    ensures WaitFor(s, events[..n]) == WaitFor(s, events)
    ensures n < |events| ==> WaitBits(WaitFor(s, events).0).Returned?
    decreases |events|
  {
    if WaitBits(s).Returned? || events == [] then 0
    else
      var rest := Consumed(WifiStep(s, events[0]).0, events[1..]);
      assert events[..1 + rest] == [events[0]] + events[1..][..rest];
      1 + rest
  }

  /** wifi_init_sta reports success only if an address arrived among the
      events delivered before the wait returned. */
  lemma {:induction false} SuccessNeedsAddress(s: WifiState, events: seq<WifiEvent>)
    requires !s.connectedBit
    ensures WaitFor(s, events).1 == Returned(true) ==> StaGotIp in events[..Consumed(s, events)]
    decreases |events|
  {
    if !s.failBit && events != [] {
      var next := WifiStep(s, events[0]).0;
      var n := Consumed(s, events);
      assert events[..n] == [events[0]] + events[1..][..n - 1];
      if events[0] != StaGotIp {
        SuccessNeedsAddress(next, events[1..]);
      }
    }
  }

  /** wifi_init_sta reports failure only after more disconnects than the
      retries left, counted among the events delivered before the wait
      returned: WIFI_MAX_RETRY + 1 of them from the start. */
  lemma {:induction false} FailureNeedsDisconnects(s: WifiState, events: seq<WifiEvent>)
    requires RetryInRange(s) && !s.connectedBit && !s.failBit
    ensures WaitFor(s, events).1 == Returned(false)
         ==> Disconnects(events[..Consumed(s, events)]) > WifiMaxRetry - s.retryNum
    decreases |events|
  {
    if events != [] {
      var next := WifiStep(s, events[0]).0;
      var n := Consumed(s, events);
      assert events[..n] == [events[0]] + events[1..][..n - 1];
      match events[0]
      case StaGotIp =>
        assert WaitFor(s, events) == WaitFor(next, events[1..]);
        assert WaitBits(next) == Returned(true);
      case StaDisconnected =>
        if s.retryNum < WifiMaxRetry {
          FailureNeedsDisconnects(next, events[1..]);
        }
      case _ =>
        FailureNeedsDisconnects(next, events[1..]);
    }
  }

  /** From a state with no bit set, exactly the retries left plus one
      disconnects make the wait return false, with FAIL set and the counter
      at WIFI_MAX_RETRY. */
  lemma {:induction false} WaitGivesUp(s: WifiState, n: nat)
    requires RetryInRange(s) && !s.connectedBit && !s.failBit
    requires s.retryNum + n == WifiMaxRetry + 1
    ensures WaitFor(s, Repeat(StaDisconnected, n)) == (WifiState(WifiMaxRetry, false, true), Returned(false))
    decreases n
  {
    var r := Repeat(StaDisconnected, n);
    assert r[0] == StaDisconnected && r[1..] == Repeat(StaDisconnected, n - 1);
    if s.retryNum < WifiMaxRetry {
      WaitGivesUp(WifiStep(s, StaDisconnected).0, n - 1);
    }
  }

  /** The two ways out of wifi_init_sta: after a station start, six
      disconnects end the wait with false; an address ends it with true. */
  lemma InitStaOutcomes()
    ensures WaitFor(WifiStart, [StaStart] + Repeat(StaDisconnected, WifiMaxRetry + 1))
         == (WifiState(WifiMaxRetry, false, true), Returned(false))
    ensures WaitFor(WifiStart, [StaStart, StaGotIp]) == (WifiState(0, true, false), Returned(true))
  {
    var events := [StaStart] + Repeat(StaDisconnected, WifiMaxRetry + 1);
    assert events[1..] == Repeat(StaDisconnected, WifiMaxRetry + 1);
    WaitGivesUp(WifiStart, WifiMaxRetry + 1);
  }

  // ---------------------------------------------------------------------
  // Trigger latch
  // ---------------------------------------------------------------------

  /** The three things that touch s_triggered once the device runs: the
      falling-edge interrupt, a /status read and a /reset (GET or POST). */
  datatype LatchOp = EdgeInterrupt | StatusRead | ResetCall

  function LatchStep(t: bool, op: LatchOp): bool
  {
    match op
    case EdgeInterrupt => true
    case StatusRead => t
    case ResetCall => false
  }

  /** The latch after the operations, applied in order. */
  function LatchAfter(t: bool, ops: seq<LatchOp>): bool
    decreases |ops|
  {
    if ops == [] then t else LatchStep(LatchAfter(t, ops[..|ops| - 1]), ops[|ops| - 1])
  }

  /** The latch is set exactly when an interrupt came after the last reset,
      or it was set to begin with and no reset came at all. */
  lemma {:induction false} LatchIsLastWrite(t: bool, ops: seq<LatchOp>)
    ensures LatchAfter(t, ops) <==>
      (exists k :: 0 <= k < |ops| && ops[k] == EdgeInterrupt && forall j :: k < j < |ops| ==> ops[j] != ResetCall)
      || (t && forall j :: 0 <= j < |ops| ==> ops[j] != ResetCall)
    decreases |ops|
  {
    if ops != [] {
      var n := |ops| - 1;
      var init := ops[..n];
      LatchIsLastWrite(t, init);
      assert forall j :: 0 <= j < n ==> init[j] == ops[j];
      match ops[n]
      case EdgeInterrupt =>
      case ResetCall =>
      case StatusRead =>
        if LatchAfter(t, ops) && !(t && forall j :: 0 <= j < |ops| ==> ops[j] != ResetCall) {
          var k :| 0 <= k < n && init[k] == EdgeInterrupt && forall j :: k < j < n ==> init[j] != ResetCall;
          assert forall j :: k < j < |ops| ==> ops[j] != ResetCall;
        }
    }
  }

  /** An interrupt twice is an interrupt once; a reset twice is a reset once;
      a /status read leaves the latch as it was. */
  lemma LatchIdempotent(t: bool, ops: seq<LatchOp>)
    ensures LatchAfter(t, ops + [EdgeInterrupt, EdgeInterrupt]) == LatchAfter(t, ops + [EdgeInterrupt])
    ensures LatchAfter(t, ops + [ResetCall, ResetCall]) == LatchAfter(t, ops + [ResetCall])
    ensures LatchAfter(t, ops + [StatusRead]) == LatchAfter(t, ops)
  {
    assert (ops + [EdgeInterrupt, EdgeInterrupt])[..|ops| + 1] == ops + [EdgeInterrupt];
    assert (ops + [ResetCall, ResetCall])[..|ops| + 1] == ops + [ResetCall];
    assert (ops + [StatusRead])[..|ops|] == ops;
    assert (ops + [EdgeInterrupt])[..|ops|] == ops;
    assert (ops + [ResetCall])[..|ops|] == ops;
  }

  // ---------------------------------------------------------------------
  // Response bodies
  // ---------------------------------------------------------------------

  const StatusPrefix: string := "{\"triggered\":"

  /** The body /reset always answers with. */
  const ResetBody: string := "{\"reset\":true}"

  function BoolText(b: bool): string
  {
    if b then "true" else "false"
  }

  /** The body status_get_handler formats for latch value t; it always fits
      the 32-byte buffer with its terminating NUL, so snprintf never cuts it. */
  function StatusBody(t: bool): (body: string)
    ensures |StatusPrefix| < |body| && |body| + 1 <= StatusBufferSize
    ensures body[..|StatusPrefix|] == StatusPrefix && body[|body| - 1] == '}'
  {
    StatusPrefix + BoolText(t) + "}"
  }

  /** Reads the latch value back from a /status body; only the two bodies
      the firmware sends are read as a value. */
  function ReadStatusBody(body: string): (r: Option<bool>)
    ensures r.Some? ==> body == StatusBody(r.value)
  {
    var n := |StatusPrefix|;
    if |body| > n && body[..n] == StatusPrefix && body[|body| - 1] == '}' then
      var v := body[n..|body| - 1];
      assert body == StatusPrefix + v + "}";
      if v == "true" then Some(true) else if v == "false" then Some(false) else None
    else None
  }

  /** The /status body carries exactly the latch value read: reading it back
      gives that value, so the two bodies differ. */
  lemma StatusBodyRoundTrip(t: bool)
    ensures ReadStatusBody(StatusBody(t)) == Some(t)
    ensures StatusBody(t) != StatusBody(!t)
  {
    var body := StatusBody(t);
    assert body[|StatusPrefix|..|body| - 1] == BoolText(t);
    var other := StatusBody(!t);
    assert other[|StatusPrefix|..|other| - 1] == BoolText(!t);
  }

  // ---------------------------------------------------------------------
  // The device: the statics of main.c and the handlers that change them
  // ---------------------------------------------------------------------

  /** Results of the ESP-IDF calls app_main checks; ErrOther stands for
      every non-zero code other than the two named ones. */
  datatype EspErr = EspOk | ErrNvsNoFreePages | ErrNvsNewVersionFound | ErrOther

  /** How app_main ends: an ESP_ERROR_CHECK aborted, the wait for Wi-Fi is
      still blocked, wifi_init_sta returned false, or the trigger input and
      the HTTP server were started. */
  datatype BootOutcome = Aborted | WifiBlocked | WifiFailed | Started

  datatype HttpMethod = HttpGet | HttpPost | HttpOther

  datatype Request = Request(verb: HttpMethod, uri: string)

  /** The two nvs_flash_init codes after which app_main erases the flash. */
  predicate NeedsErase(e: EspErr)
  {
    e == ErrNvsNoFreePages || e == ErrNvsNewVersionFound
  }

  /** Whether the flash step of app_main passes its ESP_ERROR_CHECKs. */
  predicate NvsReady(first: EspErr, eraseResult: EspErr, second: EspErr)
  {
    if NeedsErase(first) then eraseResult == EspOk && second == EspOk else first == EspOk
  }

  class Doormon {
    /** s_retry_num */
    var retryNum: int
    /** WIFI_CONNECTED_BIT and WIFI_FAIL_BIT of s_wifi_event_group */
    var connectedBit: bool
    var failBit: bool
    /** s_triggered */
    var triggered: bool

    /** How often the flash was erased, whether the trigger interrupt is
        armed, whether the HTTP server runs. */
    ghost var nvsErases: nat
    ghost var gpioArmed: bool
    ghost var serverStarted: bool

    function Wifi(): WifiState
      reads this
    {
      WifiState(retryNum, connectedBit, failBit)
    }

    /** The statics as C zero-initialises them. */
    constructor ()
      ensures Wifi() == WifiStart && !triggered
      ensures nvsErases == 0 && !gpioArmed && !serverStarted
    {
      retryNum, connectedBit, failBit := 0, false, false;
      triggered := false;
      nvsErases, gpioArmed, serverStarted := 0, false, false;
    }

    /** wifi_event_handler. */
    method HandleWifiEvent(e: WifiEvent) returns (connect: bool)
      modifies this`retryNum, this`connectedBit, this`failBit
      ensures (Wifi(), connect) == WifiStep(old(Wifi()), e)
      ensures e == StaStart ==> connect && Wifi() == old(Wifi())
      ensures e == StaDisconnected && old(retryNum) < WifiMaxRetry ==>
        connect && retryNum == old(retryNum) + 1
        && connectedBit == old(connectedBit) && failBit == old(failBit)
      ensures e == StaDisconnected && old(retryNum) >= WifiMaxRetry ==>
        !connect && failBit && retryNum == old(retryNum) && connectedBit == old(connectedBit)
      ensures e == StaGotIp ==> !connect && retryNum == 0 && connectedBit && failBit == old(failBit)
      ensures e == OtherWifiEvent ==> !connect && Wifi() == old(Wifi())
      ensures old(connectedBit) ==> connectedBit
      ensures old(failBit) ==> failBit
      ensures RetryInRange(old(Wifi())) ==> RetryInRange(Wifi())
    {
      connect := false;
      match e
      case StaStart =>
        connect := true;
      case StaDisconnected =>
        if retryNum < WifiMaxRetry {
          connect := true;
          retryNum := retryNum + 1;
        } else {
          failBit := true;
        }
      case StaGotIp =>
        retryNum := 0;
        connectedBit := true;
      case OtherWifiEvent =>
    }

    /** wifi_init_sta: a fresh event group, the counter at zero, then the
        wait for either bit while the handler runs on the events. */
    method WifiInitSta(events: seq<WifiEvent>) returns (result: WaitResult)
      modifies this`retryNum, this`connectedBit, this`failBit
      ensures (Wifi(), result) == WaitFor(WifiStart, events)
      ensures RetryInRange(Wifi())
    {
      retryNum, connectedBit, failBit := 0, false, false;
      var i := 0;
      while WaitBits(Wifi()).Blocked? && i < |events|
        invariant 0 <= i <= |events|
        invariant WaitFor(Wifi(), events[i..]) == WaitFor(WifiStart, events)
        invariant RetryInRange(Wifi())
      {
        var _ := HandleWifiEvent(events[i]);
        assert events[i..][1..] == events[i + 1..];
        i := i + 1;
      }
      result := WaitBits(Wifi());
    }

    /** trigger_isr_handler: runs only once app_main has installed it. */
    method TriggerIsr()
      requires gpioArmed
      modifies this`triggered
      ensures triggered
      ensures triggered == LatchStep(old(triggered), EdgeInterrupt)
    {
      triggered := true;
    }

    /** status_get_handler: reads the latch, changes nothing. */
    method StatusGet() returns (body: string)
      requires serverStarted
      ensures body == StatusBody(triggered)
      ensures ReadStatusBody(body) == Some(triggered)
    {
      var t := triggered;
      body := StatusPrefix + BoolText(t) + "}";
      StatusBodyRoundTrip(t);
    }

    /** reset_post_handler. */
    method ResetPost() returns (body: string)
      requires serverStarted
      modifies this`triggered
      ensures !triggered && body == ResetBody
      ensures triggered == LatchStep(old(triggered), ResetCall)
    {
      triggered := false;
      body := "{\"reset\":true}";
    }

    /** reset_get_handler: the POST handler under another method. */
    method ResetGet() returns (body: string)
      requires serverStarted
      modifies this`triggered
      ensures !triggered && body == ResetBody
    {
      body := ResetPost();
    }

    /** A request to the server start_httpd sets up: GET /status, and GET
        or POST /reset; any other request finds no handler. Requests are
        served only once httpd_start has succeeded. */
    method Serve(req: Request) returns (response: Option<string>)
      requires serverStarted
      modifies this`triggered
      ensures req == Request(HttpGet, "/status") ==>
        response == Some(StatusBody(old(triggered))) && triggered == old(triggered)
      ensures req.uri == "/reset" && req.verb != HttpOther ==>
        response == Some(ResetBody) && !triggered
      ensures req != Request(HttpGet, "/status") && (req.uri != "/reset" || req.verb == HttpOther) ==>
        response == None && triggered == old(triggered)
    {
      if req == Request(HttpGet, "/status") {
        var body := StatusGet();
        response := Some(body);
      } else if req == Request(HttpGet, "/reset") {
        var body := ResetGet();
        response := Some(body);
      } else if req == Request(HttpPost, "/reset") {
        var body := ResetPost();
        response := Some(body);
      } else {
        response := None;
      }
    }

    /** app_main. The inputs are what nvs_flash_init returns the first and
        the second time, what nvs_flash_erase returns, the Wi-Fi events that
        arrive during wifi_init_sta, and whether httpd_start succeeds. */
    method AppMain(firstInit: EspErr, eraseResult: EspErr, secondInit: EspErr,
                   events: seq<WifiEvent>, httpdOk: bool) returns (outcome: BootOutcome)
      modifies this
      ensures !triggered
      ensures nvsErases == old(nvsErases) + (if NeedsErase(firstInit) then 1 else 0)
      ensures outcome == Aborted <==> !NvsReady(firstInit, eraseResult, secondInit)
      ensures outcome == Aborted ==> Wifi() == old(Wifi())
      ensures outcome != Aborted ==>
        (Wifi(), WaitFor(WifiStart, events).1) == WaitFor(WifiStart, events)
        && (outcome == WifiBlocked <==> WaitFor(WifiStart, events).1 == Blocked)
        && (outcome == WifiFailed <==> WaitFor(WifiStart, events).1 == Returned(false))
        && (outcome == Started <==> WaitFor(WifiStart, events).1 == Returned(true))
      ensures gpioArmed == (old(gpioArmed) || outcome == Started)
      ensures serverStarted == (old(serverStarted) || (outcome == Started && httpdOk))
    {
      triggered := false;
      var ret := firstInit;
      if ret == ErrNvsNoFreePages || ret == ErrNvsNewVersionFound {
        nvsErases := nvsErases + 1;
        if eraseResult != EspOk {
          outcome := Aborted;
          return;
        }
        ret := secondInit;
      }
      if ret != EspOk {
        outcome := Aborted;
        return;
      }
      var connected := WifiInitSta(events);
      if connected.Blocked? {
        outcome := WifiBlocked;
        return;
      }
      if !connected.connected {
        outcome := WifiFailed;
        return;
      }
      gpioArmed := true;
      serverStarted := serverStarted || httpdOk;
      outcome := Started;
    }
  }
}
