/**
 * The Doormon host monitor (scripts/doormon_monitor.py): the recogniser for
 * the reset command typed on standard input, the reading of a /status reply,
 * the discovery listener that keeps the first matching service, and the poll
 * loop that reports "Triggered!" on a False-to-True change.
 *
 * The network (mDNS browsing, HTTP requests, JSON decoding), the threads and
 * the clock are not modelled: their outcomes are inputs.
 */
module Monitor {
  import opened Wrappers

  /** The Python values the script tests with `is`: None, the two booleans,
      and anything else a JSON document can hold. */
  datatype PyValue = PyNone | PyBool(b: bool) | PyOther

  // ---------------------------------------------------------------------
  // The reset command (input_thread)
  // ---------------------------------------------------------------------

  /** The characters str.strip() removes: those for which str.isspace() holds. */
  predicate IsSpace(c: char)
  {
    ('\t' <= c <= '\r') || ('\U{1C}' <= c <= ' ') || c == '\U{85}' || c == '\U{A0}'
    || c == '\U{1680}' || ('\U{2000}' <= c <= '\U{200A}') || c == '\U{2028}' || c == '\U{2029}'
    || c == '\U{202F}' || c == '\U{205F}' || c == '\U{3000}'
  }

  /** The length of the run of whitespace that starts s. */
  function LeadingSpaces(s: string): (n: nat)
    ensures n <= |s|
    ensures forall k :: 0 <= k < n ==> IsSpace(s[k])
    ensures n < |s| ==> !IsSpace(s[n])
    decreases |s|
  {
    if |s| > 0 && IsSpace(s[0]) then 1 + LeadingSpaces(s[1..]) else 0
  }

  /** The length of the run of whitespace that ends s. */
  function TrailingSpaces(s: string): (n: nat)
    ensures n <= |s|
    ensures forall k :: |s| - n <= k < |s| ==> IsSpace(s[k])
    ensures n < |s| ==> !IsSpace(s[|s| - 1 - n])
    decreases |s|
  {
    if |s| > 0 && IsSpace(s[|s| - 1]) then 1 + TrailingSpaces(s[..|s| - 1]) else 0
  }

  /** str.strip() */
  function Strip(s: string): string
  {
    var t := s[LeadingSpaces(s)..];
    t[..|t| - TrailingSpaces(t)]
  }

  function LowerChar(c: char): char
  {
    if 'A' <= c <= 'Z' then (c as int + 32) as char else c
  }

  /** str.lower() on ASCII letters. */
  function Lower(s: string): (r: string)
    ensures |r| == |s|
    ensures forall k :: 0 <= k < |s| ==> r[k] == LowerChar(s[k])
  {
    seq(|s|, k requires 0 <= k < |s| => LowerChar(s[k]))
  }

  /** The test input_thread applies to each line it reads. */
  predicate IsResetCommand(line: string)
  {
    var word := Lower(Strip(line));
    word == "r" || word == "reset"
  }

  /** line[i..j] spells "r" or "reset" in any case, and everything around it
      is whitespace. */
  predicate PaddedCommand(line: string, i: int, j: int)
  {
    && 0 <= i <= j <= |line|
    && (forall k :: 0 <= k < i ==> IsSpace(line[k]))
    && (forall k :: j <= k < |line| ==> IsSpace(line[k]))
    && (Lower(line[i..j]) == "r" || Lower(line[i..j]) == "reset")
  }

  /** Strip cuts s at the first and after the last non-whitespace character. */
  lemma StripBounds(s: string) returns (i: nat, j: nat)
    ensures i <= j <= |s| && Strip(s) == s[i..j]
    ensures forall k :: 0 <= k < i ==> IsSpace(s[k])
    ensures forall k :: j <= k < |s| ==> IsSpace(s[k])
    ensures i < j ==> !IsSpace(s[i]) && !IsSpace(s[j - 1])
  {
    i := LeadingSpaces(s);
    var t := s[i..];
    j := i + |t| - TrailingSpaces(t);
    forall k | j <= k < |s|
      ensures IsSpace(s[k])
    {
      assert s[k] == t[k - i];
    }
    if i < j {
      assert s[j - 1] == t[|t| - 1 - TrailingSpaces(t)];
    }
  }

  /** Whitespace around a word that starts and ends with non-whitespace is
      exactly what Strip removes. */
  lemma StripPadded(s: string, a: nat, b: nat)
    requires a < b <= |s|
    requires forall k :: 0 <= k < a ==> IsSpace(s[k])
    requires forall k :: b <= k < |s| ==> IsSpace(s[k])
    requires !IsSpace(s[a]) && !IsSpace(s[b - 1])
    ensures Strip(s) == s[a..b]
  {
    var i, j := StripBounds(s);
    assert i == a;
    assert j == b;
  }

  /** The words "r" and "reset", in any case, start and end with a letter. */
  lemma CommandEndsAreLetters(w: string)
    requires Lower(w) == "r" || Lower(w) == "reset"
    ensures |w| > 0 && !IsSpace(w[0]) && !IsSpace(w[|w| - 1])
  {
    assert Lower(w)[0] == LowerChar(w[0]);
    assert Lower(w)[|w| - 1] == LowerChar(w[|w| - 1]);
  }

  /** A line requests a reset exactly when it is "r" or "reset", in any
      case, with any whitespace (the newline included) around it. */
  lemma ResetCommandIsPaddedWord(line: string)
    ensures IsResetCommand(line) <==> exists i, j :: PaddedCommand(line, i, j)
  {
    if IsResetCommand(line) {
      var i, j := StripBounds(line);
      assert PaddedCommand(line, i, j);
    }
    if exists a, b :: PaddedCommand(line, a, b) {
      var a, b :| PaddedCommand(line, a, b);
      CommandEndsAreLetters(line[a..b]);
      assert line[a..b][0] == line[a] && line[a..b][b - a - 1] == line[b - 1];
      StripPadded(line, a, b);
    }
  }

  // ---------------------------------------------------------------------
  // get_status and post_reset
  // ---------------------------------------------------------------------

  /** A decoded JSON document, as far as get_status looks at it. */
  datatype Json = JNull | JBool(b: bool) | JObject(fields: map<string, Json>) | JOther

  /** A GET /status: no decodable reply (timeout, HTTP error, bad JSON), or
      the decoded document. */
  datatype StatusReply = NoStatus | StatusDoc(doc: Json)

  /** A POST /reset: an exception, or a response with its status code. */
  datatype ResetReply = ResetRaised | ResetAnswered(code: int)

  function ToPython(v: Json): PyValue
  {
    match v
    case JNull => PyNone
    case JBool(b) => PyBool(b)
    case _ => PyOther
  }

  /** What get_status returns as "triggered": the member's value, False when
      the object lacks it, None on any failure (a document that is not an
      object has no .get, which raises). */
  function GetStatus(reply: StatusReply): (r: PyValue)
    ensures reply.NoStatus? ==> r == PyNone
    ensures reply.StatusDoc? && !reply.doc.JObject? ==> r == PyNone
    ensures reply.StatusDoc? && reply.doc.JObject? && "triggered" !in reply.doc.fields ==> r == PyBool(false)
    ensures reply.StatusDoc? && reply.doc.JObject? && "triggered" in reply.doc.fields ==>
      r == ToPython(reply.doc.fields["triggered"])
    ensures r.PyBool? ==> reply.StatusDoc? && reply.doc.JObject?
  {
    match reply
    case NoStatus => PyNone
    case StatusDoc(doc) =>
      if doc.JObject? then
        if "triggered" in doc.fields then ToPython(doc.fields["triggered"]) else PyBool(false)
      else PyNone
  }

  /** post_reset: whether the POST counts as a success. */
  function PostReset(reply: ResetReply): (ok: bool)
    ensures reply.ResetRaised? ==> !ok
    ensures reply.ResetAnswered? ==> (ok <==> reply.code == 200)
  {
    reply == ResetAnswered(200)
  }

  // ---------------------------------------------------------------------
  // The poll loop of main
  // ---------------------------------------------------------------------

  /** The lines main prints from its loop. */
  datatype Message = ResetCleared | ResetFailed | NoResponse | Triggered

  /** prev_triggered, the reset_requested event, and whether input_thread
      still reads (it stops at end of input). */
  datatype MonitorState = MonitorState(prev: PyValue, resetRequested: bool, inputOpen: bool)

  const MonitorStart := MonitorState(PyNone, false, true)

  /** What one sys.stdin.readline() gives input_thread: a line ("" only at
      end of input), or an exception. EOFError and KeyboardInterrupt are
      caught and end the loop; UnicodeDecodeError is not caught and ends
      the thread. Either way nothing more is read. */
  datatype StdinRead = Line(text: string) | ReadFailed

  /** The reads after which input_thread reads no more. */
  predicate EndsInput(r: StdinRead)
  {
    r.ReadFailed? || r.text == ""
  }

  /** A line that input_thread takes as a reset command. */
  predicate IsCommand(r: StdinRead)
  {
    r.Line? && IsResetCommand(r.text)
  }

  /** One turn of input_thread. */
  function ReadLine(s: MonitorState, r: StdinRead): MonitorState
  {
    if !s.inputOpen then s
    else if r.ReadFailed? || r.text == "" then s.(inputOpen := false)
    else if IsResetCommand(r.text) then s.(resetRequested := true)
    else s
  }

  function ReadLines(s: MonitorState, lines: seq<StdinRead>): MonitorState
    decreases |lines|
  {
    if lines == [] then s else ReadLine(ReadLines(s, lines[..|lines| - 1]), lines[|lines| - 1])
  }

  /** The reset part of one loop iteration: the request is cleared before
      the POST, and only a successful POST forces prev_triggered to False. */
  function ResetStep(s: MonitorState, reply: ResetReply): (r: (MonitorState, seq<Message>))
    ensures !r.0.resetRequested && r.0.inputOpen == s.inputOpen
    ensures |r.1| == (if s.resetRequested then 1 else 0)
    ensures r.0.prev == (if s.resetRequested && PostReset(reply) then PyBool(false) else s.prev)
  {
    if !s.resetRequested then (s, [])
    else if PostReset(reply) then (s.(resetRequested := false, prev := PyBool(false)), [ResetCleared])
    else (s.(resetRequested := false), [ResetFailed])
  }

  /** The poll part of one loop iteration. */
  function PollStep(s: MonitorState, reply: StatusReply): (r: (MonitorState, seq<Message>))
    ensures GetStatus(reply) == PyNone ==> r == (s, [NoResponse])
    ensures GetStatus(reply) != PyNone ==> r.0 == s.(prev := GetStatus(reply))
    ensures Triggered in r.1 <==> s.prev == PyBool(false) && GetStatus(reply) == PyBool(true)
  {
    var triggered := GetStatus(reply);
    if triggered == PyNone then (s, [NoResponse])
    else (s.(prev := triggered), if s.prev == PyBool(false) && triggered == PyBool(true) then [Triggered] else [])
  }

  function Iteration(s: MonitorState, reset: ResetReply, status: StatusReply): (MonitorState, seq<Message>)
  {
    var afterReset := ResetStep(s, reset);
    var afterPoll := PollStep(afterReset.0, status);
    (afterPoll.0, afterReset.1 + afterPoll.1)
  }

  /** What happens between two checks of the loop: the lines typed, and the
      outcomes of the POST (used only if a reset is pending) and the GET. */
  datatype Tick = Tick(lines: seq<StdinRead>, reset: ResetReply, status: StatusReply)

  function TickStep(s: MonitorState, t: Tick): (MonitorState, seq<Message>)
  {
    Iteration(ReadLines(s, t.lines), t.reset, t.status)
  }

  function RunTicks(s: MonitorState, ticks: seq<Tick>): (MonitorState, seq<Message>)
    decreases |ticks|
  {
    if ticks == [] then (s, [])
    else
      var (s1, m1) := RunTicks(s, ticks[..|ticks| - 1]);
      var (s2, m2) := TickStep(s1, ticks[|ticks| - 1]);
      (s2, m1 + m2)
  }

  function ResetAttempts(log: seq<Message>): nat
  {
    if log == [] then 0
    else (if log[0] == ResetCleared || log[0] == ResetFailed then 1 else 0) + ResetAttempts(log[1..])
  }

  /** input_thread keeps reading exactly until the first "" or failed
      read, and reading never touches prev_triggered. */
  lemma {:induction false} ReadLinesOpen(s: MonitorState, lines: seq<StdinRead>)
    ensures ReadLines(s, lines).prev == s.prev
    ensures ReadLines(s, lines).inputOpen <==> s.inputOpen && forall k :: 0 <= k < |lines| ==> !EndsInput(lines[k])
    decreases |lines|
  {
    if lines != [] {
      var n := |lines| - 1;
      ReadLinesOpen(s, lines[..n]);
      assert forall k :: 0 <= k < n ==> lines[..n][k] == lines[k];
    }
  }

  /** After the lines, a reset is pending exactly when one was pending or a
      reset command came before the end of input. */
  lemma {:induction false} ReadLinesRequests(s: MonitorState, lines: seq<StdinRead>)
    ensures ReadLines(s, lines).resetRequested <==>
      s.resetRequested
      || (s.inputOpen && exists k :: 0 <= k < |lines| && IsCommand(lines[k])
                                     && forall j :: 0 <= j < k ==> !EndsInput(lines[j]))
    decreases |lines|
  {
    if lines != [] {
      var n := |lines| - 1;
      var init := lines[..n];
      ReadLinesRequests(s, init);
      ReadLinesOpen(s, init);
      assert forall k :: 0 <= k < n ==> init[k] == lines[k];
      var before := ReadLines(s, init);
      var after := ReadLine(before, lines[n]);
      assert ReadLines(s, lines) == after;
      assert after.resetRequested <==> before.resetRequested || (before.inputOpen && IsCommand(lines[n]));
      if after.resetRequested && !s.resetRequested && !before.resetRequested {
        assert before.inputOpen && IsCommand(lines[n]);
        assert forall j :: 0 <= j < n ==> !EndsInput(lines[j]);
      }
      if !after.resetRequested && !s.resetRequested && s.inputOpen {
        forall k | 0 <= k < |lines| && IsCommand(lines[k])
          ensures exists j :: 0 <= j < k && EndsInput(lines[j])
        {
          if k == n {
            assert !before.inputOpen;
          }
        }
      }
    }
  }

  /** However many reset lines were typed since the last check, one loop
      iteration makes at most one POST, and leaves no request pending. */
  lemma OneResetPerIteration(s: MonitorState, t: Tick)
    ensures ResetAttempts(TickStep(s, t).1) == (if ReadLines(s, t.lines).resetRequested then 1 else 0)
    ensures !TickStep(s, t).0.resetRequested
  {
    var s0 := ReadLines(s, t.lines);
    var (s1, m1) := ResetStep(s0, t.reset);
    var (s2, m2) := PollStep(s1, t.status);
    assert TickStep(s, t).1 == m1 + m2;
    ResetAttemptsAppend(m1, m2);
  }

  lemma {:induction false} ResetAttemptsAppend(a: seq<Message>, b: seq<Message>)
    ensures ResetAttempts(a + b) == ResetAttempts(a) + ResetAttempts(b)
    ensures (forall k :: 0 <= k < |b| ==> b[k] != ResetCleared && b[k] != ResetFailed) ==> ResetAttempts(b) == 0
    decreases |a| + |b|
  {
    if a != [] {
      assert (a + b)[1..] == a[1..] + b;
      ResetAttemptsAppend(a[1..], b);
    } else {
      assert a + b == b;
      if b != [] {
        ResetAttemptsAppend([], b[1..]);
      }
    }
  }

  /** "Triggered!" is printed exactly when the value held before the poll
      (False after a successful reset) is False and the poll yields True. */
  lemma TriggeredExactlyOnRise(s: MonitorState, reset: ResetReply, status: StatusReply)
    ensures Triggered in Iteration(s, reset, status).1 <==>
      (if s.resetRequested && PostReset(reset) then PyBool(false) else s.prev) == PyBool(false)
      && GetStatus(status) == PyBool(true)
  {
    var (s1, m1) := ResetStep(s, reset);
    assert Triggered !in m1;
    assert Iteration(s, reset, status).1 == m1 + PollStep(s1, status).1;
  }

  /** Without a successful reset and without a poll that reads False, nothing
      is reported: in particular a True on the first poll is not. */
  lemma {:induction false} NoReportWithoutFalse(s: MonitorState, ticks: seq<Tick>)
    requires s.prev != PyBool(false)
    requires forall k :: 0 <= k < |ticks| ==> GetStatus(ticks[k].status) != PyBool(false) && !PostReset(ticks[k].reset)
    ensures RunTicks(s, ticks).0.prev != PyBool(false)
    ensures Triggered !in RunTicks(s, ticks).1
    decreases |ticks|
  {
    if ticks != [] {
      var n := |ticks| - 1;
      NoReportWithoutFalse(s, ticks[..n]);
      var s1 := RunTicks(s, ticks[..n]).0;
      ReadLinesOpen(s1, ticks[n].lines);
      var s0 := ReadLines(s1, ticks[n].lines);
      TriggeredExactlyOnRise(s0, ticks[n].reset, ticks[n].status);
    }
  }

  /** After a successful reset a True poll is reported, whatever was seen
      before. */
  lemma ResetThenRiseReported(s: MonitorState, t: Tick)
    requires ReadLines(s, t.lines).resetRequested && PostReset(t.reset)
    requires GetStatus(t.status) == PyBool(true)
    ensures Triggered in TickStep(s, t).1
  {
    TriggeredExactlyOnRise(ReadLines(s, t.lines), t.reset, t.status);
  }

  class Monitor {
    /** prev_triggered */
    var prevTriggered: PyValue
    /** reset_requested (a threading.Event) */
    var resetRequested: bool
    /** input_thread has not yet read end of input */
    var inputOpen: bool

    function State(): MonitorState
      reads this
    {
      MonitorState(prevTriggered, resetRequested, inputOpen)
    }

    constructor ()
      ensures State() == MonitorStart
    {
      prevTriggered := PyNone;
      resetRequested := false;
      inputOpen := true;
    }

    /** One turn of input_thread's loop. */
    method InputLine(r: StdinRead)
      modifies this`resetRequested, this`inputOpen
      ensures State() == ReadLine(old(State()), r)
    {
      if !inputOpen {
        return;
      }
      match r
      case ReadFailed =>
        inputOpen := false;
      case Line(line) =>
        if line == "" {
          inputOpen := false;
          return;
        }
        if IsResetCommand(line) {
          resetRequested := true;
        }
    }

    /** One iteration of main's loop, with the replies to the POST and the
        GET it makes. */
    method PollOnce(reset: ResetReply, status: StatusReply) returns (log: seq<Message>)
      modifies this`prevTriggered, this`resetRequested
      ensures (State(), log) == Iteration(old(State()), reset, status)
      ensures !resetRequested
    {
      ghost var start := State();
      var resetLog: seq<Message> := [];
      if resetRequested {
        resetRequested := false;
        if PostReset(reset) {
          resetLog := [ResetCleared];
          prevTriggered := PyBool(false);
        } else {
          resetLog := [ResetFailed];
        }
      }
      assert (State(), resetLog) == ResetStep(start, reset);
      ghost var afterReset := State();
      var pollLog: seq<Message> := [];
      var triggered := GetStatus(status);
      if triggered == PyNone {
        pollLog := [NoResponse];
      } else {
        if prevTriggered == PyBool(false) && triggered == PyBool(true) {
          pollLog := [Triggered];
        }
        prevTriggered := triggered;
      }
      assert (State(), pollLog) == PollStep(afterReset, status);
      log := resetLog + pollLog;
    }

    /** main's loop over the ticks, with input_thread's lines read before
        each check. */
    method Run(ticks: seq<Tick>) returns (log: seq<Message>)
      modifies this
      ensures (State(), log) == RunTicks(old(State()), ticks)
    {
      log := [];
      var i := 0;
      while i < |ticks|
        invariant 0 <= i <= |ticks|
        invariant (State(), log) == RunTicks(old(State()), ticks[..i])
      {
        ghost var before := State();
        var lines := ticks[i].lines;
        var k := 0;
        while k < |lines|
          invariant 0 <= k <= |lines|
          invariant State() == ReadLines(before, lines[..k])
        {
          InputLine(lines[k]);
          assert lines[..k + 1][..k] == lines[..k];
          k := k + 1;
        }
        assert lines[..k] == lines;
        var msgs := PollOnce(ticks[i].reset, ticks[i].status);
        log := log + msgs;
        assert ticks[..i + 1][..i] == ticks[..i];
        i := i + 1;
      }
      assert ticks[..i] == ticks;
    }
  }

  // ---------------------------------------------------------------------
  // Discovery (Listener.add_service)
  // ---------------------------------------------------------------------

  newtype byte = x: int | 0 <= x < 256

  /** The legacy `address` attribute of a service record: absent, or present
      with a value that may be None. */
  datatype AddressAttr = NoAddressAttr | AddressAttr(value: Option<seq<byte>>)

  /** What get_service_info returns, as far as add_service reads it; an
      empty `addresses` stands for a missing, None or empty list. */
  datatype ServiceInfo = ServiceInfo(addresses: seq<Option<seq<byte>>>, address: AddressAttr, port: Option<int>)

  /** The (address, port) pair discovery settles on; the address stays in
      its four bytes. */
  datatype Device = Device(address: seq<byte>, port: int)

  /** One add_service call: the service name and what get_service_info gave. */
  datatype Announcement = Announcement(name: string, info: Option<ServiceInfo>)

  const InstanceName: string := "Doormon"

  /** The addresses add_service tries, in order. */
  function Candidates(info: ServiceInfo): seq<Option<seq<byte>>>
  {
    if |info.addresses| > 0 then info.addresses
    else match info.address
      case NoAddressAttr => []
      case AddressAttr(a) => [a]
  }

  predicate IsIPv4(a: Option<seq<byte>>)
  {
    a.Some? && |a.value| == 4
  }

  /** The first four-byte address of the list, if any. */
  function FirstIPv4(addrs: seq<Option<seq<byte>>>): (r: Option<seq<byte>>)
    ensures r.None? <==> forall k :: 0 <= k < |addrs| ==> !IsIPv4(addrs[k])
    ensures r.Some? ==> exists k :: 0 <= k < |addrs| && addrs[k] == Some(r.value) && IsIPv4(addrs[k])
                                    && forall j :: 0 <= j < k ==> !IsIPv4(addrs[j])
    decreases |addrs|
  {
    if addrs == [] then None
    else if IsIPv4(addrs[0]) then addrs[0]
    else FirstIPv4(addrs[1..])
  }

  /** `info.port or 80` */
  function DevicePort(port: Option<int>): int
  {
    if port == None || port == Some(0) then 80 else port.value
  }

  /** Python's `needle in haystack` on strings. */
  predicate Contains(haystack: string, needle: string)
    decreases |haystack|
  {
    (|needle| <= |haystack| && haystack[..|needle|] == needle)
    || (|haystack| > 0 && Contains(haystack[1..], needle))
  }

  /** The instance-name test: "doormon" occurs in the lower-cased name. */
  predicate NameMatches(name: string)
  {
    Contains(Lower(name), Lower(InstanceName))
  }

  /** What add_service records for one service when nothing is recorded yet. */
  function Accept(a: Announcement): Option<Device>
  {
    if a.info.None? || !NameMatches(a.name) then None
    else
      match FirstIPv4(Candidates(a.info.value))
      case None => None
      case Some(addr) => Some(Device(addr, DevicePort(a.info.value.port)))
  }

  /** A service is accepted exactly when its record was found, its name
      contains "doormon" in any case, and one of its addresses has four
      bytes; the first such address is kept, with port 80 when none (or 0)
      is advertised. */
  lemma AcceptSpec(a: Announcement)
    ensures Accept(a).Some? <==>
      (a.info.Some? && NameMatches(a.name)
       && exists k :: 0 <= k < |Candidates(a.info.value)| && IsIPv4(Candidates(a.info.value)[k]))
    ensures Accept(a).Some? ==>
      && |Accept(a).value.address| == 4
      && (exists k :: 0 <= k < |Candidates(a.info.value)| && Candidates(a.info.value)[k] == Some(Accept(a).value.address)
                      && forall j :: 0 <= j < k ==> !IsIPv4(Candidates(a.info.value)[j]))
      && Accept(a).value.port == (if a.info.value.port in {None, Some(0)} then 80 else a.info.value.port.value)
  {
  }

  /** result["info"] after one add_service call. */
  function AddServiceResult(result: Option<Device>, a: Announcement): Option<Device>
  {
    if result.Some? then result else Accept(a)
  }

  /** result["info"] after add_service has run on the announcements in turn. */
  function Discovered(anns: seq<Announcement>): Option<Device>
    decreases |anns|
  {
    if anns == [] then None else AddServiceResult(Discovered(anns[..|anns| - 1]), anns[|anns| - 1])
  }

  /** The first announcement that add_service accepts, searched from the front. */
  function FirstAccepted(anns: seq<Announcement>): Option<Device>
    decreases |anns|
  {
    if anns == [] then None
    else if Accept(anns[0]).Some? then Accept(anns[0])
    else FirstAccepted(anns[1..])
  }

  /** The front search finds the announcement that is accepted while every
      earlier one is refused, and nothing when all are refused. */
  lemma {:induction false} FirstAcceptedSpec(anns: seq<Announcement>)
    ensures FirstAccepted(anns).None? <==> forall k :: 0 <= k < |anns| ==> Accept(anns[k]).None?
    ensures FirstAccepted(anns).Some? ==>
      exists k :: 0 <= k < |anns| && Accept(anns[k]) == FirstAccepted(anns)
                  && forall j :: 0 <= j < k ==> Accept(anns[j]).None?
    decreases |anns|
  {
    if anns != [] && Accept(anns[0]).None? {
      var tail := anns[1..];
      FirstAcceptedSpec(tail);
      assert forall k :: 0 <= k < |tail| ==> tail[k] == anns[k + 1];
      if FirstAccepted(anns).Some? {
        var k :| 0 <= k < |tail| && Accept(tail[k]) == FirstAccepted(tail)
                 && forall j :: 0 <= j < k ==> Accept(tail[j]).None?;
        assert Accept(anns[k + 1]) == FirstAccepted(anns);
      } else {
        forall k | 0 <= k < |anns|
          ensures Accept(anns[k]).None?
        {
          if k > 0 {
            assert anns[k] == tail[k - 1];
          }
        }
      }
    }
  }

  lemma {:induction false} FirstAcceptedSnoc(anns: seq<Announcement>, a: Announcement)
    ensures FirstAccepted(anns + [a]) == if FirstAccepted(anns).Some? then FirstAccepted(anns) else Accept(a)
    decreases |anns|
  {
    if anns != [] {
      assert (anns + [a])[0] == anns[0];
      assert (anns + [a])[1..] == anns[1..] + [a];
      FirstAcceptedSnoc(anns[1..], a);
    } else {
      assert [] + [a] == [a];
      assert [a][1..] == [];
    }
  }

  /** Discovery keeps the first service that passes every test, whatever
      comes after it. */
  lemma {:induction false} DiscoveredIsFirstAccepted(anns: seq<Announcement>)
    ensures Discovered(anns) == FirstAccepted(anns)
    decreases |anns|
  {
    if anns != [] {
      var n := |anns| - 1;
      var init := anns[..n];
      DiscoveredIsFirstAccepted(init);
      FirstAcceptedSnoc(init, anns[n]);
      assert init + [anns[n]] == anns;
      calc {
        Discovered(anns);
        AddServiceResult(Discovered(init), anns[n]);
        AddServiceResult(FirstAccepted(init), anns[n]);
        FirstAccepted(init + [anns[n]]);
      }
    }
  }

  /** Once a device is recorded, later services leave the result unchanged. */
  lemma {:induction false} LaterServicesIgnored(anns: seq<Announcement>, more: seq<Announcement>)
    requires Discovered(anns).Some?
    ensures Discovered(anns + more) == Discovered(anns)
    decreases |more|
  {
    if more != [] {
      var n := |more| - 1;
      LaterServicesIgnored(anns, more[..n]);
      assert (anns + more)[..|anns + more| - 1] == anns + more[..n];
    } else {
      assert anns + more == anns;
    }
  }

  /** Python's `in` finds a needle wherever it sits. */
  lemma {:induction false} ContainsInside(before: string, needle: string, after: string)
    ensures Contains(before + needle + after, needle)
    decreases |before|
  {
    var h := before + needle + after;
    if before == [] {
      assert h[..|needle|] == needle;
    } else {
      ContainsInside(before[1..], needle, after);
      assert h[1..] == before[1..] + needle + after;
    }
  }

  /** Where `needle in haystack` holds, the needle sits at some index. */
  lemma {:induction false} ContainsAt(haystack: string, needle: string) returns (i: nat)
    requires Contains(haystack, needle)
    ensures i + |needle| <= |haystack| && haystack[i..i + |needle|] == needle
    decreases |haystack|
  {
    if |needle| <= |haystack| && haystack[..|needle|] == needle {
      i := 0;
    } else {
      var j := ContainsAt(haystack[1..], needle);
      i := j + 1;
      assert haystack[1..][j..j + |needle|] == haystack[i..i + |needle|];
    }
  }

  /** A name passes the name test when some piece of it spells "doormon"
      in any mix of upper and lower case ... */
  lemma NameMatchesWord(prefix: string, word: string, suffix: string)
    requires Lower(word) == Lower(InstanceName)
    ensures NameMatches(prefix + word + suffix)
  {
    assert Lower(prefix + word + suffix) == Lower(prefix) + Lower(word) + Lower(suffix);
    ContainsInside(Lower(prefix), Lower(word), Lower(suffix));
  }

  /** ... and only such a name does. */
  lemma NameMatchesOnlyWord(name: string) returns (i: nat)
    requires NameMatches(name)
    ensures i + |InstanceName| <= |name| && Lower(name[i..i + |InstanceName|]) == Lower(InstanceName)
  {
    i := ContainsAt(Lower(name), Lower(InstanceName));
    assert Lower(name)[i..i + |InstanceName|] == Lower(name[i..i + |InstanceName|]);
  }

  /** Lower-casing a name first does not change the name test. */
  lemma NameMatchesIgnoresCase(name: string)
    ensures NameMatches(Lower(name)) <==> NameMatches(name)
  {
    assert Lower(Lower(name)) == Lower(name);
  }

  class Listener {
    /** result["info"] */
    var result: Option<Device>

    constructor ()
      ensures result == None
    {
      result := None;
    }

    /** Listener.add_service */
    method AddService(name: string, info: Option<ServiceInfo>)
      modifies this
      ensures result == AddServiceResult(old(result), Announcement(name, info))
    {
      if result.Some? {
        return;
      }
      if info.None? {
        return;
      }
      if !NameMatches(name) {
        return;
      }
      var addrs := Candidates(info.value);
      var i := 0;
      while i < |addrs|
        invariant 0 <= i <= |addrs|
        invariant forall j :: 0 <= j < i ==> !IsIPv4(addrs[j])
        invariant result == None
      {
        var addr := addrs[i];
        if addr.Some? && |addr.value| == 4 {
          result := Some(Device(addr.value, DevicePort(info.value.port)));
          return;
        }
        i := i + 1;
      }
    }
  }
}
