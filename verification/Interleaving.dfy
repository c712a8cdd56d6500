/** The stub's calls with the periodic callbacks that strike between their steps: each call as a function
    of the line, of memory and of the schedule of callbacks, and what is left of the callback-free
    specifications when callbacks take characters. */
module Interleaving {
  import opened Bytes
  import opened HexText
  import opened PacketLink
  import opened RemoteMemory
  import opened FileIo

  // ----- what can be told of a run afterwards

  /** An F reply asked for a break, or the callback ran: with these characters waiting and the F-packet
      flag up or down, it took some of them and did or did not call AddSingleStep. */
  datatype Event = Flagged | Called(waiting: seq<Byte>, guarded: bool, took: seq<Byte>, stepped: bool)

  /** Whether a break is asked for and not yet acted on. */
  predicate PendingAfter(log: seq<Event>) {
    log != [] && log[|log| - 1].Flagged?
  }

  /** How many of the waiting characters a callback takes when nothing keeps it from the line: all of
      them, or those up to a Ctrl-C. */
  function Drained(waiting: seq<Byte>): (n: nat)
    ensures n <= |waiting| && (n == 0 <==> waiting == [])
    ensures forall i | 0 <= i < n - 1 :: waiting[i] != CTRL_C
    ensures 0 < n < |waiting| ==> waiting[n - 1] == CTRL_C
  {
    if waiting == [] then 0
    else if waiting[0] == CTRL_C then 1
    else 1 + Drained(waiting[1..])
  }

  predicate LegalEvent(before: seq<Event>, e: Event) {
    e.Called? ==>
      && e.took == (if PendingAfter(before) || e.guarded then [] else e.waiting[..Drained(e.waiting)])
      && e.stepped == (PendingAfter(before) || CTRL_C in e.took)
  }

  /** Every callback keeps to the two flags. */
  predicate Legal(log: seq<Event>) {
    forall i | 0 <= i < |log| :: LegalEvent(log[..i], log[i])
  }

  lemma LegalOneMore(log: seq<Event>, e: Event)
    requires Legal(log) && LegalEvent(log, e)
    ensures Legal(log + [e])
  {
    var log' := log + [e];
    assert log'[..|log|] == log;
    forall i | 0 <= i < |log'| ensures LegalEvent(log'[..i], log'[i]) {
      if i < |log| {
        assert log'[..i] == log[..i] && LegalEvent(log[..i], log[i]);
      }
    }
  }

  lemma LegalBefore(log: seq<Event>, k: nat)
    requires Legal(log) && k <= |log|
    ensures Legal(log[..k])
  {
    forall i | 0 <= i < k ensures LegalEvent(log[..k][..i], log[..k][i]) {
      assert log[..k][..i] == log[..i] && LegalEvent(log[..i], log[i]);
    }
  }

  /** All characters that callbacks ever took from the line. */
  function Taken(log: seq<Event>): seq<Byte> {
    if log == [] then []
    else Taken(log[..|log| - 1]) + match log[|log| - 1] case Flagged => [] case Called(_, _, took, _) => took
  }

  /** How many times AddSingleStep was called. */
  function Steps(log: seq<Event>): nat {
    if log == [] then 0
    else Steps(log[..|log| - 1]) + if log[|log| - 1].Called? && log[|log| - 1].stepped then 1 else 0
  }

  /** The steps taken and the one that is owed. */
  function Account(log: seq<Event>): nat {
    Steps(log) + if PendingAfter(log) then 1 else 0
  }

  /** How many breaks were asked for, by an F reply or by a Ctrl-C on the line, while none was pending. */
  function Breaks(log: seq<Event>): nat {
    if log == [] then 0
    else
      var before, e := log[..|log| - 1], log[|log| - 1];
      Breaks(before) + if !PendingAfter(before) && (e.Flagged? || CTRL_C in e.took) then 1 else 0
  }

  /** No break is lost and none is made up: over any run, the calls of AddSingleStep and the one still
      owed are as many as the breaks asked for. */
  lemma {:induction false} EveryBreakStepsOnce(log: seq<Event>)
    requires Legal(log)
    ensures Account(log) == Breaks(log)
  {
    if log != [] {
      var n := |log| - 1;
      LegalBefore(log, n);
      EveryBreakStepsOnce(log[..n]);
      assert LegalEvent(log[..n], log[n]);
    }
  }

  /** A further break is made or owed exactly if it was asked for; only while an older one is still
      pending may the two become one. */
  predicate OneStepIf(asked: bool, before: seq<Event>, after: seq<Event>) {
    if !asked then Account(after) == Account(before)
    else if !PendingAfter(before) then Account(after) == Account(before) + 1
    else Account(before) <= Account(after) <= Account(before) + 1
  }

  lemma OneEventMore(log: seq<Event>, e: Event)
    ensures Taken(log + [e]) == Taken(log) + if e.Called? then e.took else []
    ensures Steps(log + [e]) == Steps(log) + if e.Called? && e.stepped then 1 else 0
    ensures PendingAfter(log + [e]) == e.Flagged?
  {
    assert (log + [e])[..|log|] == log;
  }

  /** A callback that both flags leave free to read, with something there to be read. */
  predicate Exposed(log: seq<Event>, i: nat)
    requires i < |log|
  {
    log[i].Called? && !log[i].guarded && !PendingAfter(log[..i]) && log[i].waiting != []
  }

  /** The exact condition: from one point of a run to a later one, callbacks take characters if and only
      if one of them, with the F-packet flag down and no break pending, finds a character waiting. */
  lemma {:induction false} TakenIffExposed(before: seq<Event>, after: seq<Event>)
    requires Legal(after) && before <= after
    ensures Taken(before) <= Taken(after)
    ensures Taken(after) != Taken(before) <==> exists i | |before| <= i < |after| :: Exposed(after, i)
  {
    hide Legal, Taken, Exposed;
    if before != after {
      var n := |after| - 1;
      var earlier := after[..n];
      LegalBefore(after, n);
      TakenIffExposed(before, earlier);
      LastEventTakes(after);
      forall i | 0 <= i < n ensures Exposed(after, i) == Exposed(earlier, i) {
        ExposedBefore(after, i);
      }
    }
  }

  lemma ExposedBefore(log: seq<Event>, i: nat)
    requires i < |log| - 1
    ensures Exposed(log, i) == Exposed(log[..|log| - 1], i)
  {
    assert log[..i] == log[..|log| - 1][..i];
  }

  lemma LastEventTakes(log: seq<Event>)
    requires log != [] && Legal(log)
    ensures var n := |log| - 1;
            && Taken(log[..n]) <= Taken(log)
            && (|Taken(log)| > |Taken(log[..n])| <==> Exposed(log, n))
  {
    assert LegalEvent(log[..|log| - 1], log[|log| - 1]);
  }

  // ----- one step of a call and the callbacks due before it

  /** The line and memory; the callbacks due at each coming point between two steps, each with the number
      of characters that have arrived by then; the F-packet flag; and the run so far. */
  datatype Wire = Wire(session: Session, schedule: seq<seq<nat>>, guarded: bool, log: seq<Event>) {
    function Logged(e: Event): Wire {
      this.(log := log + [e])
    }
  }

  function Arrived(input: seq<Byte>, available: nat): seq<Byte> {
    if available < |input| then input[..available] else input
  }

  function CallBack(w: Wire, available: nat): (r: Wire)
    ensures r.session.mem == w.session.mem && |r.session.input| <= |w.session.input|
    ensures r.session.output == w.session.output
  {
    var pending, waiting := PendingAfter(w.log), Arrived(w.session.input, available);
    var took := if pending || w.guarded then [] else waiting[..Drained(waiting)];
    w.(session := w.session.(input := w.session.input[|took|..]))
     .Logged(Called(waiting, w.guarded, took, pending || CTRL_C in took))
  }

  function CallBacks(w: Wire, due: seq<nat>): (r: Wire)
    ensures r.session.mem == w.session.mem && |r.session.input| <= |w.session.input|
    ensures r.session.output == w.session.output
    decreases |due|
  {
    if due == [] then w else CallBacks(CallBack(w, due[0]), due[1..])
  }

  function Strike(w: Wire): (r: Wire)
    ensures r.session.mem == w.session.mem && |r.session.input| <= |w.session.input|
    ensures r.session.output == w.session.output
  {
    if w.schedule == [] then w else CallBacks(w.(schedule := w.schedule[1..]), w.schedule[0])
  }

  /** GdbGetChar; None stands for a read that is still waiting. */
  function Get(w: Wire): (r: (Option<Byte>, Wire))
    ensures r.1.session.output == w.session.output
    ensures r.1.session.mem == w.session.mem && |r.1.session.input| <= |w.session.input|
    ensures r.0 == None ==> r.1.session.input == []
    ensures r.0.Some? ==> |r.1.session.input| < |w.session.input|
  {
    var struck := Strike(w);
    var input := struck.session.input;
    if input == [] then (None, struck)
    else (Some(input[0]), struck.(session := struck.session.(input := input[1..])))
  }

  /** GdbPutChar */
  function Put(w: Wire, c: Byte): (r: Wire)
    ensures r.session.mem == w.session.mem && |r.session.input| <= |w.session.input|
    ensures r.session.output == w.session.output + [c]
  {
    var struck := Strike(w);
    struck.(session := struck.session.(output := struck.session.output + [c]))
  }

  function PutAll(w: Wire, text: seq<Byte>): (r: Wire)
    ensures r.session.mem == w.session.mem && |r.session.input| <= |w.session.input|
    ensures r.session.output == w.session.output + text
  {
    if text == [] then w else Put(PutAll(w, text[..|text| - 1]), text[|text| - 1])
  }

  // ----- the calls

  datatype WireStep = WireStep(wire: Wire, waiting: bool)

  /** SendPacket */
  function Transmitted(w: Wire, payload: seq<Byte>, retries: nat): (r: WireStep)
    ensures w.session.output + (if retries == 0 then [] else Frame(payload)) <= r.wire.session.output
    ensures r.wire.session.mem == w.session.mem && |r.wire.session.input| <= |w.session.input|
    decreases retries
  {
    if retries == 0 then WireStep(w, false)
    else
      var (c, w') := Get(PutAll(w, Frame(payload)));
      if c == None then WireStep(w', true)
      else if c == Some(ACK) then WireStep(w', false)
      else Transmitted(w', payload, retries - 1)
  }

  datatype WireHeard = WireHeard(state: Reception, wire: Wire)

  /** ReceivePacket, from any point of it */
  function Received(w: Wire, r: Reception, size: nat): (h: WireHeard)
    ensures w.session.output <= h.wire.session.output
    ensures h.wire.session.mem == w.session.mem && |h.wire.session.input| <= |w.session.input|
    ensures !h.state.Delivered? ==> h.wire.session.input == []
    ensures h.state.Delivered? && !r.Delivered? ==> |h.wire.session.input| < |w.session.input|
    decreases |w.session.input|
  {
    if r.Delivered? then WireHeard(r, w)
    else
      var (c, w') := Get(w);
      if c == None then WireHeard(r, w')
      else
        var (next, answer) := Hear(r, c.value, size);
        Received(PutAll(w', answer), next, size)
  }

  datatype WireCommands = WireReplied(wire: Wire, packet: seq<Byte>) | WireWaiting(wire: Wire) | WireOffTheEnd(wire: Wire)

  /** The command loop of GdbRead and GdbWrite */
  function Served(w: Wire, service: Service, retries: nat): (r: WireCommands)
    requires Total(w.session.mem)
    ensures Total(r.wire.session.mem) && w.session.output <= r.wire.session.output
    ensures r.WireReplied? ==> r.packet != [] && r.packet[0] == Code('F')
    decreases |w.session.input|, 0
  {
    var h := Received(w, Hunting, PACKET_SIZE);
    if !h.state.Delivered? then WireWaiting(h.wire)
    else
      var packet := CString(h.state.text);
      if packet == [] then AnsweredAndServed(h.wire, [], service, retries)
      else if packet[0] == Code('F') then WireReplied(h.wire, packet)
      else if packet[0] == service.Letter() then
        match service.Perform(h.wire.session.mem, packet)
        case Undefined => WireOffTheEnd(h.wire)
        case Effect(reply, mem) =>
          AnsweredAndServed(h.wire.(session := h.wire.session.(mem := mem)), reply, service, retries)
      else AnsweredAndServed(h.wire, [], service, retries)
  }

  function AnsweredAndServed(w: Wire, reply: seq<Byte>, service: Service, retries: nat): (r: WireCommands)
    requires Total(w.session.mem)
    ensures Total(r.wire.session.mem) && w.session.output <= r.wire.session.output
    ensures r.WireReplied? ==> r.packet != [] && r.packet[0] == Code('F')
    decreases |w.session.input|, 1
  {
    var step := Transmitted(w, reply, retries);
    if step.waiting then WireWaiting(step.wire) else Served(step.wire, service, retries)
  }

  datatype Course = Course(wire: Wire, ctrlC: bool, code: Option<int>) | Astray(wire: Wire)

  /** GdbRead and GdbWrite */
  function Exchanged(w: Wire, request: seq<Byte>, service: Service, retries: nat): (o: Course)
    requires Total(w.session.mem)
    ensures w.session.output + (if retries == 0 then [] else Frame(request)) <= o.wire.session.output
  {
    var asked := Transmitted(w, request, retries);
    if asked.waiting then Course(asked.wire, false, None)
    else
      match Served(asked.wire, service, retries)
      case WireOffTheEnd(w') => Astray(w')
      case WireWaiting(w') => Course(w', false, None)
      case WireReplied(w', packet) => Concluded(w', ParseFReply(packet), retries)
  }

  function Parsed(w: Wire, ctrlC: bool): Wire {
    if ctrlC then w.Logged(Flagged) else w
  }

  function Concluded(w: Wire, reply: FReply, retries: nat): (o: Course)
    requires reply.FReply?
    ensures o.Course? && o.ctrlC == reply.ctrlC && w.session.output <= o.wire.session.output
  {
    var parsed := Strike(Parsed(Strike(w), reply.ctrlC));
    if reply.errNo > 0 then
      var told := Transmitted(parsed, ErrorText(reply.errNo % 0x100), retries);
      if told.waiting then Course(told.wire, reply.ctrlC, None)
      else Course(Strike(told.wire), reply.ctrlC, Some(reply.retCode))
    else Course(Strike(parsed), reply.ctrlC, Some(reply.retCode))
  }

  // ----- what every call keeps

  /** No callback is due any more, as in code that runs with interrupts off. */
  predicate Silent(schedule: seq<seq<nat>>) {
    forall due | due in schedule :: due == []
  }

  /** Only callbacks happen from the one to the other, all under the same F-packet flag. */
  ghost predicate Calls(w: Wire, r: Wire) {
    && r.guarded == w.guarded
    && w.log <= r.log
    && (forall i | |w.log| <= i < |r.log| :: r.log[i].Called? && r.log[i].guarded == w.guarded)
    && Taken(w.log) <= Taken(r.log)
    && (Legal(w.log) ==> Legal(r.log))
  }

  /** And none at all if none is due. */
  ghost predicate Leads(w: Wire, r: Wire) {
    Calls(w, r) && (Silent(w.schedule) ==> r.log == w.log && Silent(r.schedule))
  }

  /** No character was taken by a callback. */
  ghost predicate Untouched(w: Wire, r: Wire) {
    |Taken(r.log)| == |Taken(w.log)|
  }

  lemma CallsOn(a: Wire, b: Wire, c: Wire)
    requires Calls(a, b) && Calls(b, c)
    ensures Calls(a, c) && (Untouched(a, c) ==> Untouched(a, b) && Untouched(b, c))
  {
    hide Legal, Taken;
    forall i | |a.log| <= i < |c.log| ensures c.log[i].Called? && c.log[i].guarded == a.guarded {
      assert i < |b.log| ==> c.log[i] == b.log[i];
    }
  }

  lemma LeadsOn(a: Wire, b: Wire, c: Wire)
    requires Leads(a, b) && Leads(b, c)
    ensures Leads(a, c) && (Untouched(a, c) ==> Untouched(a, b) && Untouched(b, c))
  {
    hide Calls, Untouched, Silent;
    CallsOn(a, b, c);
  }

  lemma LeadsNowhere(w: Wire)
    ensures Calls(w, w) && Leads(w, w)
  {
  }

  /** Line and memory have no part in it. */
  lemma LeadsElsewhere(w: Wire, r: Wire, w': Wire, r': Wire)
    requires Leads(w, r)
    requires w'.log == w.log && w'.guarded == w.guarded && w'.schedule == w.schedule
    requires r'.log == r.log && r'.guarded == r.guarded && r'.schedule == r.schedule
    ensures Leads(w', r') && Untouched(w', r') == Untouched(w, r)
  {
  }

  lemma CallBackLeads(w: Wire, available: nat)
    ensures var r := CallBack(w, available);
            Calls(w, r) && (Untouched(w, r) ==> r == w.(log := r.log))
  {
    hide Legal;
    var r := CallBack(w, available);
    var e := r.log[|w.log|];
    OneEventMore(w.log, e);
    assert LegalEvent(w.log, e);
    if Legal(w.log) {
      LegalOneMore(w.log, e);
    }
  }

  lemma {:induction false} CallBacksLead(w: Wire, due: seq<nat>)
    ensures var r := CallBacks(w, due);
            Calls(w, r) && r.schedule == w.schedule && (Untouched(w, r) ==> r.session == w.session)
    decreases |due|
  {
    hide Calls;
    if due == [] {
      LeadsNowhere(w);
    } else {
      var next := CallBack(w, due[0]);
      CallBackLeads(w, due[0]);
      CallBacksLead(next, due[1..]);
      CallsOn(w, next, CallBacks(w, due));
    }
  }

  lemma StrikeLeads(w: Wire)
    ensures var r := Strike(w);
            Leads(w, r) && (Untouched(w, r) ==> r.session == w.session)
  {
    hide CallBack, Legal, Taken, Silent;
    if w.schedule == [] {
      LeadsNowhere(w);
    } else {
      var due, later := w.schedule[0], w.schedule[1..];
      var w' := w.(schedule := later);
      CallBacksLead(w', due);
      var r := Strike(w);
      assert r == CallBacks(w', due);
      assert Calls(w, r);
      if Silent(w.schedule) {
        SilentTail(w.schedule);
        assert CallBacks(w', due) == w';
      }
    }
  }

  lemma SilentTail(schedule: seq<seq<nat>>)
    requires schedule != [] && Silent(schedule)
    ensures schedule[0] == [] && Silent(schedule[1..])
  {
    assert schedule[0] in schedule && forall d | d in schedule[1..] :: d in schedule;
  }

  lemma GetLeads(w: Wire)
    ensures var (c, r) := Get(w);
            && Leads(w, r)
            && (Untouched(w, r) ==>
                  var input := w.session.input;
                  if input == [] then c == None && r.session == w.session
                  else c == Some(input[0]) && r.session == w.session.(input := input[1..]))
  {
    hide Leads, Strike, Taken;
    StrikeLeads(w);
    LeadsElsewhere(w, Strike(w), w, Get(w).1);
  }

  lemma {:induction false} PutAllLeads(w: Wire, text: seq<Byte>)
    ensures var r := PutAll(w, text);
            && Leads(w, r)
            && (Untouched(w, r) ==> r.session == w.session.(output := w.session.output + text))
  {
    hide Leads, Strike, Taken;
    if text == [] {
      LeadsNowhere(w);
      assert w.session.output + [] == w.session.output;
    } else {
      var n := |text| - 1;
      var most := PutAll(w, text[..n]);
      PutAllLeads(w, text[..n]);
      StrikeLeads(most);
      LeadsElsewhere(most, Strike(most), most, PutAll(w, text));
      LeadsOn(w, most, PutAll(w, text));
      assert w.session.output + text[..n] + [text[n]] == w.session.output + text;
    }
  }

  // ----- the calls refine their callback-free specifications as long as no callback takes a character

  lemma {:induction false} RepeatFromTheFront(s: seq<Byte>, n: nat)
    ensures Repeat(s, n + 1) == s + Repeat(s, n)
  {
    if n > 0 {
      RepeatFromTheFront(s, n - 1);
      assert Repeat(s, n) + s == s + (Repeat(s, n - 1) + s);
    } else {
      assert Repeat(s, 1) == [] + s == s == s + [];
    }
  }

  /** One more frame, and then the rest of the transmission. */
  lemma TransmitOneMore(s: Session, payload: seq<Byte>, retries: nat)
    requires retries > 0
    ensures var sent := s.(output := s.output + Frame(payload));
            Transmit(s, payload, retries) ==
            if s.input == [] then Step(sent, true)
            else if s.input[0] == ACK then Step(sent.(input := s.input[1..]), false)
            else Transmit(sent.(input := s.input[1..]), payload, retries - 1)
  {
    hide Frame;
    assert Repeat(Frame(payload), 0) == [];
    RepeatFromTheFront(Frame(payload), 0);
    assert Repeat(Frame(payload), 1) == Frame(payload);
    if s.input != [] && s.input[0] != ACK {
      var again := Sending(s.input[1..], retries - 1);
      RepeatFromTheFront(Frame(payload), again.frames);
      assert s.output + (Frame(payload) + Repeat(Frame(payload), again.frames)) ==
             s.output + Frame(payload) + Repeat(Frame(payload), again.frames);
    }
  }

  lemma {:induction false} TransmittedRefines(w: Wire, payload: seq<Byte>, retries: nat)
    ensures var r := Transmitted(w, payload, retries);
            && Leads(w, r.wire)
            && (Untouched(w, r.wire) ==> Step(r.wire.session, r.waiting) == Transmit(w.session, payload, retries))
    decreases retries
  {
    hide Leads, Untouched, PutAll, Get, Frame, Transmit;
    if retries == 0 {
      LeadsNowhere(w);
      NothingSent(w.session, payload);
    } else {
      var sent := PutAll(w, Frame(payload));
      var (c, w') := Get(sent);
      PutAllLeads(w, Frame(payload));
      GetLeads(sent);
      LeadsOn(w, sent, w');
      TransmitOneMore(w.session, payload, retries);
      if c.Some? && c.value != ACK {
        TransmittedRefines(w', payload, retries - 1);
        LeadsOn(w, w', Transmitted(w, payload, retries).wire);
      }
    }
  }

  lemma NothingSent(s: Session, payload: seq<Byte>)
    ensures Transmit(s, payload, 0) == Step(s, false)
  {
    assert s.output + [] == s.output;
  }

  lemma {:induction false} ReceivedRefines(w: Wire, r: Reception, size: nat)
    ensures var h := Received(w, r, size);
            && Leads(w, h.wire)
            && (Untouched(w, h.wire) ==>
                  var l := Listen(r, w.session.input, size);
                  && h.state == l.state
                  && h.wire.session == w.session.(input := l.rest, output := w.session.output + l.answers))
    decreases |w.session.input|
  {
    hide Leads, Untouched, PutAll, Get, Hear;
    var s := w.session;
    assert s.output + [] == s.output;
    if r.Delivered? {
      LeadsNowhere(w);
    } else {
      var (c, w') := Get(w);
      GetLeads(w);
      if c.Some? {
        var (next, answer) := Hear(r, c.value, size);
        var told := PutAll(w', answer);
        PutAllLeads(w', answer);
        LeadsOn(w, w', told);
        ReceivedRefines(told, next, size);
        LeadsOn(w, told, Received(w, r, size).wire);
        LeadsOn(w', told, Received(w, r, size).wire);
        var answers := Listen(next, told.session.input, size).answers;
        assert s.output + answer + answers == s.output + (answer + answers);
      }
    }
  }

  predicate SameCommands(c: Commands, r: WireCommands) {
    match c
    case OffTheEnd => r.WireOffTheEnd?
    case Waiting(s) => r.WireWaiting? && r.wire.session == s
    case Replied(s, packet) => r.WireReplied? && r.wire.session == s && r.packet == packet
  }

  lemma {:induction false} ServedRefines(w: Wire, service: Service, retries: nat)
    requires Total(w.session.mem)
    ensures var r := Served(w, service, retries);
            && Leads(w, r.wire)
            && (Untouched(w, r.wire) ==> SameCommands(Serve(w.session, service, retries), r))
    decreases |w.session.input|, 0
  {
    hide Leads, Untouched, Received, Listen, Service.Perform, CString;
    var h := Received(w, Hunting, PACKET_SIZE);
    ReceivedRefines(w, Hunting, PACKET_SIZE);
    var r := Served(w, service, retries);
    if h.state.Delivered? {
      var packet := CString(h.state.text);
      if packet == [] || (packet[0] != Code('F') && packet[0] != service.Letter()) {
        AnsweredAndServedRefines(h.wire, [], service, retries);
        LeadsOn(w, h.wire, r.wire);
      } else if packet[0] != Code('F') && service.Perform(h.wire.session.mem, packet).Effect? {
        var Effect(reply, mem) := service.Perform(h.wire.session.mem, packet);
        var performed := h.wire.(session := h.wire.session.(mem := mem));
        AnsweredAndServedRefines(performed, reply, service, retries);
        LeadsElsewhere(performed, r.wire, h.wire, r.wire);
        LeadsOn(w, h.wire, r.wire);
      }
    }
  }

  lemma {:induction false} AnsweredAndServedRefines(w: Wire, reply: seq<Byte>, service: Service, retries: nat)
    requires Total(w.session.mem)
    ensures var r := AnsweredAndServed(w, reply, service, retries);
            && Leads(w, r.wire)
            && (Untouched(w, r.wire) ==> SameCommands(AnswerAndServe(w.session, reply, service, retries), r))
    decreases |w.session.input|, 1
  {
    hide Leads, Untouched, Transmitted, Transmit;
    var step := Transmitted(w, reply, retries);
    TransmittedRefines(w, reply, retries);
    if !step.waiting {
      ServedRefines(step.wire, service, retries);
      LeadsOn(w, step.wire, AnsweredAndServed(w, reply, service, retries).wire);
    }
  }

  // ----- a whole call

  /** One run goes on from the other; an F reply may have asked for a break. */
  ghost predicate Continues(w: Wire, r: Wire) {
    && r.guarded == w.guarded
    && w.log <= r.log
    && Taken(w.log) <= Taken(r.log)
    && (Legal(w.log) ==> Legal(r.log))
  }

  lemma ContinuesOn(a: Wire, b: Wire, c: Wire)
    requires Continues(a, b) && Continues(b, c)
    ensures Continues(a, c) && (Untouched(a, c) ==> Untouched(a, b) && Untouched(b, c))
  {
  }

  /** The stub is undisturbed if the F-packet flag keeps callbacks off the line or none is due. */
  predicate Quiet(w: Wire) {
    w.guarded || Silent(w.schedule)
  }

  /** Then callbacks take nothing, and make a step only for a break that was pending before. */
  lemma QuietKeeps(w: Wire, r: Wire)
    requires Quiet(w) && Legal(w.log) && Leads(w, r)
    ensures Untouched(w, r) && Account(r.log) == Account(w.log)
    ensures PendingAfter(r.log) ==> PendingAfter(w.log)
    ensures Quiet(r)
  {
    hide Legal, Taken, Steps;
    if w.guarded {
      GuardedKeeps(w, r);
    }
  }

  lemma {:induction false} GuardedKeeps(w: Wire, r: Wire)
    requires w.guarded && Legal(w.log) && Calls(w, r)
    ensures Untouched(w, r) && Account(r.log) == Account(w.log)
    ensures PendingAfter(r.log) ==> PendingAfter(w.log)
    decreases |r.log|
  {
    hide Legal, Taken, Steps;
    if |w.log| < |r.log| {
      var n := |r.log| - 1;
      var earlier := r.(log := r.log[..n]);
      LegalBefore(r.log, n);
      TakenIffExposed(w.log, earlier.log);
      GuardedKeeps(w, earlier);
      GuardedCallKeeps(r.log);
    } else {
      assert r.log == w.log;
    }
  }

  lemma GuardedCallKeeps(log: seq<Event>)
    requires log != [] && Legal(log) && log[|log| - 1].Called? && log[|log| - 1].guarded
    ensures var earlier := log[..|log| - 1];
            Taken(log) == Taken(earlier) && Account(log) == Account(earlier) && !PendingAfter(log)
  {
    assert LegalEvent(log[..|log| - 1], log[|log| - 1]);
  }

  lemma ParsedContinues(w: Wire, ctrlC: bool)
    ensures var r := Parsed(w, ctrlC);
            && Continues(w, r) && Untouched(w, r) && r.session == w.session
            && OneStepIf(ctrlC, w.log, r.log)
  {
    OneEventMore(w.log, Flagged);
    if Legal(w.log) {
      LegalOneMore(w.log, Flagged);
    }
  }

  lemma OneStepBetween(asked: bool, a: Wire, b: Wire, c: Wire, d: Wire)
    requires Quiet(a) && Legal(a.log)
    requires Leads(a, b) && Continues(b, c) && c.schedule == b.schedule && OneStepIf(asked, b.log, c.log) && Leads(c, d)
    ensures OneStepIf(asked, a.log, d.log) && Untouched(a, b) && Untouched(c, d)
  {
    hide Steps, Taken, Legal;
    QuietKeeps(a, b);
    QuietKeeps(c, d);
  }

  predicate SameOutcome(o: Outcome, c: Course) {
    match o
    case Stray => c.Astray?
    case Outcome(s, ctrlC, code) => c.Course? && c.wire.session == s && c.ctrlC == ctrlC && c.code == code
  }

  /** The end of a call, from the F reply on. */
  lemma ConcludedRefines(w: Wire, reply: FReply, retries: nat) returns (b: Wire, c: Wire)
    requires reply.FReply?
    ensures var o := Concluded(w, reply, retries);
            && Leads(w, b) && Continues(b, c) && c.schedule == b.schedule && Untouched(b, c)
            && OneStepIf(reply.ctrlC, b.log, c.log) && Leads(c, o.wire)
            && (Untouched(w, o.wire) ==> SameOutcome(Conclude(w.session, reply, retries), o))
  {
    hide Leads, Untouched, Transmitted, Transmit, Strike, Legal, Taken, OneStepIf;
    b := Strike(w);
    c := Parsed(b, reply.ctrlC);
    var parsed, o := Strike(c), Concluded(w, reply, retries);
    StrikeLeads(w);
    ParsedContinues(b, reply.ctrlC);
    StrikeLeads(c);
    StrikeLeads(parsed);
    if reply.errNo > 0 {
      var told := Transmitted(parsed, ErrorText(reply.errNo % 0x100), retries);
      TransmittedRefines(parsed, ErrorText(reply.errNo % 0x100), retries);
      StrikeLeads(told.wire);
      LeadsOn(c, parsed, told.wire);
      if !told.waiting {
        LeadsOn(c, told.wire, o.wire);
      }
    } else {
      LeadsOn(c, parsed, o.wire);
    }
    UntouchedParts(w, b, c, o.wire);
  }

  lemma UntouchedParts(a: Wire, b: Wire, c: Wire, d: Wire)
    requires Leads(a, b) && Continues(b, c) && Leads(c, d)
    ensures Continues(a, d) && (Untouched(a, d) ==> Untouched(a, b) && Untouched(b, c) && Untouched(c, d))
  {
    hide Legal, Taken;
  }

  /** Interleaving, for every schedule of callbacks and either state of the F-packet flag: if callbacks
      took no character, the line, memory and the result of a call are those of Exchange, which knows of
      no callback. If the flag is up or no callback is due they take none, and one step is made or owed for a Ctrl-C in the reply
      and none without. */
  lemma ExchangedRefines(w: Wire, request: seq<Byte>, service: Service, retries: nat)
    requires Total(w.session.mem) && Legal(w.log)
    ensures var o := Exchanged(w, request, service, retries);
            && Continues(w, o.wire)
            && (Untouched(w, o.wire) ==> SameOutcome(Exchange(w.session, request, service, retries), o))
            && (Quiet(w) ==>
                  Untouched(w, o.wire) && (o.Course? ==> OneStepIf(o.ctrlC, w.log, o.wire.log)))
  {
    hide Leads, Transmitted, Transmit, Served, Serve, Concluded, Conclude, Legal, Taken, Steps, ParseFReply;
    var asked, o := Transmitted(w, request, retries), Exchanged(w, request, service, retries);
    TransmittedRefines(w, request, retries);
    LeadsContinues(w, asked.wire);
    if asked.waiting {
      SimpleEnd(w, asked.wire);
    } else {
      var served := Served(asked.wire, service, retries);
      ServedRefines(asked.wire, service, retries);
      LeadsOn(w, asked.wire, served.wire);
      LeadsContinues(w, served.wire);
      if served.WireReplied? {
        assert ParseFReply(served.packet).FReply? by { ReplyIsParsed(served.packet); }
        var b, c := ConcludedRefines(served.wire, ParseFReply(served.packet), retries);
        UntouchedParts(served.wire, b, c, o.wire);
        ContinuesOn(w, served.wire, o.wire);
        LeadsOn(w, served.wire, b);
        if Quiet(w) {
          OneStepBetween(o.ctrlC, w, b, c, o.wire);
        }
      } else {
        SimpleEnd(w, served.wire);
      }
    }
  }

  lemma ReplyIsParsed(packet: seq<Byte>)
    requires packet != [] && packet[0] == Code('F')
    ensures ParseFReply(packet).FReply?
  {
  }

  lemma LeadsContinues(w: Wire, r: Wire)
    requires Leads(w, r)
    ensures Continues(w, r)
  {
  }

  lemma SimpleEnd(w: Wire, r: Wire)
    requires Leads(w, r) && Legal(w.log)
    ensures Quiet(w) ==> Untouched(w, r) && OneStepIf(false, w.log, r.log)
  {
    if Quiet(w) {
      QuietKeeps(w, r);
    }
  }

  /** SendPacket and ReceivePacket, undisturbed. */
  lemma QuietPackets(w: Wire, payload: seq<Byte>, retries: nat, size: nat)
    requires Quiet(w) && Legal(w.log)
    ensures var r := Transmitted(w, payload, retries);
            Step(r.wire.session, r.waiting) == Transmit(w.session, payload, retries)
    ensures var h, l := Received(w, Hunting, size), Listen(Hunting, w.session.input, size);
            && h.state == l.state
            && h.wire.session == w.session.(input := l.rest, output := w.session.output + l.answers)
  {
    hide Leads, Transmitted, Transmit, Received, Listen;
    TransmittedRefines(w, payload, retries);
    QuietKeeps(w, Transmitted(w, payload, retries).wire);
    ReceivedRefines(w, Hunting, size);
    QuietKeeps(w, Received(w, Hunting, size).wire);
  }

  // ----- a reply that is lost

  /** Points at which no callback is due. */
  function Silence(n: nat): (s: seq<seq<nat>>)
    ensures |s| == n && forall i | 0 <= i < n :: s[i] == []
  {
    seq(n, _ => [])
  }

  lemma {:induction false} PutAllInSilence(w: Wire, text: seq<Byte>, later: seq<seq<nat>>)
    requires w.schedule == Silence(|text|) + later
    ensures PutAll(w, text) == w.(session := w.session.(output := w.session.output + text), schedule := later)
  {
    if text == [] {
      assert w.session.output + [] == w.session.output;
    } else {
      var n := |text| - 1;
      assert w.schedule == Silence(n) + ([[]] + later);
      PutAllInSilence(w, text[..n], [[]] + later);
      assert ([[]] + later)[1..] == later;
      assert w.session.output + text[..n] + [text[n]] == w.session.output + text;
    }
  }

  /** With the flag down the callback need strike only once to lose the reply: after the request has been
      acked, when the reply has arrived. The call then waits for a reply for ever. */
  lemma ReplyIsLost(s: Session, request: seq<Byte>, reply: seq<Byte>, available: nat, later: seq<seq<nat>>,
                    service: Service, retries: nat)
    requires Total(s.mem) && retries > 0
    requires s.input == [ACK] + reply && reply != [] && CTRL_C !in reply && available >= |reply|
    ensures var w := Wire(s, Silence(|Frame(request)|) + ([[]] + ([[available]] + later)), false, []);
            var o := Exchanged(w, request, service, retries);
            && o.Course? && o.code == None
            && o.wire.session == s.(input := [], output := s.output + Frame(request))
            && o.wire.log == [Called(reply, false, reply, false)]
  {
    hide Frame, Concluded, PutAll, Legal, Taken;
    var due := [[]] + ([[available]] + later);
    var w := Wire(s, Silence(|Frame(request)|) + due, false, []);
    PutAllInSilence(w, Frame(request), due);
    var sent := PutAll(w, Frame(request));
    assert due[1..] == [[available]] + later && due[1..][1..] == later;
    var acked := Wire(s.(input := reply, output := s.output + Frame(request)), [[available]] + later, false, []);
    assert s.input[1..] == reply;
    assert Strike(sent) == sent.(schedule := due[1..]);
    assert Get(sent) == (Some(ACK), acked);
    assert Transmitted(w, request, retries) == WireStep(acked, false);
    var lost := CallBack(acked.(schedule := later), available);
    assert reply[..Drained(reply)] == reply;
    assert Strike(acked) == CallBacks(acked.(schedule := later), [available]) == lost by {
      assert [available][1..] == [];
    }
    assert Get(acked) == (None, lost);
    assert Received(acked, Hunting, PACKET_SIZE) == WireHeard(Hunting, lost);
  }

  /** GdbWrite is exposed so. Whatever the debugger reports, in whatever form, GdbWrite returns it if no
      callback strikes, and never returns if one strikes when the reply has just arrived. */
  lemma PlainReplyIsLost(s: Session, request: seq<Byte>, negative: bool, c: Uintn, error: Option<(Uintn, bool)>,
                         available: nat, later: seq<seq<nat>>, service: Service, retries: nat)
    requires Total(s.mem) && retries > 0
    requires var reply := Frame(PrintedReply(negative, c, error).Text());
             s.input == [ACK] + reply && available >= |reply|
    ensures var full := s.(input := s.input + Behind(PrintedError(error), []));
            var o := Exchange(full, request, service, retries);
            o.Outcome? && o.code == Some(if negative then 0 else ToIntn(c)) && o.session.input == []
    ensures var w := Wire(s, Silence(|Frame(request)|) + ([[]] + ([[available]] + later)), false, []);
            var o := Exchanged(w, request, service, retries);
            o.Course? && o.code == None
  {
    hide Frame, Exchange, Exchanged, PrintedReply, HostReply.Text, HostReply.Spelt, Behind;
    var r := PrintedReply(negative, c, error);
    var e := PrintedError(error);
    var full := s.(input := s.input + Behind(e, []));
    assert [ACK] + Frame(r.Text()) + Behind(e, []) == [ACK] + (Frame(r.Text()) + Behind(e, []));
    PrintedReplyIsServed(full, request, [], negative, c, error, [], service, retries);
    ReplyIsPlain(r, c, e);
    FrameHasNoBreak(r.Text());
    ReplyIsLost(s, request, Frame(r.Text()), available, later, service, retries);
  }

  lemma FrameHasNoBreak(text: seq<Byte>)
    requires CTRL_C !in text
    ensures CTRL_C !in Frame(text) && Frame(text) != []
  {
    assert !IsHex(CTRL_C);
  }
}
