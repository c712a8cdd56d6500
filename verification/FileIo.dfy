/** The File-I/O exchange of GdbRead and GdbWrite as a function of the line and of memory alone: no flag, no
    callback, no schedule occurs in it. */
module FileIo {
  import opened Bytes
  import opened HexText
  import opened PacketLink
  import opened RemoteMemory

  /** The size of the packet buffer of GdbRead and GdbWrite. */
  const PACKET_SIZE: nat := 128

  // ----- the reply

  /** The signed word of the same bits. */
  function ToIntn(u: Uintn): (n: int)
    ensures -UINTN_RANGE / 2 <= n < UINTN_RANGE / 2 && (n - u) % UINTN_RANGE == 0
  {
    if u < UINTN_RANGE / 2 then u else u - UINTN_RANGE
  }

  datatype FReply = FReply(retCode: int, errNo: Uintn, ctrlC: bool) | NotAnFReply

  /** GdbParseFReplyPacket on a C string. */
  function ParseFReply(packet: seq<Byte>): FReply {
    if packet == [] || packet[0] != Code('F') then NotAnFReply
    else
      var retCode := ToIntn(StrHexToUintn(packet[1..]));
      match SplitAt(packet, COMMA)
      case NoSeparator => FReply(retCode, 0, false)
      case Split(_, second) =>
        var errNo := StrHexToUintn(second);
        match SplitAt(second, COMMA)
        case NoSeparator => FReply(retCode, errNo, false)
        case Split(_, third) => FReply(retCode, errNo, third != [] && third[0] == Code('C'))
  }

  /** What may follow the code: nothing, or an error number and perhaps the mark of a Ctrl-C. */
  datatype ErrorField = NoError | ErrorField(errNo: seq<Byte>, ctrlC: bool) {
    function Text(): seq<Byte> {
      match this
      case NoError => []
      case ErrorField(errNo, ctrlC) => [COMMA] + Numbered(errNo, ctrlC)
    }

    /** The digits, if there are any, spell e. */
    predicate Spelt(e: Uintn) {
      match this
      case NoError => e == 0
      case ErrorField(errNo, _) => Spells(errNo, e)
    }

    predicate Breaks() {
      ErrorField? && ctrlC
    }
  }

  function Numbered(errNo: seq<Byte>, ctrlC: bool): seq<Byte> {
    errNo + if ctrlC then [COMMA, Code('C')] else []
  }

  /** "F6", "F6,0", "F-1,9", "F-1,4,C": what a debugger answers. */
  datatype HostReply = HostReply(negative: bool, code: seq<Byte>, error: ErrorField) {
    function Text(): seq<Byte> {
      [Code('F')] + Sign(negative) + code + error.Text()
    }

    predicate Spelt(c: Uintn, e: Uintn) {
      Spells(code, c) && error.Spelt(e)
    }

    /** The code as the stub reads it. */
    function Value(c: Uintn): int {
      if negative then 0 else ToIntn(c)
    }
  }

  function Sign(negative: bool): seq<Byte> {
    if negative then [NAK] else []
  }

  lemma NumberedIsRead(errNo: seq<Byte>, ctrlC: bool, e: Uintn)
    requires Spells(errNo, e)
    ensures StrHexToUintn(Numbered(errNo, ctrlC)) == e
    ensures SplitAt(Numbered(errNo, ctrlC), COMMA) == if ctrlC then Split(errNo, [Code('C')]) else NoSeparator
  {
    SpellingHasNoSeparator(errNo, e);
    if ctrlC {
      assert !IsHex(COMMA);
      ParserReadsEverySpelling(errNo, [COMMA, Code('C')]);
      assert Numbered(errNo, true) == errNo + [COMMA] + [Code('C')];
      SplitAtFirst(errNo, COMMA, [Code('C')]);
    } else {
      assert errNo + [] == errNo;
      IndexOfUnique(errNo, COMMA, |errNo|);
    }
  }

  /** The number behind the 'F', whatever follows it at once or behind a comma. */
  lemma CodePartIsRead(negative: bool, code: seq<Byte>, c: Uintn, tail: seq<Byte>)
    requires Spells(code, c) && (tail == [] || tail[0] == COMMA)
    ensures StrHexToUintn((Sign(negative) + code) + tail) == if negative then 0 else c
  {
    hide HexNum, Accumulate;
    if negative {
      var text := (Sign(negative) + code) + tail;
      assert text[0] == NAK && !IsHex(NAK);
      SignReadsAsZero(text);
    } else {
      assert Sign(negative) + code == code;
      assert !IsHex(COMMA);
      ParserReadsEverySpelling(code, tail);
      SpellingHasNoSeparator(code, c);
    }
  }

  lemma SignReadsAsZero(text: seq<Byte>)
    requires text != [] && text[0] == NAK
    ensures StrHexToUintn(text) == 0
  {
    assert !IsHex(NAK);
  }

  /** Where the first comma of a reply is, and what is behind it. */
  lemma CodePartSplits(head: seq<Byte>, rest: seq<Byte>)
    requires COMMA !in head
    ensures SplitAt(head, COMMA) == NoSeparator
    ensures SplitAt(head + [COMMA] + rest, COMMA) == Split(head, rest)
  {
    IndexOfUnique(head, COMMA, |head|);
    SplitAtFirst(head, COMMA, rest);
  }

  /** Every reply is read: any spelling of its numbers, an error number that is left out as 0, the break
      flag exactly when it is there, and a code behind a sign as 0. */
  lemma FReplyIsRead(r: HostReply, c: Uintn, e: Uintn)
    requires r.Spelt(c, e)
    ensures ParseFReply(r.Text()) == FReply(r.Value(c), e, r.error.Breaks())
  {
    hide StrHexToUintn, HexNum, SplitAt, Spells;
    var packet, head := r.Text(), [Code('F')] + Sign(r.negative) + r.code;
    assert packet[0] == Code('F');
    assert packet[1..] == (Sign(r.negative) + r.code) + r.error.Text();
    CodePartIsRead(r.negative, r.code, c, r.error.Text());
    HeadHasNoComma(r.negative, r.code, c);
    match r.error
    case NoError =>
      assert packet == head;
      CodePartSplits(head, []);
    case ErrorField(errNo, ctrlC) =>
      assert packet == head + [COMMA] + Numbered(errNo, ctrlC);
      CodePartSplits(head, Numbered(errNo, ctrlC));
      NumberedIsRead(errNo, ctrlC, e);
  }

  lemma HeadHasNoComma(negative: bool, code: seq<Byte>, c: Uintn)
    requires Spells(code, c)
    ensures COMMA !in [Code('F')] + Sign(negative) + code
  {
    SpellingHasNoSeparator(code, c);
  }

  function Signed(negative: bool, magnitude: int): int {
    if negative then -magnitude else magnitude
  }

  /** The documentation promises -1 for a failed read, and the debugger reports failure as "F-1,...".
      A sign is no digit to the parser, so that code is read as 0. Exactly: the number in a reply, with
      anything behind a comma or nothing behind it, comes back as it was written if it has no sign and
      fits a signed word, or is zero. */
  lemma ReplyCodeIsExact(negative: bool, magnitude: seq<Byte>, c: Uintn, tail: seq<Byte>)
    requires Spells(magnitude, c) && (tail == [] || tail[0] == COMMA)
    ensures var reply := ParseFReply([Code('F')] + Sign(negative) + magnitude + tail);
            && reply.FReply?
            && (reply.retCode == Signed(negative, c) <==> c == 0 || (!negative && c < UINTN_RANGE / 2))
  {
    hide StrHexToUintn, HexNum, SplitAt, Spells;
    var packet := [Code('F')] + Sign(negative) + magnitude + tail;
    assert packet[0] == Code('F') && packet[1..] == (Sign(negative) + magnitude) + tail;
    CodePartIsRead(negative, magnitude, c, tail);
    CodeOfReply(packet);
  }

  lemma CodeOfReply(packet: seq<Byte>)
    requires packet != [] && packet[0] == Code('F')
    ensures ParseFReply(packet).FReply? && ParseFReply(packet).retCode == ToIntn(StrHexToUintn(packet[1..]))
  {
  }

  // ----- the exchange

  datatype Session = Session(input: seq<Byte>, output: seq<Byte>, mem: Memory)

  /** A step that has to wait for more input stops where the input ends. */
  datatype Step = Step(session: Session, waiting: bool)

  function Transmit(s: Session, payload: seq<Byte>, retries: nat): (step: Step)
    ensures |step.session.input| <= |s.input|
    ensures step.session.mem == s.mem
  {
    var run := Sending(s.input, retries);
    Step(s.(input := run.rest, output := s.output + Repeat(Frame(payload), run.frames)), run.end.StillWaiting?)
  }

  /** What the command loop does for the debugger: GdbRead stores memory for it, GdbWrite loads memory,
      where `valid` is the processor's view of an address. */
  datatype Service = Stores | Loads(valid: Uintn -> bool) {
    function Letter(): Byte {
      if Stores? then Code('M') else Code('m')
    }

    function Perform(mem: Memory, packet: seq<Byte>): (e: Effect)
      requires packet != [] && Total(mem)
      ensures e.Effect? ==> Total(e.mem)
    {
      match this
      case Stores => Write(mem, packet)
      case Loads(valid) => Read(mem, packet, valid)
    }
  }

  /** How the command loop ends: with the F reply, for lack of input, or off a packet's end. */
  datatype Commands = Replied(session: Session, packet: seq<Byte>) | Waiting(session: Session) | OffTheEnd

  function Serve(s: Session, service: Service, retries: nat): (c: Commands)
    requires Total(s.mem)
    ensures c.Replied? ==> |c.session.input| < |s.input| && c.packet != [] && c.packet[0] == Code('F')
    ensures !c.OffTheEnd? ==> Total(c.session.mem)
    decreases |s.input|, 0
  {
    var h := Listen(Hunting, s.input, PACKET_SIZE);
    var s' := s.(input := h.rest, output := s.output + h.answers);
    if !h.state.Delivered? then Waiting(s')
    else
      var packet := CString(h.state.text);
      if packet == [] then AnswerAndServe(s', [], service, retries)
      else if packet[0] == Code('F') then Replied(s', packet)
      else if packet[0] == service.Letter() then
        match service.Perform(s'.mem, packet)
        case Undefined => OffTheEnd
        case Effect(reply, mem) => AnswerAndServe(s'.(mem := mem), reply, service, retries)
      else AnswerAndServe(s', [], service, retries)
  }

  function AnswerAndServe(s: Session, reply: seq<Byte>, service: Service, retries: nat): (c: Commands)
    requires Total(s.mem)
    ensures c.Replied? ==> |c.session.input| < |s.input| && c.packet != [] && c.packet[0] == Code('F')
    ensures !c.OffTheEnd? ==> Total(c.session.mem)
    decreases |s.input|, 1
  {
    var step := Transmit(s, reply, retries);
    if step.waiting then Waiting(step.session) else Serve(step.session, service, retries)
  }

  /** The text of the request; the print library takes `%x` arguments as 32-bit integers. */
  function Request(name: string, fileDescriptor: int, buffer: Uintn, count: Uintn): seq<Byte> {
    Ascii(name) + HexPrint(fileDescriptor % 0x1_0000_0000) +
    [COMMA] + HexPrint(buffer % 0x1_0000_0000) + [COMMA] + HexPrint(count % 0x1_0000_0000)
  }

  /** What a debugger makes of a request: a word and three numbers, between commas. */
  predicate AsksFor(request: seq<Byte>, word: string, a: Uintn, b: Uintn, c: Uintn) {
    match SplitAt(request, COMMA)
    case NoSeparator => false
    case Split(first, more) =>
      match SplitAt(more, COMMA)
      case NoSeparator => false
      case Split(second, rest) =>
        match SplitAt(rest, COMMA)
        case NoSeparator => false
        case Split(third, fourth) =>
          && first == Ascii(word) && StrHexToUintn(second) == a
          && StrHexToUintn(third) == b && StrHexToUintn(fourth) == c && COMMA !in fourth
  }

  /** A request is read back: the word, and the three arguments as 32-bit numbers, in their order. */
  lemma RequestIsRead(word: string, fileDescriptor: int, buffer: Uintn, count: Uintn)
    requires word == "Fread" || word == "Fwrite"
    ensures AsksFor(Request(word + ",", fileDescriptor, buffer, count), word, fileDescriptor % 0x1_0000_0000,
                    buffer % 0x1_0000_0000, count % 0x1_0000_0000)
  {
    hide HexPrint, SplitAt, StrHexToUintn, Spells;
    var a: Uintn, b: Uintn, c: Uintn :=
      fileDescriptor % 0x1_0000_0000, buffer % 0x1_0000_0000, count % 0x1_0000_0000;
    PrintedIsRead(a);
    PrintedIsRead(b);
    PrintedIsRead(c);
    WordHasNoComma(word);
    var s, t, u := HexPrint(a), HexPrint(b), HexPrint(c);
    var request := Request(word + ",", fileDescriptor, buffer, count);
    assert request == Ascii(word) + [COMMA] + (s + [COMMA] + (t + [COMMA] + u));
    SplitAtFirst(Ascii(word), COMMA, s + [COMMA] + (t + [COMMA] + u));
    SplitAtFirst(s, COMMA, t + [COMMA] + u);
    SplitAtFirst(t, COMMA, u);
  }

  lemma PrintedIsRead(n: Uintn)
    ensures COMMA !in HexPrint(n) && StrHexToUintn(HexPrint(n)) == n
  {
    PrintedSpells(n);
    SpellingHasNoSeparator(HexPrint(n), n);
  }

  lemma WordHasNoComma(word: string)
    requires word == "Fread" || word == "Fwrite"
    ensures COMMA !in Ascii(word) && Ascii(word + ",") == Ascii(word) + [COMMA]
  {
    assert forall i | 0 <= i < |word| :: word[i] as int % 0x100 != COMMA;
  }

  /** The outcome of a call, with the session it leaves and whether the reply asked for a break. */
  datatype Outcome = Outcome(session: Session, ctrlC: bool, code: Option<int>) | Stray

  function Exchange(s: Session, request: seq<Byte>, service: Service, retries: nat): Outcome
    requires Total(s.mem)
  {
    var asked := Transmit(s, request, retries);
    if asked.waiting then Outcome(asked.session, false, None)
    else
      match Serve(asked.session, service, retries)
      case OffTheEnd => Stray
      case Waiting(s') => Outcome(s', false, None)
      case Replied(s', packet) => Conclude(s', ParseFReply(packet), retries)
  }

  function Conclude(s: Session, reply: FReply, retries: nat): (o: Outcome)
    requires reply.FReply?
    ensures o.Outcome? && o.ctrlC == reply.ctrlC
  {
    if reply.errNo > 0 then
      var told := Transmit(s, ErrorText(reply.errNo % 0x100), retries);
      Outcome(told.session, reply.ctrlC, if told.waiting then None else Some(reply.retCode))
    else Outcome(s, reply.ctrlC, Some(reply.retCode))
  }

  // ----- a conversation

  /** One packet the debugger sends while it serves the request: to store what a text of digits spells, to
      be sent memory, or anything the call does not know. */
  datatype Command =
    | Poking(address: seq<Byte>, length: seq<Byte>, addr: Uintn, size: Uintn, text: seq<Byte>)
    | Peeking(address: seq<Byte>, length: seq<Byte>, addr: Uintn, size: Uintn)
    | Other(text: seq<Byte>)
  {
    function Payload(): seq<Byte> {
      match this
      case Poking(address, length, _, _, text) => WritePacket(address, length, text)
      case Peeking(address, length, _, _) => ReadPacket(address, length)
      case Other(text) => text
    }

    /** Well spelled, short enough for the buffers, and a service the call renders, or none of them. The
        digits of a store may be bad and the address of a load may be invalid. */
    ghost predicate Valid(service: Service) {
      && |Payload()| + 2 <= PACKET_SIZE
      && match this
         case Poking(address, length, addr, size, text) =>
           && service.Stores? && Spells(address, addr) && Spells(length, size)
           && |text| == 2 * size && Plain(text) && NUL !in text
         case Peeking(address, length, addr, size) =>
           service.Loads? && Spells(address, addr) && Spells(length, size) && 2 * size < MAX_BUF_SIZE
         case Other(text) =>
           Plain(text) && NUL !in text && (text != [] ==> text[0] != Code('F') && text[0] != service.Letter())
    }

    function Reply(mem: Memory, service: Service): seq<Byte>
      requires Total(mem)
    {
      match this
      case Poking(_, _, _, size, text) => Ascii(if |GoodPrefix(text, size)| == size then "OK" else "E0E")
      case Peeking(_, _, addr, size) =>
        if service.Loads? && service.valid(addr) then HexBytes(Peek(mem, addr, size)) else Ascii("E0E")
      case Other(_) => []
    }

    function After(mem: Memory): (mem': Memory)
      requires Total(mem)
      ensures Total(mem')
    {
      if Poking? then Poke(mem, addr, GoodPrefix(text, size)) else mem
    }
  }

  /** What the debugger sends in the loop: each command, acked by the '+' for the stub's answer, then the
      reply. */
  function HostSide(commands: seq<Command>, reply: seq<Byte>, rest: seq<Byte>): seq<Byte> {
    if commands == [] then Frame(reply) + rest
    else Frame(commands[0].Payload()) + ([ACK] + HostSide(commands[1..], reply, rest))
  }

  /** What the stub says to it: to a load, the digits of memory as the commands before have left it. */
  function StubSide(mem: Memory, commands: seq<Command>, service: Service): seq<Byte>
    requires Total(mem)
    decreases commands
  {
    if commands == [] then [ACK]
    else [ACK] + Frame(commands[0].Reply(mem, service)) + StubSide(commands[0].After(mem), commands[1..], service)
  }

  function Applied(mem: Memory, commands: seq<Command>): (mem': Memory)
    requires Total(mem)
    ensures Total(mem')
    decreases commands
  {
    if commands == [] then mem else Applied(commands[0].After(mem), commands[1..])
  }

  lemma HexIsPlain(text: seq<Byte>)
    requires AllHex(text)
    ensures Plain(text) && NUL !in text && COMMA !in text && COLON !in text
  {
    assert !IsHex(DOLLAR) && !IsHex(HASH) && !IsHex(NUL) && !IsHex(COMMA) && !IsHex(COLON);
  }

  lemma WritePacketIsPlain(address: seq<Byte>, length: seq<Byte>, text: seq<Byte>)
    requires AllHex(address) && AllHex(length) && Plain(text) && NUL !in text
    ensures var packet := WritePacket(address, length, text);
            Plain(packet) && NUL !in packet && packet != [] && packet[0] == Code('M')
  {
    HexIsPlain(address);
    HexIsPlain(length);
    hide AllHex;
  }

  lemma ReadPacketIsPlain(address: seq<Byte>, length: seq<Byte>)
    requires AllHex(address) && AllHex(length)
    ensures var packet := ReadPacket(address, length);
            Plain(packet) && NUL !in packet && packet != [] && packet[0] == Code('m')
  {
    HexIsPlain(address);
    HexIsPlain(length);
    hide AllHex;
  }

  lemma PayloadIsPlain(c: Command, service: Service)
    requires c.Valid(service)
    ensures Plain(c.Payload()) && NUL !in c.Payload()
    ensures !c.Other? ==> c.Payload() != [] && c.Payload()[0] == service.Letter()
  {
    hide AllHex, HexNum, WritePacket, ReadPacket;
    match c
    case Poking(address, length, _, _, text) => WritePacketIsPlain(address, length, text);
    case Peeking(address, length, _, _) => ReadPacketIsPlain(address, length);
    case Other(_) =>
  }

  lemma CommandIsPerformed(mem: Memory, c: Command, service: Service)
    requires Total(mem) && c.Valid(service) && !c.Other?
    requires c.Payload() != []
    ensures service.Perform(mem, c.Payload()) == Effect(c.Reply(mem, service), c.After(mem))
  {
    hide Write, Read, WritePacket, ReadPacket, Spells;
    if c.Poking? {
      SizeIsSmall(c, service);
      BadPairStops(mem, c.address, c.length, c.addr, c.size, c.text);
    } else {
      OnlyValidMemoryIsRead(mem, c.address, c.length, c.addr, c.size, service.valid);
    }
  }

  lemma SizeIsSmall(c: Command, service: Service)
    requires c.Poking? && c.Valid(service)
    ensures |c.text| == Wrap(2 * c.size)
  {
    WrapNothing(|c.text|);
  }

  lemma AckEndsTransmission(s: Session, payload: seq<Byte>, rest: seq<Byte>, retries: nat)
    requires retries > 0 && s.input == [ACK] + rest
    ensures Transmit(s, payload, retries) == Step(s.(input := rest, output := s.output + Frame(payload)), false)
  {
    assert s.input[0] == ACK && s.input[1..] == rest;
    assert Sending(s.input, retries) == SendRun(1, rest, Acknowledged);
    assert Repeat(Frame(payload), 0) == [];
    assert Repeat(Frame(payload), 1) == [] + Frame(payload) == Frame(payload);
  }

  /** Every command is performed in order and answered, and the loop ends with the F reply. */
  lemma {:induction false} ServePerformsCommands(s: Session, commands: seq<Command>, reply: seq<Byte>, rest: seq<Byte>,
                                                 service: Service, retries: nat)
    requires Total(s.mem) && retries > 0 && (forall c | c in commands :: c.Valid(service))
    requires Plain(reply) && NUL !in reply && |reply| + 2 <= PACKET_SIZE && reply != [] && reply[0] == Code('F')
    requires s.input == HostSide(commands, reply, rest)
    ensures Serve(s, service, retries) ==
            Replied(Session(rest, s.output + StubSide(s.mem, commands, service), Applied(s.mem, commands)), reply)
    decreases |commands|
  {
    hide Serve, Transmit, Listen, Frame, Command.After, Command.Reply, Command.Payload, Command.Valid, Service.Letter;
    if commands == [] {
      ReplyEndsServing(s, reply, rest, service, retries);
    } else {
      var c, more := commands[0], HostSide(commands[1..], reply, rest);
      assert c in commands && forall d | d in commands[1..] :: d in commands;
      CommandIsServed(s, c, more, service, retries);
      var s' := Session(more, s.output + [ACK] + Frame(c.Reply(s.mem, service)), c.After(s.mem));
      ServePerformsCommands(s', commands[1..], reply, rest, service, retries);
      assert s'.output + StubSide(s'.mem, commands[1..], service) == s.output + StubSide(s.mem, commands, service);
    }
  }

  lemma ReplyEndsServing(s: Session, reply: seq<Byte>, rest: seq<Byte>, service: Service, retries: nat)
    requires Total(s.mem)
    requires Plain(reply) && NUL !in reply && |reply| + 2 <= PACKET_SIZE && reply != [] && reply[0] == Code('F')
    requires s.input == Frame(reply) + rest
    ensures Serve(s, service, retries) == Replied(Session(rest, s.output + [ACK], s.mem), reply)
  {
    FrameIsHeard(Hunting, reply, rest, PACKET_SIZE);
    CStringOfPlain(reply);
  }

  lemma CommandIsServed(s: Session, c: Command, more: seq<Byte>, service: Service, retries: nat)
    requires Total(s.mem) && retries > 0 && c.Valid(service)
    requires s.input == Frame(c.Payload()) + ([ACK] + more)
    ensures Serve(s, service, retries) ==
            Serve(Session(more, s.output + [ACK] + Frame(c.Reply(s.mem, service)), c.After(s.mem)), service, retries)
  {
    hide Transmit, Listen, Frame, Command.After, Command.Reply, Command.Payload, Service.Perform, CString, Total;
    PayloadIsPlain(c, service);
    LetterIsNotF(service);
    FrameIsHeard(Hunting, c.Payload(), [ACK] + more, PACKET_SIZE);
    CStringOfPlain(c.Payload());
    var s' := Session([ACK] + more, s.output + [ACK], c.After(s.mem));
    if c.Other? {
      OtherIsIgnored(s.mem, c, service);
    } else {
      CommandIsPerformed(s.mem, c, service);
    }
    AckEndsTransmission(s', c.Reply(s.mem, service), more, retries);
  }

  lemma LetterIsNotF(service: Service)
    ensures service.Letter() != Code('F')
  {
  }

  lemma OtherIsIgnored(mem: Memory, c: Command, service: Service)
    requires Total(mem) && c.Other?
    ensures c.Reply(mem, service) == [] && c.After(mem) == mem && c.Payload() == c.text
  {
  }

  lemma ReplyIsPlain(r: HostReply, c: Uintn, e: Uintn)
    requires r.Spelt(c, e)
    ensures Plain(r.Text()) && NUL !in r.Text() && r.Text() != [] && r.Text()[0] == Code('F')
    ensures |r.Text()| + 2 <= PACKET_SIZE
    ensures CTRL_C !in r.Text()
  {
    hide HexNum;
    HexIsPlain(r.code);
    assert !IsHex(CTRL_C);
    assert forall x | x in Sign(r.negative) :: x == NAK;
    if r.error.ErrorField? {
      HexIsPlain(r.error.errNo);
    }
    hide AllHex;
  }

  /** What the debugger sends behind its reply: the ack of the error that is echoed to it. */
  function Behind(e: Uintn, rest: seq<Byte>): seq<Byte> {
    if e > 0 then [ACK] + rest else rest
  }

  /** A whole call, as the debugger serves it: the request is acked, any number of memory commands are
      given, and the reply is of any form. The result is the code as it is read, the commands are
      performed and answered in order, an error is echoed once, and nothing of the exchange stays on the
      line. */
  lemma ExchangeIsServed(s: Session, request: seq<Byte>, commands: seq<Command>, r: HostReply, c: Uintn, e: Uintn,
                         rest: seq<Byte>, service: Service, retries: nat)
    requires Total(s.mem) && retries > 0 && (forall c | c in commands :: c.Valid(service))
    requires r.Spelt(c, e)
    requires s.input == [ACK] + HostSide(commands, r.Text(), Behind(e, rest))
    ensures var said := s.output + Frame(request) + StubSide(s.mem, commands, service);
            Exchange(s, request, service, retries) ==
            Outcome(Session(rest, if e > 0 then said + Frame(ErrorText(e % 0x100)) else said, Applied(s.mem, commands)),
                    r.error.Breaks(), Some(r.Value(c)))
  {
    hide Serve, Transmit, ParseFReply, Frame, HostSide, Applied, StubSide, Command.Valid, HostReply.Spelt, HostReply.Text;
    var reply, last := r.Text(), Behind(e, rest);
    ReplyIsPlain(r, c, e);
    AckEndsTransmission(s, request, HostSide(commands, reply, last), retries);
    ServePerformsCommands(Transmit(s, request, retries).session, commands, reply, last, service, retries);
    FReplyIsRead(r, c, e);
    if e > 0 {
      var s' := Serve(Transmit(s, request, retries).session, service, retries).session;
      AckEndsTransmission(s', ErrorText(e % 0x100), rest, retries);
    }
  }

  /** A reply printed plainly: a code of either sign, and perhaps an error number and a Ctrl-C. */
  function PrintedReply(negative: bool, c: Uintn, error: Option<(Uintn, bool)>): (r: HostReply)
    ensures r.Spelt(c, PrintedError(error))
  {
    PrintedSpells(c);
    match error
    case None => HostReply(negative, HexPrint(c), NoError)
    case Some((e, ctrlC)) =>
      PrintedSpells(e);
      HostReply(negative, HexPrint(c), ErrorField(HexPrint(e), ctrlC))
  }

  function PrintedError(error: Option<(Uintn, bool)>): Uintn {
    if error.Some? then error.value.0 else 0
  }

  /** The same for a debugger that prints its numbers plainly, whatever they are. */
  lemma PrintedReplyIsServed(s: Session, request: seq<Byte>, commands: seq<Command>, negative: bool, c: Uintn,
                             error: Option<(Uintn, bool)>, rest: seq<Byte>, service: Service, retries: nat)
    requires Total(s.mem) && retries > 0 && (forall c | c in commands :: c.Valid(service))
    requires s.input == [ACK] + HostSide(commands, PrintedReply(negative, c, error).Text(), Behind(PrintedError(error), rest))
    ensures var o := Exchange(s, request, service, retries);
            && o.Outcome? && o.ctrlC == (error.Some? && error.value.1)
            && o.code == Some(if negative then 0 else ToIntn(c))
            && o.session.input == rest && o.session.mem == Applied(s.mem, commands)
  {
    hide HostReply.Spelt, HostReply.Text, HexPrint, HostSide, Exchange, Applied, StubSide, Frame, Behind;
    ExchangeIsServed(s, request, commands, PrintedReply(negative, c, error), c, PrintedError(error), rest, service, retries);
  }
}
