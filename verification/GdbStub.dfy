/** The stub itself: a serial line, memory, the two flags shared with the periodic callback, and the
    callbacks that a schedule fires between the stub's own steps. Every method is proved to do what
    Interleaving says of its call. */
module GdbStub {
  import opened Bytes
  import opened HexText
  import opened PacketLink
  import opened RemoteMemory
  import opened FileIo
  import opened Interleaving

  datatype Ran = Completed | Blocked | Strayed

  class Stub {
    var input: seq<Byte>
    var output: seq<Byte>
    var mem: Memory
    var gCtrlCBreakFlag: bool
    var gProcessingFPacket: bool

    /** The callbacks due at each coming interruption point, each with the number of characters that
        have arrived by then. */
    var schedule: seq<seq<nat>>
    ghost var log: seq<Event>

    const maxPacketRetryCount: nat
    const validAddress: Uintn -> bool

    constructor (input: seq<Byte>, mem: Memory, schedule: seq<seq<nat>>, maxPacketRetryCount: nat,
                 validAddress: Uintn -> bool)
      requires Total(mem)
      ensures Valid()
      ensures Now() == Wire(Session(input, [], mem), schedule, false, []) && !gCtrlCBreakFlag
      ensures this.maxPacketRetryCount == maxPacketRetryCount && this.validAddress == validAddress
    {
      this.input, this.output, this.mem, this.schedule, log := input, [], mem, schedule, [];
      gCtrlCBreakFlag, gProcessingFPacket := false, false;
      this.maxPacketRetryCount, this.validAddress := maxPacketRetryCount, validAddress;
    }

    ghost predicate Valid()
      reads `mem, `log, `gCtrlCBreakFlag
    {
      Total(mem) && Legal(log) && gCtrlCBreakFlag == PendingAfter(log)
    }

    ghost function Now(): Wire
      reads this
    {
      Wire(Session(input, output, mem), schedule, gProcessingFPacket, log)
    }

    // ----- the callback and the points where it can strike

    /** The loop of the callback: it takes what has arrived, up to and including a Ctrl-C. */
    method TakePending(available: nat)
      requires !gCtrlCBreakFlag
      modifies `input, `gCtrlCBreakFlag
      ensures var n := Drained(Arrived(old(input), available));
              input == old(input)[n..] && gCtrlCBreakFlag == (CTRL_C in old(input)[..n])
    {
      hide Drained, Arrived;
      NothingDrains();
      var left := available;
      ghost var n := 0;
      while true
        invariant !gCtrlCBreakFlag
        invariant n <= |old(input)| && input == old(input)[n..] && CTRL_C !in old(input)[..n]
        invariant Drained(Arrived(old(input), available)) == n + Drained(Arrived(input, left))
        decreases left
      {
        if left == 0 || input == [] {
          break;
        }
        var c := input[0];
        DrainedStep(input, left);
        assert old(input)[..n + 1] == old(input)[..n] + [c];
        input, left, n := input[1..], left - 1, n + 1;
        if c == CTRL_C {
          gCtrlCBreakFlag := true;
          break;
        }
      }
    }

    method GdbPeriodicCallBack(available: nat)
      requires Valid()
      modifies `input, `gCtrlCBreakFlag, `log
      ensures Valid() && Now() == CallBack(old(Now()), available)
      ensures !gCtrlCBreakFlag
    {
      ghost var before := input;
      if !gCtrlCBreakFlag && !gProcessingFPacket {
        TakePending(available);
      }
      ghost var e := Called(Arrived(before, available), gProcessingFPacket, before[..|before| - |input|], gCtrlCBreakFlag);
      LegalOneMore(log, e);
      log := log + [e];
      if gCtrlCBreakFlag {
        // the point at which AddSingleStep is called
        gCtrlCBreakFlag := false;
      }
    }

    /** A point between two steps where the callbacks that are due run. */
    method Interrupts()
      requires Valid()
      modifies `input, `gCtrlCBreakFlag, `log, `schedule
      ensures Valid() && Now() == Strike(old(Now()))
    {
      hide Valid, CallBack;
      if schedule != [] {
        var due := schedule[0];
        schedule := schedule[1..];
        while due != []
          invariant Valid() && CallBacks(Now(), due) == Strike(old(Now()))
        {
          GdbPeriodicCallBack(due[0]);
          due := due[1..];
        }
      }
    }

    // ----- the serial line

    /** None stands for a read that is still waiting. */
    method GdbGetChar() returns (c: Option<Byte>)
      requires Valid()
      modifies `input, `gCtrlCBreakFlag, `log, `schedule
      ensures Valid() && (c, Now()) == Get(old(Now()))
    {
      hide Legal, PendingAfter, Strike;
      Interrupts();
      if input == [] {
        return None;
      }
      c := Some(input[0]);
      input := input[1..];
    }

    method GdbPutChar(c: Byte)
      requires Valid()
      modifies `input, `output, `gCtrlCBreakFlag, `log, `schedule
      ensures Valid() && Now() == Put(old(Now()), c)
    {
      hide Legal, PendingAfter, Strike;
      Interrupts();
      output := output + [c];
    }

    /** One pass of SendPacket's loop, up to the wait for an answer. */
    method PutFrame(packetData: seq<Byte>) returns (count: nat)
      requires Valid()
      modifies `input, `output, `gCtrlCBreakFlag, `log, `schedule
      ensures Valid() && Now() == PutAll(old(Now()), Frame(packetData))
      ensures count == |packetData|
    {
      hide Valid, Put, PutAll, CheckSum;
      ghost var f, w := Frame(packetData), Now();
      FrameAt(packetData);
      CheckSumOneMore([], NUL);
      PutNext(w, f, 0);
      GdbPutChar(DOLLAR);
      var checkSum: Byte := 0;
      count := 0;
      assert packetData[..0] == [];
      while count < |packetData|
        invariant count <= |packetData|
        invariant checkSum == CheckSum(packetData[..count])
        invariant Valid() && Now() == PutAll(w, f[..count + 1])
      {
        PutNext(w, f, count + 1);
        GdbPutChar(packetData[count]);
        CheckSumOneMore(packetData[..count], packetData[count]);
        assert packetData[..count + 1] == packetData[..count] + [packetData[count]];
        checkSum := (checkSum + packetData[count]) % 0x100;
        count := count + 1;
      }
      assert packetData[..count] == packetData;
      PutNext(w, f, count + 1);
      GdbPutChar(HASH);
      PutNext(w, f, count + 2);
      GdbPutChar(UpperDigit(checkSum / 16));
      PutNext(w, f, count + 3);
      GdbPutChar(UpperDigit(checkSum % 16));
      assert f[..count + 4] == f;
    }

    /** The frames, the input left and the end are those of the call with its callbacks; the count is 0
        only if the retry count is. */
    method SendPacket(packetData: seq<Byte>) returns (sent: Option<nat>)
      requires Valid() && NUL !in packetData
      modifies `input, `output, `gCtrlCBreakFlag, `log, `schedule
      ensures Valid()
      ensures var step := Transmitted(old(Now()), packetData, maxPacketRetryCount);
              && Now() == step.wire
              && sent == if step.waiting then None
                         else Some(if maxPacketRetryCount == 0 then 0 else |packetData|)
    {
      hide Valid, Frame, PutAll, Get;
      var timeout: nat := maxPacketRetryCount;
      var count := 0;
      while true
        invariant timeout <= maxPacketRetryCount
        invariant count == if timeout == maxPacketRetryCount then 0 else |packetData|
        invariant Valid()
        invariant Transmitted(Now(), packetData, timeout) == Transmitted(old(Now()), packetData, maxPacketRetryCount)
        decreases timeout
      {
        if timeout == 0 {
          return Some(count);
        }
        timeout := timeout - 1;
        count := PutFrame(packetData);
        var testChar := GdbGetChar();
        if testChar == None {
          return None;
        }
        if testChar == Some(ACK) {
          return Some(count);
        }
      }
    }

    /** The text returned, the answers written and the input left are those of the call with its
        callbacks; None if the input ends first. */
    method ReceivePacket(packetData: array<Byte>) returns (index: Option<nat>)
      requires Valid() && packetData.Length > 0
      modifies `input, `output, `gCtrlCBreakFlag, `log, `schedule, packetData
      ensures Valid()
      ensures var h := Received(old(Now()), Hunting, packetData.Length);
              && Now() == h.wire
              && (if h.state.Delivered? then
                    && index == Some(|h.state.text|) && |h.state.text| < packetData.Length
                    && packetData[..|h.state.text|] == h.state.text && packetData[|h.state.text|] == NUL
                  else index == None)
    {
      hide Valid, Received, Sum, StrHexToUintn, Put;
      var size := packetData.Length;
      forall i | 0 <= i < size {
        packetData[i] := 0;
      }
      ghost var whole := Received(Now(), Hunting, size);
      while true
        invariant Valid() && whole == Received(Now(), Hunting, size)
        decreases |input|
      {
        var started := AwaitStart(size, whole);
        if !started {
          return None;
        }
        var i, checkSum := CollectText(packetData, whole);
        if i == None {
          return None;
        }
        ghost var text := packetData[..i.value];
        packetData[i.value] := 0;
        assert packetData[..i.value] == text;
        var sums := ReadSumString(size, text, whole);
        if sums == None {
          return None;
        }
        if StrHexToUintn([sums.value.0, sums.value.1]) == checkSum {
          PutAnswer(Now(), ACK);
          GdbPutChar(ACK);
          packetData[i.value] := 0;
          ReceivedAtOnce(Now(), text, size);
          return i;
        } else {
          PutAnswer(Now(), NAK);
          GdbPutChar(NAK);
        }
      }
    }

    /** ReceivePacket's wait for the start of a packet. */
    method AwaitStart(size: nat, ghost whole: WireHeard) returns (started: bool)
      requires Valid()
      requires whole == Received(Now(), Hunting, size)
      modifies `input, `gCtrlCBreakFlag, `log, `schedule
      ensures Valid()
      ensures if started then |input| < |old(input)| && whole == Received(Now(), Continue([], size), size)
              else whole == WireHeard(Hunting, Now())
    {
      hide Valid, Get, Received;
      ReceivedStep(Now(), Hunting, size);
      var testChar := GdbGetChar();
      while testChar != Some(DOLLAR)
        invariant Valid()
        invariant testChar == None ==> whole == WireHeard(Hunting, Now())
        invariant testChar.Some? ==>
            && |input| < |old(input)|
            && whole == Received(Now(), Hear(Hunting, testChar.value, size).0, size)
        decreases testChar.Some?, |input|
      {
        if testChar == None {
          return false;
        }
        ReceivedStep(Now(), Hunting, size);
        testChar := GdbGetChar();
      }
      return true;
    }

    /** The part of ReceivePacket between '$' and the checksum digits; a further '$' starts over. */
    method CollectText(packetData: array<Byte>, ghost whole: WireHeard) returns (index: Option<nat>, checkSum: Byte)
      requires Valid() && packetData.Length > 0
      requires whole == Received(Now(), Continue([], packetData.Length), packetData.Length)
      modifies `input, `gCtrlCBreakFlag, `log, `schedule, packetData
      ensures Valid()
      ensures |input| <= |old(input)|
      ensures index == None ==> whole == WireHeard(whole.state, Now()) && !whole.state.Delivered?
      ensures index.Some? ==>
                && index.value < packetData.Length
                && checkSum == CheckSum(packetData[..index.value])
                && whole == Received(Now(), FirstSum(packetData[..index.value]), packetData.Length)
    {
      hide Valid, Get, Received, CheckSum;
      var size := packetData.Length;
      var i := 0;
      checkSum := 0;
      assert packetData[..0] == [];
      CheckSumOneMore([], NUL);
      while i < size - 1
        invariant i < size
        invariant checkSum == CheckSum(packetData[..i])
        invariant Valid()
        invariant |input| <= |old(input)|
        invariant whole == Received(Now(), Continue(packetData[..i], size), size)
        decreases |input|
      {
        ReceivedStep(Now(), Collecting(packetData[..i]), size);
        var c := GdbGetChar();
        if c == None {
          return None, checkSum;
        }
        if c.value == DOLLAR {
          i, checkSum := 0, 0;
          assert packetData[..0] == [];
        } else if c.value == HASH {
          return Some(i), checkSum;
        } else {
          ghost var text := packetData[..i];
          packetData[i] := c.value;
          assert packetData[..i + 1] == text + [c.value];
          CheckSumOneMore(text, c.value);
          checkSum := (checkSum + c.value) % 0x100;
          i := i + 1;
        }
      }
      return Some(i), checkSum;
    }

    /** The two characters after the text. */
    method ReadSumString(size: nat, ghost text: seq<Byte>, ghost whole: WireHeard) returns (sums: Option<(Byte, Byte)>)
      requires Valid()
      requires whole == Received(Now(), FirstSum(text), size)
      modifies `input, `gCtrlCBreakFlag, `log, `schedule
      ensures Valid()
      ensures |input| <= |old(input)|
      ensures sums == None ==> whole == WireHeard(whole.state, Now()) && !whole.state.Delivered?
      ensures sums.Some? ==>
                whole == if Accepts(text, sums.value.0, sums.value.1)
                         then Received(PutAll(Now(), [ACK]), Delivered(text), size)
                         else Received(PutAll(Now(), [NAK]), Hunting, size)
    {
      hide Valid, Get, Received, PutAll;
      ReceivedStep(Now(), FirstSum(text), size);
      var sum0 := GdbGetChar();
      if sum0 == None {
        return None;
      }
      ReceivedStep(Now(), SecondSum(text, sum0.value), size);
      var sum1 := GdbGetChar();
      if sum1 == None {
        return None;
      }
      return Some((sum0.value, sum1.value));
    }

    // ----- answers

    method SendError(errorNum: Byte) returns (sent: Option<nat>)
      requires Valid()
      modifies `input, `output, `gCtrlCBreakFlag, `log, `schedule
      ensures Valid()
      ensures var step := Transmitted(old(Now()), ErrorText(errorNum), maxPacketRetryCount);
              Now() == step.wire && (sent == None <==> step.waiting)
    {
      hide Valid, Transmitted;
      var gError := [Code('E'), Code('_'), Code('_')];
      gError := gError[1 := UpperDigit(errorNum / 16)];
      gError := gError[2 := UpperDigit(errorNum % 16)];
      assert gError == ErrorText(errorNum);
      sent := SendPacket(gError);
    }

    method SendSuccess() returns (sent: Option<nat>)
      requires Valid()
      modifies `input, `output, `gCtrlCBreakFlag, `log, `schedule
      ensures Valid()
      ensures var step := Transmitted(old(Now()), OK, maxPacketRetryCount);
              Now() == step.wire && (sent == None <==> step.waiting)
    {
      hide Valid, Transmitted;
      sent := SendPacket(OK);
    }

    method SendNotSupported() returns (sent: Option<nat>)
      requires Valid()
      modifies `input, `output, `gCtrlCBreakFlag, `log, `schedule
      ensures Valid()
      ensures var step := Transmitted(old(Now()), [], maxPacketRetryCount);
              Now() == step.wire && (sent == None <==> step.waiting)
    {
      hide Valid, Transmitted;
      sent := SendPacket([]);
    }

    /** The command has had its effect on memory, and its reply is on the line or waits for its ack. */
    ghost predicate Did(before: Wire, e: Effect, ran: Ran)
      reads this
    {
      match e
      case Undefined => ran == Strayed && Now() == before
      case Effect(reply, mem') =>
        var step := Transmitted(before.(session := before.session.(mem := mem')), reply, maxPacketRetryCount);
        Now() == step.wire && ran == if step.waiting then Blocked else Completed
    }

    // ----- memory commands

    method TransferFromInBufToMem(length: Uintn, address: Uintn, newData: seq<Byte>) returns (ran: Ran)
      requires Valid()
      modifies `input, `output, `mem, `gCtrlCBreakFlag, `log, `schedule
      ensures Valid()
      ensures Did(old(Now()), WriteIn(old(mem), address, newData, length), ran)
    {
      hide Transmitted, Legal;
      var left, p: nat, a := length, 0, address;
      assert newData[0..] == newData;
      while left > 0
        invariant p <= |newData| && Valid()
        invariant Now() == old(Now()).(session := old(Now()).session.(mem := mem))
        invariant Store(mem, a, newData[p..], left) == Store(old(mem), address, newData, length)
      {
        left := left - 1;
        var c1 := DigitAt(newData, p);
        var c2 := DigitAt(newData, p + 1);
        assert c1 == DigitAt(newData[p..], 0) && c2 == DigitAt(newData[p..], 1);
        if c1 < 0 || c2 < 0 {
          var sent := SendError(GDB_EBADMEMDATA);
          return if sent == None then Blocked else Completed;
        }
        assert newData[p..][2..] == newData[p + 2..];
        mem := mem[a := c1 * 16 + c2];
        a, p := Up(a, 1), p + 2;
      }
      var sent := SendSuccess();
      return if sent == None then Blocked else Completed;
    }

    method TransferFromMemToOutBufAndSend(length: Uintn, address: Uintn) returns (ran: Ran)
      requires Valid()
      modifies `input, `output, `gCtrlCBreakFlag, `log, `schedule
      ensures Valid()
      ensures Did(old(Now()), ReadOut(old(mem), address, length, validAddress(address)), ran)
    {
      hide Transmitted, Legal;
      if !validAddress(address) {
        var sent := SendError(14);
        return if sent == None then Blocked else Completed;
      }
      if 2 * length + 1 > MAX_BUF_SIZE {
        // more digits than outBuffer holds
        return Strayed;
      }
      var outBuffer := new Byte[MAX_BUF_SIZE];
      var outBufPtr := FillWithHex(outBuffer, length, address);
      outBuffer[outBufPtr] := NUL;
      var text := outBuffer[..outBufPtr];
      HexIsPlain(text);
      var sent := SendPacket(text);
      return if sent == None then Blocked else Completed;
    }

    /** The loop of TransferFromMemToOutBufAndSend. */
    method FillWithHex(outBuffer: array<Byte>, length: Uintn, address: Uintn) returns (outBufPtr: nat)
      requires Total(mem) && 2 * length < outBuffer.Length
      modifies outBuffer
      ensures outBufPtr == 2 * length && outBuffer[..outBufPtr] == HexBytes(Peek(mem, address, length))
    {
      hide HexCharToInt, Peek, HexBytes, UpperDigit, ToLower, Up;
      var left, a := length, address;
      outBufPtr := 0;
      ghost var whole := HexBytes(Peek(mem, address, length));
      assert outBuffer[..0] == [];
      assert whole == [] + whole;
      while left > 0
        invariant outBufPtr == 2 * (length - left)
        invariant whole == outBuffer[..outBufPtr] + HexBytes(Peek(mem, a, left))
      {
        ghost var done := outBuffer[..outBufPtr];
        var b := mem[a];
        outBuffer[outBufPtr] := ToLower(UpperDigit(b / 16));
        outBuffer[outBufPtr + 1] := ToLower(UpperDigit(b % 16));
        assert outBuffer[..outBufPtr + 2] == done + [LowerDigit(b / 16), LowerDigit(b % 16)];
        HexOfPeek(mem, a, left);
        assert whole == done + ([LowerDigit(b / 16), LowerDigit(b % 16)] + HexBytes(Peek(mem, Up(a, 1), left - 1)));
        outBufPtr, a, left := outBufPtr + 2, Up(a, 1), left - 1;
      }
    }

    /** The loops that copy a number out of a packet, up to its separator; None if there is none. */
    method CopyUntil(packetData: seq<Byte>, start: nat, separator: Byte) returns (head: seq<Byte>, next: Option<nat>)
      requires start <= |packetData|
      ensures match SplitAt(packetData[start..], separator)
              case NoSeparator => next == None
              case Split(h, tail) =>
                next.Some? && next.value <= |packetData| && head == h && tail == packetData[next.value..]
    {
      var p := start;
      head := [];
      while p < |packetData| && packetData[p] != separator
        invariant start <= p <= |packetData|
        invariant head == packetData[start..p] && separator !in head
      {
        head := head + [packetData[p]];
        p := p + 1;
      }
      assert packetData[start..][..p - start] == head;
      IndexOfUnique(packetData[start..], separator, p - start);
      if p == |packetData| {
        return head, None;
      }
      assert packetData[start..][p - start + 1..] == packetData[p + 1..];
      return head, Some(p + 1);
    }

    method ReadFromMemory(packetData: seq<Byte>) returns (ran: Ran)
      requires Valid() && packetData != []
      modifies `input, `output, `gCtrlCBreakFlag, `log, `schedule
      ensures Valid()
      ensures Did(old(Now()), Read(old(mem), packetData, validAddress), ran)
    {
      hide Transmitted, Legal, StrHexToUintn, ReadOut;
      var addressBuffer, next := CopyUntil(packetData, 1, COMMA);
      if next == None {
        return Strayed;
      }
      if |addressBuffer| >= MAX_ADDR_SIZE {
        var sent := SendError(GDB_EBADMEMADDRBUFSIZE);
        return if sent == None then Blocked else Completed;
      }
      if |packetData| - |addressBuffer| - 2 >= MAX_LENGTH_SIZE {
        var sent := SendError(GDB_EBADMEMLENGTH);
        return if sent == None then Blocked else Completed;
      }
      var address := StrHexToUintn(addressBuffer);
      var length := StrHexToUintn(packetData[next.value..]);
      ran := TransferFromMemToOutBufAndSend(length, address);
    }

    method WriteToMemory(packetData: seq<Byte>) returns (ran: Ran)
      requires Valid() && packetData != []
      modifies `input, `output, `mem, `gCtrlCBreakFlag, `log, `schedule
      ensures Valid()
      ensures Did(old(Now()), Write(old(mem), packetData), ran)
    {
      hide Transmitted, Legal, StrHexToUintn, WriteIn;
      var addressBuffer, next := CopyUntil(packetData, 1, COMMA);
      if next == None {
        return Strayed;
      }
      var lengthBuffer, data := CopyUntil(packetData, next.value, COLON);
      if data == None {
        return Strayed;
      }
      var address := StrHexToUintn(addressBuffer);
      var length := StrHexToUintn(lengthBuffer);
      if |addressBuffer| >= MAX_ADDR_SIZE {
        var sent := SendError(GDB_EBADMEMADDRBUFSIZE);
        return if sent == None then Blocked else Completed;
      }
      if |lengthBuffer| >= MAX_LENGTH_SIZE {
        var sent := SendError(GDB_EBADMEMLENGBUFSIZE);
        return if sent == None then Blocked else Completed;
      }
      var messageLength := |packetData| - |addressBuffer| - |lengthBuffer| - 3;
      var doubled: int := 2 * (length as int);
      if messageLength != Wrap(doubled) {
        var sent := SendError(GDB_EBADMEMDATASIZE);
        return if sent == None then Blocked else Completed;
      }
      ran := TransferFromInBufToMem(length, address, packetData[data.value..]);
    }

    // ----- the File-I/O request

    method GdbCtrlCBreakMessage(errNo: Uintn)
      requires Valid()
      modifies `gCtrlCBreakFlag, `log
      ensures Valid() && gCtrlCBreakFlag && log == old(log) + [Flagged]
    {
      LegalOneMore(log, Flagged);
      gCtrlCBreakFlag := true;
      log := log + [Flagged];
    }

    /** The parser's loops: forward to the next comma, or to the end. */
    method FindComma(packet: seq<Byte>, start: nat) returns (p: nat)
      requires start <= |packet|
      ensures p <= |packet| && p == start + IndexOf(packet[start..], COMMA)
    {
      p := start;
      while p < |packet| && packet[p] != COMMA
        invariant start <= p <= |packet|
        invariant COMMA !in packet[start..p]
      {
        p := p + 1;
      }
      assert packet[start..][..p - start] == packet[start..p];
      IndexOfUnique(packet[start..], COMMA, p - start);
    }

    method GdbParseFReplyPacket(packet: seq<Byte>) returns (reply: FReply)
      requires Valid()
      modifies `gCtrlCBreakFlag, `log
      ensures reply == ParseFReply(packet) && Valid()
      ensures packet != [] && packet[0] == Code('F') ==> reply.FReply?
      ensures if reply.FReply? && reply.ctrlC then log == old(log) + [Flagged]
              else log == old(log) && gCtrlCBreakFlag == old(gCtrlCBreakFlag)
    {
      hide Valid, StrHexToUintn;
      if packet == [] || packet[0] != Code('F') {
        return NotAnFReply;
      }
      var retCode := ToIntn(StrHexToUintn(packet[1..]));
      assert packet[0..] == packet;
      var p := FindComma(packet, 0);
      if p == |packet| {
        return FReply(retCode, 0, false);
      }
      p := p + 1;
      ghost var second := packet[p..];
      var errNo := StrHexToUintn(packet[p..]);
      var q := FindComma(packet, p);
      if q == |packet| {
        return FReply(retCode, errNo, false);
      }
      q := q + 1;
      assert second[q - p..] == packet[q..];
      if q < |packet| && packet[q] == Code('C') {
        GdbCtrlCBreakMessage(errNo);
        return FReply(retCode, errNo, true);
      }
      return FReply(retCode, errNo, false);
    }

    method Perform(service: Service, command: seq<Byte>) returns (ran: Ran)
      requires Valid() && command != []
      requires service == Stores || service == Loads(validAddress)
      modifies `input, `output, `mem, `gCtrlCBreakFlag, `log, `schedule
      ensures Valid()
      ensures Did(old(Now()), service.Perform(old(mem), command), ran)
    {
      hide Valid, Write, Read, Transmitted;
      if service.Stores? {
        ran := WriteToMemory(command);
      } else {
        ran := ReadFromMemory(command);
      }
    }

    /** The do-while loop of GdbRead and GdbWrite: serve commands until the F reply. */
    method ServeCommands(packet: array<Byte>, service: Service) returns (ran: Ran, reply: seq<Byte>)
      requires Valid() && packet.Length == PACKET_SIZE
      requires service == Stores || service == Loads(validAddress)
      modifies `input, `output, `mem, `gCtrlCBreakFlag, `log, `schedule, packet
      ensures Valid()
      ensures match Served(old(Now()), service, maxPacketRetryCount)
              case WireOffTheEnd(w) => ran == Strayed && Now() == w
              case WireWaiting(w) => ran == Blocked && Now() == w
              case WireReplied(w, text) => ran == Completed && Now() == w && reply == text
    {
      hide Legal, PendingAfter, Transmitted, Received, Service.Perform, CString;
      ghost var whole := Served(Now(), service, maxPacketRetryCount);
      reply := [];
      while true
        invariant Valid() && whole == Served(Now(), service, maxPacketRetryCount)
        decreases |input|
      {
        ghost var before := Now();
        var index := ReceivePacket(packet);
        if index == None {
          return Blocked, [];
        }
        ghost var text := Received(before, Hunting, PACKET_SIZE).state.text;
        assert packet[..] == text + [NUL] + packet[|text| + 1..];
        CStringStopsAtNul(text, packet[|text| + 1..]);
        var command := CString(packet[..]);
        assert command == CString(text);
        if command != [] && command[0] == service.Letter() {
          ran := Perform(service, command);
          if ran != Completed {
            return ran, [];
          }
        } else if command != [] && command[0] == Code('F') {
          return Completed, command;
        } else {
          var sent := SendNotSupported();
          if sent == None {
            return Blocked, [];
          }
        }
      }
    }

    /** The outcome is that of the callback-free call. */
    ghost predicate AsWithoutCallbacks(o: Outcome, ran: Ran, retCode: int)
      reads this
    {
      match o
      case Stray => ran == Strayed
      case Outcome(s, _, code) =>
        && Now().session == s
        && (if code == None then ran == Blocked else ran == Completed && retCode == code.value)
    }

    /** Whatever callbacks the schedule fires, and wherever: the line, memory and the result are those of
        Exchange, which knows of no callback; the callbacks took no character; and one AddSingleStep is
        made or owed for a Ctrl-C in the reply, and none without. The first frame asks for what the arguments
        say. */
    method GdbRead(fileDescriptor: int, buffer: Uintn, count: Uintn) returns (ran: Ran, retCode: int)
      requires Valid()
      modifies `input, `output, `mem, `gCtrlCBreakFlag, `gProcessingFPacket, `log, `schedule
      ensures Valid() && old(log) <= log && Taken(log) == Taken(old(log))
      ensures var request := Request("Fread,", fileDescriptor, buffer, count);
              && AsksFor(request, "Fread", fileDescriptor % 0x1_0000_0000, buffer % 0x1_0000_0000, count % 0x1_0000_0000)
              && (maxPacketRetryCount > 0 ==> old(output) + Frame(request) <= output)
      ensures var o := Exchange(old(Now()).session, Request("Fread,", fileDescriptor, buffer, count), Stores,
                                maxPacketRetryCount);
              && AsWithoutCallbacks(o, ran, retCode)
              && (o.Outcome? ==> OneStepIf(o.ctrlC, old(log), log))
              && (ran == Completed ==> !gProcessingFPacket)
    {
      hide Legal, Exchange, Exchanged, Taken, Steps, Request, AsksFor, Frame;
      var request := Request("Fread,", fileDescriptor, buffer, count);
      RequestHasNoNul("Fread,", fileDescriptor, buffer, count);
      assert "Fread" + "," == "Fread,";
      RequestIsRead("Fread", fileDescriptor, buffer, count);
      gProcessingFPacket := true;
      ghost var w := Now();
      ExchangedRefines(w, request, Stores, maxPacketRetryCount);
      ran, retCode := Converse(request, Stores);
      if ran == Completed {
        gProcessingFPacket := false;
      }
    }

    /** GdbWrite leaves the F-packet flag as it is, so callbacks may read the line. They take characters
        if and only if one of them finds both flags down and a character waiting; if none does, the line,
        memory and the result are those of the callback-free call, under any schedule. The first frame asks
        for what the arguments say in any case. */
    method GdbWrite(fileDescriptor: int, buffer: Uintn, count: Uintn) returns (ran: Ran, retCode: int)
      requires Valid()
      modifies `input, `output, `mem, `gCtrlCBreakFlag, `log, `schedule
      ensures Valid() && old(log) <= log
      ensures var request := Request("Fwrite,", fileDescriptor, buffer, count);
              && AsksFor(request, "Fwrite", fileDescriptor % 0x1_0000_0000, buffer % 0x1_0000_0000, count % 0x1_0000_0000)
              && (maxPacketRetryCount > 0 ==> old(output) + Frame(request) <= output)
      ensures Taken(log) != Taken(old(log)) <==> exists i | |old(log)| <= i < |log| :: Exposed(log, i)
      ensures Taken(log) == Taken(old(log)) ==>
                AsWithoutCallbacks(Exchange(old(Now()).session, Request("Fwrite,", fileDescriptor, buffer, count),
                                            Loads(validAddress), maxPacketRetryCount), ran, retCode)
      ensures Ended(Exchanged(old(Now()), Request("Fwrite,", fileDescriptor, buffer, count),
                              Loads(validAddress), maxPacketRetryCount), ran, retCode)
    {
      hide Legal, Exchange, Exchanged, Taken, Steps, Exposed, Request, AsksFor, Frame;
      var request := Request("Fwrite,", fileDescriptor, buffer, count);
      RequestHasNoNul("Fwrite,", fileDescriptor, buffer, count);
      assert "Fwrite" + "," == "Fwrite,";
      RequestIsRead("Fwrite", fileDescriptor, buffer, count);
      ExchangedRefines(Now(), request, Loads(validAddress), maxPacketRetryCount);
      ran, retCode := Converse(request, Loads(validAddress));
      TakenIffExposed(old(log), log);
    }

    ghost predicate Ended(o: Course, ran: Ran, retCode: int)
      reads this
    {
      match o
      case Astray(w) => ran == Strayed && Now() == w
      case Course(w, _, code) =>
        Now() == w && (if code == None then ran == Blocked else ran == Completed && retCode == code.value)
    }

    /** What GdbRead and GdbWrite have in common: the request, the commands and the reply. */
    method Converse(request: seq<Byte>, service: Service) returns (ran: Ran, retCode: int)
      requires Valid() && NUL !in request
      requires service == Stores || service == Loads(validAddress)
      modifies `input, `output, `mem, `gCtrlCBreakFlag, `log, `schedule
      ensures Valid()
      ensures Ended(Exchanged(old(Now()), request, service, maxPacketRetryCount), ran, retCode)
    {
      hide Legal, PendingAfter, Transmitted, Served, Concluded;
      var packet := new Byte[PACKET_SIZE];
      var sent := SendPacket(request);
      if sent == None {
        return Blocked, 0;
      }
      var reply;
      ran, reply := ServeCommands(packet, service);
      if ran != Completed {
        return ran, 0;
      }
      ran, retCode := FinishRequest(reply);
    }

    /** The end of GdbRead and GdbWrite: the reply is parsed, and an error in it is told to the host. */
    method FinishRequest(packet: seq<Byte>) returns (ran: Ran, retCode: int)
      requires Valid()
      requires packet != [] && packet[0] == Code('F')
      modifies `input, `output, `gCtrlCBreakFlag, `log, `schedule
      ensures Valid()
      ensures Ended(Concluded(old(Now()), ParseFReply(packet), maxPacketRetryCount), ran, retCode)
    {
      hide Valid, Transmitted, ParseFReply, Strike;
      Interrupts();
      var reply := GdbParseFReplyPacket(packet);
      retCode := reply.retCode;
      Interrupts();
      if reply.errNo > 0 {
        var sent := SendError(reply.errNo % 0x100);
        if sent == None {
          return Blocked, retCode;
        }
      }
      Interrupts();
      ran := Completed;
    }
  }

  /** A run of GdbWrite that loses its reply: the debugger acks the request and reports one byte written,
      and a callback strikes when the report has arrived. GdbRead returns 1 on the same line under the same
      callbacks. */
  method LosingRun(mem: Memory) returns (written: Ran, read: Ran, retCode: int)
    requires Total(mem)
    ensures written == Blocked && read == Completed && retCode == 1
  {
    hide Exchanged, Exchange, Request, Frame, PrintedReply, HostReply.Text, Exposed;
    var request := Request("Fwrite,", 1, 0, 1);
    var reply := Frame(PrintedReply(false, 1, None).Text());
    var s := Session([ACK] + reply, [], mem);
    assert s.input + [] == s.input;
    var schedule := Silence(|Frame(request)|) + ([[]] + ([[|reply|]] + []));
    PlainReplyIsLost(s, request, false, 1, None, |reply|, [], Loads(_ => true), 1);
    PlainReplyIsLost(s, Request("Fread,", 1, 0, 1), false, 1, None, |reply|, [], Stores, 1);
    var writing := new Stub([ACK] + reply, mem, schedule, 1, _ => true);
    written, retCode := writing.GdbWrite(1, 0, 1);
    var reading := new Stub([ACK] + reply, mem, schedule, 1, _ => true);
    read, retCode := reading.GdbRead(1, 0, 1);
  }

  lemma RequestHasNoNul(name: string, fileDescriptor: int, buffer: Uintn, count: Uintn)
    requires name == "Fread," || name == "Fwrite,"
    ensures NUL !in Request(name, fileDescriptor, buffer, count)
  {
    hide HexPrint, AllHex, HexNum, IsHex;
    NameHasNoNul(name);
    var a, b, c := HexPrint(fileDescriptor % 0x1_0000_0000), HexPrint(buffer % 0x1_0000_0000), HexPrint(count % 0x1_0000_0000);
    HexIsPlain(a);
    HexIsPlain(b);
    HexIsPlain(c);
  }

  lemma NameHasNoNul(name: string)
    requires name == "Fread," || name == "Fwrite,"
    ensures NUL !in Ascii(name)
  {
    assert forall i | 0 <= i < |name| :: 0 < name[i] as int < 0x100;
  }

  lemma CheckSumOneMore(s: seq<Byte>, c: Byte)
    ensures CheckSum([]) == 0
    ensures CheckSum(s + [c]) == (CheckSum(s) + c) % 0x100
  {
    assert (s + [c])[..|s|] == s;
  }

  lemma NothingDrains()
    ensures forall input :: Drained(Arrived(input, 0)) == 0
    ensures forall available :: Drained(Arrived([], available)) == 0
  {
  }

  lemma DrainedStep(input: seq<Byte>, available: nat)
    requires input != [] && available > 0
    ensures Drained(Arrived(input, available)) ==
            if input[0] == CTRL_C then 1 else 1 + Drained(Arrived(input[1..], available - 1))
  {
    assert Arrived(input, available)[1..] == Arrived(input[1..], available - 1);
  }

  lemma FrameAt(payload: seq<Byte>)
    ensures var f, n := Frame(payload), |payload|;
            && |f| == n + 4
            && f[0] == DOLLAR && f[n + 1] == HASH
            && (forall i | 0 <= i < n :: f[i + 1] == payload[i])
            && f[n + 2] == UpperDigit(CheckSum(payload) / 16) && f[n + 3] == UpperDigit(CheckSum(payload) % 16)
            && f[..0] == []
  {
  }

  lemma PutNext(w: Wire, text: seq<Byte>, n: nat)
    requires n < |text|
    ensures PutAll(w, text[..n + 1]) == Put(PutAll(w, text[..n]), text[n])
    ensures PutAll(w, []) == w
  {
    assert text[..n + 1][..n] == text[..n];
  }

  lemma PutAnswer(w: Wire, c: Byte)
    ensures PutAll(w, [c]) == Put(w, c)
  {
    assert [c][..0] == [];
  }

  lemma ReceivedAtOnce(w: Wire, text: seq<Byte>, size: nat)
    ensures Received(w, Delivered(text), size) == WireHeard(Delivered(text), w)
  {
  }

  /** One character of the reception. */
  lemma ReceivedStep(w: Wire, r: Reception, size: nat)
    requires !r.Delivered?
    ensures var (c, w') := Get(w);
            Received(w, r, size) ==
            if c == None then WireHeard(r, w')
            else
              var (next, answer) := Hear(r, c.value, size);
              Received(if answer == [] then w' else PutAll(w', answer), next, size)
  {
  }
}
