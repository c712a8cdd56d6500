/** Packets of the GDB Remote Serial Protocol as SendPacket and ReceivePacket put them on the line:
    what a transmission costs in frames and acks, what a receiver makes of a byte stream, and what
    the two guarantee each other. */
module PacketLink {
  import opened Bytes
  import opened HexText

  const DOLLAR: Byte := Code('$')
  const HASH: Byte := Code('#')
  const ACK: Byte := Code('+')
  const NAK: Byte := Code('-')

  /** A payload that framing can carry: no start mark, no end mark. */
  predicate Plain(s: seq<Byte>) {
    DOLLAR !in s && HASH !in s
  }

  function Sum(s: seq<Byte>): nat {
    if s == [] then 0 else Sum(s[..|s| - 1]) + s[|s| - 1]
  }

  function CheckSum(s: seq<Byte>): Byte {
    Sum(s) % 0x100
  }

  /** `$payload#hh` */
  function Frame(payload: seq<Byte>): seq<Byte> {
    [DOLLAR] + payload + Trailer(payload)
  }

  function Trailer(payload: seq<Byte>): seq<Byte> {
    [HASH, UpperDigit(CheckSum(payload) / 16), UpperDigit(CheckSum(payload) % 16)]
  }

  // ----- sending

  datatype SendEnd = Acknowledged | GaveUp | StillWaiting

  /** How many frames were written, which input is left, and how the call ended. */
  datatype SendRun = SendRun(frames: nat, rest: seq<Byte>, end: SendEnd)

  function Sending(input: seq<Byte>, retries: nat): (run: SendRun)
    ensures run.frames <= retries
    ensures |run.rest| <= |input|
  {
    if retries == 0 then SendRun(0, input, GaveUp)
    else if input == [] then SendRun(1, [], StillWaiting)
    else if input[0] == ACK then SendRun(1, input[1..], Acknowledged)
    else
      var again := Sending(input[1..], retries - 1);
      again.(frames := again.frames + 1)
  }

  /** One frame per answer that is not '+', and one more for the '+' that ends the call. */
  lemma {:induction false} SendingUntilAck(naks: seq<Byte>, rest: seq<Byte>, retries: nat)
    requires ACK !in naks && |naks| < retries
    ensures Sending(naks + [ACK] + rest, retries) == SendRun(|naks| + 1, rest, Acknowledged)
  {
    if naks != [] {
      assert (naks + [ACK] + rest)[1..] == naks[1..] + [ACK] + rest;
      SendingUntilAck(naks[1..], rest, retries - 1);
    }
  }

  /** With nothing but refusals the sender stops after exactly the retry count. */
  lemma {:induction false} SendingGivesUp(naks: seq<Byte>, retries: nat)
    requires ACK !in naks && |naks| >= retries
    ensures Sending(naks, retries) == SendRun(retries, naks[retries..], GaveUp)
  {
    if retries > 0 {
      SendingGivesUp(naks[1..], retries - 1);
      assert naks[1..][retries - 1..] == naks[retries..];
    }
  }

  // ----- receiving

  /** Where ReceivePacket stands between two characters. */
  datatype Reception =
    | Hunting
    | Collecting(text: seq<Byte>)
    | FirstSum(text: seq<Byte>)
    | SecondSum(text: seq<Byte>, sum: Byte)
    | Delivered(text: seq<Byte>)

  /** A buffer of `size` bytes takes at most size - 1 characters before the checksum is read. */
  function Continue(text: seq<Byte>, size: nat): Reception {
    if |text| + 1 >= size then FirstSum(text) else Collecting(text)
  }

  function Accepts(text: seq<Byte>, sum0: Byte, sum1: Byte): bool {
    StrHexToUintn([sum0, sum1]) == CheckSum(text)
  }

  /** One character further; the second component is what is written in answer. */
  function Hear(r: Reception, c: Byte, size: nat): (Reception, seq<Byte>)
    requires !r.Delivered?
  {
    match r
    case Hunting =>
      (if c == DOLLAR then Continue([], size) else Hunting, [])
    case Collecting(text) =>
      (if c == DOLLAR then Continue([], size)
       else if c == HASH then FirstSum(text)
       else Continue(text + [c], size), [])
    case FirstSum(text) =>
      (SecondSum(text, c), [])
    case SecondSum(text, sum) =>
      if Accepts(text, sum, c) then (Delivered(text), [ACK]) else (Hunting, [NAK])
  }

  /** The receiver after all it can read: state, answers written, input left unread. */
  datatype Heard = Heard(state: Reception, answers: seq<Byte>, rest: seq<Byte>) {
    /** The same outcome when `earlier` had already been answered. */
    function After(earlier: seq<Byte>): Heard {
      this.(answers := earlier + answers)
    }
  }

  function Listen(r: Reception, input: seq<Byte>, size: nat): (h: Heard)
    ensures |h.rest| <= |input|
    ensures !h.state.Delivered? ==> h.rest == []
    ensures h.state.Delivered? && !r.Delivered? ==> |h.rest| < |input|
    decreases |input|
  {
    if r.Delivered? || input == [] then Heard(r, [], input)
    else
      var (next, answer) := Hear(r, input[0], size);
      Listen(next, input[1..], size).After(answer)
  }

  /** Listening to one stream and then to another is listening to both. */
  lemma {:induction false} ListenThrough(r: Reception, a: seq<Byte>, b: seq<Byte>, size: nat)
    requires !Listen(r, a, size).state.Delivered?
    ensures var h := Listen(r, a, size);
            Listen(r, a + b, size) == Listen(h.state, b, size).After(h.answers)
    decreases |a|
  {
    if a == [] {
      assert a + b == b;
      assert Listen(r, b, size).After([]) == Listen(r, b, size);
    } else {
      assert (a + b)[1..] == a[1..] + b;
      var (next, answer) := Hear(r, a[0], size);
      ListenThrough(next, a[1..], b, size);
      var h := Listen(next, a[1..], size);
      AfterAfter(Listen(h.state, b, size), h.answers, answer);
    }
  }

  lemma AfterAfter(h: Heard, first: seq<Byte>, zeroth: seq<Byte>)
    ensures h.After(first).After(zeroth) == h.After(zeroth + first)
  {
    assert zeroth + (first + h.answers) == zeroth + first + h.answers;
  }

  /** What follows a delivered packet stays unread. */
  lemma {:induction false} ListenStops(r: Reception, a: seq<Byte>, b: seq<Byte>, size: nat)
    requires Listen(r, a, size).state.Delivered?
    ensures var h := Listen(r, a, size);
            Listen(r, a + b, size) == Heard(h.state, h.answers, h.rest + b)
    decreases |a|
  {
    if r.Delivered? {
    } else {
      assert (a + b)[1..] == a[1..] + b;
      var (next, answer) := Hear(r, a[0], size);
      ListenStops(next, a[1..], b, size);
    }
  }

  /** Characters without '$' before a packet change nothing. */
  lemma {:induction false} NoiseIsSkipped(noise: seq<Byte>, size: nat)
    requires DOLLAR !in noise
    ensures Listen(Hunting, noise, size) == Heard(Hunting, [], [])
  {
    if noise != [] {
      NoiseIsSkipped(noise[1..], size);
    }
  }

  lemma PlainTail(text: seq<Byte>)
    requires text != [] && Plain(text)
    ensures text[0] != DOLLAR && text[0] != HASH && Plain(text[1..])
  {
    assert forall d | d in text[1..] :: d in text;
  }

  /** Plain text is collected as long as the buffer has room for one more character. */
  lemma {:induction false} TextIsCollected(before: seq<Byte>, text: seq<Byte>, size: nat)
    requires Plain(text) && |before| + |text| + 1 < size
    ensures Listen(Collecting(before), text, size) == Heard(Collecting(before + text), [], [])
    decreases |text|
  {
    if text == [] {
      assert before + text == before;
    } else {
      var c, more := text[0], text[1..];
      PlainTail(text);
      assert Hear(Collecting(before), c, size) == (Collecting(before + [c]), []);
      hide Hear, Plain;
      TextIsCollected(before + [c], more, size);
      assert before + [c] + more == before + text;
    }
  }

  /** A packet as it may arrive: the text and the checksum digits need not agree. */
  function Packet(text: seq<Byte>, sum0: Byte, sum1: Byte): seq<Byte> {
    [DOLLAR] + text + [HASH, sum0, sum1]
  }

  lemma FrameIsPacket(payload: seq<Byte>)
    ensures Frame(payload) ==
            Packet(payload, UpperDigit(CheckSum(payload) / 16), UpperDigit(CheckSum(payload) % 16))
  {
  }

  /** Where a receiver can meet a '$' and start over: between packets or inside one. */
  predicate Startable(r: Reception) {
    r.Hunting? || r.Collecting?
  }

  /** What a packet that fits does to a receiver, wherever it was interrupted. */
  lemma PacketIsJudged(r: Reception, text: seq<Byte>, sum0: Byte, sum1: Byte, size: nat)
    requires Startable(r) && Plain(text) && |text| + 1 < size
    ensures Listen(r, Packet(text, sum0, sum1), size) ==
            if Accepts(text, sum0, sum1) then Heard(Delivered(text), [ACK], []) else Heard(Hunting, [NAK], [])
  {
    var tail := [HASH, sum0, sum1];
    StartIsCollected(r, text, size);
    ListenThrough(r, [DOLLAR] + text, tail, size);
    TrailerIsJudged(text, sum0, sum1, size);
  }

  lemma StartIsCollected(r: Reception, text: seq<Byte>, size: nat)
    requires Startable(r) && Plain(text) && |text| + 1 < size
    ensures Listen(r, [DOLLAR] + text, size) == Heard(Collecting(text), [], [])
  {
    assert ([DOLLAR] + text)[1..] == text;
    assert Hear(r, DOLLAR, size) == (Collecting([]), []);
    TextIsCollected([], text, size);
    assert [] + text == text;
  }

  lemma TrailerIsJudged(text: seq<Byte>, sum0: Byte, sum1: Byte, size: nat)
    ensures Listen(Collecting(text), [HASH, sum0, sum1], size) ==
            if Accepts(text, sum0, sum1) then Heard(Delivered(text), [ACK], []) else Heard(Hunting, [NAK], [])
  {
    assert [HASH, sum0, sum1][1..] == [sum0, sum1];
    assert [sum0, sum1][1..] == [sum1];
    assert Hear(Collecting(text), HASH, size) == (FirstSum(text), []);
    assert Hear(FirstSum(text), sum0, size) == (SecondSum(text, sum0), []);
    assert Listen(SecondSum(text, sum0), [sum1], size) ==
           if Accepts(text, sum0, sum1) then Heard(Delivered(text), [ACK], []) else Heard(Hunting, [NAK], []);
    assert Listen(FirstSum(text), [sum0, sum1], size) == Listen(SecondSum(text, sum0), [sum1], size);
  }

  /** Starts of packets that were given up before their '#'. */
  function Abandoned(starts: seq<seq<Byte>>): seq<Byte> {
    if starts == [] then [] else [DOLLAR] + starts[0] + Abandoned(starts[1..])
  }

  predicate FitUnfinished(starts: seq<seq<Byte>>, size: nat) {
    forall s | s in starts :: Plain(s) && |s| + 1 < size
  }

  lemma {:induction false} AbandonedLeaveStartable(r: Reception, starts: seq<seq<Byte>>, size: nat)
    requires Startable(r) && FitUnfinished(starts, size)
    ensures var h := Listen(r, Abandoned(starts), size);
            Startable(h.state) && h.answers == [] && h.rest == []
    decreases |starts|
  {
    if starts != [] {
      StartIsCollected(r, starts[0], size);
      ListenThrough(r, [DOLLAR] + starts[0], Abandoned(starts[1..]), size);
      AbandonedLeaveStartable(Collecting(starts[0]), starts[1..], size);
    }
  }

  /** A frame that fits is delivered wherever the receiver was interrupted. */
  lemma FrameIsHeard(r: Reception, payload: seq<Byte>, rest: seq<Byte>, size: nat)
    requires Startable(r) && Plain(payload) && |payload| + 2 <= size
    ensures Listen(r, Frame(payload) + rest, size) == Heard(Delivered(payload), [ACK], rest)
  {
    TwoDigits(CheckSum(payload));
    FrameIsPacket(payload);
    PacketIsJudged(r, payload, UpperDigit(CheckSum(payload) / 16), UpperDigit(CheckSum(payload) % 16), size);
    ListenStops(r, Frame(payload), rest, size);
    assert [] + rest == rest;
  }

  /** Round trip with resynchronisation: after noise and abandoned starts, a frame is delivered as it
      was sent, is answered by one '+', and the line is read exactly to its end. */
  lemma FrameRoundTrip(noise: seq<Byte>, starts: seq<seq<Byte>>, payload: seq<Byte>, rest: seq<Byte>, size: nat)
    requires DOLLAR !in noise && FitUnfinished(starts, size)
    requires Plain(payload) && |payload| + 2 <= size
    ensures Listen(Hunting, noise + (Abandoned(starts) + (Frame(payload) + rest)), size) ==
            Heard(Delivered(payload), [ACK], rest)
  {
    var tail := Frame(payload) + rest;
    NoiseIsSkipped(noise, size);
    ListenThrough(Hunting, noise, Abandoned(starts) + tail, size);
    AbandonedLeaveStartable(Hunting, starts, size);
    ListenThrough(Hunting, Abandoned(starts), tail, size);
    FrameIsHeard(Listen(Hunting, Abandoned(starts), size).state, payload, rest, size);
  }

  // ----- what a delivery proves about the line

  predicate EndsWith(s: seq<Byte>, tail: seq<Byte>) {
    |tail| <= |s| && s[|s| - |tail|..] == tail
  }

  /** The stream ends in a complete packet, or in one whose text filled the buffer, so that the two
      characters after the text were read as its checksum. */
  ghost predicate ClosedBy(stream: seq<Byte>, text: seq<Byte>, sum0: Byte, sum1: Byte, size: nat) {
    && Accepts(text, sum0, sum1)
    && Plain(text)
    && (if |text| + 1 < size then EndsWith(stream, Packet(text, sum0, sum1))
        else |text| <= size && EndsWith(stream, [DOLLAR] + text + [sum0, sum1]))
  }

  /** What each state remembers of the stream read so far. */
  ghost predicate Remembers(stream: seq<Byte>, r: Reception, size: nat) {
    match r
    case Hunting => true
    case Collecting(text) => Plain(text) && |text| + 1 < size && EndsWith(stream, [DOLLAR] + text)
    case FirstSum(text) => Plain(text) && EndsWith(stream, Opened(text, size)) && |text| <= size
    case SecondSum(text, sum) => Plain(text) && EndsWith(stream, Opened(text, size) + [sum]) && |text| <= size
    case Delivered(text) => exists sum0, sum1 :: ClosedBy(stream, text, sum0, sum1, size)
  }

  function Opened(text: seq<Byte>, size: nat): seq<Byte> {
    if |text| + 1 < size then [DOLLAR] + text + [HASH] else [DOLLAR] + text
  }

  lemma EndsWithOneMore(s: seq<Byte>, tail: seq<Byte>, c: Byte)
    requires EndsWith(s, tail)
    ensures EndsWith(s + [c], tail + [c])
  {
    assert (s + [c])[|s| - |tail|..] == s[|s| - |tail|..] + [c];
  }

  lemma StartRemembered(stream: seq<Byte>, size: nat)
    ensures Remembers(stream + [DOLLAR], Continue([], size), size)
  {
    var s := stream + [DOLLAR];
    assert s[|s| - 1..] == [DOLLAR] == [DOLLAR] + [];
  }

  lemma TextRemembered(stream: seq<Byte>, text: seq<Byte>, c: Byte, size: nat)
    requires Remembers(stream, Collecting(text), size) && c != DOLLAR
    ensures Remembers(stream + [c], Hear(Collecting(text), c, size).0, size)
  {
    EndsWithOneMore(stream, [DOLLAR] + text, c);
    assert [DOLLAR] + text + [c] == [DOLLAR] + (text + [c]);
  }

  lemma SumRemembered(stream: seq<Byte>, text: seq<Byte>, sum: Byte, c: Byte, size: nat)
    requires Remembers(stream, SecondSum(text, sum), size)
    ensures Remembers(stream + [c], Hear(SecondSum(text, sum), c, size).0, size)
  {
    hide Accepts, EndsWith;
    EndsWithOneMore(stream, Opened(text, size) + [sum], c);
    if Accepts(text, sum, c) {
      if |text| + 1 < size {
        assert Opened(text, size) + [sum] + [c] == Packet(text, sum, c);
      } else {
        assert Opened(text, size) + [sum] + [c] == [DOLLAR] + text + [sum, c];
      }
      assert ClosedBy(stream + [c], text, sum, c, size);
    }
  }

  lemma HearRemembers(stream: seq<Byte>, r: Reception, c: Byte, size: nat)
    requires !r.Delivered? && Remembers(stream, r, size)
    ensures Remembers(stream + [c], Hear(r, c, size).0, size)
  {
    match r
    case Hunting =>
      StartRemembered(stream, size);
    case Collecting(text) =>
      if c == DOLLAR { StartRemembered(stream, size); } else { TextRemembered(stream, text, c, size); }
    case FirstSum(text) =>
      EndsWithOneMore(stream, Opened(text, size), c);
    case SecondSum(text, sum) =>
      SumRemembered(stream, text, sum, c, size);
  }

  /** Only packets are delivered: when ReceivePacket returns, what it has read ends in a packet with
      that text and a matching checksum. */
  lemma {:induction false} DeliveredMeansPacket(stream: seq<Byte>, r: Reception, input: seq<Byte>, size: nat)
    requires Remembers(stream, r, size)
    ensures var h := Listen(r, input, size);
            Remembers(stream + input[..|input| - |h.rest|], h.state, size)
    decreases |input|
  {
    if r.Delivered? || input == [] {
      assert stream + input[..|input| - |Listen(r, input, size).rest|] == stream;
    } else {
      var next := Hear(r, input[0], size).0;
      var k := |input| - |Listen(next, input[1..], size).rest|;
      HearRemembers(stream, r, input[0], size);
      DeliveredMeansPacket(stream + [input[0]], next, input[1..], size);
      assert stream + [input[0]] + input[1..][..k - 1] == stream + input[..k];
    }
  }

  /** The exact capacity: a frame is delivered and read to its end if and only if its payload leaves
      two bytes of the buffer free, one for the end mark's turn in the loop and one for the NUL. */
  lemma CapacityIsExact(payload: seq<Byte>, size: nat)
    requires Plain(payload)
    ensures Listen(Hunting, Frame(payload), size) == Heard(Delivered(payload), [ACK], []) <==> |payload| + 2 <= size
  {
    var f := Frame(payload);
    if |payload| + 2 <= size {
      FrameIsHeard(Hunting, payload, [], size);
      assert f + [] == f;
    } else {
      DeliveredMeansPacket([], Hunting, f, size);
      assert [] + f[..|f|] == f;
      forall sum0, sum1 ensures !ClosedBy(f, payload, sum0, sum1, size) {
        FrameHasOneStart(payload, sum0, sum1);
      }
    }
  }

  lemma FrameHasOneStart(payload: seq<Byte>, sum0: Byte, sum1: Byte)
    requires Plain(payload)
    ensures Frame(payload)[1..] != [DOLLAR] + payload + [sum0, sum1]
  {
    assert Frame(payload)[1..][0] == Frame(payload)[1] == if payload == [] then HASH else payload[0];
    assert ([DOLLAR] + payload + [sum0, sum1])[0] == DOLLAR;
  }

  // ----- error detection

  lemma {:induction false} SumOfChange(s: seq<Byte>, i: nat, c: Byte)
    requires i < |s|
    ensures Sum(s[i := c]) == Sum(s) + c - s[i]
  {
    var n := |s| - 1;
    if i == n {
      assert s[i := c][..n] == s[..n];
    } else {
      assert s[i := c][..n] == s[..n][i := c];
      SumOfChange(s[..n], i, c);
    }
  }

  /** Any single wrong payload byte that leaves the framing intact is refused, whatever came before. */
  lemma OneWrongByteIsRefused(r: Reception, payload: seq<Byte>, i: nat, c: Byte, size: nat)
    requires Startable(r) && Plain(payload) && |payload| + 2 <= size
    requires i < |payload| && c != payload[i] && c != DOLLAR && c != HASH
    ensures Listen(r, Frame(payload)[1 + i := c], size) == Heard(Hunting, [NAK], [])
  {
    hide Listen, StrHexToUintn, Sum;
    var sum := CheckSum(payload);
    var wrong := payload[i := c];
    SumOfChange(payload, i, c);
    TwoDigits(sum);
    assert Frame(payload)[1 + i := c] == Packet(wrong, UpperDigit(sum / 16), UpperDigit(sum % 16));
    PacketIsJudged(r, wrong, UpperDigit(sum / 16), UpperDigit(sum % 16), size);
  }
}
