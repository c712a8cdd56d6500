/** SendPacket and ReceivePacket at the two ends of a line that damages some frames. Each side moves
    one character at a time, in any order a scheduler likes. */
module StopAndWait {
  import opened Bytes
  import opened HexText
  import opened PacketLink

  /** A frame the line has damaged: framing intact, checksum wrong. */
  datatype Damaged = Damaged(text: seq<Byte>, sum0: Byte, sum1: Byte) {
    predicate Detectable(size: nat) {
      Plain(text) && |text| + 2 <= size && !Accepts(text, sum0, sum1)
    }
  }

  /** What is sent, what the line does to the first attempts, and the constants of the two sides. */
  datatype Setup = Setup(payload: seq<Byte>, damage: seq<Damaged>, size: nat, retries: nat) {
    predicate Valid() {
      && Plain(payload) && |payload| + 2 <= size
      && (forall d | d in damage :: d.Detectable(size))
    }

    /** What arrives of attempt k, counting from 0. */
    function Arrival(k: nat): seq<Byte> {
      if k < |damage| then Packet(damage[k].text, damage[k].sum0, damage[k].sum1) else Frame(payload)
    }
  }

  /** SendPacket at the top of its loop, inside a frame, waiting for the answer, or returned. */
  datatype Sender =
    | Trying(left: nat)
    | Emitting(todo: seq<Byte>, left: nat)
    | Awaiting(left: nat)
    | Returned(acknowledged: bool)

  datatype Net = Net(sender: Sender, attempts: nat, wire: seq<Byte>,
                     receiver: Reception, back: seq<Byte>, answered: seq<Byte>)

  function Start(s: Setup): Net {
    Net(Trying(s.retries), 0, [], Hunting, [], [])
  }

  datatype Move = SenderMoves | ReceiverMoves

  predicate Enabled(n: Net, m: Move) {
    match m
    case SenderMoves => !n.sender.Returned? && (n.sender.Awaiting? ==> n.back != [])
    case ReceiverMoves => !n.receiver.Delivered? && n.wire != []
  }

  function SenderNext(s: Setup, n: Net): Net
    requires Enabled(n, SenderMoves)
  {
    match n.sender
    case Trying(left) =>
      if left == 0 then n.(sender := Returned(false))
      else n.(sender := Emitting(s.Arrival(n.attempts), left - 1), attempts := n.attempts + 1)
    case Emitting(todo, left) =>
      if todo == [] then n.(sender := Awaiting(left))
      else n.(sender := Emitting(todo[1..], left), wire := n.wire + [todo[0]])
    case Awaiting(left) =>
      n.(sender := if n.back[0] == ACK then Returned(true) else Trying(left), back := n.back[1..])
  }

  function ReceiverNext(s: Setup, n: Net): Net
    requires Enabled(n, ReceiverMoves)
  {
    var (next, answer) := Hear(n.receiver, n.wire[0], s.size);
    n.(receiver := next, wire := n.wire[1..], back := n.back + answer, answered := n.answered + answer)
  }

  function Next(s: Setup, n: Net, m: Move): Net
    requires Enabled(n, m)
  {
    match m
    case SenderMoves => SenderNext(s, n)
    case ReceiverMoves => ReceiverNext(s, n)
  }

  /** A run: every move enabled when it is made. */
  ghost predicate Run(s: Setup, n: Net, moves: seq<Move>, last: Net)
    decreases |moves|
  {
    if moves == [] then n == last
    else Enabled(n, moves[0]) && Run(s, Next(s, n, moves[0]), moves[1..], last)
  }

  // ----- the invariant

  function Pending(n: Net): seq<Byte> {
    n.wire + (if n.sender.Emitting? then n.sender.todo else [])
  }

  /** While the latest attempt, number k, is under way: j characters of it are heard, the rest is pending, and the only
      answers not yet read are the ones those j characters drew. */
  ghost predicate Midway(s: Setup, n: Net, j: nat)
    requires n.attempts > 0
  {
    var k := n.attempts - 1;
    var a := s.Arrival(k);
    && j <= |a|
    && Pending(n) == a[j..]
    && n.receiver == Listen(Hunting, a[..j], s.size).state
    && n.back == Listen(Hunting, a[..j], s.size).answers
    && n.answered == Repeat([NAK], k) + n.back
  }

  ghost predicate Inv(s: Setup, n: Net) {
    && n.attempts <= |s.damage| + 1
    && n.attempts <= s.retries
    && match n.sender
       case Trying(left) =>
         && left == s.retries - n.attempts && n.attempts <= |s.damage|
         && n.wire == [] && n.back == [] && n.receiver == Hunting
         && n.answered == Repeat([NAK], n.attempts)
       case Emitting(todo, left) =>
         left == s.retries - n.attempts && n.attempts > 0 && exists j: nat :: Midway(s, n, j)
       case Awaiting(left) =>
         left == s.retries - n.attempts && n.attempts > 0 && exists j: nat :: Midway(s, n, j)
       case Returned(acknowledged) => Concluded(s, n, acknowledged)
  }

  /** The two ways a run can end. */
  ghost predicate Concluded(s: Setup, n: Net, acknowledged: bool) {
    && acknowledged == (|s.damage| < s.retries)
    && n.wire == [] && n.back == []
    && (if acknowledged then
          && n.attempts == |s.damage| + 1
          && n.receiver == Delivered(s.payload)
          && n.answered == Repeat([NAK], |s.damage|) + [ACK]
        else
          && n.attempts == s.retries
          && n.receiver == Hunting
          && n.answered == Repeat([NAK], s.retries))
  }

  // ----- one attempt

  /** The verdict on attempt k comes with its last character and not before. */
  lemma ArrivalIsJudged(s: Setup, k: nat)
    requires s.Valid()
    ensures var a := s.Arrival(k);
            Listen(Hunting, a, s.size) ==
            if k < |s.damage| then Heard(Hunting, [NAK], []) else Heard(Delivered(s.payload), [ACK], [])
  {
    if k < |s.damage| {
      assert s.damage[k] in s.damage;
      PacketIsJudged(Hunting, s.damage[k].text, s.damage[k].sum0, s.damage[k].sum1, s.size);
    } else {
      FrameIsHeard(Hunting, s.payload, [], s.size);
      assert Frame(s.payload) + [] == Frame(s.payload);
    }
  }

  lemma PrefixIsSilent(s: Setup, k: nat, j: nat)
    requires s.Valid() && j < |s.Arrival(k)|
    ensures Listen(Hunting, s.Arrival(k)[..j], s.size).answers == []
    ensures !Listen(Hunting, s.Arrival(k)[..j], s.size).state.Delivered?
  {
    FrameIsPacket(s.payload);
    var text, sum0, sum1 :=
      if k < |s.damage| then s.damage[k].text else s.payload,
      if k < |s.damage| then s.damage[k].sum0 else UpperDigit(CheckSum(s.payload) / 16),
      if k < |s.damage| then s.damage[k].sum1 else UpperDigit(CheckSum(s.payload) % 16);
    assert Plain(text) && |text| + 2 <= s.size by {
      if k < |s.damage| { assert s.damage[k] in s.damage; }
    }
    PacketPrefixIsSilent(text, sum0, sum1, j, s.size);
  }

  lemma PacketPrefixIsSilent(text: seq<Byte>, sum0: Byte, sum1: Byte, j: nat, size: nat)
    requires Plain(text) && |text| + 2 <= size && j < |Packet(text, sum0, sum1)|
    ensures var h := Listen(Hunting, Packet(text, sum0, sum1)[..j], size);
            h.answers == [] && !h.state.Delivered?
  {
    var open := [DOLLAR] + text + [HASH, sum0];
    StartIsCollected(Hunting, text, size);
    ListenThrough(Hunting, [DOLLAR] + text, [HASH, sum0], size);
    assert [HASH, sum0][1..] == [sum0];
    assert Listen(FirstSum(text), [sum0], size) == Heard(SecondSum(text, sum0), [], []);
    assert Listen(Hunting, open, size) == Heard(SecondSum(text, sum0), [], []);
    assert Packet(text, sum0, sum1)[..j] == open[..j];
    SilencePassesToPrefix(Hunting, open, j, size);
  }

  lemma SilencePassesToPrefix(r: Reception, input: seq<Byte>, j: nat, size: nat)
    requires j <= |input|
    requires Listen(r, input, size).answers == [] && !Listen(r, input, size).state.Delivered?
    ensures Listen(r, input[..j], size).answers == [] && !Listen(r, input[..j], size).state.Delivered?
  {
    assert input[..j] + input[j..] == input;
    if Listen(r, input[..j], size).state.Delivered? {
      ListenStops(r, input[..j], input[j..], size);
    } else {
      ListenThrough(r, input[..j], input[j..], size);
    }
  }

  // ----- the invariant is kept by every move

  lemma HearOneMore(r: Reception, a: seq<Byte>, j: nat, size: nat)
    requires j < |a| && !Listen(r, a[..j], size).state.Delivered?
    ensures var h := Listen(r, a[..j], size);
            var (next, answer) := Hear(h.state, a[j], size);
            Listen(r, a[..j + 1], size) == Heard(next, h.answers + answer, [])
  {
    var h := Listen(r, a[..j], size);
    var (next, answer) := Hear(h.state, a[j], size);
    assert a[..j + 1] == a[..j] + [a[j]];
    ListenThrough(r, a[..j], [a[j]], size);
    assert [a[j]][1..] == [];
    assert Listen(h.state, [a[j]], size) == Heard(next, answer + [], []);
    assert answer + [] == answer;
  }

  lemma FirstOfPending(wire: seq<Byte>, todo: seq<Byte>, a: seq<Byte>, j: nat)
    requires j <= |a| && wire != [] && wire + todo == a[j..]
    ensures j < |a| && a[j] == wire[0] && wire[1..] + todo == a[j + 1..]
  {
    assert (wire + todo)[0] == wire[0] && a[j..] != [];
    assert wire[1..] + todo == (wire + todo)[1..];
  }

  lemma ReceiverKeeps(s: Setup, n: Net, j: nat)
    requires s.Valid() && n.attempts > 0 && Midway(s, n, j) && Enabled(n, ReceiverMoves)
    ensures Midway(s, ReceiverNext(s, n), j + 1)
  {
    var k := n.attempts - 1;
    var n' := ReceiverNext(s, n);
    var (next, answer) := Hear(n.receiver, n.wire[0], s.size);
    FirstOfPending(n.wire, if n.sender.Emitting? then n.sender.todo else [], s.Arrival(k), j);
    assert Pending(n') == s.Arrival(k)[j + 1..];
    assert n'.attempts == n.attempts && n'.receiver == next && n'.back == n.back + answer;
    assert n'.answered == Repeat([NAK], k) + (n.back + answer);
    PrefixIsSilent(s, k, j);
    HearOneMore(Hunting, s.Arrival(k), j, s.size);
  }

  lemma EmittingKeepsPending(s: Setup, n: Net)
    requires n.sender.Emitting?
    ensures Pending(SenderNext(s, n)) == Pending(n)
  {
    var wire, todo := n.wire, n.sender.todo;
    if todo == [] {
      assert wire + [] == wire + todo;
    } else {
      assert [todo[0]] + todo[1..] == todo;
      assert wire + [todo[0]] + todo[1..] == wire + ([todo[0]] + todo[1..]);
    }
  }

  lemma EmittingKeeps(s: Setup, n: Net, j: nat)
    requires n.sender.Emitting? && n.attempts > 0 && Midway(s, n, j)
    ensures Midway(s, SenderNext(s, n), j)
  {
    hide Setup.Arrival, Frame, Listen, Repeat;
    EmittingKeepsPending(s, n);
    hide Pending;
    var n' := SenderNext(s, n);
    assert n'.attempts == n.attempts && n'.receiver == n.receiver && n'.back == n.back && n'.answered == n.answered;
  }

  lemma TryingKeeps(s: Setup, n: Net)
    requires s.Valid() && Inv(s, n) && n.sender.Trying?
    ensures Inv(s, SenderNext(s, n))
  {
    hide Setup.Arrival;
    var n' := SenderNext(s, n);
    if n.sender.left > 0 {
      var a := s.Arrival(n.attempts);
      assert a[..0] == [] && a[0..] == a;
      assert Pending(n') == [] + a;
      assert Repeat([NAK], n.attempts) + [] == Repeat([NAK], n.attempts);
      assert Midway(s, n', 0);
    }
  }

  lemma AwaitingKeeps(s: Setup, n: Net)
    requires s.Valid() && Inv(s, n) && n.sender.Awaiting? && n.back != []
    ensures Inv(s, SenderNext(s, n))
  {
    var k := n.attempts - 1;
    var j: nat :| Midway(s, n, j);
    var a := s.Arrival(k);
    if j < |a| {
      PrefixIsSilent(s, k, j);
      assert false;
    }
    assert a[..j] == a && a[j..] == [];
    ArrivalIsJudged(s, k);
    assert n.wire + [] == n.wire;
  }

  lemma MoveKeepsInv(s: Setup, n: Net, m: Move)
    requires s.Valid() && Inv(s, n) && Enabled(n, m)
    ensures Inv(s, Next(s, n, m))
  {
    if m == ReceiverMoves {
      var j: nat :| Midway(s, n, j);
      ReceiverKeeps(s, n, j);
    } else {
      match n.sender
      case Trying(_) => TryingKeeps(s, n);
      case Emitting(_, _) =>
        var j: nat :| Midway(s, n, j);
        EmittingKeeps(s, n, j);
      case Awaiting(_) => AwaitingKeeps(s, n);
    }
  }

  lemma {:induction false} RunKeepsInv(s: Setup, n: Net, moves: seq<Move>, last: Net)
    requires s.Valid() && Inv(s, n) && Run(s, n, moves, last)
    ensures Inv(s, last)
    decreases |moves|
  {
    if moves != [] {
      MoveKeepsInv(s, n, moves[0]);
      RunKeepsInv(s, Next(s, n, moves[0]), moves[1..], last);
    }
  }

  // ----- progress

  function Longest(s: Setup, k: nat): (len: nat)
    ensures forall i | 0 <= i < k :: |s.Arrival(i)| <= len
  {
    if k == 0 then 0
    else if |s.Arrival(k - 1)| > Longest(s, k - 1) then |s.Arrival(k - 1)| else Longest(s, k - 1)
  }

  /** What one attempt can cost at most. */
  function AttemptCost(s: Setup): nat {
    2 * Longest(s, |s.damage| + 1) + 5
  }

  function AttemptsCost(s: Setup, left: nat): nat {
    if left == 0 then 0 else AttemptsCost(s, left - 1) + AttemptCost(s)
  }

  function Remaining(s: Setup, n: Net): nat {
    |n.wire| +
    match n.sender
    case Trying(left) => AttemptsCost(s, left) + 1
    case Emitting(todo, left) => AttemptsCost(s, left) + 2 * |todo| + 3
    case Awaiting(left) => AttemptsCost(s, left) + 2
    case Returned(_) => 0
  }

  lemma MoveUsesUp(s: Setup, n: Net, m: Move)
    requires Enabled(n, m) && (n.sender.Trying? ==> n.attempts <= |s.damage|)
    ensures Remaining(s, Next(s, n, m)) < Remaining(s, n)
  {
    hide Setup.Arrival;
    var n' := Next(s, n, m);
    if m == ReceiverMoves {
      assert n'.sender == n.sender && |n'.wire| == |n.wire| - 1;
    } else if n.sender.Trying? && n.sender.left > 0 {
      assert |s.Arrival(n.attempts)| <= Longest(s, |s.damage| + 1);
      assert n'.wire == n.wire && n'.sender.left == n.sender.left - 1;
    } else if n.sender.Emitting? {
      assert n'.sender.left == n.sender.left;
    }
  }

  lemma {:induction false} RunIsBounded(s: Setup, n: Net, moves: seq<Move>, last: Net)
    requires s.Valid() && Inv(s, n) && Run(s, n, moves, last)
    ensures |moves| + Remaining(s, last) <= Remaining(s, n)
    decreases |moves|
  {
    if moves != [] {
      MoveKeepsInv(s, n, moves[0]);
      MoveUsesUp(s, n, moves[0]);
      RunIsBounded(s, Next(s, n, moves[0]), moves[1..], last);
    }
  }

  /** No answer yet means that the verdict on the attempt is still to be heard. */
  lemma UnansweredIsUnheard(s: Setup, n: Net, j: nat)
    requires s.Valid() && n.attempts > 0 && Midway(s, n, j)
    requires n.sender.Awaiting? && n.back == []
    ensures Enabled(n, ReceiverMoves)
  {
    hide Listen, Repeat, Setup.Arrival;
    var k := n.attempts - 1;
    var a := s.Arrival(k);
    ArrivalIsJudged(s, k);
    assert a[..|a|] == a;
    assert j < |a|;
    PrefixIsSilent(s, k, j);
    assert n.wire == Pending(n) == a[j..];
  }

  /** A side is only ever stuck when the whole exchange is over. */
  lemma NeverStuckMidway(s: Setup, n: Net)
    requires s.Valid() && Inv(s, n) && !n.sender.Returned?
    ensures exists m :: Enabled(n, m)
  {
    hide Midway;
    if n.sender.Awaiting? && n.back == [] {
      var j: nat :| Midway(s, n, j);
      UnansweredIsUnheard(s, n, j);
      assert Enabled(n, ReceiverMoves);
    } else {
      assert Enabled(n, SenderMoves);
    }
  }

  /** Stop and wait, for every order of the two sides' steps. No run is longer than a bound fixed at
      the start, and a run that cannot go on has ended as it should: with n damaged attempts and a
      retry count above n, n + 1 frames were sent, the answers were n times '-' and then one '+', the
      payload was delivered, and nothing is left on the line; otherwise the sender has stopped after
      exactly the retry count and nothing was delivered. */
  lemma StopAndWaitWorks(s: Setup, moves: seq<Move>, last: Net)
    requires s.Valid() && Run(s, Start(s), moves, last)
    ensures |moves| <= Remaining(s, Start(s))
    ensures !Enabled(last, SenderMoves) && !Enabled(last, ReceiverMoves) ==>
              last.sender.Returned? && Concluded(s, last, last.sender.acknowledged)
    ensures last.receiver.Delivered? ==> last.receiver.text == s.payload && |s.damage| < s.retries
  {
    RunKeepsInv(s, Start(s), moves, last);
    RunIsBounded(s, Start(s), moves, last);
    if !last.sender.Returned? {
      NeverStuckMidway(s, last);
    }
    if last.receiver.Delivered? {
      DeliveryIsRight(s, last);
    }
  }

  lemma DeliveryIsRight(s: Setup, n: Net)
    requires s.Valid() && Inv(s, n) && n.receiver.Delivered?
    ensures n.receiver.text == s.payload && |s.damage| < s.retries
  {
    hide Midway;
    if !n.sender.Returned? {
      var j: nat :| Midway(s, n, j);
      DeliveredMidway(s, n, j);
    }
  }

  lemma DeliveredMidway(s: Setup, n: Net, j: nat)
    requires s.Valid() && 0 < n.attempts <= s.retries && n.attempts <= |s.damage| + 1
    requires Midway(s, n, j) && n.receiver.Delivered?
    ensures n.receiver.text == s.payload && |s.damage| < s.retries
  {
    hide Listen, Repeat, Setup.Arrival;
    var k := n.attempts - 1;
    var a := s.Arrival(k);
    if j < |a| {
      PrefixIsSilent(s, k, j);
    }
    assert j == |a| && a[..j] == a;
    ArrivalIsJudged(s, k);
  }

  lemma {:induction false} RefusalsHoldNoAck(k: nat)
    ensures |Repeat([NAK], k)| == k && ACK !in Repeat([NAK], k)
  {
    if k > 0 {
      RefusalsHoldNoAck(k - 1);
    }
  }

  /** The sender of a finished run has done what SendPacket does on the answers it was given. */
  lemma RunIsOneOfSendPacket(s: Setup, n: Net)
    requires n.sender.Returned? && Concluded(s, n, n.sender.acknowledged)
    ensures Sending(n.answered, s.retries) ==
            SendRun(n.attempts, [], if n.sender.acknowledged then Acknowledged else GaveUp)
  {
    if n.sender.acknowledged {
      RefusalsHoldNoAck(|s.damage|);
      SendingUntilAck(Repeat([NAK], |s.damage|), [], s.retries);
      assert n.answered + [] == n.answered;
    } else {
      RefusalsHoldNoAck(s.retries);
      SendingGivesUp(n.answered, s.retries);
    }
  }
}
