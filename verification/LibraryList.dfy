/** The library list the debugger reads piece by piece: binary escaping of a reply, and the enumerator
    that resumes at the saved table entry on every request. */
module LibraryList {
  import opened Bytes
  import opened HexText
  import opened PacketLink
  import opened RemoteMemory
  import opened FileIo
  import opened Interleaving
  import opened GdbStub

  // ----- binary escaping

  const ESCAPE: Byte := 0x7D
  const STAR: Byte := 0x2A

  predicate Special(c: Byte) {
    c == ESCAPE || c == HASH || c == DOLLAR || c == STAR
  }

  /** Exclusive or with 0x20. */
  function Flip(c: Byte): (d: Byte)
    ensures c % 0x20 == d % 0x20 && c / 0x40 == d / 0x40 && c / 0x20 != d / 0x20
  {
    if (c / 0x20) % 2 == 1 then c - 0x20 else c + 0x20
  }

  function Escape(s: seq<Byte>): seq<Byte> {
    if s == [] then [] else (if Special(s[0]) then [ESCAPE, Flip(s[0])] else [s[0]]) + Escape(s[1..])
  }

  /** The reading the protocol gives to escaped data. */
  function Unescape(s: seq<Byte>): seq<Byte> {
    if s == [] then []
    else if s[0] == ESCAPE && |s| > 1 then [Flip(s[1])] + Unescape(s[2..])
    else [s[0]] + Unescape(s[1..])
  }

  lemma {:induction false} EscapeIsInvertible(s: seq<Byte>)
    ensures Unescape(Escape(s)) == s
  {
    if s != [] {
      EscapeIsInvertible(s[1..]);
      var e, later := Escape(s), Escape(s[1..]);
      if Special(s[0]) {
        assert e[0] == ESCAPE && e[1] == Flip(s[0]) && e[2..] == later;
        assert Flip(Flip(s[0])) == s[0];
      } else {
        assert e[0] == s[0] && e[1..] == later;
      }
    }
  }

  lemma {:induction false} EscapeIsFrameSafe(s: seq<Byte>)
    ensures Plain(Escape(s)) && STAR !in Escape(s)
    ensures NUL !in s ==> NUL !in Escape(s)
    ensures |s| <= |Escape(s)| <= 2 * |s|
  {
    if s != [] {
      EscapeIsFrameSafe(s[1..]);
    }
  }

  /** Nothing else is escaped. */
  lemma {:induction false} EscapeLeavesTheRest(s: seq<Byte>)
    requires forall c | c in s :: c !in [0x7D, 0x23, 0x24, 0x2A]
    ensures Escape(s) == s
  {
    hide Escape, Special;
    if s == [] {
      EscapeStep([], 0);
    } else {
      var c, more := s[0], s[1..];
      assert c in s && forall d | d in more :: d in s;
      assert s[0..] == s && !Special(c) by {
        assert c !in [0x7D, 0x23, 0x24, 0x2A];
        NotSpecial(c);
      }
      EscapeStep(s, 0);
      EscapeLeavesTheRest(more);
      assert [c] + more == s;
    }
  }

  lemma NotSpecial(c: Byte)
    ensures Special(c) <==> c in [0x7D, 0x23, 0x24, 0x2A]
  {
  }

  /** Escape, frame, receive and unescape together give the text back, for any receive buffer with room
      for it, wherever the receiver was interrupted. */
  lemma EscapedTextSurvivesTheLink(r: Reception, s: seq<Byte>, rest: seq<Byte>, size: nat)
    requires Startable(r) && |Escape(s)| + 2 <= size
    ensures var h := Listen(r, Frame(Escape(s)) + rest, size);
            h.state.Delivered? && Unescape(h.state.text) == s && h.answers == [ACK] && h.rest == rest
  {
    EscapeIsFrameSafe(s);
    EscapeIsInvertible(s);
    FrameIsHeard(r, Escape(s), rest, size);
  }

  // ----- the table

  /** What the enumerator sees in a slot of the debug image table: nothing, an image it does not list,
      or a loaded image with or without a symbol file name. */
  datatype Slot = Hole | Unlisted | Loaded(pdb: Option<seq<Byte>>, loadAddress: Uintn)

  const HEADER: string := "<library-list>\n"
  const TRAILER: string := "</library-list>\n"

  /** The size of gXferLibraryBuffer; AsciiSPrint fills at most one byte less. */
  const XFER_BUFFER_SIZE: nat := 2000

  function LibraryXml(pdb: seq<Byte>, loadAddress: Uintn): seq<Byte> {
    Ascii("  <library name=\"") + CString(pdb) + Ascii("\"><segment address=\"0x") + HexPrint(loadAddress) +
    Ascii("\"/></library>\n")
  }

  /** The line of XML for a slot that has one and whose line fits the buffer with room to spare. */
  function Line(slot: Slot): (xml: Option<seq<Byte>>)
    ensures xml.Some? ==> 0 < |xml.value| < XFER_BUFFER_SIZE - 1
  {
    if slot.Loaded? && slot.pdb.Some? then
      var xml := LibraryXml(slot.pdb.value, slot.loadAddress);
      if |xml| < XFER_BUFFER_SIZE - 1 then Some(xml) else None
    else None
  }

  const QUOTE: Byte := 0x22

  /** What a debugger makes of a line: between its quotes stand the file name and, behind "0x", the
      address. */
  predicate Describes(xml: seq<Byte>, name: seq<Byte>, address: Uintn) {
    match SplitAt(xml, QUOTE)
    case NoSeparator => false
    case Split(first, xml1) =>
      match SplitAt(xml1, QUOTE)
      case NoSeparator => false
      case Split(second, xml2) =>
        match SplitAt(xml2, QUOTE)
        case NoSeparator => false
        case Split(third, xml3) =>
          match SplitAt(xml3, QUOTE)
          case NoSeparator => false
          case Split(fourth, rest) =>
            && first == Ascii("  <library name=") && second == name
            && third == Ascii("><segment address=")
            && Ascii("0x") <= fourth && StrHexToUintn(fourth[2..]) == address && StrHexToUintn(fourth) == address
            && rest == Ascii("/></library>\n")
  }

  /** A listed image is described by its own name and address: exactly the loaded images with a symbol file
      name have a line, if it is short enough, and a name without a quote is read back from it. */
  lemma ListedImageIsDescribed(slot: Slot)
    ensures Line(slot).Some? <==>
            slot.Loaded? && slot.pdb.Some? && |CString(slot.pdb.value)| + |HexPrint(slot.loadAddress)| + 53 < 1999
    ensures Line(slot).Some? && QUOTE !in CString(slot.pdb.value) ==>
              Describes(Line(slot).value, CString(slot.pdb.value), slot.loadAddress)
  {
    hide Ascii, HexPrint, Describes, CString;
    if slot.Loaded? && slot.pdb.Some? {
      LineLength(slot.pdb.value, slot.loadAddress);
      if QUOTE !in CString(slot.pdb.value) {
        LineIsDescription(slot.pdb.value, slot.loadAddress);
      }
    }
  }

  lemma LineLength(pdb: seq<Byte>, loadAddress: Uintn)
    ensures |LibraryXml(pdb, loadAddress)| == |CString(pdb)| + |HexPrint(loadAddress)| + 53
  {
  }

  lemma LineIsDescription(pdb: seq<Byte>, loadAddress: Uintn)
    requires QUOTE !in CString(pdb)
    ensures Describes(LibraryXml(pdb, loadAddress), CString(pdb), loadAddress)
  {
    hide HexPrint, CString, SplitAt, StrHexToUintn;
    var name, digits := CString(pdb), HexPrint(loadAddress);
    var first, third, rest := Ascii("  <library name="), Ascii("><segment address="), Ascii("/></library>\n");
    var address := Ascii("0x") + digits;
    LineParts(pdb, loadAddress);
    AddressIsRead(loadAddress);
    TagsHaveNoQuote();
    hide Ascii, LibraryXml;
    var xml3 := address + [QUOTE] + rest;
    var xml2 := third + [QUOTE] + xml3;
    var xml1 := name + [QUOTE] + xml2;
    SplitAtFirst(first, QUOTE, xml1);
    SplitAtFirst(name, QUOTE, xml2);
    SplitAtFirst(third, QUOTE, xml3);
    SplitAtFirst(address, QUOTE, rest);
    assert address[2..] == digits;
  }

  lemma TagsHaveNoQuote()
    ensures QUOTE !in Ascii("  <library name=") && QUOTE !in Ascii("><segment address=")
    ensures |Ascii("0x")| == 2
  {
  }

  lemma LineParts(pdb: seq<Byte>, loadAddress: Uintn)
    ensures LibraryXml(pdb, loadAddress) ==
            Ascii("  <library name=") + [QUOTE] + (CString(pdb) + [QUOTE] + (Ascii("><segment address=") + [QUOTE] +
            (Ascii("0x") + HexPrint(loadAddress) + [QUOTE] + Ascii("/></library>\n"))))
  {
    hide HexPrint, CString, Ascii;
    var n, d := CString(pdb), HexPrint(loadAddress);
    var first, third, zero, rest := Ascii("  <library name="), Ascii("><segment address="), Ascii("0x"), Ascii("/></library>\n");
    LiteralParts();
    Regroup(first, [QUOTE], n, third, zero, d, rest);
  }

  lemma Regroup(first: seq<Byte>, q: seq<Byte>, n: seq<Byte>, third: seq<Byte>, zero: seq<Byte>, d: seq<Byte>, rest: seq<Byte>)
    ensures (first + q) + n + (q + third + q + zero) + d + (q + rest) ==
            first + q + (n + q + (third + q + (zero + d + q + rest)))
  {
    var tail := zero + d + q + rest;
    assert zero + d + (q + rest) == tail;
    var half := q + third + q + zero;
    assert half + d + (q + rest) == q + third + q + tail;
    assert q + third + q + tail == q + (third + q + tail);
    assert n + (half + d + (q + rest)) == n + q + (third + q + tail);
    assert (first + q) + n + half + d + (q + rest) == (first + q) + (n + (half + d + (q + rest)));
  }

  lemma LiteralParts()
    ensures Ascii("  <library name=\"") == Ascii("  <library name=") + [QUOTE]
    ensures Ascii("\"><segment address=\"0x") == [QUOTE] + Ascii("><segment address=") + [QUOTE] + Ascii("0x")
    ensures Ascii("\"/></library>\n") == [QUOTE] + Ascii("/></library>\n")
  {
    AsciiConcat("  <library name=", "\"");
    AsciiConcat("\"", "><segment address=");
    AsciiConcat("\"><segment address=", "\"");
    AsciiConcat("\"><segment address=\"", "0x");
    AsciiConcat("\"", "/></library>\n");
    assert "  <library name=" + "\"" == "  <library name=\"";
    assert "\"" + "><segment address=" == "\"><segment address=";
    assert "\"><segment address=" + "\"" == "\"><segment address=\"";
    assert "\"><segment address=\"" + "0x" == "\"><segment address=\"0x";
    assert "\"" + "/></library>\n" == "\"/></library>\n";
    assert Ascii("\"") == [QUOTE];
    hide Ascii;
  }

  lemma AsciiConcat(s: string, t: string)
    ensures Ascii(s + t) == Ascii(s) + Ascii(t)
  {
  }

  lemma AddressIsRead(loadAddress: Uintn)
    ensures var address := Ascii("0x") + HexPrint(loadAddress);
            && StrHexToUintn(HexPrint(loadAddress)) == loadAddress && StrHexToUintn(address) == loadAddress
            && QUOTE !in address
  {
    hide StrHexToUintn, HexPrint, HexNum;
    var digits := HexPrint(loadAddress);
    var zero, x := Code('0'), Code('x');
    PrintedIsRead(loadAddress);
    ParserTakesPrefix([], [zero], x, digits, []);
    assert Ascii("0x") + digits == [] + ([zero] + ([x] + (digits + [])));
    assert !IsHex(QUOTE);
  }

  /** The reference: the lines of the eligible slots, in table order. */
  function Lines(table: seq<Slot>): seq<seq<Byte>> {
    if table == [] then []
    else
      var later := Lines(table[1..]);
      if Line(table[0]).Some? then [Line(table[0]).value] + later else later
  }

  function NextEligible(table: seq<Slot>, i: nat): (j: nat)
    requires i <= |table|
    ensures i <= j <= |table|
    ensures j < |table| ==> Line(table[j]).Some?
    decreases |table| - i
  {
    if i == |table| || Line(table[i]).Some? then i else NextEligible(table, i + 1)
  }

  lemma {:induction false} LinesFromNext(table: seq<Slot>, i: nat)
    requires i <= |table|
    ensures var j := NextEligible(table, i);
            Lines(table[i..]) == if j == |table| then [] else [Line(table[j]).value] + Lines(table[j + 1..])
    decreases |table| - i
  {
    hide Line;
    if i < |table| {
      var rest := table[i..];
      assert rest[0] == table[i] && rest[1..] == table[i + 1..];
      if Line(table[i]) == None {
        LinesFromNext(table, i + 1);
      }
    }
  }

  // ----- the enumerator

  /** The three globals: the offset expected next, the saved index, and the saved pointer, here as a
      position in the table (None for a null pointer). */
  datatype Cursor = Cursor(offset: nat, entry: nat, pointer: Option<nat>)

  /** The saved pointer designates the slot the saved index counts. */
  predicate LockStep(c: Cursor, table: seq<Slot>) {
    c.entry <= |table| && (c.pointer.Some? ==> c.pointer.value == c.entry)
  }

  datatype Reply = Refused | Piece(text: seq<Byte>) | Last(text: seq<Byte>)

  function Payload(r: Reply): seq<Byte> {
    match r
    case Refused => ErrorText(31)
    case Piece(text) => Escape(text)
    case Last(text) => Escape(text)
  }

  /** The error a request out of step is answered by. */
  lemma RefusalText()
    ensures Payload(Refused) == Ascii("E1F")
  {
  }

  /** One request. `tableKnown` says whether the image table's pointer is not null. */
  function Answer(c: Cursor, table: seq<Slot>, tableKnown: bool, offset: nat): (Cursor, Reply)
    requires LockStep(c, table)
  {
    if offset != c.offset then (c.(offset := 0), Refused)
    else if offset == 0 then
      (Cursor(1 + |Ascii(HEADER)|, 0, if tableKnown then Some(0) else None), Piece(Ascii(HEADER)))
    else
      var j := if c.pointer.Some? then NextEligible(table, c.entry) else |table|;
      if c.pointer.Some? && j < |table| then
        var xml := Line(table[j]).value;
        (Cursor(c.offset + 1 + |xml|, j + 1, Some(j + 1)), Piece(xml))
      else
        (Cursor(0, if c.pointer.Some? then j else c.entry, if c.pointer.Some? then Some(j) else None), Last(Ascii(TRAILER)))
  }

  /** Every request, in step or out of step, keeps pointer and index together; the offset grows with
      every piece, goes back to 0 with the last one, and goes back to 0 on any request out of step. */
  lemma CursorInvariant(c: Cursor, table: seq<Slot>, tableKnown: bool, offset: nat)
    requires LockStep(c, table)
    ensures var (c', reply) := Answer(c, table, tableKnown, offset);
            && LockStep(c', table)
            && (reply.Refused? <==> offset != c.offset)
            && (if reply.Piece? then c'.offset == c.offset + 1 + |reply.text| else c'.offset == 0)
  {
  }

  /** `n` requests, each for the offset the stub expects. */
  function InStep(c: Cursor, table: seq<Slot>, tableKnown: bool, n: nat): (Cursor, seq<Reply>)
    requires LockStep(c, table)
    decreases n
  {
    if n == 0 then (c, [])
    else
      var (c', reply) := Answer(c, table, tableKnown, c.offset);
      CursorInvariant(c, table, tableKnown, c.offset);
      var (c'', replies) := InStep(c', table, tableKnown, n - 1);
      (c'', [reply] + replies)
  }

  function Pieces(texts: seq<seq<Byte>>): (r: seq<Reply>)
    ensures |r| == |texts|
  {
    if texts == [] then [] else [Piece(texts[0])] + Pieces(texts[1..])
  }

  function Document(table: seq<Slot>, tableKnown: bool): seq<Reply> {
    [Piece(Ascii(HEADER))] + Pieces(if tableKnown then Lines(table) else []) + [Last(Ascii(TRAILER))]
  }

  lemma {:induction false} LinesFollow(c: Cursor, table: seq<Slot>, tableKnown: bool)
    requires LockStep(c, table) && c.offset > 0 && c.pointer.Some?
    ensures var lines := Lines(table[c.entry..]);
            var (c', replies) := InStep(c, table, tableKnown, |lines| + 1);
            && c'.offset == 0 && LockStep(c', table)
            && replies == Pieces(lines) + [Last(Ascii(TRAILER))]
    decreases |table| - c.entry
  {
    hide Line, NextEligible, Ascii;
    var (c', reply) := Answer(c, table, tableKnown, c.offset);
    var lines := Lines(table[c.entry..]);
    CursorInvariant(c, table, tableKnown, c.offset);
    LinesFromNext(table, c.entry);
    if lines == [] {
      assert InStep(c', table, tableKnown, 0) == (c', []);
    } else {
      assert lines[1..] == Lines(table[c'.entry..]);
      LinesFollow(c', table, tableKnown);
    }
  }

  /** The enumerator refines the filter: from any state that expects offset 0, as many requests as there
      are eligible slots and two more, each for the offset expected, bring the header, each eligible
      line once in table order, and the trailer, and leave the stub expecting 0 again. */
  lemma EnumeratorRefinesFilter(c: Cursor, table: seq<Slot>, tableKnown: bool)
    requires LockStep(c, table) && c.offset == 0
    ensures var document := Document(table, tableKnown);
            var (c', replies) := InStep(c, table, tableKnown, |document|);
            replies == document && c'.offset == 0 && LockStep(c', table)
  {
    var (c', reply) := Answer(c, table, tableKnown, 0);
    CursorInvariant(c, table, tableKnown, 0);
    var lines := if tableKnown then Lines(table) else [];
    assert |Document(table, tableKnown)| == |lines| + 2;
    if tableKnown {
      assert table[0..] == table;
      LinesFollow(c', table, tableKnown);
    } else {
      var (c'', last) := Answer(c', table, tableKnown, c'.offset);
      assert InStep(c'', table, tableKnown, 0) == (c'', []);
      assert InStep(c', table, tableKnown, 1) == (c'', [Last(Ascii(TRAILER))] + []);
    }
  }

  /** A request out of step is a clean restart: whatever the enumeration had reached, the whole document
      follows from offset 0. */
  lemma OutOfStepRestarts(c: Cursor, table: seq<Slot>, tableKnown: bool, offset: nat)
    requires LockStep(c, table) && offset != c.offset
    ensures var (c', reply) := Answer(c, table, tableKnown, offset);
            && reply == Refused && c'.offset == 0
            && InStep(c', table, tableKnown, |Document(table, tableKnown)|).1 == Document(table, tableKnown)
  {
    EnumeratorRefinesFilter(Answer(c, table, tableKnown, offset).0, table, tableKnown);
  }

  function DocumentBytes(replies: seq<Reply>): nat {
    if replies == [] then 0
    else (if replies[0].Refused? then 0 else |replies[0].text|) + DocumentBytes(replies[1..])
  }

  predicate AllPieces(replies: seq<Reply>) {
    replies == [] || (replies[0].Piece? && AllPieces(replies[1..]))
  }

  /** The offset expected is not the number of document bytes handed out: a type byte is counted with
      every piece, though the reply does not carry it. So a client that asks for the offset after the
      bytes it has is in step exactly as long as it has none. */
  lemma {:induction false} OffsetCountsTypeBytes(c: Cursor, table: seq<Slot>, tableKnown: bool, n: nat)
    requires LockStep(c, table)
    requires AllPieces(InStep(c, table, tableKnown, n).1)
    ensures var (c', replies) := InStep(c, table, tableKnown, n);
            && c'.offset == c.offset + DocumentBytes(replies) + n
            && (c.offset == 0 ==> (c'.offset == DocumentBytes(replies) <==> n == 0))
    decreases n
  {
    if n > 0 {
      var (c', reply) := Answer(c, table, tableKnown, c.offset);
      CursorInvariant(c, table, tableKnown, c.offset);
      var later := InStep(c', table, tableKnown, n - 1).1;
      assert ([reply] + later)[1..] == later;
      OffsetCountsTypeBytes(c', table, tableKnown, n - 1);
    }
  }

  /** A reply and its NUL fit the output buffer. The source tests the length of a line before it is
      escaped, and nothing after. */
  predicate Fits(r: Reply) {
    |Payload(r)| < MAX_BUF_SIZE
  }

  /** Exactly the tables whose lines fit after escaping can be read through to the end. */
  lemma DocumentFits(table: seq<Slot>, tableKnown: bool)
    ensures (forall r | r in Document(table, tableKnown) :: Fits(r)) <==>
            (tableKnown ==> forall slot | slot in table && Line(slot).Some? :: |Escape(Line(slot).value)| < MAX_BUF_SIZE)
  {
    hide Line, Escape, Document, Lines, Ascii;
    FixedTextFits();
    DocumentHolds(table, tableKnown);
    var d := Document(table, tableKnown);
    if tableKnown {
      LinesHold(table);
      if forall r | r in d :: Fits(r) {
        forall slot | slot in table && Line(slot).Some? ensures |Escape(Line(slot).value)| < MAX_BUF_SIZE {
          assert Piece(Line(slot).value) in d && Fits(Piece(Line(slot).value));
        }
      }
    }
  }

  lemma DocumentHolds(table: seq<Slot>, tableKnown: bool)
    ensures forall r :: r in Document(table, tableKnown) <==>
              || r == Piece(Ascii(HEADER)) || r == Last(Ascii(TRAILER))
              || (tableKnown && r.Piece? && r.text in Lines(table))
  {
    hide Ascii, Lines;
    PiecesHold(if tableKnown then Lines(table) else []);
  }

  lemma {:induction false} PiecesHold(texts: seq<seq<Byte>>)
    ensures forall r :: r in Pieces(texts) <==> r.Piece? && r.text in texts
  {
    if texts != [] {
      PiecesHold(texts[1..]);
      assert forall s :: s in texts <==> s == texts[0] || s in texts[1..];
    }
  }

  lemma {:induction false} LinesHold(table: seq<Slot>)
    ensures forall line :: line in Lines(table) <==> exists slot :: slot in table && Line(slot) == Some(line)
  {
    hide Line;
    if table != [] {
      LinesHold(table[1..]);
      assert forall s :: s in table <==> s == table[0] || s in table[1..];
    }
  }

  /** A symbol file name of a thousand '#': its line passes the test and does not fit when escaped. */
  lemma EscapedLineOverruns()
    ensures var slot := Loaded(Some(Repeat([HASH], 1000)), 0);
            Line(slot).Some? && !Fits(Piece(Line(slot).value))
  {
    hide Ascii;
    var marks := Repeat([HASH], 1000);
    MarksAreKept(1000);
    CStringOfPlain(marks);
    var before, behind := Ascii("  <library name=\""), Ascii("\"><segment address=\"0x") + HexPrint(0) + Ascii("\"/></library>\n");
    assert |HexPrint(0)| == 1;
    assert LibraryXml(marks, 0) == before + (marks + behind);
    EscapeConcat(before, marks + behind);
    EscapeConcat(marks, behind);
    EscapeIsFrameSafe(before);
    EscapeIsFrameSafe(behind);
  }

  lemma {:induction false} MarksAreKept(n: nat)
    ensures |Repeat([HASH], n)| == n && NUL !in Repeat([HASH], n)
    ensures |Escape(Repeat([HASH], n))| == 2 * n
  {
    if n > 0 {
      MarksAreKept(n - 1);
      EscapeConcat(Repeat([HASH], n - 1), [HASH]);
      assert Escape([HASH]) == [ESCAPE, Flip(HASH)] + Escape([]);
    }
  }

  lemma {:induction false} EscapeConcat(a: seq<Byte>, b: seq<Byte>)
    ensures Escape(a + b) == Escape(a) + Escape(b)
  {
    if a == [] {
      assert a + b == b;
    } else {
      assert (a + b)[1..] == a[1..] + b;
      EscapeConcat(a[1..], b);
    }
  }

  class LibraryServer {
    const stub: Stub
    const table: seq<Slot>
    const tableKnown: bool
    var gPacketqXferLibraryOffset: nat
    var gEfiDebugImageTableEntry: nat
    var gDebugTable: Option<nat>
    const gOutBuffer: array<Byte>

    constructor (stub: Stub, table: seq<Slot>, tableKnown: bool)
      ensures Valid() && At() == Cursor(0, 0, None)
      ensures this.stub == stub && this.table == table && this.tableKnown == tableKnown
    {
      this.stub, this.table, this.tableKnown := stub, table, tableKnown;
      gPacketqXferLibraryOffset, gEfiDebugImageTableEntry, gDebugTable := 0, 0, None;
      gOutBuffer := new Byte[MAX_BUF_SIZE];
    }

    ghost function At(): Cursor
      reads this
    {
      Cursor(gPacketqXferLibraryOffset, gEfiDebugImageTableEntry, gDebugTable)
    }

    ghost predicate Valid()
      reads this
    {
      LockStep(At(), table) && gOutBuffer.Length == MAX_BUF_SIZE
    }

    /** The escape loop; None if it writes past the end of the buffer. */
    method EscapeIntoBuffer(str: seq<Byte>) returns (end: Option<nat>, count: nat)
      requires gOutBuffer.Length == MAX_BUF_SIZE
      modifies gOutBuffer
      ensures end.Some? <==> |Escape(str)| < MAX_BUF_SIZE
      ensures end.Some? ==> end.value == |Escape(str)| && gOutBuffer[..end.value] == Escape(str) && count == 1 + |str|
    {
      hide Escape;
      var i, p: nat := 0, 0;
      count := 1;
      assert str[0..] == str && gOutBuffer[..0] == [];
      assert Escape(str) == [] + Escape(str);
      while i < |str|
        invariant i <= |str| && p <= gOutBuffer.Length && count == 1 + i
        invariant Escape(str) == gOutBuffer[..p] + Escape(str[i..])
      {
        var c := str[i];
        ghost var done := gOutBuffer[..p];
        EscapeStep(str, i);
        assert |Escape(str)| == p + |Escape(str[i..])|;
        var room := if c == ESCAPE || c == HASH || c == DOLLAR || c == STAR then 2 else 1;
        if gOutBuffer.Length < p + room {
          return None, count;
        }
        if c == ESCAPE || c == HASH || c == DOLLAR || c == STAR {
          gOutBuffer[p] := ESCAPE;
          p := p + 1;
          c := Flip(c);
        }
        gOutBuffer[p] := c;
        p := p + 1;
        assert gOutBuffer[..p] == done + if Special(str[i]) then [ESCAPE, Flip(str[i])] else [str[i]];
        i, count := i + 1, count + 1;
      }
      EscapeStep([], 0);
      assert str[i..] == [];
      end := if p < gOutBuffer.Length then Some(p) else None;
    }

    /** The escaped text is sent if it fits; the count is that of the text before escaping, and one more
        for a type byte that the escape loop has overwritten. */
    method XferObjectReadResponse(str: seq<Byte>) returns (count: nat, ran: Ran)
      requires gOutBuffer.Length == MAX_BUF_SIZE && NUL !in str
      requires stub.Valid()
      modifies gOutBuffer, stub
      ensures stub.Valid()
      ensures if |Escape(str)| < MAX_BUF_SIZE then
                stub.Did(old(stub.Now()), Effect(Escape(str), old(stub.mem)), ran) && count == 1 + |str|
              else
                ran == Strayed
    {
      hide Stub.Valid, Transmitted, Escape;
      var end;
      end, count := EscapeIntoBuffer(str);
      if end == None {
        return count, Strayed;
      }
      var p := end.value;
      gOutBuffer[p] := NUL;
      EscapeIsFrameSafe(str);
      assert gOutBuffer[..p] == Escape(str);
      var sent := stub.SendPacket(gOutBuffer[..p]);
      ran := if sent == None then Blocked else Completed;
    }

    /** One request: the reply is that of Answer if it fits the output buffer, and once it is acknowledged or given up so are the
        offset, the index and the pointer. */
    method QxferLibrary(offset: nat, length: nat) returns (ran: Ran)
      requires Valid() && stub.Valid()
      modifies this, gOutBuffer, stub
      ensures Valid() && stub.Valid()
      ensures var (c, reply) := Answer(old(At()), table, tableKnown, offset);
              && (if Fits(reply) then stub.Did(old(stub.Now()), Effect(Payload(reply), old(stub.mem)), ran)
                  else ran == Strayed)
              && (ran == Completed ==> At() == c)
    {
      hide Stub.Valid, Transmitted, Escape, Line;
      FixedTextFits();
      var count;
      if offset != gPacketqXferLibraryOffset {
        var sent := stub.SendError(31);
        if sent == None {
          return Blocked;
        }
        gPacketqXferLibraryOffset := 0;
        return Completed;
      }
      if offset == 0 {
        count, ran := XferObjectReadResponse(Ascii(HEADER));
        if ran == Completed {
          gPacketqXferLibraryOffset := gPacketqXferLibraryOffset + count;
          gDebugTable := if tableKnown then Some(0) else None;
          gEfiDebugImageTableEntry := 0;
        }
        return;
      }
      if gDebugTable != None {
        var xml := SkipToEligible();
        if xml != None {
          count, ran := XferObjectReadResponse(xml.value);
          if ran == Completed {
            gPacketqXferLibraryOffset := gPacketqXferLibraryOffset + count;
            gEfiDebugImageTableEntry := gEfiDebugImageTableEntry + 1;
            gDebugTable := Some(gDebugTable.value + 1);
          }
          return;
        }
      }
      count, ran := XferObjectReadResponse(Ascii(TRAILER));
      if ran == Completed {
        gPacketqXferLibraryOffset := 0;
      }
    }

    /** The table loop: it stops at the next slot that has a line of XML, or behind the table. */
    method SkipToEligible() returns (xml: Option<seq<Byte>>)
      requires Valid() && gDebugTable.Some?
      modifies `gEfiDebugImageTableEntry, `gDebugTable
      ensures Valid()
      ensures var j := NextEligible(table, old(gEfiDebugImageTableEntry));
              && gEfiDebugImageTableEntry == j && gDebugTable == Some(j)
              && (if j < |table| then xml == Line(table[j]) && NUL !in xml.value
                  else xml == None)
    {
      hide LibraryXml, Escape;
      while gEfiDebugImageTableEntry < |table|
        invariant Valid() && gDebugTable.Some?
        invariant NextEligible(table, gEfiDebugImageTableEntry) == NextEligible(table, old(gEfiDebugImageTableEntry))
        decreases |table| - gEfiDebugImageTableEntry
      {
        var slot := table[gDebugTable.value];
        if slot.Loaded? && slot.pdb.Some? {
          var line := LibraryXml(slot.pdb.value, slot.loadAddress);
          var size := if |line| < XFER_BUFFER_SIZE then |line| else XFER_BUFFER_SIZE - 1;
          if size != 0 && size != XFER_BUFFER_SIZE - 1 {
            LibraryXmlHasNoNul(slot.pdb.value, slot.loadAddress);
            return Some(line);
          }
        }
        gEfiDebugImageTableEntry := gEfiDebugImageTableEntry + 1;
        gDebugTable := Some(gDebugTable.value + 1);
      }
      return None;
    }
  }

  lemma EscapeStep(s: seq<Byte>, i: nat)
    requires i <= |s|
    ensures i < |s| ==>
              Escape(s[i..]) == (if Special(s[i]) then [ESCAPE, Flip(s[i])] else [s[i]]) + Escape(s[i + 1..])
    ensures Escape([]) == []
  {
    if i < |s| {
      assert s[i..][0] == s[i] && s[i..][1..] == s[i + 1..];
    }
  }

  lemma LiteralHasNoNul(s: string)
    requires forall c | c in s :: 0 < c as int < 0x100
    ensures NUL !in Ascii(s)
  {
    assert forall i | 0 <= i < |s| :: s[i] in s;
  }

  lemma LibraryXmlHasNoNul(pdb: seq<Byte>, loadAddress: Uintn)
    ensures NUL !in LibraryXml(pdb, loadAddress) && LibraryXml(pdb, loadAddress) != []
  {
    LiteralHasNoNul("  <library name=\"");
    LiteralHasNoNul("\"><segment address=\"0x");
    LiteralHasNoNul("\"/></library>\n");
    HexIsPlain(HexPrint(loadAddress));
  }

  lemma FixedTextFits()
    ensures NUL !in Ascii(HEADER) && |Escape(Ascii(HEADER))| < MAX_BUF_SIZE
    ensures NUL !in Ascii(TRAILER) && |Escape(Ascii(TRAILER))| < MAX_BUF_SIZE
  {
    LiteralHasNoNul(HEADER);
    LiteralHasNoNul(TRAILER);
    EscapeIsFrameSafe(Ascii(HEADER));
    EscapeIsFrameSafe(Ascii(TRAILER));
  }
}
