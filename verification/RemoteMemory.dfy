/** The 'm' and 'M' commands as functions of the packet and of memory: what is stored, what is
    answered, and in which order the checks are made. */
module RemoteMemory {
  import opened Bytes
  import opened HexText
  import opened PacketLink

  const MAX_BUF_SIZE: nat := 2000
  const MAX_ADDR_SIZE: nat := 32
  const MAX_LENGTH_SIZE: nat := 32

  const GDB_EBADMEMADDRBUFSIZE: Byte := 11
  const GDB_EBADMEMLENGBUFSIZE: Byte := 12
  const GDB_EBADMEMLENGTH: Byte := 13
  const GDB_EBADMEMDATA: Byte := 14
  const GDB_EBADMEMDATASIZE: Byte := 15

  const COMMA: Byte := Code(',')
  const COLON: Byte := Code(':')

  // ----- memory

  type Memory = map<int, Byte>

  /** Every 64-bit address holds a byte. */
  ghost predicate Total(mem: Memory) {
    forall a: Uintn :: a in mem
  }

  /** The address `k` bytes up, wrapping as a pointer does. */
  function Up(a: Uintn, k: Uintn): Uintn {
    if a + k < UINTN_RANGE then a + k else a + k - UINTN_RANGE
  }

  /** How far `x` lies above `a`. */
  function Above(a: Uintn, x: Uintn): Uintn {
    if x >= a then x - a else x - a + UINTN_RANGE
  }

  /** `data` stored from `addr` upwards. */
  function Poke(mem: Memory, addr: Uintn, data: seq<Byte>): (m: Memory)
    ensures Total(mem) ==> Total(m)
    decreases |data|
  {
    if data == [] then mem else Poke(mem[addr := data[0]], Up(addr, 1), data[1..])
  }

  /** Poke changes the bytes of [addr, addr + |data|) to the data and no others. */
  lemma {:induction false} PokeAt(mem: Memory, addr: Uintn, data: seq<Byte>, x: Uintn)
    requires Total(mem) && |data| < UINTN_RANGE
    ensures Poke(mem, addr, data)[x] == if Above(addr, x) < |data| then data[Above(addr, x)] else mem[x]
    decreases |data|
  {
    if data != [] {
      var mem' := mem[addr := data[0]];
      assert Total(mem');
      PokeAt(mem', Up(addr, 1), data[1..], x);
      if x != addr {
        assert Above(Up(addr, 1), x) == Above(addr, x) - 1;
      } else {
        assert Above(Up(addr, 1), x) == UINTN_RANGE - 1;
      }
    }
  }

  function Peek(mem: Memory, addr: Uintn, length: nat): (data: seq<Byte>)
    requires Total(mem)
    ensures |data| == length
    decreases length
  {
    if length == 0 then [] else [mem[addr]] + Peek(mem, Up(addr, 1), length - 1)
  }

  lemma {:induction false} PeekAt(mem: Memory, addr: Uintn, length: nat, i: nat)
    requires Total(mem) && i < length < UINTN_RANGE
    ensures Peek(mem, addr, length)[i] == mem[Up(addr, i)]
    decreases length
  {
    if i > 0 {
      PeekAt(mem, Up(addr, 1), length - 1, i - 1);
      assert Up(Up(addr, 1), i - 1) == Up(addr, i);
    }
  }

  /** What was stored is what is read. */
  lemma PeekAfterPoke(mem: Memory, addr: Uintn, data: seq<Byte>)
    requires Total(mem) && |data| < UINTN_RANGE
    ensures Peek(Poke(mem, addr, data), addr, |data|) == data
  {
    var mem' := Poke(mem, addr, data);
    forall i: nat | i < |data| ensures Peek(mem', addr, |data|)[i] == data[i] {
      PeekAt(mem', addr, |data|, i);
      PokeAt(mem, addr, data, Up(addr, i));
      assert Above(addr, Up(addr, i)) == i;
    }
  }

  // ----- TransferFromInBufToMem

  datatype Transfer = Transfer(mem: Memory, ok: bool)

  /** The digit at position i of a C string; its NUL is no digit. */
  function DigitAt(text: seq<Byte>, i: nat): int {
    if i < |text| then HexCharToInt(text[i]) else -1
  }

  function GoodPair(text: seq<Byte>): (good: bool)
    ensures good ==> |text| >= 2 && IsHex(text[0]) && IsHex(text[1])
  {
    DigitAt(text, 0) >= 0 && DigitAt(text, 1) >= 0
  }

  function PairValue(text: seq<Byte>): Byte
    requires GoodPair(text)
  {
    Digit(text[0]) * 16 + Digit(text[1])
  }

  function Store(mem: Memory, addr: Uintn, text: seq<Byte>, length: nat): (t: Transfer)
    ensures Total(mem) ==> Total(t.mem)
    decreases length
  {
    if length == 0 then Transfer(mem, true)
    else if !GoodPair(text) then Transfer(mem, false)
    else Store(mem[addr := PairValue(text)], Up(addr, 1), text[2..], length - 1)
  }

  /** The bytes spelled by the good pairs in front, at most `length` of them. */
  function GoodPrefix(text: seq<Byte>, length: nat): (data: seq<Byte>)
    ensures |data| <= length && 2 * |data| <= |text|
  {
    if length == 0 || !GoodPair(text) then [] else [PairValue(text)] + GoodPrefix(text[2..], length - 1)
  }

  /** Each byte of the good prefix is what its two digits spell, and the prefix ends only at the length
      asked for or in front of a bad pair. */
  lemma {:induction false} GoodPrefixIsMaximal(text: seq<Byte>, length: nat)
    ensures var data := GoodPrefix(text, length);
            && (|data| < length ==> !GoodPair(text[2 * |data|..]))
            && (forall i | 0 <= i < |data| :: GoodPair(text[2 * i..]) && data[i] == PairValue(text[2 * i..]))
    decreases length
  {
    if length > 0 && GoodPair(text) {
      GoodPrefixIsMaximal(text[2..], length - 1);
      var data, later := GoodPrefix(text, length), GoodPrefix(text[2..], length - 1);
      assert text[2..][2 * |later|..] == text[2 * |data|..];
      forall i | 0 <= i < |data| ensures GoodPair(text[2 * i..]) && data[i] == PairValue(text[2 * i..]) {
        if i == 0 {
          assert text[0..] == text;
        } else {
          assert text[2..][2 * (i - 1)..] == text[2 * i..];
          assert data[i] == later[i - 1];
        }
      }
    }
  }

  /** Exactly the bytes before the first bad pair are stored, and the transfer succeeds if and only if
      there is no bad pair among those asked for. */
  lemma {:induction false} StoreWritesGoodPrefix(mem: Memory, addr: Uintn, text: seq<Byte>, length: nat)
    ensures Store(mem, addr, text, length) ==
            Transfer(Poke(mem, addr, GoodPrefix(text, length)), |GoodPrefix(text, length)| == length)
    decreases length
  {
    if length > 0 && GoodPair(text) {
      StoreWritesGoodPrefix(mem[addr := PairValue(text)], Up(addr, 1), text[2..], length - 1);
    }
  }

  // ----- replies

  const OK: seq<Byte> := [Code('O'), Code('K')]

  function ErrorText(errno: Byte): seq<Byte> {
    [Code('E'), UpperDigit(errno / 16), UpperDigit(errno % 16)]
  }

  /** What a command does: the payload it answers with and the memory it leaves; or the command runs
      off the end of its packet or of its output buffer, where the source promises nothing. */
  datatype Effect = Effect(reply: seq<Byte>, mem: Memory) | Undefined

  /** Everything up to the first separator, and what follows it. */
  datatype Split = Split(head: seq<Byte>, tail: seq<Byte>) | NoSeparator

  function SplitAt(s: seq<Byte>, separator: Byte): Split {
    var i := IndexOf(s, separator);
    if i < |s| then Split(s[..i], s[i + 1..]) else NoSeparator
  }

  lemma SplitAtFirst(head: seq<Byte>, separator: Byte, tail: seq<Byte>)
    requires separator !in head
    ensures SplitAt(head + [separator] + tail, separator) == Split(head, tail)
  {
    var s := head + [separator] + tail;
    assert s[..|head|] == head;
    assert s[|head| + 1..] == tail;
    IndexOfUnique(s, separator, |head|);
  }

  /** TransferFromMemToOutBufAndSend: two digits a byte and a NUL must fit the output buffer. */
  function ReadOut(mem: Memory, addr: Uintn, length: nat, valid: bool): Effect
    requires Total(mem)
  {
    if !valid then Effect(ErrorText(14), mem)
    else if 2 * length + 1 > MAX_BUF_SIZE then Undefined
    else Effect(HexBytes(Peek(mem, addr, length)), mem)
  }

  lemma HexOfPeek(mem: Memory, addr: Uintn, length: nat)
    requires Total(mem) && length > 0
    ensures var b := mem[addr];
            HexBytes(Peek(mem, addr, length)) ==
            [LowerDigit(b / 16), LowerDigit(b % 16)] + HexBytes(Peek(mem, Up(addr, 1), length - 1))
  {
    var data := Peek(mem, addr, length);
    assert data[0] == mem[addr] && data[1..] == Peek(mem, Up(addr, 1), length - 1);
  }

  /** ReadFromMemory on the C string `packet`; `valid` is the processor's view of an address. */
  function Read(mem: Memory, packet: seq<Byte>, valid: Uintn -> bool): Effect
    requires Total(mem) && packet != []
  {
    match SplitAt(packet[1..], COMMA)
    case NoSeparator => Undefined
    case Split(address, length) =>
      if |address| >= MAX_ADDR_SIZE then Effect(ErrorText(GDB_EBADMEMADDRBUFSIZE), mem)
      else if |packet| - |address| - 2 >= MAX_LENGTH_SIZE then Effect(ErrorText(GDB_EBADMEMLENGTH), mem)
      else ReadOut(mem, StrHexToUintn(address), StrHexToUintn(length), valid(StrHexToUintn(address)))
  }

  /** TransferFromInBufToMem with its answer. */
  function WriteIn(mem: Memory, addr: Uintn, text: seq<Byte>, length: nat): Effect {
    var t := Store(mem, addr, text, length);
    Effect(if t.ok then OK else ErrorText(GDB_EBADMEMDATA), t.mem)
  }

  /** WriteToMemory on the C string `packet`. The doubled length wraps like any UINTN. */
  function Write(mem: Memory, packet: seq<Byte>): (e: Effect)
    requires packet != []
    ensures Total(mem) && e.Effect? ==> Total(e.mem)
  {
    match SplitAt(packet[1..], COMMA)
    case NoSeparator => Undefined
    case Split(address, rest) =>
      match SplitAt(rest, COLON)
      case NoSeparator => Undefined
      case Split(length, text) =>
        if |address| >= MAX_ADDR_SIZE then Effect(ErrorText(GDB_EBADMEMADDRBUFSIZE), mem)
        else if |length| >= MAX_LENGTH_SIZE then Effect(ErrorText(GDB_EBADMEMLENGBUFSIZE), mem)
        else if |packet| - |address| - |length| - 3 != Wrap(2 * StrHexToUintn(length)) then
          Effect(ErrorText(GDB_EBADMEMDATASIZE), mem)
        else WriteIn(mem, StrHexToUintn(address), text, StrHexToUintn(length))
  }

  // ----- the debugger's side

  /** Any spelling of `n` the buffers can hold: either case, leading zeros allowed. */
  predicate Spells(text: seq<Byte>, n: Uintn) {
    0 < |text| < MAX_ADDR_SIZE && AllHex(text) && HexNum(text) == n
  }

  lemma PrintedSpells(n: Uintn)
    ensures Spells(HexPrint(n), n)
  {
    UintnTakesSixteenDigits(n);
  }

  lemma SpellingHasNoSeparator(text: seq<Byte>, n: Uintn)
    requires Spells(text, n)
    ensures COMMA !in text && COLON !in text && NUL !in text && Plain(text)
    ensures StrHexToUintn(text) == n
  {
    assert text + [] == text;
    ParserReadsEverySpelling(text, []);
    assert !IsHex(COMMA) && !IsHex(COLON) && !IsHex(NUL) && !IsHex(DOLLAR) && !IsHex(HASH);
  }

  function WritePacket(address: seq<Byte>, length: seq<Byte>, text: seq<Byte>): seq<Byte> {
    [Code('M')] + (address + [COMMA] + (length + [COLON] + text))
  }

  function ReadPacket(address: seq<Byte>, length: seq<Byte>): seq<Byte> {
    [Code('m')] + (address + [COMMA] + length)
  }

  /** What an "M addr,len:text" packet does when addr and len are spelled well: the text must be twice
      as long as announced, and is then stored up to its first bad pair. */
  lemma WritePacketIsRead(mem: Memory, address: seq<Byte>, length: seq<Byte>, text: seq<Byte>, addr: Uintn, len: Uintn)
    requires Spells(address, addr) && Spells(length, len)
    ensures Write(mem, WritePacket(address, length, text)) ==
            if |text| == Wrap(2 * len) then WriteIn(mem, addr, text, len)
            else Effect(ErrorText(GDB_EBADMEMDATASIZE), mem)
  {
    hide StrHexToUintn, WriteIn, Wrap, IndexOf;
    SpellingHasNoSeparator(address, addr);
    SpellingHasNoSeparator(length, len);
    WritePacketSplits(address, length, text);
  }

  /** The digits of an error reply are its number. */
  lemma ErrorIsRead(errno: Byte)
    ensures |ErrorText(errno)| == 3 && ErrorText(errno)[0] == Code('E')
    ensures StrHexToUintn(ErrorText(errno)[1..]) == errno
  {
    TwoDigits(errno);
    assert ErrorText(errno)[1..] == [UpperDigit(errno / 16), UpperDigit(errno % 16)];
  }

  /** The replies by name. */
  lemma ReplyTexts()
    ensures OK == Ascii("OK")
    ensures ErrorText(GDB_EBADMEMADDRBUFSIZE) == Ascii("E0B") && ErrorText(GDB_EBADMEMLENGBUFSIZE) == Ascii("E0C")
    ensures ErrorText(GDB_EBADMEMLENGTH) == Ascii("E0D") && ErrorText(GDB_EBADMEMDATA) == Ascii("E0E")
    ensures ErrorText(GDB_EBADMEMDATASIZE) == Ascii("E0F") && ErrorText(14) == Ascii("E0E")
  {
    assert 11 / 16 == 0 && 11 % 16 == 11;
  }

  lemma WritePacketSplits(address: seq<Byte>, length: seq<Byte>, text: seq<Byte>)
    requires COMMA !in address && COLON !in length
    ensures var packet := WritePacket(address, length, text);
            && SplitAt(packet[1..], COMMA) == Split(address, length + [COLON] + text)
            && SplitAt(length + [COLON] + text, COLON) == Split(length, text)
            && |packet| == |address| + |length| + |text| + 3
  {
    var rest := length + [COLON] + text;
    assert WritePacket(address, length, text)[1..] == address + [COMMA] + rest;
    SplitAtFirst(address, COMMA, rest);
    SplitAtFirst(length, COLON, text);
  }

  lemma {:induction false} HexBytesAreGood(data: seq<Byte>)
    ensures GoodPrefix(HexBytes(data), |data|) == data
  {
    hide UpperDigit, ToLower;
    if data != [] {
      var text := HexBytes(data);
      assert text[2..] == HexBytes(data[1..]);
      assert text[0] == LowerDigit(data[0] / 16) && text[1] == LowerDigit(data[0] % 16);
      assert GoodPair(text) && PairValue(text) == data[0];
      HexBytesAreGood(data[1..]);
      assert data == [data[0]] + data[1..];
    }
  }

  /** A bad pair stops the transfer: the data before it is stored and nothing else, and one error is
      answered in place of OK. A doubled length that wraps is no different: the text then ends too soon. */
  lemma BadPairStops(mem: Memory, address: seq<Byte>, length: seq<Byte>, addr: Uintn, len: Uintn, text: seq<Byte>)
    requires |text| == Wrap(2 * len)
    requires Spells(address, addr) && Spells(length, len)
    ensures Write(mem, WritePacket(address, length, text)) ==
            Effect(Ascii(if |GoodPrefix(text, len)| == len then "OK" else "E0E"), Poke(mem, addr, GoodPrefix(text, len)))
  {
    ReplyTexts();
    WritePacketIsRead(mem, address, length, text, addr, len);
    StoreWritesGoodPrefix(mem, addr, text, len);
  }

  /** An 'M' packet with well-spelled data is stored whole and answered by OK. */
  lemma WellSpelledDataIsStored(mem: Memory, address: seq<Byte>, length: seq<Byte>, addr: Uintn, data: seq<Byte>)
    requires 2 * |data| < UINTN_RANGE
    requires Spells(address, addr) && Spells(length, |data|)
    ensures Write(mem, WritePacket(address, length, HexBytes(data))) == Effect(OK, Poke(mem, addr, data))
  {
    ReplyTexts();
    BadPairStops(mem, address, length, addr, |data|, HexBytes(data));
    HexBytesAreGood(data);
  }

  /** What an 'm' packet answers. */
  lemma ReadPacketIsRead(mem: Memory, address: seq<Byte>, length: seq<Byte>, addr: Uintn, len: Uintn,
                         valid: Uintn -> bool)
    requires Total(mem)
    requires Spells(address, addr) && Spells(length, len)
    ensures Read(mem, ReadPacket(address, length), valid) == ReadOut(mem, addr, len, valid(addr))
  {
    var packet := ReadPacket(address, length);
    assert packet[1..] == address + [COMMA] + length;
    SpellingHasNoSeparator(address, addr);
    SpellingHasNoSeparator(length, len);
    SplitAtFirst(address, COMMA, length);
  }

  /** Remote memory round trip. For every address, every data whose digits fit the output buffer, and
      every spelling of the two numbers: the 'M' packet stores exactly the data and is answered by OK,
      and the 'm' packet for the same range is then answered by the data's digits. */
  lemma MemoryRoundTrip(mem: Memory, address: seq<Byte>, length: seq<Byte>, addr: Uintn, data: seq<Byte>,
                        valid: Uintn -> bool)
    requires Total(mem) && valid(addr)
    requires 2 * |data| < MAX_BUF_SIZE
    requires Spells(address, addr) && Spells(length, |data|)
    ensures var stored := Poke(mem, addr, data);
            && Write(mem, WritePacket(address, length, HexBytes(data))) == Effect(OK, stored)
            && Read(stored, ReadPacket(address, length), valid) == Effect(HexBytes(data), stored)
  {
    WellSpelledDataIsStored(mem, address, length, addr, data);
    ReadPacketIsRead(Poke(mem, addr, data), address, length, addr, |data|, valid);
    PeekAfterPoke(mem, addr, data);
  }

  /** The same for the packets of a debugger that prints the numbers plainly. */
  lemma PrintedMemoryRoundTrip(mem: Memory, addr: Uintn, data: seq<Byte>, valid: Uintn -> bool)
    requires Total(mem) && valid(addr) && 2 * |data| < MAX_BUF_SIZE
    ensures var address, length, stored := HexPrint(addr), HexPrint(|data|), Poke(mem, addr, data);
            && Write(mem, WritePacket(address, length, HexBytes(data))) == Effect(OK, stored)
            && Read(stored, ReadPacket(address, length), valid) == Effect(HexBytes(data), stored)
  {
    PrintedSpells(addr);
    PrintedSpells(|data|);
    MemoryRoundTrip(mem, HexPrint(addr), HexPrint(|data|), addr, data, valid);
  }

  /** What an 'M' packet is refused for, and in which order; memory is left alone. */
  lemma WritePacketIsRefused(mem: Memory, address: seq<Byte>, length: seq<Byte>, text: seq<Byte>)
    requires COMMA !in address && COLON !in length
    ensures var reply := if |address| >= 32 then "E0B"
                         else if |length| >= 32 then "E0C"
                         else if |text| != Wrap(2 * StrHexToUintn(length)) then "E0F"
                         else "";
            reply != "" ==> Write(mem, WritePacket(address, length, text)) == Effect(Ascii(reply), mem)
  {
    hide StrHexToUintn, WriteIn, Wrap, IndexOf, ErrorText;
    ReplyTexts();
    WritePacketSplits(address, length, text);
  }

  /** What an 'm' packet is refused for, and in which order; memory is left alone. */
  lemma ReadPacketIsRefused(mem: Memory, address: seq<Byte>, length: seq<Byte>, valid: Uintn -> bool)
    requires Total(mem) && COMMA !in address
    ensures var reply := if |address| >= 32 then "E0B"
                         else if |length| >= 32 then "E0D"
                         else if !valid(StrHexToUintn(address)) then "E0E"
                         else "";
            reply != "" ==> Read(mem, ReadPacket(address, length), valid) == Effect(Ascii(reply), mem)
  {
    hide StrHexToUintn, IndexOf, ErrorText;
    ReplyTexts();
    var packet := ReadPacket(address, length);
    assert packet[1..] == address + [COMMA] + length;
    SplitAtFirst(address, COMMA, length);
  }

  /** An 'm' packet for an address the processor rejects is answered by the error, and one whose digits
      fit the output buffer is answered by the digits of memory if and only if the address is valid. */
  lemma OnlyValidMemoryIsRead(mem: Memory, address: seq<Byte>, length: seq<Byte>, addr: Uintn, len: Uintn,
                              valid: Uintn -> bool)
    requires Total(mem) && Spells(address, addr) && Spells(length, len)
    ensures !valid(addr) ==> Read(mem, ReadPacket(address, length), valid) == Effect(Ascii("E0E"), mem)
    ensures 2 * len < MAX_BUF_SIZE ==>
              (Read(mem, ReadPacket(address, length), valid) == Effect(HexBytes(Peek(mem, addr, len)), mem) <==> valid(addr))
  {
    SpellingHasNoSeparator(address, addr);
    ReadPacketIsRead(mem, address, length, addr, len, valid);
    ReadPacketIsRefused(mem, address, length, valid);
    assert |HexBytes(Peek(mem, addr, len))| == 2 * len != |Ascii("E0E")|;
  }

  /** A packet of each kind as it stands on the line, with its answer. */
  lemma PacketsByExample(mem: Memory)
    requires Total(mem)
    ensures var stored := mem[0x10 := 0xAB][0x11 := 0xCD];
            && Write(mem, Ascii("M10,2:ABcd")) == Effect(Ascii("OK"), stored)
            && Read(stored, Ascii("m10,2"), _ => true) == Effect(Ascii("abcd"), stored)
  {
    hide Read, Write, Spells, GoodPrefix, Poke, HexBytes, Peek, Ascii, WritePacket, ReadPacket;
    var data := [0xAB, 0xCD];
    ExampleNumbers();
    ExamplePackets();
    ExampleData();
    ExampleStored(mem);
    assert Wrap(2 * 2) == |Ascii("ABcd")|;
    BadPairStops(mem, Ascii("10"), Ascii("2"), 0x10, 2, Ascii("ABcd"));
    MemoryRoundTrip(mem, Ascii("10"), Ascii("2"), 0x10, data, _ => true);
  }

  lemma ExampleNumbers()
    ensures Spells(Ascii("10"), 0x10) && Spells(Ascii("2"), 2)
  {
    var address, length := Ascii("10"), Ascii("2");
    assert address[..1][..0] == [] && HexNum(address[..1]) == 1;
    assert length[..0] == [];
  }

  lemma ExamplePackets()
    ensures Ascii("M10,2:ABcd") == WritePacket(Ascii("10"), Ascii("2"), Ascii("ABcd"))
    ensures Ascii("m10,2") == ReadPacket(Ascii("10"), Ascii("2"))
  {
  }

  lemma ExampleData()
    ensures GoodPrefix(Ascii("ABcd"), 2) == [0xAB, 0xCD]
    ensures HexBytes([0xAB, 0xCD]) == Ascii("abcd")
  {
    var text := Ascii("ABcd");
    assert text[2..] == Ascii("cd") && text[2..][2..] == [];
    assert GoodPair(text[2..]) && PairValue(text[2..]) == 0xCD;
    assert GoodPrefix(text[2..], 1) == [0xCD] + GoodPrefix([], 0) == [0xCD];
    assert GoodPair(text) && PairValue(text) == 0xAB;
    assert [0xAB, 0xCD][1..] == [0xCD] && [0xCD][1..] == [];
    assert HexBytes([0xCD]) == Ascii("cd") + HexBytes([]);
  }

  lemma ExampleStored(mem: Memory)
    ensures Poke(mem, 0x10, [0xAB, 0xCD]) == mem[0x10 := 0xAB][0x11 := 0xCD]
  {
    assert [0xAB, 0xCD][1..] == [0xCD] && [0xCD][1..] == [];
    assert Poke(mem[0x10 := 0xAB], 0x11, [0xCD]) == Poke(mem[0x10 := 0xAB][0x11 := 0xCD], 0x12, []);
  }

  /** A frame as it stands on the line. */
  lemma FrameByExample()
    ensures Frame(Ascii("OK")) == Ascii("$OK#9A")
  {
    var s := Ascii("OK");
    assert s[..1] == [Code('O')] && s[..1][..0] == [];
    assert Sum(s[..1]) == 0x4F && Sum(s) == 0x9A;
  }
}
