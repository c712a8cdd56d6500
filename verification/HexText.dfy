/** Hexadecimal text: the stub's digit printer and the BaseLib parser it relies on. */
module HexText {
  import opened Bytes

  /** GdbStub.c HexCharToInt: the value of a digit of either case, or -1. */
  function HexCharToInt(c: Byte): (v: int)
    ensures -1 <= v < 16
  {
    if Code('A') <= c <= Code('F') then c - Code('A') + 10
    else if Code('a') <= c <= Code('f') then c - Code('a') + 10
    else if Code('0') <= c <= Code('9') then c - Code('0')
    else -1
  }

  predicate IsHex(c: Byte) {
    HexCharToInt(c) >= 0
  }

  /** The value of a digit. */
  function Digit(c: Byte): Nibble
    requires IsHex(c)
  {
    HexCharToInt(c)
  }

  predicate AllHex(s: seq<Byte>) {
    forall c | c in s :: IsHex(c)
  }

  type Nibble = d: int | 0 <= d < 16

  /** The table mHexToStr. */
  function UpperDigit(d: Nibble): (c: Byte)
    ensures HexCharToInt(c) == d
  {
    if d < 10 then Code('0') + d else Code('A') + d - 10
  }

  function ToLower(c: Byte): Byte {
    if Code('A') <= c <= Code('F') then c - Code('A') + Code('a') else c
  }

  /** mHexToStr with the letters moved to lower case, as TransferFromMemToOutBufAndSend prints them. */
  function LowerDigit(d: Nibble): (c: Byte)
    ensures HexCharToInt(c) == d
  {
    ToLower(UpperDigit(d))
  }

  /** What a string of digits denotes, whatever its case and however many zeros it starts with. */
  function HexNum(s: seq<Byte>): nat
    requires AllHex(s)
  {
    if s == [] then 0 else HexNum(s[..|s| - 1]) * 16 + Digit(s[|s| - 1])
  }

  // ----- AsciiStrHexToUintn (MdePkg/Library/BaseLib/SafeString.c)

  function DropZeros(s: seq<Byte>): (t: seq<Byte>)
    ensures |t| <= |s|
  {
    if s != [] && s[0] == Code('0') then DropZeros(s[1..]) else s
  }

  function Accumulate(s: seq<Byte>, value: Uintn): Uintn {
    if s == [] || !IsHex(s[0]) then value
    else if value > (MAX_UINTN - HexCharToInt(s[0])) / 16 then MAX_UINTN
    else Accumulate(s[1..], value * 16 + HexCharToInt(s[0]))
  }

  /** Blanks, zeros, an optional 'x' after a zero, then digits; saturates at MAX_UINTN.
      The byte in front of the string is never a '0' at the stub's calls. */
  function StrHexToUintn(s: seq<Byte>): Uintn {
    var unpadded := DropBlanks(s);
    var t := DropZeros(unpadded);
    if t != [] && (t[0] == Code('X') || t[0] == Code('x')) then
      if |t| < |unpadded| then Accumulate(t[1..], 0) else 0
    else
      Accumulate(t, 0)
  }

  function Saturate(n: nat): Uintn {
    if n < UINTN_RANGE then n else MAX_UINTN
  }

  /** The value of digits read on top of `value`. */
  function Extend(value: nat, s: seq<Byte>): (n: nat)
    requires AllHex(s)
    ensures n >= value
    decreases s
  {
    if s == [] then value else Extend(value * 16 + Digit(s[0]), s[1..])
  }

  lemma {:induction false} ExtendSnoc(value: nat, s: seq<Byte>, c: Byte)
    requires AllHex(s) && IsHex(c)
    ensures AllHex(s + [c])
    ensures Extend(value, s + [c]) == Extend(value, s) * 16 + Digit(c)
    decreases s
  {
    if s != [] {
      assert (s + [c])[1..] == s[1..] + [c];
      ExtendSnoc(value * 16 + Digit(s[0]), s[1..], c);
    } else {
      assert s + [c] == [c];
      assert Extend(value, [c]) == Extend(value * 16 + Digit(c), []);
    }
  }

  lemma {:induction false} ExtendIsHexNum(s: seq<Byte>)
    requires AllHex(s)
    ensures Extend(0, s) == HexNum(s)
  {
    if s != [] {
      var n := |s| - 1;
      ExtendIsHexNum(s[..n]);
      ExtendSnoc(0, s[..n], s[n]);
      assert s == s[..n] + [s[n]];
    }
  }

  lemma OverflowTest(value: Uintn, d: Nibble)
    ensures value > (MAX_UINTN - d) / 16 <==> value * 16 + d > MAX_UINTN
  {
  }

  lemma {:induction false} AccumulateSaturates(s: seq<Byte>, rest: seq<Byte>, value: Uintn)
    requires AllHex(s) && (rest == [] || !IsHex(rest[0]))
    ensures Accumulate(s + rest, value) == Saturate(Extend(value, s))
    decreases s
  {
    if s == [] {
      assert s + rest == rest;
    } else {
      var d := Digit(s[0]);
      assert (s + rest)[1..] == s[1..] + rest;
      OverflowTest(value, d);
      if value * 16 + d > MAX_UINTN {
        assert Extend(value, s) >= value * 16 + d > MAX_UINTN;
      } else {
        AccumulateSaturates(s[1..], rest, value * 16 + d);
      }
    }
  }

  lemma {:induction false} DropZerosKeepsValue(s: seq<Byte>, rest: seq<Byte>) returns (t: seq<Byte>)
    requires AllHex(s) && (rest == [] || !IsHex(rest[0]))
    ensures AllHex(t) && DropZeros(s + rest) == t + rest
    ensures t == [] || t[0] != Code('0')
    ensures Extend(0, t) == Extend(0, s)
  {
    if s != [] && s[0] == Code('0') {
      assert (s + rest)[1..] == s[1..] + rest;
      t := DropZerosKeepsValue(s[1..], rest);
    } else {
      t := s;
    }
  }

  /** The parser reads any spelling of a number, up to the first character that is not a digit,
      and saturates. Only an 'x' right after the digits could change the reading. */
  lemma ParserReadsEverySpelling(s: seq<Byte>, rest: seq<Byte>)
    requires AllHex(s) && s != []
    requires rest == [] || (!IsHex(rest[0]) && rest[0] != Code('x') && rest[0] != Code('X'))
    ensures StrHexToUintn(s + rest) == Saturate(HexNum(s))
  {
    hide Accumulate, HexNum, Extend;
    assert (s + rest)[0] == s[0] && IsHex(s[0]);
    assert DropBlanks(s + rest) == s + rest;
    var t := DropZerosKeepsValue(s, rest);
    AccumulateSaturates(t, rest, 0);
    ExtendIsHexNum(s);
    if t == [] {
      assert t + rest == rest;
    } else {
      assert (t + rest)[0] == t[0] && IsHex(t[0]);
    }
  }

  /** The digits stand in the order of their values. */
  lemma DigitsInOrder(d: Nibble)
    ensures UpperDigit(d) == Ascii("0123456789ABCDEF")[d]
    ensures LowerDigit(d) == Ascii("0123456789abcdef")[d]
  {
    var upper, lower := "0123456789ABCDEF", "0123456789abcdef";
    assert d < 10 ==> upper[d] as int == '0' as int + d && lower[d] == upper[d];
    assert d >= 10 ==> upper[d] as int == 'A' as int + d - 10 && lower[d] as int == 'a' as int + d - 10;
  }

  predicate AllZeros(s: seq<Byte>) {
    forall c | c in s :: c == Code('0')
  }

  lemma {:induction false} ZerosAddNothing(zeros: seq<Byte>, digits: seq<Byte>)
    requires AllZeros(zeros) && AllHex(digits)
    ensures AllHex(zeros + digits) && Extend(0, zeros + digits) == Extend(0, digits)
  {
    if zeros == [] {
      assert zeros + digits == digits;
    } else {
      assert zeros[0] in zeros && forall c | c in zeros[1..] :: c in zeros;
      assert (zeros + digits)[1..] == zeros[1..] + digits;
      ZerosAddNothing(zeros[1..], digits);
    }
  }

  lemma {:induction false} BlanksAreDropped(blanks: seq<Byte>, s: seq<Byte>)
    requires (forall c | c in blanks :: IsBlank(c)) && (s == [] || !IsBlank(s[0]))
    ensures DropBlanks(blanks + s) == s
  {
    if blanks == [] {
      assert blanks + s == s;
    } else {
      assert blanks[0] in blanks && forall c | c in blanks[1..] :: c in blanks;
      assert (blanks + s)[1..] == blanks[1..] + s;
      BlanksAreDropped(blanks[1..], s);
    }
  }

  lemma {:induction false} ZerosAreDropped(zeros: seq<Byte>, s: seq<Byte>)
    requires AllZeros(zeros) && (s == [] || s[0] != Code('0'))
    ensures DropZeros(zeros + s) == s
  {
    if zeros == [] {
      assert zeros + s == s;
    } else {
      assert zeros[0] in zeros && forall c | c in zeros[1..] :: c in zeros;
      assert (zeros + s)[1..] == zeros[1..] + s;
      ZerosAreDropped(zeros[1..], s);
    }
  }

  /** The whole grammar of the parser: spaces and tabs, zeros, digits, and anything that is no digit. */
  lemma ParserSkipsBlanks(blanks: seq<Byte>, zeros: seq<Byte>, digits: seq<Byte>, rest: seq<Byte>)
    requires (forall c | c in blanks :: c == SPACE || c == TAB) && AllZeros(zeros) && AllHex(digits)
    requires zeros + digits != []
    requires rest == [] || (!IsHex(rest[0]) && rest[0] != Code('x') && rest[0] != Code('X'))
    ensures StrHexToUintn(blanks + (zeros + digits + rest)) == Saturate(HexNum(digits))
  {
    hide Accumulate, HexNum, Extend, DropBlanks, DropZeros;
    var s := zeros + digits;
    ZerosAddNothing(zeros, digits);
    ExtendIsHexNum(s);
    ExtendIsHexNum(digits);
    assert (s + rest)[0] == s[0] && IsHex(s[0]);
    BlanksAreDropped(blanks, s + rest);
    BlanksAreDropped([], s + rest);
    assert [] + (s + rest) == s + rest;
    ParserReadsEverySpelling(s, rest);
  }

  /** And with an 'x' in front of the digits, which needs a zero before it. */
  lemma ParserTakesPrefix(blanks: seq<Byte>, zeros: seq<Byte>, x: Byte, digits: seq<Byte>, rest: seq<Byte>)
    requires (forall c | c in blanks :: c == SPACE || c == TAB) && AllZeros(zeros) && AllHex(digits)
    requires x == Code('x') || x == Code('X')
    requires rest == [] || !IsHex(rest[0])
    ensures StrHexToUintn(blanks + (zeros + ([x] + (digits + rest)))) == if zeros == [] then 0 else Saturate(HexNum(digits))
  {
    hide Accumulate, HexNum, Extend, DropBlanks, DropZeros, Saturate;
    var marked := [x] + (digits + rest);
    assert !IsBlank(x) && x != Code('0');
    assert (zeros + marked)[0] == if zeros == [] then x else zeros[0];
    assert zeros != [] ==> zeros[0] in zeros;
    BlanksAreDropped(blanks, zeros + marked);
    ZerosAreDropped(zeros, marked);
    assert marked[1..] == digits + rest;
    AccumulateSaturates(digits, rest, 0);
    ExtendIsHexNum(digits);
  }

  /** The two digits after '#' give back the byte they print. */
  lemma TwoDigits(b: Byte)
    ensures StrHexToUintn([UpperDigit(b / 16), UpperDigit(b % 16)]) == b
  {
    var s := [UpperDigit(b / 16), UpperDigit(b % 16)];
    assert s[..1] == [UpperDigit(b / 16)];
    assert s[..1][..0] == [];
    assert HexNum(s[..1]) == b / 16;
    assert HexNum(s) == b;
    assert s + [] == s;
    ParserReadsEverySpelling(s, []);
  }

  // ----- printing

  /** `%x` of the print library: upper-case digits, no padding. */
  function HexPrint(n: nat): (s: seq<Byte>)
    ensures s != [] && AllHex(s) && HexNum(s) == n
  {
    if n < 16 then
      var s := [UpperDigit(n)];
      assert s[..0] == [];
      s
    else
      var s := HexPrint(n / 16) + [UpperDigit(n % 16)];
      assert s[..|s| - 1] == HexPrint(n / 16);
      s
  }

  lemma {:induction false} HexPrintLength(n: nat, k: nat, bound: nat)
    requires n < bound
    requires k >= 1
    requires bound == Power16(k)
    ensures |HexPrint(n)| <= k
  {
    if n >= 16 {
      assert Power16(k) == 16 * Power16(k - 1);
      HexPrintLength(n / 16, k - 1, Power16(k - 1));
    }
  }

  function Power16(k: nat): nat {
    if k == 0 then 1 else 16 * Power16(k - 1)
  }

  /** A 64-bit number takes at most 16 digits. */
  lemma UintnTakesSixteenDigits(n: Uintn)
    ensures |HexPrint(n)| <= 16
  {
    assert Power16(4) == 0x1_0000;
    assert Power16(8) == 0x1_0000_0000;
    assert Power16(12) == 0x1_0000_0000_0000;
    assert Power16(16) == UINTN_RANGE;
    HexPrintLength(n, 16, UINTN_RANGE);
  }

  // ----- pairs of digits as memory data

  /** The two lower-case digits of each byte, in order. */
  function HexBytes(data: seq<Byte>): (s: seq<Byte>)
    ensures |s| == 2 * |data| && AllHex(s)
  {
    if data == [] then [] else [LowerDigit(data[0] / 16), LowerDigit(data[0] % 16)] + HexBytes(data[1..])
  }

  /** The two digits of a byte are its number, high digit first. */
  lemma ByteSpellsItself(b: Byte)
    ensures HexNum(HexBytes([b])) == b
  {
    var s := HexBytes([b]);
    assert s == [LowerDigit(b / 16), LowerDigit(b % 16)] by { assert [b][1..] == []; }
    assert s[..1] == [LowerDigit(b / 16)] && s[..1][..0] == [];
    assert HexNum(s[..1]) == b / 16;
  }
}
