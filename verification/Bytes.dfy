/** Machine words, bytes and the ASCII codes the firmware sources spell as character literals. */
module Bytes {
  type Byte = b: int | 0 <= b < 0x100

  const UINTN_RANGE := 0x1_0000_0000_0000_0000

  type Uintn = n: int | 0 <= n < 0x1_0000_0000_0000_0000

  type Uint32 = n: int | 0 <= n < 0x1_0000_0000

  const MAX_UINTN: Uintn := UINTN_RANGE - 1

  /** 64-bit unsigned wrap-around. */
  function Wrap(n: int): Uintn {
    n % UINTN_RANGE
  }

  lemma WrapNothing(n: int)
    requires 0 <= n < UINTN_RANGE
    ensures Wrap(n) == n
  {
  }

  const NUL: Byte := 0
  const CTRL_C: Byte := 0x03
  const TAB: Byte := 0x09
  const LF: Byte := 0x0A
  const CR: Byte := 0x0D
  const SPACE: Byte := 0x20

  datatype Option<+T> = None | Some(value: T)

  /** The bytes of a string literal. */
  function Ascii(s: string): (bytes: seq<Byte>)
    ensures |bytes| == |s|
    ensures forall i | 0 <= i < |s| :: bytes[i] == s[i] as int % 0x100
  {
    seq(|s|, i requires 0 <= i < |s| => s[i] as int % 0x100)
  }

  function Code(c: char): Byte {
    c as int % 0x100
  }

  /** The C string at the start of `s`: everything before the first NUL. */
  function CString(s: seq<Byte>): (t: seq<Byte>)
    ensures NUL !in t && t <= s
    ensures |t| < |s| ==> s[|t|] == NUL
  {
    if s == [] || s[0] == NUL then [] else [s[0]] + CString(s[1..])
  }

  /** A NUL ends a C string, whatever the buffer holds behind it. */
  lemma {:induction false} CStringStopsAtNul(s: seq<Byte>, rest: seq<Byte>)
    ensures CString(s + [NUL] + rest) == CString(s)
  {
    if s != [] && s[0] != NUL {
      CStringStopsAtNul(s[1..], rest);
      assert (s + [NUL] + rest)[1..] == s[1..] + [NUL] + rest;
    }
  }

  lemma {:induction false} CStringOfPlain(s: seq<Byte>)
    requires NUL !in s
    ensures CString(s) == s
  {
    if s != [] {
      CStringOfPlain(s[1..]);
    }
  }

  predicate IsBlank(c: Byte) {
    c == SPACE || c == TAB
  }

  /** What follows the spaces and tabs at the front. */
  function DropBlanks(s: seq<Byte>): (t: seq<Byte>)
    ensures |t| <= |s| && (s != [] && IsBlank(s[0]) ==> |t| < |s|)
    ensures t == [] || !IsBlank(t[0])
  {
    if s != [] && IsBlank(s[0]) then DropBlanks(s[1..]) else s
  }

  /** Position of the first `c` in `s`, or |s|. */
  function IndexOf(s: seq<Byte>, c: Byte): (i: nat)
    ensures i <= |s|
    ensures i < |s| ==> s[i] == c
    ensures c !in s[..i]
  {
    if s == [] || s[0] == c then 0 else
      var i := 1 + IndexOf(s[1..], c);
      assert s[..i] == [s[0]] + s[1..][..i - 1];
      i
  }

  lemma IndexOfUnique(s: seq<Byte>, c: Byte, i: nat)
    requires i <= |s| && c !in s[..i] && (i < |s| ==> s[i] == c)
    ensures IndexOf(s, c) == i
  {
    var j := IndexOf(s, c);
    assert forall k | 0 <= k < i :: s[k] == s[..i][k] != c;
    assert forall k | 0 <= k < j :: s[k] == s[..j][k] != c;
  }

  function Repeat<T>(s: seq<T>, n: nat): (r: seq<T>)
    ensures |r| == |s| * n
  {
    if n == 0 then [] else Repeat(s, n - 1) + s
  }
}
