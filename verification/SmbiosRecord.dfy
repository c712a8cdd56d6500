/** LogSmbiosData: a fixed structure and its strings packed into one record. */
module SmbiosRecord {
  import opened Bytes
  import opened StringLists

  /** AsciiStrSize: the length with the NUL. */
  function StrSize(s: seq<Byte>): nat {
    |s| + 1
  }

  /** The string set of DSP0134: the strings, and a NUL behind them; two NULs if there are none. */
  function StringSet(pack: seq<seq<Byte>>): seq<Byte> {
    if pack == [] then [NUL, NUL] else Encode(pack) + [NUL]
  }

  lemma {:induction false} EncodeSnoc(pack: seq<seq<Byte>>, s: seq<Byte>)
    ensures Encode(pack + [s]) == Encode(pack) + (s + [NUL])
  {
    if pack == [] {
      assert [s][1..] == [] && [] + [s] == [s];
      assert Encode([s]) == s + [NUL] + [];
    } else {
      assert (pack + [s])[1..] == pack[1..] + [s];
      EncodeSnoc(pack[1..], s);
      assert Encode(pack + [s]) == pack[0] + [NUL] + (Encode(pack[1..]) + (s + [NUL]));
    }
  }

  lemma {:induction false} EncodePrefix(pack: seq<seq<Byte>>, k: nat)
    requires k <= |pack|
    ensures Encode(pack[..k]) <= Encode(pack)
  {
    if k > 0 {
      assert pack[..k][1..] == pack[1..][..k - 1];
      EncodePrefix(pack[1..], k - 1);
    }
  }

  /** The record allocated has exactly the size of what is put into it: the structure, then the string
      set; None if the pool does not have that much. The structure's length byte must be right. */
  method LogSmbiosData(template: seq<Byte>, stringPack: seq<seq<Byte>>, pool: nat) returns (record: Option<array<Byte>>)
    requires 4 <= |template| && template[1] == |template|
    ensures record.Some? <==> |template| + |StringSet(stringPack)| <= pool
    ensures record.Some? ==> fresh(record.value) && record.value[..] == template + StringSet(stringPack)
  {
    hide Encode;
    var size := SizeOf(template, stringPack);
    if size > pool {
      return None;
    }
    var buffer := new Byte[size](_ => 0);
    forall i | 0 <= i < |template| {
      buffer[i] := template[i];
    }
    var str := AppendPack(buffer, template, stringPack);
    EncodeNothing();
    buffer[str] := NUL;
    assert buffer[..] == buffer[..str] + buffer[str..];
    record := Some(buffer);
  }

  lemma EncodeNothing()
    ensures Encode([]) == []
  {
  }

  method SizeOf(template: seq<Byte>, stringPack: seq<seq<Byte>>) returns (size: nat)
    requires 4 <= |template| && template[1] == |template|
    ensures size == |template| + |StringSet(stringPack)|
  {
    size := template[1];
    var index := 0;
    while index < |stringPack|
      invariant index <= |stringPack|
      invariant size == |template| + |Encode(stringPack[..index])|
    {
      var stringSize := StrSize(stringPack[index]);
      EncodeSnoc(stringPack[..index], stringPack[index]);
      assert stringPack[..index + 1] == stringPack[..index] + [stringPack[index]];
      size := size + stringSize;
      index := index + 1;
    }
    assert stringPack[..index] == stringPack;
    if |stringPack| == 0 {
      size := size + 1;
    }
    size := size + 1;
  }

  /** The append loop: each string with its NUL, one behind the other. */
  method AppendPack(buffer: array<Byte>, template: seq<Byte>, stringPack: seq<seq<Byte>>) returns (str: nat)
    requires buffer.Length == |template| + |StringSet(stringPack)|
    requires buffer[..|template|] == template && forall i | |template| <= i < buffer.Length :: buffer[i] == 0
    modifies buffer
    ensures str == |template| + |Encode(stringPack)|
    ensures buffer[..str] == template + Encode(stringPack)
    ensures forall i | str <= i < buffer.Length :: buffer[i] == 0
  {
    hide Encode;
    str := |template|;
    var index := 0;
    EncodeNothing();
    while index < |stringPack|
      invariant index <= |stringPack|
      invariant str == |template| + |Encode(stringPack[..index])| < buffer.Length
      invariant buffer[..str] == template + Encode(stringPack[..index])
      invariant forall i | str <= i < buffer.Length :: buffer[i] == 0
    {
      var s := stringPack[index];
      var stringSize := StrSize(s);
      assert stringPack[..index + 1] == stringPack[..index] + [s];
      EncodeSnoc(stringPack[..index], s);
      EncodePrefix(stringPack, index + 1);
      CopyString(buffer, str, s);
      assert template + Encode(stringPack[..index]) + (s + [NUL]) == template + (Encode(stringPack[..index]) + (s + [NUL]));
      str := str + stringSize;
      index := index + 1;
    }
    assert stringPack[..index] == stringPack;
  }

  /** CopyMem of a string with its NUL. */
  method CopyString(buffer: array<Byte>, str: nat, s: seq<Byte>)
    requires str + |s| + 1 <= buffer.Length
    modifies buffer
    ensures buffer[..str + |s| + 1] == old(buffer[..str]) + (s + [NUL])
    ensures forall i | str + |s| < i < buffer.Length :: buffer[i] == old(buffer[i])
  {
    var whole := s + [NUL];
    forall i | 0 <= i < |whole| {
      buffer[str + i] := whole[i];
    }
  }

  /** Where a reader that looks for two NULs in a row finds the first. */
  predicate EndsAt(tail: seq<Byte>, end: nat) {
    && end + 2 <= |tail| && tail[end] == NUL && tail[end + 1] == NUL
    && forall i | 0 <= i < end :: !(tail[i] == NUL && tail[i + 1] == NUL)
  }

  lemma {:induction false} FirstDoubleNulIsLast(pack: seq<seq<Byte>>)
    requires ProperStrings(pack) && pack != []
    ensures EndsAt(Encode(pack) + [NUL], |Encode(pack)| - 1)
  {
    var s, more := pack[0], Encode(pack[1..]) + [NUL];
    var tail := Encode(pack) + [NUL];
    assert s in pack && forall t | t in pack[1..] :: t in pack;
    assert tail == s + [NUL] + more;
    assert forall i | 0 <= i < |s| :: tail[i] == s[i] && s[i] in s;
    if pack[1..] != [] {
      FirstDoubleNulIsLast(pack[1..]);
      assert pack[1] in pack && more[0] == pack[1][0] && pack[1][0] in pack[1];
      assert forall i | |s| + 1 <= i < |tail| :: tail[i] == more[i - |s| - 1];
    } else {
      assert more == [NUL];
    }
  }

  /** A reader of the record gets the strings back in order, and finds the record to end where it does,
      for every pack without an empty string; and of packs with strings, for no other. */
  lemma StringsAreReadBack(pack: seq<seq<Byte>>)
    requires forall s | s in pack :: NUL !in s
    ensures Strings(StringSet(pack)) == pack <==> ProperStrings(pack)
    ensures ProperStrings(pack) ==> EndsAt(StringSet(pack), |StringSet(pack)| - 2)
  {
    if pack != [] {
      ListReadsBackIffProper(pack);
      if ProperStrings(pack) {
        FirstDoubleNulIsLast(pack);
      }
    }
  }
}
