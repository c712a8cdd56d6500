/** Lists of NUL-terminated strings laid end to end, as a device tree's compatible property and an
    SMBIOS string set hold them. */
module StringLists {
  import opened Bytes

  /** The strings of a list: up to an empty one or the end. */
  function Strings(prop: seq<Byte>): seq<seq<Byte>> {
    if prop == [] || prop[0] == NUL then []
    else
      var s := CString(prop);
      [s] + if |s| < |prop| then Strings(prop[|s| + 1..]) else []
  }

  /** Every string with its NUL. */
  function Encode(strings: seq<seq<Byte>>): seq<Byte> {
    if strings == [] then [] else strings[0] + [NUL] + Encode(strings[1..])
  }

  predicate ProperStrings(strings: seq<seq<Byte>>) {
    forall s | s in strings :: s != [] && NUL !in s
  }

  lemma StringsOfOne(s: seq<Byte>, more: seq<Byte>)
    requires s != [] && NUL !in s
    ensures Strings(s + [NUL] + more) == [s] + Strings(more)
  {
    var whole := s + [NUL] + more;
    CStringStopsAtNul(s, more);
    CStringOfPlain(s);
    assert whole[0] == s[0] && s[0] in s;
    assert whole[|s| + 1..] == more;
  }

  lemma EncodeThen(strings: seq<seq<Byte>>, rest: seq<Byte>)
    requires strings != []
    ensures Encode(strings) + rest == strings[0] + [NUL] + (Encode(strings[1..]) + rest)
  {
  }

  /** A list of proper strings reads back as it was written, up to its end or to a NUL behind it. */
  lemma {:induction false} ListReadsBack(strings: seq<seq<Byte>>, rest: seq<Byte>)
    requires ProperStrings(strings) && (rest == [] || rest[0] == NUL)
    ensures Strings(Encode(strings) + rest) == strings
  {
    if strings == [] {
      assert Encode(strings) + rest == rest && Strings(rest) == [];
    } else {
      hide Strings, CString, Encode;
      var s, more := strings[0], Encode(strings[1..]) + rest;
      assert s in strings && forall t | t in strings[1..] :: t in strings;
      ListReadsBack(strings[1..], rest);
      EncodeThen(strings, rest);
      StringsOfOne(s, more);
    }
  }

  lemma StringsStep(prop: seq<Byte>, p: nat)
    requires p <= |prop|
    ensures var s := CString(prop[p..]);
            Strings(prop[p..]) ==
            if p == |prop| || prop[p] == NUL then []
            else [s] + if p + |s| < |prop| then Strings(prop[p + |s| + 1..]) else []
  {
    hide Strings, CString;
    var tail := prop[p..];
    var s := CString(tail);
    StringsUnfold(tail);
    assert |tail| == |prop| - p;
    if |s| < |tail| {
      SliceOfTail(prop, p, |s| + 1);
      assert tail[0] == prop[p];
    }
  }

  lemma StringsUnfold(prop: seq<Byte>)
    ensures Strings(prop) ==
            if prop == [] || prop[0] == NUL then []
            else [CString(prop)] + if |CString(prop)| < |prop| then Strings(prop[|CString(prop)| + 1..]) else []
  {
  }

  lemma SliceOfTail(s: seq<Byte>, p: nat, q: nat)
    requires p + q <= |s|
    ensures s[p..][q..] == s[p + q..]
  {
  }

  lemma {:induction false} StringsAreNotEmpty(prop: seq<Byte>)
    ensures ProperStrings(Strings(prop))
  {
    if prop != [] && prop[0] != NUL {
      var s := CString(prop);
      if |s| < |prop| {
        StringsAreNotEmpty(prop[|s| + 1..]);
      }
    }
  }

  /** With a NUL behind the list, it reads back as it was written exactly if no string is empty. */
  lemma ListReadsBackIffProper(strings: seq<seq<Byte>>)
    requires forall s | s in strings :: NUL !in s
    ensures Strings(Encode(strings) + [NUL]) == strings <==> ProperStrings(strings)
  {
    if ProperStrings(strings) {
      ListReadsBack(strings, [NUL]);
    }
    StringsAreNotEmpty(Encode(strings) + [NUL]);
  }
}
