/** FormatFile: five substitutions over the bytes of a file, each a left-to-right scan for the leftmost
    matches of its pattern, and the normal form they bring about. */
module DosFormat {
  import opened Bytes

  predicate IsEol(c: Byte) {
    c == CR || c == LF
  }

  const CRLF: seq<Byte> := [CR, LF]

  // ----- the five passes

  /** `([^\r])\n` becomes `\1\r\n`; a match takes both characters, so the second of two LF in a row may
      be taken as the first of the next pair, and then keeps no CR of its own. */
  function CrBeforePairedLf(s: seq<Byte>): seq<Byte> {
    if |s| >= 2 && s[0] != CR && s[1] == LF then [s[0], CR, LF] + CrBeforePairedLf(s[2..])
    else if s == [] then []
    else [s[0]] + CrBeforePairedLf(s[1..])
  }

  /** `^\n` becomes `\r\n`, at the start and behind every LF. */
  function CrBeforeLineStartLf(s: seq<Byte>, atStart: bool): seq<Byte> {
    if s == [] then []
    else (if s[0] == LF && atStart then CRLF else [s[0]]) + CrBeforeLineStartLf(s[1..], s[0] == LF)
  }

  /** `([^\r\n])$` becomes `\1\r\n`; `$` also matches in front of an LF that ends the file. */
  function EndLastLine(s: seq<Byte>): seq<Byte> {
    var n := |s|;
    if n >= 1 && !IsEol(s[n - 1]) then s + CRLF
    else if n >= 2 && s[n - 1] == LF && !IsEol(s[n - 2]) then s[..n - 1] + CRLF + [LF]
    else s
  }

  /** `[ \t]+(\r\n)` becomes `\1`. */
  function TrimLines(s: seq<Byte>): seq<Byte>
    decreases |s|
  {
    if s == [] then []
    else if IsBlank(s[0]) && CRLF <= DropBlanks(s) then TrimLines(DropBlanks(s))
    else [s[0]] + TrimLines(s[1..])
  }

  /** `\t` becomes two spaces. */
  function ExpandTabs(s: seq<Byte>): seq<Byte> {
    if s == [] then [] else (if s[0] == TAB then [SPACE, SPACE] else [s[0]]) + ExpandTabs(s[1..])
  }

  function Format(s: seq<Byte>): seq<Byte> {
    ExpandTabs(TrimLines(EndLastLine(CrBeforeLineStartLf(CrBeforePairedLf(s), true))))
  }

  // ----- the two line-ending passes are one

  /** The reference: a CR before every LF that has none, in one scan that knows the character before. */
  function CrBeforeBareLf(s: seq<Byte>, previous: Byte): seq<Byte> {
    if s == [] then []
    else (if s[0] == LF && previous != CR then CRLF else [s[0]]) + CrBeforeBareLf(s[1..], s[0])
  }

  lemma LineStartStep(c: Byte, s: seq<Byte>, atStart: bool)
    ensures CrBeforeLineStartLf([c] + s, atStart) ==
            (if c == LF && atStart then CRLF else [c]) + CrBeforeLineStartLf(s, c == LF)
  {
    assert ([c] + s)[1..] == s;
  }

  /** The second pass repairs what the first leaves: `atStart` is true behind an LF, and there the
      character before is no CR. */
  lemma {:induction false} PassesAgree(s: seq<Byte>, previous: Byte)
    requires previous == LF || s == [] || s[0] != LF || previous == CR
    ensures CrBeforeLineStartLf(CrBeforePairedLf(s), previous == LF) == CrBeforeBareLf(s, previous)
    decreases |s|
  {
    PairedUnfolds(s);
    hide CrBeforePairedLf, CrBeforeLineStartLf, CrBeforeBareLf;
    if |s| >= 2 && s[0] != CR && s[1] == LF {
      PassesAgree(s[2..], LF);
      PairAgrees(s[0], CrBeforePairedLf(s[2..]), s[2..], previous);
      assert s == [s[0], LF] + s[2..];
    } else if s != [] {
      assert s == [s[0]] + s[1..];
      LineStartStep(s[0], CrBeforePairedLf(s[1..]), previous == LF);
      BareStep(s[0], s[1..], previous);
      PassesAgree(s[1..], s[0]);
    } else {
      NothingToPass(previous);
    }
  }

  /** A pair the first pass has split, in front of a rest on which the two agree. */
  lemma PairAgrees(c: Byte, later: seq<Byte>, rest: seq<Byte>, previous: Byte)
    requires c != CR && (previous == LF || c != LF || previous == CR)
    requires CrBeforeLineStartLf(later, true) == CrBeforeBareLf(rest, LF)
    ensures CrBeforeLineStartLf([c, CR, LF] + later, previous == LF) == CrBeforeBareLf([c, LF] + rest, previous)
  {
    hide CrBeforeLineStartLf, CrBeforeBareLf;
    var done := CrBeforeBareLf(rest, LF);
    LineStartStep(c, [CR, LF] + later, previous == LF);
    LineStartStep(CR, [LF] + later, c == LF);
    LineStartStep(LF, later, false);
    BareStep(c, [LF] + rest, previous);
    BareStep(LF, rest, c);
    assert [c, CR, LF] + later == [c] + ([CR, LF] + later) && [CR, LF] + later == [CR] + ([LF] + later);
    assert [c, LF] + rest == [c] + ([LF] + rest);
    assert [CR] + ([LF] + done) == CRLF + done;
  }

  lemma NothingToPass(previous: Byte)
    ensures CrBeforeLineStartLf([], previous == LF) == [] && CrBeforeBareLf([], previous) == []
  {
  }

  lemma PairedUnfolds(s: seq<Byte>)
    ensures CrBeforePairedLf(s) ==
            if |s| >= 2 && s[0] != CR && s[1] == LF then [s[0], CR, LF] + CrBeforePairedLf(s[2..])
            else if s == [] then []
            else [s[0]] + CrBeforePairedLf(s[1..])
  {
  }

  lemma BareStep(c: Byte, s: seq<Byte>, previous: Byte)
    ensures CrBeforeBareLf([c] + s, previous) == (if c == LF && previous != CR then CRLF else [c]) + CrBeforeBareLf(s, c)
  {
    assert ([c] + s)[1..] == s;
  }

  /** The two line-ending passes together put a CR before every LF that has none, and change nothing else. */
  lemma LineEndingPassesAreOneScan(s: seq<Byte>)
    ensures CrBeforeLineStartLf(CrBeforePairedLf(s), true) == CrBeforeBareLf(s, LF)
  {
    PassesAgree(s, LF);
  }

  // ----- the normal form

  predicate BareLfFree(s: seq<Byte>, previous: Byte) {
    s == [] || ((s[0] == LF ==> previous == CR) && BareLfFree(s[1..], s[0]))
  }

  predicate Ended(s: seq<Byte>) {
    s == [] || IsEol(s[|s| - 1])
  }

  predicate Trimmed(s: seq<Byte>) {
    s == [] || (!(IsBlank(s[0]) && CRLF <= DropBlanks(s)) && Trimmed(s[1..]))
  }

  /** No bare LF, no unfinished last line, no blank in front of CRLF, no tab. */
  predicate Normal(s: seq<Byte>) {
    BareLfFree(s, LF) && Ended(s) && Trimmed(s) && TAB !in s
  }

  lemma {:induction false} ScanLeavesNoBareLf(s: seq<Byte>, previous: Byte)
    ensures BareLfFree(CrBeforeBareLf(s, previous), previous)
    ensures BareLfFree(s, previous) ==> CrBeforeBareLf(s, previous) == s
  {
    if s != [] {
      ScanLeavesNoBareLf(s[1..], s[0]);
      var t, later := CrBeforeBareLf(s, previous), CrBeforeBareLf(s[1..], s[0]);
      if s[0] == LF && previous != CR {
        assert t[1..] == [LF] + later && ([LF] + later)[1..] == later;
      } else {
        assert t[1..] == later;
      }
    }
  }

  lemma {:induction false} BareLfFreeAppend(a: seq<Byte>, b: seq<Byte>, previous: Byte)
    ensures BareLfFree(a + b, previous) <==>
            BareLfFree(a, previous) && BareLfFree(b, if a == [] then previous else a[|a| - 1])
  {
    if a == [] {
      assert a + b == b;
    } else {
      assert (a + b)[1..] == a[1..] + b;
      BareLfFreeAppend(a[1..], b, a[0]);
    }
  }

  lemma LastHasCr(s: seq<Byte>)
    requires BareLfFree(s, LF) && s != [] && s[|s| - 1] == LF
    ensures |s| >= 2 && s[|s| - 2] == CR
  {
    var n := |s| - 1;
    assert s == s[..n] + [LF];
    BareLfFreeAppend(s[..n], [LF], LF);
  }

  lemma EndLastLineEnds(s: seq<Byte>)
    requires BareLfFree(s, LF)
    ensures BareLfFree(EndLastLine(s), LF) && Ended(EndLastLine(s))
    ensures Ended(s) ==> EndLastLine(s) == s
    ensures !Ended(s) ==> EndLastLine(s) == s + CRLF
  {
    if s != [] && s[|s| - 1] == LF {
      LastHasCr(s);
    }
    if !Ended(s) {
      BareLfFreeAppend(s, CRLF, LF);
      assert CRLF[1..] == [LF] && BareLfFree([LF], CR);
    }
  }

  /** The first character of what a scan of a trimmed rest is put behind decides nothing but itself. */
  lemma {:induction false} TrimKeepsLineEnds(s: seq<Byte>, previous: Byte)
    requires BareLfFree(s, previous)
    ensures BareLfFree(TrimLines(s), previous)
    ensures Ended(s) ==> Ended(TrimLines(s)) && (s != [] ==> TrimLines(s) != [])
    ensures s != [] && IsEol(s[0]) ==> TrimLines(s) != [] && TrimLines(s)[0] == s[0]
    decreases |s|
  {
    hide TrimLines, DropBlanks;
    TrimUnfolds(s);
    if s != [] {
      if IsBlank(s[0]) && CRLF <= DropBlanks(s) {
        var t := DropBlanks(s);
        var p := DropBlanksKeepsLineEnds(s, previous);
        assert t[0] == CR && BareLfFree(t, previous);
        TrimKeepsLineEnds(t, previous);
      } else {
        var later := TrimLines(s[1..]);
        TrimKeepsLineEnds(s[1..], s[0]);
        assert ([s[0]] + later)[1..] == later;
      }
    }
  }

  lemma TrimUnfolds(s: seq<Byte>)
    ensures TrimLines(s) ==
            if s == [] then []
            else if IsBlank(s[0]) && CRLF <= DropBlanks(s) then TrimLines(DropBlanks(s))
            else [s[0]] + TrimLines(s[1..])
  {
  }

  lemma {:induction false} DropBlanksKeepsLineEnds(s: seq<Byte>, previous: Byte) returns (p: Byte)
    requires BareLfFree(s, previous)
    ensures BareLfFree(DropBlanks(s), p)
    ensures DropBlanks(s) != [] && Ended(s) ==> Ended(DropBlanks(s))
  {
    if s != [] && IsBlank(s[0]) {
      p := DropBlanksKeepsLineEnds(s[1..], s[0]);
    } else {
      p := previous;
    }
  }

  lemma {:induction false} DropBlanksOfTrim(s: seq<Byte>)
    requires !(CRLF <= DropBlanks(s))
    ensures !(CRLF <= DropBlanks(TrimLines(s)))
    decreases |s|
  {
    if s != [] && IsBlank(s[0]) {
      DropBlanksOfTrim(s[1..]);
      assert TrimLines(s)[1..] == TrimLines(s[1..]);
    } else if |s| >= 2 && s[0] == CR {
      FirstTwo(s);
      assert s[1] != LF;
      var t := TrimLines(s);
      assert t[1..] == TrimLines(s[1..]);
      TrimFirst(s[1..]);
      assert t[0] == CR && (|t| >= 2 ==> t[1] == TrimLines(s[1..])[0]);
    }
  }

  /** The first byte after trimming is an LF only if it was one before. */
  lemma TrimFirst(s: seq<Byte>)
    ensures TrimLines(s) != [] && TrimLines(s)[0] == LF ==> s != [] && s[0] == LF
  {
    if s != [] && IsBlank(s[0]) && CRLF <= DropBlanks(s) {
      var t := DropBlanks(s);
      assert t[0] == CR;
      assert TrimLines(t) == [t[0]] + TrimLines(t[1..]);
    }
  }

  lemma {:induction false} TrimTrims(s: seq<Byte>)
    ensures Trimmed(TrimLines(s))
    decreases |s|
  {
    if s != [] {
      if IsBlank(s[0]) && CRLF <= DropBlanks(s) {
        TrimTrims(DropBlanks(s));
      } else {
        TrimTrims(s[1..]);
        var t, later := TrimLines(s), TrimLines(s[1..]);
        assert t[1..] == later;
        if IsBlank(s[0]) {
          DropBlanksOfTrim(s);
        }
      }
    }
  }

  lemma {:induction false} TrimmedIsKept(s: seq<Byte>)
    requires Trimmed(s)
    ensures TrimLines(s) == s
    decreases |s|
  {
    if s != [] {
      TrimmedIsKept(s[1..]);
    }
  }

  lemma {:induction false} NoTabsLeft(s: seq<Byte>)
    ensures TAB !in ExpandTabs(s)
  {
    if s != [] {
      NoTabsLeft(s[1..]);
    }
  }

  lemma TabsExpand(s: seq<Byte>)
    ensures TAB !in ExpandTabs(s)
    ensures Ended(s) ==> Ended(ExpandTabs(s))
    ensures TAB !in s ==> ExpandTabs(s) == s
  {
    NoTabsLeft(s);
    if TAB !in s {
      NoTabsNothingToExpand(s);
    }
    if s != [] && Ended(s) {
      var n := |s| - 1;
      assert s == s[..n] + [s[n]];
      TabsExpandBetween(s[..n], [s[n]]);
      NoTabsNothingToExpand([s[n]]);
    }
  }

  lemma {:induction false} ExpandKeepsLineEnds(s: seq<Byte>, previous: Byte)
    requires BareLfFree(s, previous)
    ensures BareLfFree(ExpandTabs(s), previous)
  {
    if s != [] {
      var t, later := ExpandTabs(s), ExpandTabs(s[1..]);
      ExpandKeepsLineEnds(s[1..], s[0]);
      if s[0] == TAB {
        assert t[1..] == [SPACE] + later && ([SPACE] + later)[1..] == later;
        assert BareLfFree(later, SPACE);
      } else {
        assert t[1..] == later;
      }
    }
  }

  lemma {:induction false} ExpandKeepsCrLfBehindBlanks(s: seq<Byte>)
    ensures CRLF <= DropBlanks(ExpandTabs(s)) <==> CRLF <= DropBlanks(s)
  {
    if s != [] {
      var t, later := ExpandTabs(s), ExpandTabs(s[1..]);
      if s[0] == TAB {
        ExpandKeepsCrLfBehindBlanks(s[1..]);
        BlanksInFront(later);
      } else if s[0] == SPACE {
        ExpandKeepsCrLfBehindBlanks(s[1..]);
        assert t[1..] == later;
      } else {
        assert t[1..] == later;
        ExpandFirst(s[1..]);
        FirstTwo(s);
        FirstTwo(t);
      }
    }
  }

  lemma BlanksInFront(s: seq<Byte>)
    ensures DropBlanks([SPACE] + s) == DropBlanks(s)
    ensures DropBlanks([SPACE, SPACE] + s) == DropBlanks(s)
  {
    assert ([SPACE] + s)[1..] == s;
    assert ([SPACE, SPACE] + s)[1..] == [SPACE] + s;
  }

  lemma FirstTwo(s: seq<Byte>)
    ensures CRLF <= s <==> |s| >= 2 && s[0] == CR && s[1..][0] == LF
  {
  }

  lemma ExpandFirst(s: seq<Byte>)
    ensures s == [] <==> ExpandTabs(s) == []
    ensures s != [] ==> (ExpandTabs(s)[0] == LF <==> s[0] == LF)
  {
  }

  lemma {:induction false} ExpandKeepsTrimmed(s: seq<Byte>)
    requires Trimmed(s)
    ensures Trimmed(ExpandTabs(s))
  {
    if s != [] {
      var t, later := ExpandTabs(s), ExpandTabs(s[1..]);
      ExpandKeepsTrimmed(s[1..]);
      ExpandKeepsCrLfBehindBlanks(s);
      if s[0] == TAB {
        BlanksInFront(later);
        assert t[1..] == [SPACE] + later && ([SPACE] + later)[1..] == later;
      } else {
        assert t[1..] == later;
      }
    }
  }

  /** The result is in normal form, for every file. */
  lemma FormatIsNormal(s: seq<Byte>)
    ensures Normal(Format(s))
  {
    LineEndingPassesAreOneScan(s);
    var a := CrBeforeBareLf(s, LF);
    ScanLeavesNoBareLf(s, LF);
    EndLastLineEnds(a);
    var b := EndLastLine(a);
    TrimKeepsLineEnds(b, LF);
    TrimTrims(b);
    var c := TrimLines(b);
    TabsExpand(c);
    ExpandKeepsLineEnds(c, LF);
    ExpandKeepsTrimmed(c);
  }

  /** The files that formatting leaves alone are exactly those in normal form. */
  lemma NormalIffUnchanged(s: seq<Byte>)
    ensures Format(s) == s <==> Normal(s)
  {
    if Normal(s) {
      LineEndingPassesAreOneScan(s);
      ScanLeavesNoBareLf(s, LF);
      EndLastLineEnds(s);
      TrimmedIsKept(s);
      TabsExpand(s);
    }
    FormatIsNormal(s);
  }

  /** Formatting twice is formatting once. */
  lemma FormatIsIdempotent(s: seq<Byte>)
    ensures Format(Format(s)) == Format(s)
  {
    FormatIsNormal(s);
    NormalIffUnchanged(Format(s));
  }

  // ----- what formatting must not touch

  /** The bytes that are neither blanks nor line-ending characters. */
  function Ink(s: seq<Byte>): seq<Byte> {
    if s == [] then [] else (if IsBlank(s[0]) || IsEol(s[0]) then [] else [s[0]]) + Ink(s[1..])
  }

  lemma {:induction false} InkAppend(a: seq<Byte>, b: seq<Byte>)
    ensures Ink(a + b) == Ink(a) + Ink(b)
  {
    if a == [] {
      assert a + b == b;
    } else {
      assert (a + b)[1..] == a[1..] + b;
      InkAppend(a[1..], b);
    }
  }

  lemma {:induction false} InkOfScan(s: seq<Byte>, previous: Byte)
    ensures Ink(CrBeforeBareLf(s, previous)) == Ink(s)
  {
    if s != [] {
      InkOfScan(s[1..], s[0]);
      InkAppend(if s[0] == LF && previous != CR then CRLF else [s[0]], CrBeforeBareLf(s[1..], s[0]));
      assert Ink(CRLF) == Ink([LF]) == [] by { assert CRLF[1..] == [LF]; }
      assert Ink([s[0]]) + Ink(s[1..]) == Ink(s);
    }
  }

  lemma {:induction false} InkOfBlanks(s: seq<Byte>)
    ensures Ink(DropBlanks(s)) == Ink(s)
  {
    if s != [] && IsBlank(s[0]) {
      InkOfBlanks(s[1..]);
    }
  }

  lemma {:induction false} InkOfTrim(s: seq<Byte>)
    ensures Ink(TrimLines(s)) == Ink(s)
    decreases |s|
  {
    if s != [] {
      if IsBlank(s[0]) && CRLF <= DropBlanks(s) {
        InkOfTrim(DropBlanks(s));
        InkOfBlanks(s);
      } else {
        InkOfTrim(s[1..]);
        assert TrimLines(s)[1..] == TrimLines(s[1..]);
      }
    }
  }

  lemma {:induction false} InkOfExpand(s: seq<Byte>)
    ensures Ink(ExpandTabs(s)) == Ink(s)
  {
    if s != [] {
      InkOfExpand(s[1..]);
      InkAppend(if s[0] == TAB then [SPACE, SPACE] else [s[0]], ExpandTabs(s[1..]));
      assert Ink([SPACE, SPACE]) == [] by { assert [SPACE, SPACE][1..] == [SPACE]; }
    }
  }

  /** Formatting changes white space only: every other byte stays, in its order. */
  lemma FormatKeepsInk(s: seq<Byte>)
    ensures Ink(Format(s)) == Ink(s)
  {
    LineEndingPassesAreOneScan(s);
    var a := CrBeforeBareLf(s, LF);
    InkOfScan(s, LF);
    ScanLeavesNoBareLf(s, LF);
    EndLastLineEnds(a);
    InkAppend(a, CRLF);
    assert Ink(CRLF) == [] by { assert CRLF[1..] == [LF] && Ink([LF]) == []; }
    InkOfTrim(EndLastLine(a));
    InkOfExpand(TrimLines(EndLastLine(a)));
  }

  // ----- the whole pipeline, line by line


  /** A line as it may stand in a file, ended by LF or by CRLF. */
  datatype TextLine = TextLine(text: seq<Byte>, crlf: bool)

  /** Its text holds no LF, and an LF that ends it alone has no CR before it. */
  predicate IsLine(l: TextLine) {
    LF !in l.text && (l.crlf || !EndsInCr(l.text))
  }

  predicate EndsInCr(s: seq<Byte>) {
    s != [] && s[|s| - 1] == CR
  }

  function PrintLines(lines: seq<TextLine>): seq<Byte> {
    if lines == [] then []
    else lines[0].text + (if lines[0].crlf then CRLF else [LF]) + PrintLines(lines[1..])
  }

  /** A text without the blanks at its end. */
  function TrimRight(s: seq<Byte>): seq<Byte> {
    if s != [] && IsBlank(s[|s| - 1]) then TrimRight(s[..|s| - 1]) else s
  }

  function Tidy(text: seq<Byte>): seq<Byte> {
    ExpandTabs(TrimRight(text))
  }

  /** Every line tidied and ended by CRLF. */
  function TidyLines(lines: seq<TextLine>): seq<Byte> {
    if lines == [] then [] else Tidy(lines[0].text) + CRLF + TidyLines(lines[1..])
  }

  lemma {:induction false} TabsExpandBetween(a: seq<Byte>, b: seq<Byte>)
    ensures ExpandTabs(a + b) == ExpandTabs(a) + ExpandTabs(b)
  {
    if a == [] {
      assert a + b == b;
    } else {
      assert (a + b)[1..] == a[1..] + b;
      TabsExpandBetween(a[1..], b);
    }
  }

  lemma {:induction false} NoTabsNothingToExpand(s: seq<Byte>)
    requires TAB !in s
    ensures ExpandTabs(s) == s
  {
    if s != [] {
      NoTabsNothingToExpand(s[1..]);
    }
  }

  /** Each tab becomes two spaces, wherever it stands, and nothing else changes. */
  lemma TabIsTwoSpaces(before: seq<Byte>, behind: seq<Byte>)
    requires TAB !in before
    ensures ExpandTabs(before) == before
    ensures ExpandTabs(before + [TAB] + behind) == before + Ascii("  ") + ExpandTabs(behind)
  {
    NoTabsNothingToExpand(before);
    TabsExpandBetween(before + [TAB], behind);
    TabsExpandBetween(before, [TAB]);
    assert ExpandTabs([TAB]) == Ascii("  ") + ExpandTabs([]);
  }

  /** The first two passes on a line: its text stays, and its end becomes CRLF. */
  lemma {:induction false} ScanOfLine(text: seq<Byte>, eol: seq<Byte>, rest: seq<Byte>, previous: Byte)
    requires LF !in text && (eol == CRLF || (eol == [LF] && !EndsInCr(text) && (text != [] || previous != CR)))
    ensures CrBeforeBareLf(text + (eol + rest), previous) == text + (CRLF + CrBeforeBareLf(rest, LF))
    decreases |text|
  {
    hide CrBeforeBareLf;
    var s := text + (eol + rest);
    if text == [] {
      ScanOfEnd(eol, rest, previous);
      assert s == eol + rest;
      assert [] + (CRLF + CrBeforeBareLf(rest, LF)) == CRLF + CrBeforeBareLf(rest, LF);
    } else {
      var c, more := text[0], text[1..];
      assert c in text && forall d | d in more :: d in text;
      assert s == [c] + (more + (eol + rest));
      BareStep(c, more + (eol + rest), previous);
      ScanOfLine(more, eol, rest, c);
      assert [c] + (more + (CRLF + CrBeforeBareLf(rest, LF))) == text + (CRLF + CrBeforeBareLf(rest, LF));
    }
  }

  lemma ScanOfEnd(eol: seq<Byte>, rest: seq<Byte>, previous: Byte)
    requires eol == CRLF || (eol == [LF] && previous != CR)
    ensures CrBeforeBareLf(eol + rest, previous) == CRLF + CrBeforeBareLf(rest, LF)
  {
    hide CrBeforeBareLf;
    if eol == CRLF {
      assert eol + rest == [CR] + ([LF] + rest);
      BareStep(CR, [LF] + rest, previous);
      assert [CR] + ([LF] + CrBeforeBareLf(rest, LF)) == CRLF + CrBeforeBareLf(rest, LF);
    }
    BareStep(LF, rest, if eol == CRLF then CR else previous);
  }

  lemma {:induction false} ScanOfText(text: seq<Byte>, previous: Byte)
    requires LF !in text
    ensures CrBeforeBareLf(text, previous) == text
  {
    if text != [] {
      assert text[0] in text && forall c | c in text[1..] :: c in text;
      ScanOfText(text[1..], text[0]);
    }
  }

  function AllCrlf(lines: seq<TextLine>): seq<TextLine> {
    if lines == [] then [] else [TextLine(lines[0].text, true)] + AllCrlf(lines[1..])
  }

  predicate ProperLines(lines: seq<TextLine>) {
    forall l | l in lines :: IsLine(l)
  }

  lemma {:induction false} ScanOfLines(lines: seq<TextLine>, tail: seq<Byte>)
    requires ProperLines(lines) && LF !in tail
    ensures CrBeforeBareLf(PrintLines(lines) + tail, LF) == PrintLines(AllCrlf(lines)) + tail
  {
    hide CrBeforeBareLf, PrintLines, AllCrlf, EndsInCr;
    NothingPrinted();
    if lines == [] {
      assert PrintLines(lines) + tail == tail;
      assert PrintLines(AllCrlf(lines)) + tail == tail;
      ScanOfText(tail, LF);
    } else {
      assert lines[0] in lines && forall l | l in lines[1..] :: l in lines;
      var text, eol, more := lines[0].text, if lines[0].crlf then CRLF else [LF], PrintLines(lines[1..]);
      PrintedFirst(lines);
      assert text + eol + more + tail == text + (eol + (more + tail));
      ScanOfLine(text, eol, more + tail, LF);
      ScanOfLines(lines[1..], tail);
      AllCrlfFirst(lines);
      var later := PrintLines(AllCrlf(lines[1..]));
      assert text + CRLF + later + tail == text + (CRLF + (later + tail));
    }
  }

  lemma NothingPrinted()
    ensures PrintLines([]) == [] && AllCrlf([]) == []
  {
  }

  lemma PrintedFirst(lines: seq<TextLine>)
    requires lines != []
    ensures PrintLines(lines) == lines[0].text + (if lines[0].crlf then CRLF else [LF]) + PrintLines(lines[1..])
  {
  }

  lemma AllCrlfFirst(lines: seq<TextLine>)
    requires lines != []
    ensures PrintLines(AllCrlf(lines)) == lines[0].text + CRLF + PrintLines(AllCrlf(lines[1..]))
  {
    assert AllCrlf(lines)[1..] == AllCrlf(lines[1..]);
  }

  predicate AllBlank(s: seq<Byte>) {
    forall c | c in s :: IsBlank(c)
  }

  lemma {:induction false} DropBlanksBefore(text: seq<Byte>, rest: seq<Byte>)
    requires rest != [] && !IsBlank(rest[0])
    ensures DropBlanks(text + rest) == DropBlanks(text) + rest
    ensures DropBlanks(text) == [] <==> AllBlank(text)
  {
    if text == [] {
      assert text + rest == rest;
    } else {
      assert (text + rest)[1..] == text[1..] + rest;
      assert (forall c | c in text :: c == text[0] || c in text[1..]) && text[0] in text && forall c | c in text[1..] :: c in text;
      DropBlanksBefore(text[1..], rest);
    }
  }

  lemma {:induction false} TrimRightFirst(text: seq<Byte>)
    requires text != []
    ensures TrimRight(text) == if AllBlank(text) then [] else [text[0]] + TrimRight(text[1..])
  {
    var n := |text| - 1;
    assert forall c | c in text :: c == text[n] || c in text[..n];
    if n == 0 {
      assert text == [text[0]] && text[1..] == [] && text[..0] == [];
    } else if IsBlank(text[n]) {
      TrimRightFirst(text[..n]);
      assert text[1..][..n - 1] == text[..n][1..];
      assert AllBlank(text) <==> AllBlank(text[..n]) by {
        assert forall c | c in text[..n] :: c in text;
      }
    } else {
      assert text[n] in text && text == [text[0]] + text[1..];
    }
  }

  /** The fourth pass on a line. */
  lemma {:induction false} TrimOfLine(text: seq<Byte>, rest: seq<Byte>)
    requires LF !in text
    ensures TrimLines(text + (CRLF + rest)) == TrimRight(text) + (CRLF + TrimLines(rest))
    decreases |text|
  {
    hide TrimLines, TrimRight, DropBlanks, AllBlank;
    var end, trimmed := CRLF + rest, CRLF + TrimLines(rest);
    TrimOfEnd(rest);
    if text == [] {
      assert text + end == end;
      NothingToTrim();
      assert [] + trimmed == trimmed;
    } else {
      var c, more := text[0], text[1..];
      assert text + end == [c] + (more + end);
      assert forall d | d in more :: d in text;
      TrimRightFirst(text);
      DropBlanksBefore(text, end);
      if AllBlank(text) {
        FirstIsBlank(text);
        assert [] + end == end && [] + trimmed == trimmed;
        TrimUnfolds(text + end);
      } else {
        TextIsNoEnd(text, rest);
        TrimSkips(c, more + end);
        TrimOfLine(more, rest);
        assert [c] + (TrimRight(more) + trimmed) == [c] + TrimRight(more) + trimmed;
      }
    }
  }

  lemma NothingToTrim()
    ensures TrimRight([]) == []
  {
  }

  lemma TrimSkips(c: Byte, s: seq<Byte>)
    requires !(CRLF <= DropBlanks([c] + s))
    ensures TrimLines([c] + s) == [c] + TrimLines(s)
  {
    assert ([c] + s)[1..] == s;
  }

  lemma FirstIsBlank(text: seq<Byte>)
    requires AllBlank(text) && text != []
    ensures IsBlank(text[0])
  {
  }

  lemma TextIsNoEnd(text: seq<Byte>, rest: seq<Byte>)
    requires LF !in text && !AllBlank(text)
    ensures !(CRLF <= DropBlanks(text + (CRLF + rest)))
  {
    DropBlanksBefore(text, CRLF + rest);
    DropBlanksIsTail(text);
    var left := DropBlanks(text);
    var whole := left + (CRLF + rest);
    assert whole[0] == left[0] && (forall c | c in left :: c in text);
    assert whole[1] == if |left| > 1 then left[1] else CR;
  }

  lemma {:induction false} DropBlanksIsTail(s: seq<Byte>)
    ensures forall c | c in DropBlanks(s) :: c in s
  {
    if s != [] && IsBlank(s[0]) {
      DropBlanksIsTail(s[1..]);
    }
  }

  lemma TrimOfEnd(rest: seq<Byte>)
    ensures TrimLines(CRLF + rest) == CRLF + TrimLines(rest)
  {
    var s := CRLF + rest;
    assert s[1..] == [LF] + rest && s[1..][1..] == rest;
    assert TrimLines(s[1..]) == [LF] + TrimLines(rest);
  }

  lemma {:induction false} TrimOfLines(lines: seq<TextLine>, tail: seq<Byte>)
    requires ProperLines(lines) && LF !in tail
    ensures ExpandTabs(TrimLines(PrintLines(AllCrlf(lines)) + tail)) == TidyLines(lines) + ExpandTabs(tail)
  {
    hide TrimLines, ExpandTabs, TrimRight, PrintLines, AllCrlf;
    if lines == [] {
      NothingPrinted();
      assert [] + tail == tail && [] + ExpandTabs(tail) == ExpandTabs(tail);
      NothingToTrimInside(tail);
    } else {
      assert lines[0] in lines && forall l | l in lines[1..] :: l in lines;
      var text, later := lines[0].text, PrintLines(AllCrlf(lines[1..]));
      var more := later + tail;
      AllCrlfFirst(lines);
      assert text + CRLF + later + tail == text + (CRLF + more);
      TrimOfLine(text, more);
      TrimOfLines(lines[1..], tail);
      TabsExpandBetween(TrimRight(text), CRLF + TrimLines(more));
      TabsExpandBetween(CRLF, TrimLines(more));
      NoTabsNothingToExpand(CRLF);
      assert Tidy(text) + (CRLF + (TidyLines(lines[1..]) + ExpandTabs(tail))) ==
             Tidy(text) + CRLF + TidyLines(lines[1..]) + ExpandTabs(tail);
    }
  }

  lemma {:induction false} NothingToTrimInside(tail: seq<Byte>)
    requires LF !in tail
    ensures TrimLines(tail) == tail
  {
    hide DropBlanks;
    TrimUnfolds(tail);
    if tail != [] {
      var left := DropBlanks(tail);
      DropBlanksIsTail(tail);
      assert |left| >= 2 ==> left[1] in left;
      NothingToTrimInside(tail[1..]);
    }
  }

  /** The lines of a file, and what is left behind the last line end. */
  function WithTail(lines: seq<TextLine>, tail: seq<Byte>): seq<TextLine> {
    if tail == [] then lines else lines + [TextLine(tail, true)]
  }

  lemma {:induction false} PrintLinesAppend(lines: seq<TextLine>, l: TextLine)
    ensures PrintLines(AllCrlf(lines + [l])) == PrintLines(AllCrlf(lines)) + (l.text + CRLF)
  {
    if lines == [] {
      assert lines + [l] == [l] && AllCrlf([l]) == [TextLine(l.text, true)] + AllCrlf([l][1..]);
      assert PrintLines(AllCrlf([l])) == l.text + CRLF + PrintLines([]);
    } else {
      assert (lines + [l])[1..] == lines[1..] + [l];
      PrintLinesAppend(lines[1..], l);
      AllCrlfFirst(lines);
      AllCrlfFirst(lines + [l]);
    }
  }

  lemma {:induction false} CrlfLinesEnd(lines: seq<TextLine>)
    requires lines != []
    ensures var s := PrintLines(AllCrlf(lines)); |s| >= 2 && s[|s| - 2] == CR && s[|s| - 1] == LF
  {
    AllCrlfFirst(lines);
    if lines[1..] != [] {
      CrlfLinesEnd(lines[1..]);
    }
  }

  lemma EndOfLines(lines: seq<TextLine>, tail: seq<Byte>)
    requires LF !in tail && !EndsInCr(tail)
    ensures EndLastLine(PrintLines(AllCrlf(lines)) + tail) == PrintLines(AllCrlf(WithTail(lines, tail)))
  {
    var whole := PrintLines(AllCrlf(lines));
    if tail != [] {
      assert tail[|tail| - 1] in tail;
      assert (whole + tail)[|whole + tail| - 1] == tail[|tail| - 1];
      PrintLinesAppend(lines, TextLine(tail, true));
      assert whole + tail + CRLF == whole + (tail + CRLF);
    } else {
      assert whole + tail == whole;
      if lines != [] {
        CrlfLinesEnd(lines);
      }
    }
  }

  /** A file that ends in a lone CR counts as ended. */
  lemma EndOfCr(whole: seq<Byte>, tail: seq<Byte>)
    requires EndsInCr(tail)
    ensures EndLastLine(whole + tail) == whole + tail
  {
    assert (whole + tail)[|whole + tail| - 1] == CR;
  }

  /** Formatting, line by line, of any file at all: every line loses the blanks at its end, has two spaces
      for each tab, and ends in CRLF, the last one too. Only what a lone CR at the end of the file ends is
      neither trimmed nor ended. */
  lemma FormatTidiesLines(lines: seq<TextLine>, tail: seq<Byte>)
    requires ProperLines(lines) && LF !in tail
    ensures Format(PrintLines(lines) + tail) ==
            if EndsInCr(tail) then TidyLines(lines) + ExpandTabs(tail) else TidyLines(WithTail(lines, tail))
  {
    hide CrBeforeBareLf, CrBeforePairedLf, CrBeforeLineStartLf, EndLastLine, TrimLines, ExpandTabs, TidyLines, PrintLines;
    LineEndingPassesAreOneScan(PrintLines(lines) + tail);
    ScanOfLines(lines, tail);
    if !EndsInCr(tail) {
      var all := WithTail(lines, tail);
      EndOfLines(lines, tail);
      assert ProperLines(all);
      TrimOfLines(all, []);
      NothingExpanded();
      assert PrintLines(AllCrlf(all)) + [] == PrintLines(AllCrlf(all)) && TidyLines(all) + [] == TidyLines(all);
    } else {
      EndOfCr(PrintLines(AllCrlf(lines)), tail);
      TrimOfLines(lines, tail);
    }
  }

  lemma NothingExpanded()
    ensures ExpandTabs([]) == []
  {
  }

  lemma FirstLine(s: seq<Byte>, i: nat) returns (line: TextLine)
    requires i < |s| && s[i] == LF && LF !in s[..i]
    ensures IsLine(line) && line.text + (if line.crlf then CRLF else [LF]) == s[..i + 1]
  {
    if i > 0 && s[i - 1] == CR {
      line := TextLine(s[..i - 1], true);
      assert forall c | c in s[..i - 1] :: c in s[..i];
    } else {
      line := TextLine(s[..i], false);
    }
  }

  /** Every file is made of such lines and such a rest. */
  lemma {:induction false} EveryFileIsLines(s: seq<Byte>) returns (lines: seq<TextLine>, tail: seq<Byte>)
    ensures ProperLines(lines) && LF !in tail && s == PrintLines(lines) + tail
    decreases |s|
  {
    var i := IndexOf(s, LF);
    if i == |s| {
      lines, tail := [], s;
      assert s[..i] == s;
    } else {
      var line := FirstLine(s, i);
      var more;
      more, tail := EveryFileIsLines(s[i + 1..]);
      lines := [line] + more;
      assert lines[1..] == more;
      assert s == s[..i + 1] + s[i + 1..];
      PrintedFirst(lines);
      assert s[..i + 1] + (PrintLines(more) + tail) == s[..i + 1] + PrintLines(more) + tail;
    }
  }

  /** And the blanks a line loses are all those at its end. */
  lemma {:induction false} TrimRightIsExact(s: seq<Byte>)
    ensures var t := TrimRight(s);
            && t <= s && (t == [] || (t[|t| - 1] != SPACE && t[|t| - 1] != TAB))
            && forall i | |t| <= i < |s| :: s[i] == SPACE || s[i] == TAB
  {
    if s != [] && IsBlank(s[|s| - 1]) {
      TrimRightIsExact(s[..|s| - 1]);
    }
  }
}
