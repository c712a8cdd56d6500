/** GitDiffCheck: the scanner that finds the added lines of a git diff, and the language it accepts. */
module DiffScanner {
  datatype Phase = START | PRE_PATCH | PATCH

  /** A line handed to check_added_line, with the file it belongs to and that file's rules. */
  datatype Added = Added(filename: string, line: string, forceCrlf: bool, forceNoTabs: bool)

  /** The scanner's fields, without the position; `checked` records the calls of check_added_line. */
  datatype Scanner = Scanner(formatOk: bool, phase: Phase, filename: string, isNewFile: bool, forceCrlf: bool,
                             forceNoTabs: bool, binary: bool, newBin: seq<string>, checked: seq<Added>)

  const FRESH := Scanner(true, START, "", false, false, false, false, [], [])

  // ----- Python's string operations

  /** White space as str.rstrip takes it. */
  predicate IsSpace(c: char) {
    var n := c as int;
    || 0x09 <= n <= 0x0D || 0x1C <= n <= 0x20 || n == 0x85 || n == 0xA0 || n == 0x1680
    || 0x2000 <= n <= 0x200A || n == 0x2028 || n == 0x2029 || n == 0x202F || n == 0x205F || n == 0x3000
  }

  function RStrip(s: string): (t: string)
    ensures t <= s
    ensures t != [] ==> !IsSpace(t[|t| - 1])
    ensures forall i | |t| <= i < |s| :: IsSpace(s[i])
  {
    if s != [] && IsSpace(s[|s| - 1]) then RStrip(s[..|s| - 1]) else s
  }

  lemma RStripIsPrefix(s: string)
    ensures |RStrip(s)| <= |s| && (RStrip(s) == s <==> |RStrip(s)| == |s|)
  {
    assert RStrip(s) == s[..|RStrip(s)|];
  }

  predicate EndsWith(s: string, tail: string) {
    |tail| <= |s| && s[|s| - |tail|..] == tail
  }

  predicate Contains(s: string, part: string) {
    part <= s || (s != [] && Contains(s[1..], part))
  }

  /** Contains finds a part wherever it is, and nothing else. */
  lemma {:induction false} ContainsAnywhere(s: string, part: string)
    ensures Contains(s, part) <==> exists a: string, b: string :: s == a + part + b
  {
    if part <= s {
      assert s == [] + part + s[|part|..];
    } else if s != [] {
      ContainsAnywhere(s[1..], part);
      if Contains(s[1..], part) {
        var a: string, b: string :| s[1..] == a + part + b;
        assert s == ([s[0]] + a) + part + b;
      }
      if a: string, b: string :| s == a + part + b {
        NotAtFront(s, part, a, b);
        assert s[1..] == a[1..] + part + b;
      }
    }
  }

  lemma NotAtFront(s: string, part: string, a: string, b: string)
    requires s == a + part + b && !(part <= s)
    ensures a != []
  {
    assert [] + part + b == part + b;
  }

  function Before(s: string, c: char): string {
    if s == [] || s[0] == c then [] else [s[0]] + Before(s[1..], c)
  }

  // ----- the lines the scanner tells apart

  predicate DiffCommand(line: string) {
    "diff --git" <= line
  }

  predicate HunkMark(line: string) {
    "@@ " <= line
  }

  predicate BinaryMark(line: string) {
    "GIT binary patch" <= line || "Binary files" <= line
  }

  predicate NewSubmodule(line: string) {
    "new file mode 160000" <= line
  }

  predicate PrePatchPrefix(line: string) {
    || "--- " <= line || "+++ " <= line || "index " <= line || "new file " <= line || "deleted file " <= line
    || "old mode " <= line || "new mode " <= line || "similarity index " <= line || "copy from " <= line
    || "copy to " <= line || "rename " <= line
  }

  /** newfile_prefix_re: "index ", one or more zeros, "..". */
  predicate IndexOfNewFile(line: string) {
    "index 0" <= line && ".." <= DropZeros(line[6..])
  }

  function DropZeros(s: string): string {
    if s != [] && s[0] == '0' then DropZeros(s[1..]) else s
  }

  predicate NoNewlineMark(line: string) {
    "\\ No newline " <= line
  }

  /** A line that can stand in a hunk. */
  predicate HunkLine(line: string) {
    || " " <= line || "-" <= line || "+" <= line || "\r\n" <= line || NoNewlineMark(line)
  }

  /** A line that ends a text patch for good. */
  predicate StopLine(line: string) {
    line != "" && !HunkLine(line) && !DiffCommand(line) && !HunkMark(line)
  }

  /** The test run() makes for it, once a diff command and a hunk mark are ruled out. */
  predicate EndsPatch(line: string) {
    |line| >= 1 && line[0] !in " -+" && !("\r\n" <= line) && !NoNewlineMark(line)
  }

  lemma EndsPatchIffNoHunkLine(line: string)
    ensures EndsPatch(line) <==> line != "" && !HunkLine(line)
  {
  }

  predicate NoDiffCommand(lines: seq<string>) {
    forall line | line in lines :: !DiffCommand(line)
  }

  // ----- the rules of a file

  function FileName(line: string): string {
    Before(if |line| >= 13 then line[13..] else "", ' ')
  }

  predicate LfAllowed(filename: string) {
    || EndsWith(filename, ".sh")
    || "BaseTools/BinWrappers/PosixLike/" <= filename
    || "BaseTools/Bin/CYGWIN_NT-5.1-i686/" <= filename
    || filename == "BaseTools/BuildEnv"
  }

  predicate GitOwn(filename: string) {
    filename == ".gitmodules" || filename == "BaseTools/Conf/diff.order"
  }

  // ----- one step

  function BeginFile(c: Scanner, line: string): Scanner {
    var name := FileName(line);
    c.(phase := PRE_PATCH, filename := name, isNewFile := false,
       forceCrlf := !LfAllowed(name) && !GitOwn(name), forceNoTabs := !GitOwn(name))
  }

  function InStart(c: Scanner, line: string): Scanner {
    if DiffCommand(line) then BeginFile(c, line) else c.(formatOk := RStrip(line) == "")
  }

  function InPrePatch(c: Scanner, line: string): Scanner {
    if HunkMark(line) then c.(phase := PATCH, binary := false)
    else if BinaryMark(line) then
      c.(phase := PATCH, binary := true, newBin := if c.isNewFile then c.newBin + [c.filename] else c.newBin)
    else if NewSubmodule(line) then c.(forceCrlf := false)
    else c.(isNewFile := IndexOfNewFile(line), formatOk := PrePatchPrefix(line))
  }

  function InPatch(c: Scanner, line: string): Scanner {
    if c.binary || "-" <= line then c
    else if "+" <= line then c.(checked := c.checked + [Added(c.filename, line[1..], c.forceCrlf, c.forceNoTabs)])
    else if "\r\n" <= line || NoNewlineMark(line) || " " <= line then c
    else c.(formatOk := false)
  }

  /** run(): the state after it, and how many lines it used up. */
  function Step(c: Scanner, rest: seq<string>): (r: (Scanner, nat))
    requires rest != [] && c.formatOk
    ensures 1 <= r.1 <= |rest|
  {
    var line := rest[0];
    if DiffCommand(line) then (InStart(c.(phase := START), line), 1)
    else
      match c.phase
      case START => (InStart(c, line), 1)
      case PRE_PATCH => (InPrePatch(c, line), 1)
      case PATCH =>
        if HunkMark(line) then (InPrePatch(c.(phase := PRE_PATCH), line), 1)
        else if !c.binary && EndsPatch(line) then (c.(formatOk := NoDiffCommand(rest[1..])), |rest|)
        else (InPatch(c, line), 1)
  }

  function ScanAll(c: Scanner, rest: seq<string>): Scanner
    decreases |rest|
  {
    if rest == [] || !c.formatOk then c
    else
      var (next, used) := Step(c, rest);
      ScanAll(next, rest[used..])
  }

  // ----- check_added_line

  /** The loop over the line endings does not stop at the first that fits. */
  datatype Ending = Ending(line: string, eol: string)

  function CutEol(e: Ending, eol: string): Ending {
    if EndsWith(e.line, eol) then Ending(e.line[..|e.line| - |eol|], eol) else e
  }

  const LINE_ENDINGS: seq<string> := ["\r\n", "\n\r", "\n", "\r"]

  function CutEols(e: Ending, eols: seq<string>): Ending
    decreases eols
  {
    if eols == [] then e else CutEols(CutEol(e, eols[0]), eols[1..])
  }

  function SplitEol(line: string): Ending {
    CutEols(Ending(line, ""), LINE_ENDINGS)
  }

  lemma EveryEndingIsTried(line: string)
    ensures SplitEol(line) == CutEol(CutEol(CutEol(CutEol(Ending(line, ""), "\r\n"), "\n\r"), "\n"), "\r")
  {
    assert LINE_ENDINGS[1..] == ["\n\r", "\n", "\r"];
    assert LINE_ENDINGS[1..][1..] == ["\n", "\r"];
    assert LINE_ENDINGS[1..][1..][1..] == ["\r"];
    assert LINE_ENDINGS[1..][1..][1..][1..] == [];
  }

  predicate Clean(a: Added, oldDebug: string -> bool) {
    var Ending(text, eol) := SplitEol(a.line);
    && (a.forceCrlf ==> eol == "\r\n" || Contains(text, "Subproject commit"))
    && (a.forceNoTabs ==> '\t' !in text)
    && RStrip(text) == text
    && !oldDebug(text)
  }

  predicate AllClean(checked: seq<Added>, oldDebug: string -> bool) {
    forall a | a in checked :: Clean(a, oldDebug)
  }

  /** The rules for an added line, whatever its file, its text and the ending its text is followed by: it
      ends in CRLF where that is asked for, or names a subproject commit; it holds no tab where none is
      allowed; it has no white space at its end; and it uses no old debug macro. */
  lemma CleanLine(filename: string, text: string, eol: string, crlf: bool, noTabs: bool, oldDebug: string -> bool)
    requires text == "" || (text[|text| - 1] != '\r' && text[|text| - 1] != '\n')
    requires eol in ["\r\n", "\n\r", "\n", "\r", ""]
    ensures Clean(Added(filename, text + eol, crlf, noTabs), oldDebug) <==>
            && (crlf ==> eol == "\r\n" || Contains(text, "Subproject commit"))
            && (noTabs ==> '\t' !in text)
            && (text == "" || !IsSpace(text[|text| - 1]))
            && !oldDebug(text)
  {
    hide Contains, SplitEol, IsSpace;
    EndingIsCut(text, eol);
    NothingToStrip(text);
  }

  lemma NothingToStrip(text: string)
    ensures RStrip(text) == text <==> text == "" || !IsSpace(text[|text| - 1])
  {
  }

  lemma EndingIsCut(text: string, eol: string)
    requires text == "" || (text[|text| - 1] != '\r' && text[|text| - 1] != '\n')
    requires eol in ["\r\n", "\n\r", "\n", "\r", ""]
    ensures SplitEol(text + eol) == Ending(text, eol)
  {
    hide CutEol, CutEols, SplitEol, EndsWith;
    var line := text + eol;
    EveryEndingIsTried(line);
    NoneToCut(text, eol);
    assert eol == "" ==> line == text;
    if eol == "\r\n" {
      CutEnding(text, eol);
    } else if eol != "" {
      CutEnding(text, eol);
      EarlierDoNotFit(text, eol);
    }
  }

  /** The endings that are tried before the one there is do not fit. */
  lemma EarlierDoNotFit(text: string, eol: string)
    requires text == "" || (text[|text| - 1] != '\r' && text[|text| - 1] != '\n')
    requires eol in ["\n\r", "\n", "\r"]
    ensures CutEol(Ending(text + eol, ""), "\r\n") == Ending(text + eol, "")
    ensures eol != "\n\r" ==> CutEol(Ending(text + eol, ""), "\n\r") == Ending(text + eol, "")
    ensures eol == "\r" ==> CutEol(Ending(text + eol, ""), "\n") == Ending(text + eol, "")
  {
    hide CutEol, EndsWith;
    LastTwo(text, eol);
    CutTest(text + eol, "\r\n");
    CutTest(text + eol, "\n\r");
    CutTest(text + eol, "\n");
  }

  lemma LastTwo(text: string, eol: string)
    requires text == "" || (text[|text| - 1] != '\r' && text[|text| - 1] != '\n')
    requires eol in ["\r\n", "\n\r", "\n", "\r"]
    ensures var line := text + eol;
            && |line| == |text| + |eol| && line[|line| - 1] == eol[|eol| - 1]
            && (|line| >= 2 ==> line[|line| - 2] == if |eol| == 2 then eol[0] else text[|text| - 1])
  {
  }

  /** No ending fits a text that ends in neither of the two characters. */
  lemma NoneToCut(text: string, eol: string)
    requires text == "" || (text[|text| - 1] != '\r' && text[|text| - 1] != '\n')
    ensures forall e | e in ["\r\n", "\n\r", "\n", "\r"] :: CutEol(Ending(text, eol), e) == Ending(text, eol)
  {
    forall e | e in ["\r\n", "\n\r", "\n", "\r"] ensures CutEol(Ending(text, eol), e) == Ending(text, eol) {
      if text != "" {
        CutTest(text, e);
      }
    }
  }

  lemma CutEnding(text: string, eol: string)
    ensures CutEol(Ending(text + eol, ""), eol) == Ending(text, eol)
  {
    assert (text + eol)[..|text|] == text && (text + eol)[|text|..] == eol;
  }

  /** Whether a text ends like a line ending is told by its last one or two characters. */
  lemma CutTest(text: string, eol: string)
    requires text != "" && 1 <= |eol| <= 2
    ensures EndsWith(text, eol) <==>
            text[|text| - 1] == eol[|eol| - 1] && (|eol| == 2 ==> |text| >= 2 && text[|text| - 2] == eol[0])
    ensures !EndsWith(text, eol) ==> forall e :: CutEol(Ending(text, e), eol) == Ending(text, e)
  {
    if |eol| <= |text| {
      var tail := text[|text| - |eol|..];
      assert tail[|eol| - 1] == text[|text| - 1] && tail[0] == text[|text| - |eol|];
    }
  }

  class GitDiffCheck {
    const lines: seq<string>
    const oldDebug: string -> bool
    var lineNum: nat
    var ok: bool
    var formatOk: bool
    var state: Phase
    var filename: string
    var isNewFile: bool
    var forceCrlf: bool
    var forceNoTabs: bool
    var binary: bool
    var newBin: seq<string>
    ghost var checked: seq<Added>

    ghost function Now(): Scanner
      reads this
    {
      Scanner(formatOk, state, filename, isNewFile, forceCrlf, forceNoTabs, binary, newBin, checked)
    }

    ghost predicate Valid()
      reads this
    {
      lineNum <= |lines| && ok == (formatOk && AllClean(checked, oldDebug))
    }

    /** The whole check: the scanner runs to the end or to its first format error, and the verdict is
        that the format was right and every line checked was clean. */
    constructor (diff: seq<string>, oldDebug: string -> bool)
      ensures lines == diff && this.oldDebug == oldDebug
      ensures Valid() && Now() == ScanAll(FRESH, diff)
      ensures formatOk ==> lineNum == |lines|
    {
      lines, this.oldDebug := diff, oldDebug;
      ok, formatOk, lineNum, state, newBin := true, true, 0, START, [];
      filename, isNewFile, forceCrlf, forceNoTabs, binary, checked := "", false, false, false, false, [];
      new;
      CheckAll();
    }

    /** The loop of the constructor. */
    method CheckAll()
      requires Valid() && lineNum == 0
      modifies this
      ensures Valid() && Now() == ScanAll(old(Now()), lines)
      ensures formatOk ==> lineNum == |lines|
    {
      hide Step, AllClean;
      assert lines[0..] == lines;
      while lineNum < |lines| && formatOk
        invariant Valid()
        invariant ScanAll(Now(), lines[lineNum..]) == ScanAll(old(Now()), lines)
        decreases |lines| - lineNum
      {
        var before := lineNum;
        Run();
        assert lineNum > before;
        assert lines[before..][lineNum - before..] == lines[lineNum..];
      }
    }

    method FormatError()
      requires Valid()
      modifies `ok, `formatOk
      ensures Valid() && !formatOk
    {
      formatOk := false;
      ok := false;
    }

    method CheckAddedLine(text: string)
      requires Valid()
      modifies `ok, `checked
      ensures Valid() && checked == old(checked) + [Added(filename, text, forceCrlf, forceNoTabs)]
    {
      hide CutEol, Contains, RStrip;
      var ending := Ending(text, "");
      var k := 0;
      while k < |LINE_ENDINGS|
        invariant k <= |LINE_ENDINGS| && CutEols(ending, LINE_ENDINGS[k..]) == SplitEol(text)
      {
        assert LINE_ENDINGS[k..][1..] == LINE_ENDINGS[k + 1..];
        ending := CutEol(ending, LINE_ENDINGS[k]);
        k := k + 1;
      }
      var line, eol := ending.line, ending.eol;
      ghost var a := Added(filename, text, forceCrlf, forceNoTabs);
      assert SplitEol(text) == Ending(line, eol);
      assert Clean(a, oldDebug) ==
             ((forceCrlf ==> eol == "\r\n" || Contains(line, "Subproject commit")) && (forceNoTabs ==> '\t' !in line) &&
              RStrip(line) == line && !oldDebug(line));
      var stripped := RStrip(line);
      RStripIsPrefix(line);
      if forceCrlf && eol != "\r\n" && !Contains(line, "Subproject commit") {
        ok := false;
      }
      if forceNoTabs && '\t' in line {
        ok := false;
      }
      if |stripped| < |line| {
        ok := false;
      }
      if oldDebug(line) {
        ok := false;
      }
      checked := checked + [a];
    }

    /** One step: the fields change as Step says, and the position moves forward by what it used. */
    method Run()
      requires Valid() && lineNum < |lines| && formatOk
      modifies this
      ensures Valid()
      ensures var (next, used) := Step(old(Now()), lines[old(lineNum)..]);
              Now() == next && lineNum == old(lineNum) + used
    {
      hide Step, AllClean, InStart, InPrePatch, InPatch;
      var line := lines[lineNum];
      var stopped := ChangeState(line);
      if stopped {
        lineNum := |lines|;
        return;
      }
      match state {
        case START =>
          RunStart(line);
        case PRE_PATCH =>
          RunPrePatch(line);
        case PATCH =>
          RunPatch(line);
      }
      lineNum := lineNum + 1;
    }

    /** The part of run() that looks for a new diff, a new hunk, or the end of the patch. */
    method ChangeState(line: string) returns (stopped: bool)
      requires Valid() && lineNum < |lines| && formatOk && line == lines[lineNum]
      modifies `ok, `formatOk, `state
      ensures Valid()
      ensures var step := Step(old(Now()), lines[lineNum..]);
              if stopped then step == (Now(), |lines| - lineNum)
              else formatOk && step == (match state
                case START => InStart(Now(), line)
                case PRE_PATCH => InPrePatch(Now(), line)
                case PATCH => InPatch(Now(), line), 1)
    {
      hide DiffCommand, HunkMark, EndsPatch, AllClean, InStart, InPrePatch, InPatch, NoDiffCommand;
      assert lines[lineNum..][0] == line;
      if state == PRE_PATCH || state == PATCH {
        if DiffCommand(line) {
          state := START;
        }
      }
      if state == PATCH {
        if HunkMark(line) {
          state := PRE_PATCH;
        } else if EndsPatch(line) && !binary {
          SearchDiffBehind();
          return true;
        }
      }
      assert Now() == old(Now()).(phase := state);
      assert state == old(state) ==> Now() == old(Now());
      return false;
    }

    method RunPatch(line: string)
      requires Valid() && formatOk
      modifies `ok, `formatOk, `checked
      ensures Valid() && Now() == InPatch(old(Now()), line)
    {
      hide NoNewlineMark, AllClean;
      if binary {
      } else if "-" <= line {
      } else if "+" <= line {
        CheckAddedLine(line[1..]);
      } else if "\r\n" <= line {
      } else if NoNewlineMark(line) {
      } else if !(" " <= line) {
        FormatError();
      }
    }

    /** A diff behind the end of a patch is an error. */
    method SearchDiffBehind()
      requires Valid() && lineNum < |lines| && formatOk
      modifies `ok, `formatOk
      ensures Valid() && formatOk == NoDiffCommand(lines[lineNum..][1..])
    {
      hide DiffCommand, AllClean;
      ghost var behind := lines[lineNum..][1..];
      var i := lineNum + 1;
      while i < |lines|
        invariant lineNum + 1 <= i <= |lines| && Valid() && formatOk
        invariant forall j | lineNum + 1 <= j < i :: !DiffCommand(lines[j])
      {
        if DiffCommand(lines[i]) {
          assert lines[i] == behind[i - lineNum - 1];
          FormatError();
          return;
        }
        i := i + 1;
      }
      assert forall k | 0 <= k < |behind| :: behind[k] == lines[k + lineNum + 1];
    }

    method RunStart(line: string)
      requires Valid() && formatOk && state == START
      modifies `ok, `formatOk, `state, `filename, `isNewFile, `forceCrlf, `forceNoTabs
      ensures Valid() && Now() == InStart(old(Now()), line)
    {
      hide DiffCommand, FileName, LfAllowed, GitOwn, RStrip, AllClean;
      if DiffCommand(line) {
        state := PRE_PATCH;
        filename := FileName(line);
        isNewFile, forceCrlf, forceNoTabs := false, true, true;
        if LfAllowed(filename) {
          forceCrlf := false;
        }
        if GitOwn(filename) {
          forceCrlf, forceNoTabs := false, false;
        }
      } else if |RStrip(line)| != 0 {
        FormatError();
      }
    }

    method RunPrePatch(line: string)
      requires Valid() && formatOk && state == PRE_PATCH
      modifies `ok, `formatOk, `state, `isNewFile, `forceCrlf, `binary, `newBin
      ensures Valid() && Now() == InPrePatch(old(Now()), line)
    {
      hide HunkMark, BinaryMark, NewSubmodule, IndexOfNewFile, PrePatchPrefix, AllClean;
      if HunkMark(line) {
        state, binary := PATCH, false;
      } else if BinaryMark(line) {
        state, binary := PATCH, true;
        if isNewFile {
          newBin := newBin + [filename];
        }
      } else if NewSubmodule(line) {
        forceCrlf := false;
      } else {
        isNewFile := IndexOfNewFile(line);
        if !PrePatchPrefix(line) {
          FormatError();
        }
      }
    }
  }

  // ----- the language

  /** A diff is a sequence of sections, each a head line and the lines below it. */
  datatype Section =
    | FileHead(head: string, body: seq<string>)
    | Hunk(head: string, body: seq<string>)
    | Blob(head: string, body: seq<string>)

  predicate MetaLine(line: string) {
    !DiffCommand(line) && !HunkMark(line) && !BinaryMark(line) && (NewSubmodule(line) || PrePatchPrefix(line))
  }

  predicate BlobLine(line: string) {
    !DiffCommand(line) && !HunkMark(line)
  }

  predicate BodyLine(s: Section, line: string) {
    match s
    case FileHead(_, _) => MetaLine(line)
    case Hunk(_, _) => HunkLine(line)
    case Blob(_, _) => BlobLine(line)
  }

  predicate SectionOk(s: Section) {
    && (forall line | line in s.body :: BodyLine(s, line))
    && match s
       case FileHead(head, _) => DiffCommand(head)
       case Hunk(head, _) => HunkMark(head)
       case Blob(head, _) => BinaryMark(head)
  }

  /** What may come behind a section: binary data only directly behind a file's head. */
  predicate Chain(previous: Section, sections: seq<Section>, tail: seq<string>)
    decreases sections
  {
    if sections == [] then tail != [] ==> previous.Hunk? && StopLine(tail[0]) && NoDiffCommand(tail[1..])
    else
      && SectionOk(sections[0])
      && (sections[0].Blob? ==> previous.FileHead?)
      && Chain(sections[0], sections[1..], tail)
  }

  /** Blank lines, then files, then perhaps a line no hunk can hold and, behind it, no further diff. */
  datatype Diff = Diff(preamble: seq<string>, sections: seq<Section>, tail: seq<string>) {
    predicate Valid() {
      && (forall line | line in preamble :: !DiffCommand(line) && RStrip(line) == "")
      && (if sections == [] then tail == []
          else sections[0].FileHead? && SectionOk(sections[0]) && Chain(sections[0], sections[1..], tail))
    }

    function Print(): seq<string> {
      preamble + PrintSections(sections, tail)
    }
  }

  function PrintSections(sections: seq<Section>, tail: seq<string>): seq<string> {
    if sections == [] then tail else [sections[0].head] + (sections[0].body + PrintSections(sections[1..], tail))
  }

  // ----- which lines of a diff are to be checked

  /** A file's name, the rules for its lines, and whether its head says that it is new. */
  datatype Rules = Rules(filename: string, forceCrlf: bool, forceNoTabs: bool, isNew: bool)

  function RulesOf(head: string, metas: seq<string>): Rules {
    var name := FileName(head);
    Rules(name, !LfAllowed(name) && !GitOwn(name) && !(exists m | m in metas :: NewSubmodule(m)), !GitOwn(name),
          SaysNew(metas, false))
  }

  /** What the last line says that is not the mark of a submodule. */
  function SaysNew(metas: seq<string>, before: bool): bool {
    if metas == [] then before
    else
      var last := metas[|metas| - 1];
      if NewSubmodule(last) then SaysNew(metas[..|metas| - 1], before) else IndexOfNewFile(last)
  }

  lemma {:induction false} SaysNewFirst(metas: seq<string>, before: bool)
    requires metas != []
    ensures SaysNew(metas, before) ==
            SaysNew(metas[1..], if NewSubmodule(metas[0]) then before else IndexOfNewFile(metas[0]))
  {
    hide NewSubmodule, IndexOfNewFile;
    var n := |metas| - 1;
    if n == 0 {
      assert metas[..0] == [];
    } else {
      SaysNewFirst(metas[..n], before);
      assert metas[1..][..n - 1] == metas[..n][1..];
    }
  }

  /** The head git prints for a file that is named alike on both sides. */
  function HeadLine(name: string, eol: string): string {
    "diff --git a/" + name + " b/" + name + eol
  }

  lemma {:induction false} BeforeFirst(s: string, c: char, rest: string)
    requires c !in s
    ensures Before(s + [c] + rest, c) == s
  {
    if s == [] {
      assert s + [c] + rest == [c] + rest;
    } else {
      assert (s + [c] + rest)[1..] == s[1..] + [c] + rest;
      BeforeFirst(s[1..], c, rest);
    }
  }

  lemma {:induction false} BeforeHasNone(s: string, c: char)
    ensures c !in Before(s, c)
  {
    if s != [] && s[0] != c {
      BeforeHasNone(s[1..], c);
    }
  }

  /** The name is read from the head if and only if it has no blank; it is cut at the first. */
  lemma HeadNamesFile(name: string, eol: string)
    ensures DiffCommand(HeadLine(name, eol))
    ensures FileName(HeadLine(name, eol)) == name <==> ' ' !in name
  {
    var head := HeadLine(name, eol);
    var behind := "b/" + name + eol;
    assert head[..10] == "diff --git";
    assert head[13..] == name + [' '] + behind;
    BeforeHasNone(head[13..], ' ');
    if ' ' !in name {
      BeforeFirst(name, ' ', behind);
    }
  }

  /** The rules of a file by its name: LF is allowed in shell scripts and in three places, tabs and LF in
      the two files git reads itself, and LF in a new submodule. */
  lemma RulesByName(name: string, eol: string, metas: seq<string>)
    requires ' ' !in name
    ensures var r := RulesOf(HeadLine(name, eol), metas);
            && r.filename == name
            && (r.forceNoTabs <==> name != ".gitmodules" && name != "BaseTools/Conf/diff.order")
            && (r.forceCrlf <==>
                && r.forceNoTabs
                && !(exists stem: string :: name == stem + ".sh")
                && !(exists leaf: string :: name == "BaseTools/BinWrappers/PosixLike/" + leaf)
                && !(exists leaf: string :: name == "BaseTools/Bin/CYGWIN_NT-5.1-i686/" + leaf)
                && name != "BaseTools/BuildEnv"
                && !(exists m, rest: string :: m in metas && m == "new file mode 160000" + rest))
  {
    hide FileName, SaysNew, IndexOfNewFile;
    HeadNamesFile(name, eol);
    StartsWithIff(name, "BaseTools/BinWrappers/PosixLike/");
    StartsWithIff(name, "BaseTools/Bin/CYGWIN_NT-5.1-i686/");
    EndsWithIff(name, ".sh");
    forall m | m in metas ensures NewSubmodule(m) <==> exists rest: string :: m == "new file mode 160000" + rest {
      StartsWithIff(m, "new file mode 160000");
    }
  }

  lemma StartsWithIff(s: string, start: string)
    ensures start <= s <==> exists rest: string :: s == start + rest
  {
    if start <= s {
      assert s == start + s[|start|..];
    }
  }

  lemma EndsWithIff(s: string, end: string)
    ensures EndsWith(s, end) <==> exists stem: string :: s == stem + end
  {
    if EndsWith(s, end) {
      assert s == s[..|s| - |end|] + end;
    }
    if stem: string :| s == stem + end {
      assert s[|s| - |end|..] == end;
    }
  }

  /** An index line tells of a new file exactly if the old name is zeros. */
  lemma IndexTellsNew(old': string, rest: string)
    requires '.' !in old'
    ensures IndexOfNewFile("index " + old' + ".." + rest) <==> old' != "" && forall c | c in old' :: c == '0'
  {
    hide DropZeros;
    var line := "index " + old' + ".." + rest;
    assert line[6..] == old' + (".." + rest);
    ZerosThenDots(old', rest);
    if old' != "" {
      assert line[6] == old'[0] && old'[0] in old';
      assert "index 0" <= line <==> old'[0] == '0';
    } else {
      assert line[6] == '.';
    }
  }

  lemma {:induction false} ZerosThenDots(s: string, rest: string)
    requires '.' !in s
    ensures ".." <= DropZeros(s + (".." + rest)) <==> forall c | c in s :: c == '0'
  {
    var whole := s + (".." + rest);
    if s == "" {
      assert whole == ".." + rest;
    } else {
      assert whole[0] == s[0] && s[0] in s && whole[1..] == s[1..] + (".." + rest);
      assert (forall c | c in s :: c == s[0] || c in s[1..]) && forall c | c in s[1..] :: c in s;
      if s[0] == '0' {
        ZerosThenDots(s[1..], rest);
        assert DropZeros(whole) == DropZeros(s[1..] + (".." + rest));
      } else {
        assert DropZeros(whole) == whole;
        assert whole[0] != '.';
      }
    }
  }

  /** The lines git may print between the head of a file and its hunks. */
  datatype GitHeader =
    | OldMode(mode: string) | NewMode(mode: string) | DeletedFile(mode: string) | NewFile(mode: string)
    | CopyFrom(path: string) | CopyTo(path: string) | RenameFrom(path: string) | RenameTo(path: string)
    | Similarity(percent: string) | Dissimilarity(percent: string)
    | Index(hashes: string) | OldPath(path: string) | NewPath(path: string)

  function PrintHeader(h: GitHeader): string {
    match h
    case OldMode(mode) => "old mode " + mode
    case NewMode(mode) => "new mode " + mode
    case DeletedFile(mode) => "deleted file mode " + mode
    case NewFile(mode) => "new file mode " + mode
    case CopyFrom(path) => "copy from " + path
    case CopyTo(path) => "copy to " + path
    case RenameFrom(path) => "rename from " + path
    case RenameTo(path) => "rename to " + path
    case Similarity(percent) => "similarity index " + percent
    case Dissimilarity(percent) => "dissimilarity index " + percent
    case Index(hashes) => "index " + hashes
    case OldPath(path) => "--- " + path
    case NewPath(path) => "+++ " + path
  }

  /** Every line of a git header is taken but the one a rewritten file gets, "dissimilarity index". */
  lemma GitHeadersAreTaken(h: GitHeader)
    ensures MetaLine(PrintHeader(h)) <==> !h.Dissimilarity?
  {
    hide MetaLine;
    var line := PrintHeader(h);
    match h
    case OldMode(_) => Taken("old mode ", line);
    case NewMode(_) => Taken("new mode ", line);
    case DeletedFile(_) => Taken("deleted file ", line);
    case NewFile(_) => Taken("new file ", line);
    case CopyFrom(_) => Taken("copy from ", line);
    case CopyTo(_) => Taken("copy to ", line);
    case RenameFrom(_) => Taken("rename ", line);
    case RenameTo(_) => Taken("rename ", line);
    case Similarity(_) => Taken("similarity index ", line);
    case Dissimilarity(_) => NotTaken(line);
    case Index(_) => Taken("index ", line);
    case OldPath(_) => Taken("--- ", line);
    case NewPath(_) => Taken("+++ ", line);
  }

  lemma Taken(start: string, line: string)
    requires start <= line
    requires start in ["--- ", "+++ ", "index ", "new file ", "deleted file ", "old mode ", "new mode ",
                       "similarity index ", "copy from ", "copy to ", "rename "]
    ensures MetaLine(line)
  {
    hide NewSubmodule;
    NoMark(line);
    hide DiffCommand, HunkMark, BinaryMark;
  }

  lemma NoMark(line: string)
    requires |line| >= 2 && line[0] != '@' && line[0] != 'G' && line[0] != 'B' && (line[0] == 'd' ==> line[1] == 'e')
    ensures !DiffCommand(line) && !HunkMark(line) && !BinaryMark(line)
  {
    HeadsDiffer(line);
  }

  lemma NotTaken(line: string)
    requires |line| >= 2 && line[0] == 'd' && line[1] == 'i'
    ensures !MetaLine(line)
  {
    hide DiffCommand, HunkMark, BinaryMark;
  }

  /** The lines git opens a hunk or binary data with are told from each other and from the head of a file. */
  lemma GitMarksAreTold(rest: string)
    ensures HunkMark("@@ -" + rest) && !BinaryMark("@@ -" + rest)
    ensures BinaryMark("GIT binary patch" + rest) && !HunkMark("GIT binary patch" + rest)
    ensures BinaryMark("Binary files " + rest) && !HunkMark("Binary files " + rest)
    ensures DiffCommand("diff --git " + rest) && !HunkMark("diff --git " + rest) && !BinaryMark("diff --git " + rest)
  {
    assert "@@ " <= "@@ -" + rest && "GIT binary patch" <= "GIT binary patch" + rest;
    assert "Binary files" <= "Binary files " + rest && "diff --git" <= "diff --git " + rest;
    HeadsDiffer("@@ -" + rest);
    HeadsDiffer("GIT binary patch" + rest);
    HeadsDiffer("Binary files " + rest);
    HeadsDiffer("diff --git " + rest);
  }

  /** A line of a hunk by what it says. */
  datatype HunkText = Kept(text: string) | Removed(text: string) | Inserted(text: string) | NoNewline(text: string)

  function PrintHunk(texts: seq<HunkText>): (lines: seq<string>)
    ensures |lines| == |texts|
  {
    if texts == [] then []
    else [match texts[0]
          case Kept(text) => " " + text
          case Removed(text) => "-" + text
          case Inserted(text) => "+" + text
          case NoNewline(text) => "\\ No newline " + text] + PrintHunk(texts[1..])
  }

  /** The texts inserted, in order, each under the rules of its file. */
  function Insertions(r: Rules, texts: seq<HunkText>): seq<Added> {
    if texts == [] then []
    else Insertions(r, texts[..|texts| - 1]) +
         match texts[|texts| - 1]
         case Inserted(text) => [Added(r.filename, text, r.forceCrlf, r.forceNoTabs)]
         case Kept(_) => []
         case Removed(_) => []
         case NoNewline(_) => []
  }

  lemma {:induction false} PlusLinesAppend(r: Rules, a: seq<string>, b: seq<string>)
    ensures PlusLines(r, a + b) == PlusLines(r, a) + PlusLines(r, b)
  {
    if a == [] {
      assert a + b == b;
    } else {
      assert (a + b)[1..] == a[1..] + b;
      PlusLinesAppend(r, a[1..], b);
    }
  }

  lemma {:induction false} PrintHunkAppend(a: seq<HunkText>, b: seq<HunkText>)
    ensures PrintHunk(a + b) == PrintHunk(a) + PrintHunk(b)
  {
    if a == [] {
      assert a + b == b;
    } else {
      assert (a + b)[1..] == a[1..] + b;
      PrintHunkAppend(a[1..], b);
    }
  }

  lemma PlusLinesOfOne(r: Rules, t: HunkText)
    ensures PlusLines(r, PrintHunk([t])) == Insertions(r, [t])
    ensures HunkLine(PrintHunk([t])[0])
  {
    assert [t][1..] == [] && [t][..0] == [];
    var line := PrintHunk([t])[0];
    assert PrintHunk([t]) == [line];
    assert PrintHunk([t])[1..] == [];
    match t
    case Kept(text) => assert line[0] == ' ';
    case Removed(text) => assert line[0] == '-';
    case Inserted(text) => assert line[0] == '+' && line[1..] == text;
    case NoNewline(text) => assert line[0] == '\\' && line[..13] == "\\ No newline ";
  }

  /** Of a printed hunk every line is accepted, and what is checked is the text inserted, without its mark,
      and nothing else. */
  lemma {:induction false} HunkIsRead(r: Rules, texts: seq<HunkText>)
    ensures PlusLines(r, PrintHunk(texts)) == Insertions(r, texts)
    ensures forall line | line in PrintHunk(texts) :: HunkLine(line)
  {
    hide HunkLine;
    if texts != [] {
      var n := |texts| - 1;
      HunkIsRead(r, texts[..n]);
      PlusLinesOfOne(r, texts[n]);
      assert texts == texts[..n] + [texts[n]];
      PrintHunkAppend(texts[..n], [texts[n]]);
      PlusLinesAppend(r, PrintHunk(texts[..n]), PrintHunk([texts[n]]));
      assert [texts[n]][..0] == [];
    }
  }

  function PlusLines(r: Rules, body: seq<string>): seq<Added> {
    if body == [] then []
    else (if "+" <= body[0] then [Added(r.filename, body[0][1..], r.forceCrlf, r.forceNoTabs)] else []) +
         PlusLines(r, body[1..])
  }

  /** The '+' lines of the hunks, in order, each under the rules of its own file. */
  function Expected(r: Rules, sections: seq<Section>): seq<Added>
    decreases sections
  {
    if sections == [] then []
    else
      match sections[0]
      case FileHead(head, body) => Expected(RulesOf(head, body), sections[1..])
      case Hunk(_, body) => PlusLines(r, body) + Expected(r, sections[1..])
      case Blob(_, _) => Expected(r, sections[1..])
  }

  /** The names of the files that are new and binary, in order. */
  function NewBinaries(r: Rules, sections: seq<Section>): seq<string>
    decreases sections
  {
    if sections == [] then []
    else
      match sections[0]
      case FileHead(head, body) => NewBinaries(RulesOf(head, body), sections[1..])
      case Hunk(_, _) => NewBinaries(r, sections[1..])
      case Blob(_, _) => (if r.isNew then [r.filename] else []) + NewBinaries(r, sections[1..])
  }

  // ----- every diff of the language is accepted and checked as it should be

  predicate Under(c: Scanner, r: Rules) {
    c.filename == r.filename && c.forceCrlf == r.forceCrlf && c.forceNoTabs == r.forceNoTabs && c.isNewFile == r.isNew
  }

  /** The scanner is inside section `s`, whose file has the rules `r`. */
  predicate Inside(c: Scanner, s: Section, r: Rules) {
    && c.formatOk && Under(c, r)
    && (s.FileHead? ==> c.phase == PRE_PATCH)
    && (s.Hunk? ==> c.phase == PATCH && !c.binary)
    && (s.Blob? ==> c.phase == PATCH && c.binary)
  }

  lemma OneLine(c: Scanner, line: string, rest: seq<string>)
    requires c.formatOk && Step(c, [line] + rest).1 == 1
    ensures ScanAll(c, [line] + rest) == ScanAll(Step(c, [line] + rest).0, rest)
  {
    assert ([line] + rest)[1..] == rest;
  }

  lemma {:induction false} ScanPreamble(c: Scanner, preamble: seq<string>, rest: seq<string>)
    requires c.formatOk && c.phase == START
    requires forall line | line in preamble :: !DiffCommand(line) && RStrip(line) == ""
    ensures ScanAll(c, preamble + rest) == ScanAll(c, rest)
  {
    if preamble == [] {
      assert preamble + rest == rest;
    } else {
      assert preamble[0] in preamble && forall line | line in preamble[1..] :: line in preamble;
      assert preamble + rest == [preamble[0]] + (preamble[1..] + rest);
      OneLine(c, preamble[0], preamble[1..] + rest);
      ScanPreamble(c, preamble[1..], rest);
    }
  }

  lemma {:induction false} ScanMetas(c: Scanner, metas: seq<string>, rest: seq<string>) returns (c': Scanner)
    requires c.formatOk && c.phase == PRE_PATCH
    requires forall m | m in metas :: MetaLine(m)
    ensures ScanAll(c, metas + rest) == ScanAll(c', rest)
    ensures c'.formatOk && c'.phase == PRE_PATCH && c'.filename == c.filename && c'.checked == c.checked
    ensures c'.forceNoTabs == c.forceNoTabs && c'.newBin == c.newBin
    ensures c'.isNewFile == SaysNew(metas, c.isNewFile)
    ensures c'.forceCrlf == (c.forceCrlf && !(exists m | m in metas :: NewSubmodule(m)))
    decreases |metas|
  {
    hide DiffCommand, HunkMark, BinaryMark, NewSubmodule, PrePatchPrefix, IndexOfNewFile;
    if metas == [] {
      assert metas + rest == rest;
      c' := c;
    } else {
      assert metas[0] in metas && forall m | m in metas[1..] :: m in metas;
      assert forall m | m in metas :: m == metas[0] || m in metas[1..];
      assert metas + rest == [metas[0]] + (metas[1..] + rest);
      OneLine(c, metas[0], metas[1..] + rest);
      SaysNewFirst(metas, c.isNewFile);
      c' := ScanMetas(InPrePatch(c, metas[0]), metas[1..], rest);
    }
  }

  lemma {:induction false} ScanHunk(c: Scanner, r: Rules, body: seq<string>, rest: seq<string>)
    requires c.formatOk && c.phase == PATCH && !c.binary && Under(c, r)
    requires forall line | line in body :: HunkLine(line)
    ensures ScanAll(c, body + rest) == ScanAll(c.(checked := c.checked + PlusLines(r, body)), rest)
    decreases |body|
  {
    hide Step, ScanAll, HunkLine, InPatch, PlusLines;
    PlusLinesStep(r, body);
    if body == [] {
      assert body + rest == rest;
      assert c.checked + [] == c.checked;
    } else {
      var line, more := body[0], body[1..];
      assert line in body && forall l | l in more :: l in body;
      assert body + rest == [line] + (more + rest);
      HunkLineIsUsed(c, line, more + rest);
      PlusLineIsChecked(c, r, line);
      var first, others := PlusLines(r, [line]), PlusLines(r, more);
      assert c.checked + first + others == c.checked + (first + others);
      ScanHunk(c.(checked := c.checked + first), r, more, rest);
    }
  }

  lemma PlusLinesStep(r: Rules, body: seq<string>)
    ensures PlusLines(r, body) == if body == [] then [] else PlusLines(r, [body[0]]) + PlusLines(r, body[1..])
  {
    if body != [] {
      assert [body[0]][1..] == [];
    }
  }

  lemma HunkLineIsUsed(c: Scanner, line: string, rest: seq<string>)
    requires c.formatOk && c.phase == PATCH && !c.binary && HunkLine(line)
    ensures ScanAll(c, [line] + rest) == ScanAll(InPatch(c, line), rest)
  {
    hide HunkLine, DiffCommand, HunkMark, EndsPatch, InPatch;
    HunkLineIsNoMark(line);
    OneLine(c, line, rest);
  }

  lemma PlusLineIsChecked(c: Scanner, r: Rules, line: string)
    requires c.formatOk && !c.binary && Under(c, r) && HunkLine(line)
    ensures InPatch(c, line) == c.(checked := c.checked + PlusLines(r, [line]))
    ensures PlusLines(r, [line]) ==
            if "+" <= line then [Added(r.filename, line[1..], r.forceCrlf, r.forceNoTabs)] else []
  {
    assert [line][1..] == [];
    assert c.checked + [] == c.checked;
    assert "-" <= line ==> line[0] == '-';
    assert "+" <= line ==> line[0] == '+';
  }

  lemma HunkLineIsNoMark(line: string)
    requires HunkLine(line)
    ensures !DiffCommand(line) && !HunkMark(line) && !EndsPatch(line)
  {
    EndsPatchIffNoHunkLine(line);
    assert line[0] in " -+\r\\";
  }

  lemma {:induction false} ScanBlob(c: Scanner, body: seq<string>, rest: seq<string>)
    requires c.formatOk && c.phase == PATCH && c.binary
    requires forall line | line in body :: BlobLine(line)
    ensures ScanAll(c, body + rest) == ScanAll(c, rest)
  {
    if body == [] {
      assert body + rest == rest;
    } else {
      assert body[0] in body && forall line | line in body[1..] :: line in body;
      assert body + rest == [body[0]] + (body[1..] + rest);
      OneLine(c, body[0], body[1..] + rest);
      ScanBlob(c, body[1..], rest);
    }
  }

  function NextRules(r: Rules, s: Section): Rules {
    if s.FileHead? then RulesOf(s.head, s.body) else r
  }

  function Binary(r: Rules, s: Section): seq<string> {
    if s.Blob? && r.isNew then [r.filename] else []
  }

  function Gain(r: Rules, s: Section): seq<Added> {
    if s.Hunk? then PlusLines(r, s.body) else []
  }

  /** One section, from its head to its end. */
  lemma ScanSection(c: Scanner, previous: Section, r: Rules, s: Section, rest: seq<string>) returns (c': Scanner)
    requires SectionOk(s)
    requires if s.FileHead? then c.formatOk else Inside(c, previous, r) && (s.Blob? ==> previous.FileHead?)
    ensures ScanAll(c, [s.head] + (s.body + rest)) == ScanAll(c', rest)
    ensures Inside(c', s, NextRules(r, s)) && c'.checked == c.checked + Gain(r, s) && c'.newBin == c.newBin + Binary(r, s)
  {
    assert c.newBin + [] == c.newBin;
    HeadsDiffer(s.head);
    OneLine(c, s.head, s.body + rest);
    var entered := Step(c, [s.head] + (s.body + rest)).0;
    match s
    case FileHead(head, body) =>
      assert entered == BeginFile(c.(phase := START), head);
      c' := ScanMetas(entered, body, rest);
    case Hunk(head, body) =>
      assert entered == c.(phase := PATCH, binary := false);
      ScanHunk(entered, r, body, rest);
      c' := entered.(checked := entered.checked + PlusLines(r, body));
    case Blob(head, body) =>
      assert entered == InPrePatch(c, head);
      ScanBlob(entered, body, rest);
      c' := entered;
  }

  lemma HeadsDiffer(line: string)
    ensures DiffCommand(line) ==> !HunkMark(line) && !BinaryMark(line)
    ensures HunkMark(line) ==> !BinaryMark(line)
    ensures HunkMark(line) || BinaryMark(line) ==> line[0] == '@' || line[0] == 'G' || line[0] == 'B'
  {
    if DiffCommand(line) { assert line[0] == 'd'; }
    if HunkMark(line) { assert line[0] == '@'; }
    if "GIT binary patch" <= line { assert line[0] == 'G'; }
    if "Binary files" <= line { assert line[0] == 'B'; }
  }

  lemma {:induction false} ScanChain(c: Scanner, previous: Section, r: Rules, sections: seq<Section>, tail: seq<string>)
    requires Inside(c, previous, r) && Chain(previous, sections, tail)
    ensures var last := ScanAll(c, PrintSections(sections, tail));
            && last.formatOk && last.checked == c.checked + Expected(r, sections)
            && last.newBin == c.newBin + NewBinaries(r, sections)
    decreases sections
  {
    hide SectionOk, ScanAll, PlusLines, Chain, Inside, Expected, Gain, NextRules, PrintSections, NewBinaries, Binary;
    if sections == [] {
      ScanTail(c, previous, r, tail);
    } else {
      var s, more := sections[0], sections[1..];
      var c' := ScanLink(c, previous, r, sections, tail);
      ScanChain(c', s, NextRules(r, s), more, tail);
      assert c.checked + Gain(r, s) + Expected(NextRules(r, s), more) ==
             c.checked + (Gain(r, s) + Expected(NextRules(r, s), more));
      assert c.newBin + Binary(r, s) + NewBinaries(NextRules(r, s), more) ==
             c.newBin + (Binary(r, s) + NewBinaries(NextRules(r, s), more));
    }
  }

  /** The first section of a chain. */
  lemma ScanLink(c: Scanner, previous: Section, r: Rules, sections: seq<Section>, tail: seq<string>) returns (c': Scanner)
    requires sections != [] && Inside(c, previous, r) && Chain(previous, sections, tail)
    ensures var s, more := sections[0], sections[1..];
            && ScanAll(c, PrintSections(sections, tail)) == ScanAll(c', PrintSections(more, tail))
            && Inside(c', s, NextRules(r, s)) && c'.checked == c.checked + Gain(r, s) && c'.newBin == c.newBin + Binary(r, s)
            && Chain(s, more, tail)
            && Expected(r, sections) == Gain(r, s) + Expected(NextRules(r, s), more)
            && NewBinaries(r, sections) == Binary(r, s) + NewBinaries(NextRules(r, s), more)
  {
    hide SectionOk, ScanAll, PlusLines, Expected, NewBinaries, Gain, Binary, NextRules, Inside;
    LinkIsExpected(r, sections);
    InsideIsSound(c, previous, r);
    c' := ScanSection(c, previous, r, sections[0], PrintSections(sections[1..], tail));
  }

  lemma InsideIsSound(c: Scanner, s: Section, r: Rules)
    requires Inside(c, s, r)
    ensures c.formatOk
  {
  }

  lemma LinkIsExpected(r: Rules, sections: seq<Section>)
    requires sections != []
    ensures var s, more := sections[0], sections[1..];
            && Expected(r, sections) == Gain(r, s) + Expected(NextRules(r, s), more)
            && NewBinaries(r, sections) == Binary(r, s) + NewBinaries(NextRules(r, s), more)
  {
    hide PlusLines, RulesOf;
  }

  lemma ScanTail(c: Scanner, previous: Section, r: Rules, tail: seq<string>)
    requires Inside(c, previous, r) && Chain(previous, [], tail)
    ensures var last := ScanAll(c, PrintSections([], tail));
            && last.formatOk && last.checked == c.checked + Expected(r, [])
            && last.newBin == c.newBin + NewBinaries(r, [])
  {
    assert c.newBin + [] == c.newBin;
    assert c.checked + [] == c.checked;
    hide SectionOk, DiffCommand, HunkMark, BinaryMark, NoNewlineMark;
    if tail != [] {
      EndsPatchIffNoHunkLine(tail[0]);
      assert ScanAll(Step(c, tail).0, tail[|tail|..]) == Step(c, tail).0;
    }
  }

  /** Every diff of the language is accepted, and exactly the '+' lines of its hunks are checked, in
      order, each under the rules of its own file; the binary files that are new are listed. */
  lemma DiffIsScannedRight(d: Diff)
    requires d.Valid()
    ensures var last := ScanAll(FRESH, d.Print());
            && last.formatOk && last.checked == Expected(Rules("", false, false, false), d.sections)
            && last.newBin == NewBinaries(Rules("", false, false, false), d.sections)
  {
    hide SectionOk, Chain;
    var none := Rules("", false, false, false);
    ScanPreamble(FRESH, d.preamble, PrintSections(d.sections, d.tail));
    if d.sections != [] {
      var s := d.sections[0];
      var c := ScanSection(FRESH, s, none, s, PrintSections(d.sections[1..], d.tail));
      ScanChain(c, s, NextRules(none, s), d.sections[1..], d.tail);
      assert FRESH.checked + Gain(none, s) == [] && FRESH.newBin + Binary(none, s) == [];
      assert [] + NewBinaries(NextRules(none, s), d.sections[1..]) == NewBinaries(none, d.sections);
      assert [] + Expected(NextRules(none, s), d.sections[1..]) == Expected(none, d.sections);
    }
  }

  // ----- and nothing else is

  /** What is left of a section, the sections behind it, and the tail. */
  datatype Remainder = Remainder(body: seq<string>, sections: seq<Section>, tail: seq<string>)

  predicate Fits(s: Section, m: Remainder) {
    (forall line | line in m.body :: BodyLine(s, line)) && Chain(s, m.sections, m.tail)
  }

  function PrintRemainder(m: Remainder): seq<string> {
    m.body + PrintSections(m.sections, m.tail)
  }

  /** A kind of section without its lines, for the scanner to be in. */
  predicate InKind(c: Scanner, s: Section) {
    && c.formatOk
    && (s.FileHead? ==> c.phase == PRE_PATCH)
    && (s.Hunk? ==> c.phase == PATCH && !c.binary)
    && (s.Blob? ==> c.phase == PATCH && c.binary)
  }

  predicate NonEmptyLines(lines: seq<string>) {
    forall line | line in lines :: line != ""
  }

  /** The section a head line opens. */
  function Empty(line: string): Section {
    if DiffCommand(line) then FileHead(line, []) else if HunkMark(line) then Hunk(line, []) else Blob(line, [])
  }

  predicate IsHead(s: Section, line: string) {
    DiffCommand(line) || HunkMark(line) || (s.FileHead? && BinaryMark(line))
  }

  lemma KindOfHeadLine(c: Scanner, s: Section, line: string, behind: seq<string>)
    requires InKind(c, s) && IsHead(s, line)
    ensures Step(c, [line] + behind).1 == 1 && InKind(Step(c, [line] + behind).0, Empty(line))
    ensures SectionOk(Empty(line)) && (Empty(line).Blob? ==> s.FileHead?)
  {
    HeadsDiffer(line);
  }

  lemma KindOfStopLine(c: Scanner, s: Section, line: string, behind: seq<string>)
    requires InKind(c, s) && s.Hunk? && StopLine(line) && ScanAll(c, [line] + behind).formatOk
    ensures NoDiffCommand(behind)
  {
    EndsPatchIffNoHunkLine(line);
    var rest := [line] + behind;
    assert rest[1..] == behind;
    assert rest[|rest|..] == [];
    assert Step(c, rest) == (c.(formatOk := NoDiffCommand(behind)), |rest|);
    assert ScanAll(c, rest) == ScanAll(Step(c, rest).0, []);
  }

  lemma {:induction false} ParseRemainder(c: Scanner, s: Section, rest: seq<string>) returns (m: Remainder)
    requires InKind(c, s) && ScanAll(c, rest).formatOk && NonEmptyLines(rest)
    ensures Fits(s, m) && PrintRemainder(m) == rest
    decreases |rest|
  {
    hide Step, ScanAll, SectionOk, IsHead, StopLine, BodyLine, NoDiffCommand;
    if rest == [] {
      m := Remainder([], [], []);
    } else {
      var line, behind := rest[0], rest[1..];
      assert line in rest && forall l | l in behind :: l in rest;
      assert rest == [line] + behind;
      if IsHead(s, line) {
        KindOfHeadLine(c, s, line, behind);
        OneLine(c, line, behind);
        var later := ParseRemainder(Step(c, rest).0, Empty(line), behind);
        m := Opened(s, Empty(line), later);
      } else if s.Hunk? && StopLine(line) {
        KindOfStopLine(c, s, line, behind);
        m := Remainder([], [], rest);
      } else {
        KindOfBodyLine(c, s, line, behind);
        OneLine(c, line, behind);
        var later := ParseRemainder(Step(c, rest).0, s, behind);
        m := later.(body := [line] + later.body);
        assert PrintRemainder(m) == [line] + PrintRemainder(later);
      }
    }
  }

  lemma KindOfBodyLine(c: Scanner, s: Section, line: string, behind: seq<string>)
    requires InKind(c, s) && line != "" && !IsHead(s, line) && !(s.Hunk? && StopLine(line))
    requires ScanAll(c, [line] + behind).formatOk
    ensures BodyLine(s, line) && Step(c, [line] + behind).1 == 1 && InKind(Step(c, [line] + behind).0, s)
  {
    EndsPatchIffNoHunkLine(line);
    OneLine(c, line, behind);
    var next := Step(c, [line] + behind).0;
    assert !next.formatOk ==> ScanAll(next, behind) == next;
  }

  /** A head opens a section of its own, with what was parsed behind it as its body. */
  lemma Opened(s: Section, head: Section, later: Remainder) returns (m: Remainder)
    requires head.body == [] && SectionOk(head) && Fits(head, later)
    requires head.Blob? ==> s.FileHead?
    ensures Fits(s, m) && PrintRemainder(m) == [head.head] + PrintRemainder(later)
  {
    var full := match head
      case FileHead(h, _) => FileHead(h, later.body)
      case Hunk(h, _) => Hunk(h, later.body)
      case Blob(h, _) => Blob(h, later.body);
    assert SectionOk(full);
    ChainByKind(head, full, later.sections, later.tail);
    var sections := [full] + later.sections;
    assert sections[1..] == later.sections;
    m := Remainder([], sections, later.tail);
    assert PrintRemainder(m) == PrintSections(sections, later.tail);
  }

  lemma ChainByKind(a: Section, b: Section, sections: seq<Section>, tail: seq<string>)
    requires a.FileHead? == b.FileHead? && a.Hunk? == b.Hunk? && Chain(a, sections, tail)
    ensures Chain(b, sections, tail)
  {
  }

  lemma ParseFromHead(c: Scanner, line: string, behind: seq<string>) returns (d: Diff)
    requires c.formatOk && c.phase == START && DiffCommand(line)
    requires ScanAll(c, [line] + behind).formatOk && NonEmptyLines(behind)
    ensures d.Valid() && d.Print() == [line] + behind
  {
    hide DiffCommand, BodyLine;
    var head := FileHead(line, []);
    OneLine(c, line, behind);
    var later := ParseRemainder(InStart(c.(phase := START), line), head, behind);
    var full := FileHead(line, later.body);
    ChainByKind(head, full, later.sections, later.tail);
    d := Diff([], [full] + later.sections, later.tail);
    assert d.sections[1..] == later.sections;
    BodyLinesKeep(head, full, later.body);
    assert d.Print() == [line] + PrintRemainder(later);
  }

  /** Which lines a section can hold depends on its kind alone. */
  lemma BodyLinesKeep(a: Section, b: Section, body: seq<string>)
    requires a.FileHead? && b.FileHead? && (forall line | line in body :: BodyLine(a, line))
    ensures forall line | line in body :: BodyLine(b, line)
  {
  }

  lemma {:induction false} ParseDiff(c: Scanner, lines: seq<string>) returns (d: Diff)
    requires c.formatOk && c.phase == START && ScanAll(c, lines).formatOk && NonEmptyLines(lines)
    ensures d.Valid() && d.Print() == lines
    decreases |lines|
  {
    hide DiffCommand, RStrip, BodyLine, Chain, BeginFile, Diff.Valid, Diff.Print;
    if lines == [] {
      d := NoDiff();
    } else {
      var line, behind := lines[0], lines[1..];
      assert line in lines && forall l | l in behind :: l in lines;
      assert lines == [line] + behind;
      if DiffCommand(line) {
        d := ParseFromHead(c, line, behind);
      } else {
        OneLine(c, line, behind);
        assert InStart(c, line) == c.(formatOk := RStrip(line) == "");
        var later := ParseDiff(InStart(c, line), behind);
        d := Prepend(line, later);
      }
    }
  }

  lemma NoDiff() returns (d: Diff)
    ensures d.Valid() && d.Print() == []
  {
    d := Diff([], [], []);
  }

  lemma Prepend(line: string, later: Diff) returns (d: Diff)
    requires later.Valid() && !DiffCommand(line) && RStrip(line) == ""
    ensures d.Valid() && d.Print() == [line] + later.Print()
  {
    hide DiffCommand, RStrip, SectionOk, Chain;
    d := later.(preamble := [line] + later.preamble);
    assert forall l | l in d.preamble :: l == line || l in later.preamble;
  }

  /** The scanner accepts exactly the language, whatever its input: of all sequences of non-empty lines,
      it ends without a format error on the printed diffs and on no others. */
  lemma AcceptsExactlyDiffs(lines: seq<string>)
    requires NonEmptyLines(lines)
    ensures ScanAll(FRESH, lines).formatOk <==> exists d: Diff :: d.Valid() && d.Print() == lines
  {
    if ScanAll(FRESH, lines).formatOk {
      var d := ParseDiff(FRESH, lines);
    }
    if d: Diff :| d.Valid() && d.Print() == lines {
      DiffIsScannedRight(d);
    }
  }
}
