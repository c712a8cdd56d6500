/** Anonymous labels of MASM turned into numbered local labels of NASM. */
module AnonymousLabels {
  // ----- names

  function Decimal(n: nat): (s: string)
    ensures s != "" && forall c | c in s :: '0' <= c <= '9'
  {
    (if n < 10 then "" else Decimal(n / 10)) + [(n % 10) as char + '0']
  }

  /** anonLabel; the count is -1 before the first label. */
  function AnonLabel(count: int): string {
    "." + if count < 0 then "-" + Decimal(-count) else Decimal(count)
  }

  lemma {:induction false} DecimalIsInjective(m: nat, n: nat)
    requires Decimal(m) == Decimal(n)
    ensures m == n
  {
    var s, t := Decimal(m), Decimal(n);
    var k := |s| - 1;
    assert s[k] == (m % 10) as char + '0' && t[k] == (n % 10) as char + '0';
    assert s[..k] == if m < 10 then "" else Decimal(m / 10);
    assert t[..k] == if n < 10 then "" else Decimal(n / 10);
    if m >= 10 && n >= 10 {
      DecimalIsInjective(m / 10, n / 10);
    }
  }

  /** What digits denote. */
  function DecimalValue(s: string): int
  {
    if s == "" then 0 else DecimalValue(s[..|s| - 1]) * 10 + (s[|s| - 1] as int - '0' as int)
  }

  lemma {:induction false} DecimalReadsBack(n: nat)
    ensures DecimalValue(Decimal(n)) == n
  {
    var s := Decimal(n);
    assert s[..|s| - 1] == if n < 10 then "" else Decimal(n / 10);
    if n >= 10 {
      DecimalReadsBack(n / 10);
    }
  }

  /** A label is a period and its count. */
  lemma LabelSpellsCount(count: nat)
    ensures AnonLabel(count)[0] == '.' && DecimalValue(AnonLabel(count)[1..]) == count
  {
    DecimalReadsBack(count);
  }

  lemma LabelsAreDistinct(m: int, n: int)
    requires AnonLabel(m) == AnonLabel(n)
    ensures m == n
  {
    var s, t := AnonLabel(m)[1..], AnonLabel(n)[1..];
    assert s == if m < 0 then "-" + Decimal(-m) else Decimal(m);
    assert t == if n < 0 then "-" + Decimal(-n) else Decimal(n);
    if m < 0 {
      assert s[0] == '-' && s[1..] == Decimal(-m);
    } else {
      assert s[0] in Decimal(m);
    }
    if n < 0 {
      assert t[0] == '-' && t[1..] == Decimal(-n);
    } else {
      assert t[0] in Decimal(n);
    }
    if m < 0 {
      DecimalIsInjective(-m, -n);
    } else {
      DecimalIsInjective(m, n);
    }
  }

  // ----- text replacement

  /** str.replace for a pattern of two characters. */
  function Replace(s: string, pattern: string, name: string): string
    requires |pattern| == 2
  {
    if s == "" then ""
    else if pattern <= s then name + Replace(s[2..], pattern, name)
    else [s[0]] + Replace(s[1..], pattern, name)
  }

  function ConvertAnonymousLabels(asm: string, count: int): string {
    var back, forward := AnonLabel(count), AnonLabel(count + 1);
    Replace(Replace(Replace(Replace(asm, "@b", back), "@B", back), "@f", forward), "@F", forward)
  }

  /** Code as text between references; the letter of a reference may be of either case. */
  datatype Token = Text(text: string) | Back(upper: bool) | Forward(upper: bool)

  predicate ProperCode(code: seq<Token>) {
    forall t | t in code && t.Text? :: '@' !in t.text
  }

  function PrintToken(t: Token): string {
    match t
    case Text(text) => text
    case Back(upper) => if upper then "@B" else "@b"
    case Forward(upper) => if upper then "@F" else "@f"
  }

  function Print(code: seq<Token>): string {
    if code == [] then "" else PrintToken(code[0]) + Print(code[1..])
  }

  /** Every reference replaced by the name it is to have. */
  function Rename(code: seq<Token>, back: string, forward: string): string {
    if code == [] then ""
    else
      (match code[0]
       case Text(text) => text
       case Back(_) => back
       case Forward(_) => forward) + Rename(code[1..], back, forward)
  }

  /** One kind of reference turned into text. */
  function Settle(code: seq<Token>, kind: Token, name: string): seq<Token> {
    if code == [] then []
    else [if code[0] == kind then Text(name) else code[0]] + Settle(code[1..], kind, name)
  }

  lemma {:induction false} ReplaceSkipsText(text: string, rest: string, pattern: string, name: string)
    requires |pattern| == 2 && pattern[0] == '@' && '@' !in text
    ensures Replace(text + rest, pattern, name) == text + Replace(rest, pattern, name)
  {
    if text == "" {
      assert text + rest == rest;
    } else {
      assert (text + rest)[0] == text[0] && text[0] in text;
      assert (text + rest)[1..] == text[1..] + rest;
      ReplaceSkipsText(text[1..], rest, pattern, name);
    }
  }

  lemma ReplaceAtReference(reference: string, rest: string, pattern: string, name: string)
    requires |pattern| == 2 && |reference| == 2 && pattern[0] == '@' && reference[0] == '@' && reference[1] != '@'
    ensures Replace(reference + rest, pattern, name) ==
            (if reference == pattern then name else reference) + Replace(rest, pattern, name)
  {
    var s := reference + rest;
    assert s[..2] == reference && s[2..] == rest;
    if reference != pattern {
      assert s[1..] == [reference[1]] + rest && s[1..][1..] == rest;
      assert pattern != s[..2];
      assert s[1..][0] != '@';
    }
  }

  lemma {:induction false} ReplaceSettles(code: seq<Token>, kind: Token, name: string)
    requires ProperCode(code) && !kind.Text? && '@' !in name
    ensures |PrintToken(kind)| == 2 && Replace(Print(code), PrintToken(kind), name) == Print(Settle(code, kind, name))
    ensures ProperCode(Settle(code, kind, name))
  {
    hide Replace, PrintToken;
    if code == [] {
      PatternIsTwoLong(kind);
      ReplaceNothing(PrintToken(kind), name);
    } else {
      var t, rest := code[0], code[1..];
      assert t in code && forall u | u in rest :: u in code;
      ReplaceSettles(rest, kind, name);
      ReplaceToken(t, Print(rest), kind, name);
      assert Settle(code, kind, name)[1..] == Settle(rest, kind, name);
    }
  }

  lemma PatternIsTwoLong(kind: Token)
    requires !kind.Text?
    ensures |PrintToken(kind)| == 2
  {
  }

  lemma ReplaceNothing(pattern: string, name: string)
    requires |pattern| == 2
    ensures Replace("", pattern, name) == ""
  {
  }

  lemma ReplaceToken(t: Token, rest: string, kind: Token, name: string)
    requires !kind.Text? && (t.Text? ==> '@' !in t.text)
    ensures Replace(PrintToken(t) + rest, PrintToken(kind), name) ==
            PrintToken(if t == kind then Text(name) else t) + Replace(rest, PrintToken(kind), name)
  {
    hide Replace;
    if t.Text? {
      ReplaceSkipsText(t.text, rest, PrintToken(kind), name);
    } else {
      ReplaceAtReference(PrintToken(t), rest, PrintToken(kind), name);
      TokensPrintApart(t, kind);
    }
  }

  lemma TokensPrintApart(t: Token, u: Token)
    requires !t.Text? && !u.Text?
    ensures PrintToken(t) == PrintToken(u) <==> t == u
  {
    assert PrintToken(t)[1] != PrintToken(u)[1] || t == u;
  }

  lemma {:induction false} SettledIsRenamed(code: seq<Token>, back: string, forward: string)
    ensures Print(Settle(Settle(Settle(Settle(code, Back(false), back), Back(true), back),
                                Forward(false), forward), Forward(true), forward)) ==
            Rename(code, back, forward)
  {
    if code != [] {
      SettledIsRenamed(code[1..], back, forward);
      var s1 := Settle(code, Back(false), back);
      var s2 := Settle(s1, Back(true), back);
      var s3 := Settle(s2, Forward(false), forward);
      var s4 := Settle(s3, Forward(true), forward);
      assert s1[1..] == Settle(code[1..], Back(false), back);
      assert s2[1..] == Settle(s1[1..], Back(true), back);
      assert s3[1..] == Settle(s2[1..], Forward(false), forward);
      assert s4[1..] == Settle(s3[1..], Forward(true), forward);
    }
  }

  lemma LabelHasNoAt(count: int)
    ensures '@' !in AnonLabel(count)
  {
  }

  /** The four replacements rename every reference and touch nothing else. */
  lemma ConversionRenames(code: seq<Token>, count: int)
    requires ProperCode(code)
    ensures ConvertAnonymousLabels(Print(code), count) == Rename(code, AnonLabel(count), AnonLabel(count + 1))
  {
    var back, forward := AnonLabel(count), AnonLabel(count + 1);
    LabelHasNoAt(count);
    LabelHasNoAt(count + 1);
    var s1 := Settle(code, Back(false), back);
    var s2 := Settle(s1, Back(true), back);
    var s3 := Settle(s2, Forward(false), forward);
    ReplaceSettles(code, Back(false), back);
    ReplaceSettles(s1, Back(true), back);
    ReplaceSettles(s2, Forward(false), forward);
    ReplaceSettles(s3, Forward(true), forward);
    SettledIsRenamed(code, back, forward);
  }

  // ----- programs

  const LABEL_LINE: string := "@@:"

  /** What the converter emits for lines that are anonymous labels or go through the common conversions,
      with the count it starts from. */
  function Emitted(lines: seq<string>, count: int): seq<string> {
    if lines == [] then []
    else if lines[0] == LABEL_LINE then [AnonLabel(count + 1) + ":"] + Emitted(lines[1..], count + 1)
    else [ConvertAnonymousLabels(lines[0], count)] + Emitted(lines[1..], count)
  }

  class Converter {
    var anonLabelCount: int
    var output: seq<string>

    method TranslateAsm(oldAsm: string)
      modifies this
      ensures var isLabel := oldAsm == LABEL_LINE;
              && anonLabelCount == old(anonLabelCount) + (if isLabel then 1 else 0)
              && output == old(output) + [if isLabel then AnonLabel(anonLabelCount) + ":"
                                          else ConvertAnonymousLabels(oldAsm, anonLabelCount)]
    {
      if oldAsm == LABEL_LINE {
        anonLabelCount := anonLabelCount + 1;
        output := output + [AnonLabel(anonLabelCount) + ":"];
      } else {
        var back := AnonLabel(anonLabelCount);
        var newAsm := Replace(oldAsm, "@b", back);
        newAsm := Replace(newAsm, "@B", back);
        var forward := AnonLabel(anonLabelCount + 1);
        newAsm := Replace(newAsm, "@f", forward);
        newAsm := Replace(newAsm, "@F", forward);
        output := output + [newAsm];
      }
    }

    method Convert(lines: seq<string>)
      modifies this
      ensures output == old(output) + Emitted(lines, -1)
    {
      hide ConvertAnonymousLabels, AnonLabel;
      anonLabelCount := -1;
      var i := 0;
      assert lines[0..] == lines;
      while i < |lines|
        invariant i <= |lines|
        invariant output + Emitted(lines[i..], anonLabelCount) == old(output) + Emitted(lines, -1)
      {
        assert lines[i..][0] == lines[i] && lines[i..][1..] == lines[i + 1..];
        ghost var before, count := output, anonLabelCount;
        TranslateAsm(lines[i]);
        assert Emitted(lines[i..], count) == [output[|before|]] + Emitted(lines[i + 1..], anonLabelCount);
        assert before + ([output[|before|]] + Emitted(lines[i + 1..], anonLabelCount)) ==
               output + Emitted(lines[i + 1..], anonLabelCount);
        i := i + 1;
      }
      assert lines[i..] == [];
    }
  }

  /** A line of a program: an anonymous label on its own, or anything else that goes through the common
      conversions, a named label with or without code behind it included. */
  datatype Line = Label | Code(code: seq<Token>)

  /** A reference is a word of its own: text in front of the first one does not end inside a name. */
  predicate ProperLine(l: Line) {
    l.Code? ==>
      && ProperCode(l.code)
      && (|l.code| > 1 && l.code[0].Text? ==> l.code[0].text != "" && !IsNameChar(l.code[0].text[|l.code[0].text| - 1]))
  }

  predicate ProperProgram(program: seq<Line>) {
    forall l | l in program :: ProperLine(l)
  }

  lemma CodeIsNoLabelLine(l: Line)
    requires ProperLine(l) && l.Code?
    ensures Print(l.code) != LABEL_LINE
  {
    hide IsNameChar;
    var s := Print(l.code);
    if l.code != [] {
      assert s == PrintToken(l.code[0]) + Print(l.code[1..]);
      if l.code[0].Text? && l.code[0].text != "" {
        assert s[0] == l.code[0].text[0] && l.code[0].text[0] in l.code[0].text;
      } else if !l.code[0].Text? {
        assert s[1] == PrintToken(l.code[0])[1];
      }
    }
  }

  function PrintLine(l: Line): string {
    if l.Label? then LABEL_LINE else Print(l.code)
  }

  function PrintLines(program: seq<Line>): (lines: seq<string>)
    ensures |lines| == |program|
  {
    if program == [] then [] else [PrintLine(program[0])] + PrintLines(program[1..])
  }

  function LabelsBefore(program: seq<Line>, i: nat): nat
    requires i <= |program|
  {
    if i == 0 then 0 else LabelsBefore(program, i - 1) + if program[i - 1].Label? then 1 else 0
  }

  lemma {:induction false} LabelsBeforeTail(program: seq<Line>, i: nat)
    requires 0 < i <= |program|
    ensures LabelsBefore(program, i) == LabelsBefore(program[1..], i - 1) + if program[0].Label? then 1 else 0
  {
    if i > 1 {
      LabelsBeforeTail(program, i - 1);
    }
  }

  /** What becomes of each line, told by the number of labels before it. */
  lemma {:induction false} EmittedLine(program: seq<Line>, count: int, i: nat)
    requires ProperProgram(program) && i < |program|
    ensures var out, n := Emitted(PrintLines(program), count), count + LabelsBefore(program, i);
            && |out| == |program|
            && out[i] == if program[i].Label? then AnonLabel(n + 1) + ":"
                         else Rename(program[i].code, AnonLabel(n), AnonLabel(n + 1))
    decreases |program|
  {
    hide ConvertAnonymousLabels, AnonLabel, Rename, ProperLine, Emitted, PrintLines, LabelsBefore;
    var first, later := program[0], program[1..];
    assert first in program && forall l | l in later :: l in program;
    EmittedFirst(program, count);
    EmittedLength(later, if first.Label? then count + 1 else count);
    if i == 0 {
      NoLabelsBefore(program);
    } else {
      LabelsBeforeTail(program, i);
      EmittedLine(later, if first.Label? then count + 1 else count, i - 1);
    }
  }

  lemma NoLabelsBefore(program: seq<Line>)
    ensures LabelsBefore(program, 0) == 0
  {
  }

  lemma EmittedFirst(program: seq<Line>, count: int)
    requires program != [] && ProperLine(program[0])
    ensures var first, later := program[0], program[1..];
            Emitted(PrintLines(program), count) ==
            if first.Label? then [AnonLabel(count + 1) + ":"] + Emitted(PrintLines(later), count + 1)
            else [Rename(first.code, AnonLabel(count), AnonLabel(count + 1))] + Emitted(PrintLines(later), count)
  {
    hide ConvertAnonymousLabels, AnonLabel, Rename, ProperCode, IsNameChar;
    assert PrintLines(program)[1..] == PrintLines(program[1..]);
    if program[0].Code? {
      CodeIsNoLabelLine(program[0]);
      ConversionRenames(program[0].code, count);
    }
  }

  lemma {:induction false} EmittedLength(program: seq<Line>, count: int)
    ensures |Emitted(PrintLines(program), count)| == |program|
  {
    if program != [] {
      assert PrintLines(program)[1..] == PrintLines(program[1..]);
      EmittedLength(program[1..], if PrintLine(program[0]) == LABEL_LINE then count + 1 else count);
    }
  }

  lemma {:induction false} LabelsBeforeGrows(program: seq<Line>, i: nat, j: nat)
    requires i <= j <= |program|
    ensures LabelsBefore(program, i) <= LabelsBefore(program, j)
    ensures LabelsBefore(program, i) == LabelsBefore(program, j) <==> forall k | i <= k < j :: !program[k].Label?
  {
    if i < j {
      LabelsBeforeGrows(program, i, j - 1);
    }
  }

  /** The target of "@f" at line i: the first label behind it. */
  ghost predicate NextLabel(program: seq<Line>, i: nat, j: nat) {
    i < j < |program| && program[j].Label? && forall k | i < k < j :: !program[k].Label?
  }

  /** The target of "@b" at line i: the last label before it. */
  ghost predicate PreviousLabel(program: seq<Line>, i: nat, j: nat) {
    j < i < |program| && program[j].Label? && forall k | j < k < i :: !program[k].Label?
  }

  /** The names in the output. Every line of code has its backward references renamed to one name and its
      forward references to another, and a label of the output bears such a name if and only if it is
      the label the reference stood for; so a reference to no label at all is left without one. */
  lemma ReferencesKeepTheirTargets(program: seq<Line>, i: nat, j: nat)
    requires ProperProgram(program) && i < |program| && j < |program|
    requires program[i].Code? && program[j].Label?
    ensures var out, n := Emitted(PrintLines(program), -1), LabelsBefore(program, i);
            && |out| == |program|
            && out[i] == Rename(program[i].code, AnonLabel(n - 1), AnonLabel(n))
            && (out[j] == AnonLabel(n - 1) + ":" <==> PreviousLabel(program, i, j))
            && (out[j] == AnonLabel(n) + ":" <==> NextLabel(program, i, j))
  {
    hide Emitted, Rename, AnonLabel, PrintLines, ProperLine;
    var n: int, m: int := LabelsBefore(program, i), LabelsBefore(program, j);
    EmittedLine(program, -1, i);
    EmittedLine(program, -1, j);
    SameLabelLine(m, n - 1);
    SameLabelLine(m, n);
    if j < i {
      LabelsBeforeGrows(program, j + 1, i);
    } else {
      assert i != j;
      LabelsBeforeGrows(program, i + 1, j);
    }
  }

  // ----- what NASM makes of the names

  /** The characters of a NASM identifier, and those it may start with; a period in front makes it local
      (sections 3.1 and 3.9 of the NASM manual). */
  predicate IsNameStart(c: char) {
    'a' <= c <= 'z' || 'A' <= c <= 'Z' || c in "_?$"
  }

  predicate IsNameChar(c: char) {
    IsNameStart(c) || '0' <= c <= '9' || c in ".#@~"
  }

  /** The name characters in front of anything else. */
  function Word(s: string): (w: string)
    ensures w <= s && (forall c | c in w :: IsNameChar(c))
    ensures |w| < |s| ==> !IsNameChar(s[|w|])
  {
    if s == "" || !IsNameChar(s[0]) then "" else [s[0]] + Word(s[1..])
  }

  /** A line that defines a label of its own: it starts with a name that NASM does not reserve for an
      instruction, a register or a directive. A colon may follow or not, and then any code. */
  predicate OpensScope(line: string, reserved: string -> bool) {
    var w := Word(line);
    w != "" && IsNameStart(w[0]) && !reserved(w)
  }

  /** The label to which NASM joins a local name at the start of line i; -1 in front of the first. */
  function ScopeOf(out: seq<string>, reserved: string -> bool, i: nat): int
    requires i <= |out|
  {
    if i == 0 then -1 else if OpensScope(out[i - 1], reserved) then i - 1 else ScopeOf(out, reserved, i - 1)
  }

  /** A use of a local name on line i, behind a label that may stand on that line, finds its definition at
      the start of line j. */
  predicate Resolves(out: seq<string>, reserved: string -> bool, i: nat, name: string, j: nat)
    requires i < |out| && j < |out|
  {
    out[j] == name + ":" && ScopeOf(out, reserved, i + 1) == ScopeOf(out, reserved, j)
  }

  lemma {:induction false} SameScope(out: seq<string>, reserved: string -> bool, i: nat, j: nat)
    requires i <= j <= |out|
    ensures ScopeOf(out, reserved, i) <= ScopeOf(out, reserved, j) < j
    ensures ScopeOf(out, reserved, i) == ScopeOf(out, reserved, j) <==>
            forall k | i <= k < j :: !OpensScope(out[k], reserved)
  {
    hide OpensScope;
    if i < j {
      SameScope(out, reserved, i, j - 1);
    }
    ScopeIsBefore(out, reserved, i);
  }

  lemma {:induction false} ScopeIsBefore(out: seq<string>, reserved: string -> bool, i: nat)
    requires i <= |out|
    ensures ScopeOf(out, reserved, i) < i
  {
    if i > 0 {
      ScopeIsBefore(out, reserved, i - 1);
    }
  }

  lemma WordIsUnique(s: string, w: string)
    requires w <= s && (forall c | c in w :: IsNameChar(c)) && (|w| < |s| ==> !IsNameChar(s[|w|]))
    ensures Word(s) == w
  {
    hide IsNameChar;
    var v := Word(s);
    assert forall i | 0 <= i < |w| :: s[i] == w[i] && w[i] in w;
    assert forall i | 0 <= i < |v| :: s[i] == v[i] && v[i] in v;
  }

  /** Text that does not end inside a name hides what follows it. */
  lemma WordOfFront(text: string, rest: string)
    requires text != "" && !IsNameChar(text[|text| - 1])
    ensures Word(text + rest) == Word(text)
  {
    var w := Word(text);
    assert forall i | 0 <= i < |w| :: text[i] == w[i] && w[i] in w;
    assert |w| < |text|;
    assert (text + rest)[|w|] == text[|w|];
    WordIsUnique(text + rest, w);
  }

  /** A line of the program that starts with a name of its own. */
  predicate NamesLabel(l: Line, reserved: string -> bool) {
    l.Code? && l.code != [] && l.code[0].Text? && OpensScope(l.code[0].text, reserved)
  }

  lemma LocalOpensNothing(name: string, rest: string, reserved: string -> bool)
    requires name != "" && name[0] == '.'
    ensures !OpensScope(name + rest, reserved)
  {
    var s := name + rest;
    assert s[0] == '.';
    if Word(s) != "" {
      assert Word(s)[0] == s[0];
    }
  }

  /** Renaming moves no label to the front of a line and none away from it. */
  lemma RenamedOpens(l: Line, back: string, forward: string, reserved: string -> bool)
    requires ProperLine(l) && l.Code?
    requires back != "" && back[0] == '.' && forward != "" && forward[0] == '.'
    ensures OpensScope(Rename(l.code, back, forward), reserved) == NamesLabel(l, reserved)
  {
    var code := l.code;
    if code != [] {
      var rest := Rename(code[1..], back, forward);
      match code[0]
      case Text(text) =>
        if |code| == 1 {
          assert text + rest == text;
        } else {
          WordOfFront(text, rest);
        }
      case Back(_) => LocalOpensNothing(back, rest, reserved);
      case Forward(_) => LocalOpensNothing(forward, rest, reserved);
    }
  }

  lemma LabelStartsLocal(count: int)
    ensures AnonLabel(count) != "" && AnonLabel(count)[0] == '.'
  {
  }

  /** Exactly the lines of the program that name a label open a scope in the output. */
  lemma NamedLines(program: seq<Line>, k: nat, reserved: string -> bool)
    requires ProperProgram(program) && k < |program|
    ensures var out := Emitted(PrintLines(program), -1);
            |out| == |program| && (OpensScope(out[k], reserved) <==> NamesLabel(program[k], reserved))
  {
    hide Emitted, AnonLabel, PrintLines, OpensScope, ProperLine, Rename;
    var n: int := LabelsBefore(program, k);
    EmittedLine(program, -1, k);
    LabelStartsLocal(n - 1);
    LabelStartsLocal(n);
    assert program[k] in program;
    if program[k].Label? {
      LocalOpensNothing(AnonLabel(n), ":", reserved);
    } else {
      RenamedOpens(program[k], AnonLabel(n - 1), AnonLabel(n), reserved);
    }
  }

  /** No named label stands between a reference on line i and line j, in front of the reference on its own
      line included. */
  predicate NoNamedLabelBetween(program: seq<Line>, reserved: string -> bool, i: nat, j: nat) {
    forall k | 0 <= k < |program| && (i < k < j || j < k <= i) :: !NamesLabel(program[k], reserved)
  }

  /** The converter keeps the target of a jump, for NASM, if and only if no named label stands between the
      two: whatever words NASM reserves, a renamed reference resolves to an anonymous label exactly if
      that is the label it stood for and both are in one scope. */
  lemma ReferencesResolve(program: seq<Line>, reserved: string -> bool, i: nat, j: nat)
    requires ProperProgram(program) && i < |program| && j < |program|
    requires program[i].Code? && program[j].Label?
    ensures var out, n := Emitted(PrintLines(program), -1), LabelsBefore(program, i);
            && |out| == |program|
            && out[i] == Rename(program[i].code, AnonLabel(n - 1), AnonLabel(n))
            && (Resolves(out, reserved, i, AnonLabel(n - 1), j) <==>
                PreviousLabel(program, i, j) && NoNamedLabelBetween(program, reserved, i, j))
            && (Resolves(out, reserved, i, AnonLabel(n), j) <==>
                NextLabel(program, i, j) && NoNamedLabelBetween(program, reserved, i, j))
  {
    hide Emitted, Rename, AnonLabel, PrintLines, ProperLine, PreviousLabel, NextLabel, OpensScope, ScopeOf, NamesLabel;
    ReferencesKeepTheirTargets(program, i, j);
    var out := Emitted(PrintLines(program), -1);
    forall k | 0 <= k < |program| ensures OpensScope(out[k], reserved) <==> NamesLabel(program[k], reserved) {
      NamedLines(program, k, reserved);
    }
    LabelNamesNothing(program[j], reserved);
    if i < j {
      SameScope(out, reserved, i + 1, j);
    } else {
      SameScope(out, reserved, j, i + 1);
    }
  }

  lemma LabelNamesNothing(l: Line, reserved: string -> bool)
    requires l.Label?
    ensures !NamesLabel(l, reserved)
  {
  }

  const FORWARD_JUMP: seq<Line> := [Code([Text("jz "), Forward(false)]), Code([Text("again: nop")]), Label]
  const BACKWARD_JUMP: seq<Line> := [Label, Code([Text("again: jz "), Back(false)])]

  /** A named label in between does break a jump, with code behind it on its line or without, and so does
      one in front of a backward reference: the name is there, but in another scope. */
  lemma NamedLabelBreaksJump(reserved: string -> bool)
    requires !reserved("again")
    ensures var out := Emitted(PrintLines(FORWARD_JUMP), -1);
            && |out| == 3 && NextLabel(FORWARD_JUMP, 0, 2)
            && out[2] == AnonLabel(0) + ":" && !Resolves(out, reserved, 0, AnonLabel(0), 2)
    ensures var out := Emitted(PrintLines(BACKWARD_JUMP), -1);
            && |out| == 2 && PreviousLabel(BACKWARD_JUMP, 1, 0)
            && out[0] == AnonLabel(0) + ":" && !Resolves(out, reserved, 1, AnonLabel(0), 0)
  {
    hide *;
    hide FORWARD_JUMP, BACKWARD_JUMP;
    ForwardJump(reserved);
    BackwardJump(reserved);
    BrokenJump(FORWARD_JUMP, reserved, 0, 2, 1);
    BrokenJump(BACKWARD_JUMP, reserved, 1, 0, 1);
  }

  lemma BrokenJump(program: seq<Line>, reserved: string -> bool, i: nat, j: nat, k: nat)
    requires ProperProgram(program) && i < |program| && j < |program| && k < |program|
    requires program[i].Code? && program[j].Label? && NamesLabel(program[k], reserved)
    requires (NextLabel(program, i, j) && i < k < j) || (PreviousLabel(program, i, j) && j < k <= i)
    ensures var out, n := Emitted(PrintLines(program), -1), LabelsBefore(program, i);
            var name := AnonLabel(if i < j then n else n - 1);
            |out| == |program| && out[j] == name + ":" && !Resolves(out, reserved, i, name, j)
  {
    hide Resolves, Emitted, PrintLines, AnonLabel, Rename, NamesLabel, ProperLine;
    ReferencesResolve(program, reserved, i, j);
    ReferencesKeepTheirTargets(program, i, j);
  }

  lemma ForwardJump(reserved: string -> bool)
    requires !reserved("again")
    ensures var program := FORWARD_JUMP;
            && |program| == 3 && ProperProgram(program) && program[0].Code? && program[2].Label?
            && NextLabel(program, 0, 2) && LabelsBefore(program, 0) == 0 && NamesLabel(program[1], reserved)
  {
    hide OpensScope;
    AgainIsNamed(reserved);
    JumpIsProper("jz ", Forward(false));
    assert ProperLine(Code([Text("again: nop")]));
  }

  lemma BackwardJump(reserved: string -> bool)
    requires !reserved("again")
    ensures var program := BACKWARD_JUMP;
            && |program| == 2 && ProperProgram(program) && program[1].Code? && program[0].Label?
            && PreviousLabel(program, 1, 0) && LabelsBefore(program, 1) == 1 && NamesLabel(program[1], reserved)
  {
    LabelIsProper();
    hide OpensScope, ProperLine;
    AgainIsNamed(reserved);
    JumpIsProper("again: jz ", Back(false));
    assert LabelsBefore(BACKWARD_JUMP, 0) == 0;
  }

  lemma LabelIsProper()
    ensures ProperLine(Label)
  {
  }

  lemma JumpIsProper(text: string, reference: Token)
    requires text != "" && text[|text| - 1] == ' ' && '@' !in text && !reference.Text?
    ensures ProperLine(Code([Text(text), reference]))
  {
  }

  lemma AgainIsNamed(reserved: string -> bool)
    requires !reserved("again")
    ensures OpensScope("again: nop", reserved) && OpensScope("again: jz ", reserved)
  {
    WordIsUnique("again: nop", "again");
    WordIsUnique("again: jz ", "again");
  }

  lemma SameLabelLine(m: int, n: int)
    ensures AnonLabel(m) + ":" == AnonLabel(n) + ":" <==> m == n
  {
    var s, t := AnonLabel(m) + ":", AnonLabel(n) + ":";
    if s == t {
      assert s[..|s| - 1] == AnonLabel(m) && t[..|t| - 1] == AnonLabel(n);
      LabelsAreDistinct(m, n);
    }
  }

  /** No two labels of the output have the same name. */
  lemma EmittedLabelsAreDistinct(program: seq<Line>, i: nat, j: nat)
    requires ProperProgram(program) && i < j < |program| && program[i].Label? && program[j].Label?
    ensures |Emitted(PrintLines(program), -1)| == |program|
    ensures Emitted(PrintLines(program), -1)[i] != Emitted(PrintLines(program), -1)[j]
  {
    EmittedLine(program, -1, i);
    EmittedLine(program, -1, j);
    LabelsBeforeGrows(program, i + 1, j);
    SameLabelLine(LabelsBefore(program, i), LabelsBefore(program, j));
  }
}
