/** The grep result formatter: its three output formats, the mode check made
    when it is constructed, the dispatch between the formats, and the
    per-line filter that decides which lines reach it. */
module Minigrep {
  import opened Text
  import opened Decimal
  import opened Spans
  import opened Colour

  datatype Result<+T, +E> = Success(value: T) | Failure(error: E)

  /** The `ValueError` raised when both modes are asked for. */
  datatype ConfigError = IncompatibleModes

  // ---------------------------------------------------------------- base format

  /** `f'{file_name}, line {line_num + 1}: "{line}"'`. */
  function BaseFormat(fileName: string, lineNum: nat, line: string): string
  {
    fileName + (", line " + (NatToDecimal(lineNum + 1) + (": \"" + (line + "\""))))
  }

  /** The fields a base record shows. */
  datatype BaseFields = BaseFields(fileName: string, lineNumber: nat, line: string)

  /** `s` with the prefix `p` removed, if `s` starts with `p`. */
  function DropPrefix(p: string, s: string): (r: Option<string>)
    ensures r.Some? <==> |p| <= |s| && s[..|p|] == p
    ensures r.Some? ==> s == p + r.value
  {
    if |p| <= |s| && s[..|p|] == p then Some(s[|p|..]) else None
  }

  lemma DropPrefixOf(p: string, t: string)
    ensures DropPrefix(p, p + t) == Some(t)
  {
    assert (p + t)[..|p|] == p;
    assert (p + t)[|p|..] == t;
  }

  /** Reads a base record back: the file name up to the first comma, the line
      number after `" line "`, and the line between `: "` and the closing quote. */
  function ParseBaseRecord(s: string): Option<BaseFields>
  {
    match SplitFirst(s, ',')
    case None => None
    case Some((fileName, afterComma)) => ParseBaseLabel(fileName, afterComma)
  }

  function ParseBaseLabel(fileName: string, afterComma: string): Option<BaseFields>
  {
    match DropPrefix(" line ", afterComma)
    case None => None
    case Some(afterLabel) => ParseBaseNumber(fileName, afterLabel)
  }

  function ParseBaseNumber(fileName: string, afterLabel: string): Option<BaseFields>
  {
    match SplitFirst(afterLabel, ':')
    case None => None
    case Some((digits, afterColon)) =>
      if digits == [] || !AllDigits(digits) then None
      else ParseBaseLine(fileName, DecimalValue(digits), afterColon)
  }

  function ParseBaseLine(fileName: string, lineNumber: nat, afterColon: string): Option<BaseFields>
  {
    match DropPrefix(" \"", afterColon)
    case None => None
    case Some(quoted) =>
      if quoted == [] || quoted[|quoted| - 1] != '"' then None
      else Some(BaseFields(fileName, lineNumber, quoted[..|quoted| - 1]))
  }

  /** The file name ends at the first comma when it holds none. */
  lemma CommaStep(fileName: string, afterLabel: string)
    requires ',' !in fileName
    ensures ParseBaseRecord(fileName + (", line " + afterLabel)) == ParseBaseNumber(fileName, afterLabel)
  {
    assert fileName + (", line " + afterLabel) == fileName + [','] + (" line " + afterLabel);
    SplitFirstAt(fileName, ',', " line " + afterLabel);
    DropPrefixOf(" line ", afterLabel);
  }

  /** The digits of a number end at the first colon after them, and read back as the number. */
  lemma DigitsStep(n: nat, rest: string)
    ensures SplitFirst(NatToDecimal(n) + (":" + rest), ':') == Some((NatToDecimal(n), rest))
    ensures DecimalValue(NatToDecimal(n)) == n
  {
    DecimalRoundTrip(n);
    DecimalHasNo(n, ':');
    assert NatToDecimal(n) + (":" + rest) == NatToDecimal(n) + [':'] + rest;
    SplitFirstAt(NatToDecimal(n), ':', rest);
  }

  lemma NumberStep(fileName: string, n: nat, afterColon: string)
    ensures ParseBaseNumber(fileName, NatToDecimal(n) + (":" + afterColon)) == ParseBaseLine(fileName, n, afterColon)
  {
    DigitsStep(n, afterColon);
  }

  /** Whatever the line holds, it is all that stands between `: "` and the closing quote. */
  lemma LineStep(fileName: string, n: nat, line: string)
    ensures ParseBaseLine(fileName, n, " \"" + (line + "\"")) == Some(BaseFields(fileName, n, line))
  {
    var quoted := line + "\"";
    DropPrefixOf(" \"", quoted);
    assert quoted[..|quoted| - 1] == line;
  }

  /** A base record shows the file name, the line number counted from 1, and
      the line exactly, whatever the line holds. */
  lemma BaseRoundTrip(fileName: string, lineNum: nat, line: string)
    requires ',' !in fileName
    ensures ParseBaseRecord(BaseFormat(fileName, lineNum, line)) == Some(BaseFields(fileName, lineNum + 1, line))
  {
    var afterColon := " \"" + (line + "\"");
    var afterLabel := NatToDecimal(lineNum + 1) + (":" + afterColon);
    assert ": \"" + (line + "\"") == ":" + afterColon;
    calc {
      ParseBaseRecord(BaseFormat(fileName, lineNum, line));
      ParseBaseRecord(fileName + (", line " + afterLabel));
      { CommaStep(fileName, afterLabel); }
      ParseBaseNumber(fileName, afterLabel);
      { NumberStep(fileName, lineNum + 1, afterColon); }
      ParseBaseLine(fileName, lineNum + 1, afterColon);
      { LineStep(fileName, lineNum + 1, line); }
      Some(BaseFields(fileName, lineNum + 1, line));
    }
  }

  // ------------------------------------------------------------- machine format

  /** The layout of a machine record: `file:line:column:text`. */
  function MachineLayout(fileName: string, line: nat, column: nat, text: string): string
  {
    fileName + (":" + (NatToDecimal(line) + (":" + (NatToDecimal(column) + (":" + text)))))
  }

  /** `f'{file_name}:{line_num + 1}:{match.start() + 1}:{match.group(0)}'`. */
  function MachineRecord(fileName: string, lineNum: nat, m: Match): string
  {
    MachineLayout(fileName, lineNum + 1, m.start + 1, m.text)
  }

  /** The records of the generator in `_machine_format`, one per match, in order. */
  function MachineRecords(fileName: string, lineNum: nat, ms: seq<Match>): (r: seq<string>)
    ensures |r| == |ms|
    ensures forall i :: 0 <= i < |ms| ==> r[i] == MachineRecord(fileName, lineNum, ms[i])
  {
    if ms == [] then []
    else [MachineRecord(fileName, lineNum, ms[0])] + MachineRecords(fileName, lineNum, ms[1..])
  }

  /** `'\n'.join(...)` over the records. */
  function MachineFormat(fileName: string, lineNum: nat, ms: seq<Match>): string
  {
    Join(MachineRecords(fileName, lineNum, ms), '\n')
  }

  /** The fields a machine record shows. */
  datatype MachineFields = MachineFields(fileName: string, lineNumber: nat, column: nat, text: string)

  /** Reads a machine record back: file name, line and column up to the first
      three colons; the matched text is everything after the third. */
  function ParseMachineRecord(s: string): Option<MachineFields>
  {
    match SplitFirst(s, ':')
    case None => None
    case Some((fileName, rest)) =>
      match SplitFirst(rest, ':')
      case None => None
      case Some((lineDigits, rest2)) =>
        match SplitFirst(rest2, ':')
        case None => None
        case Some((columnDigits, text)) =>
          if lineDigits == [] || !AllDigits(lineDigits) || columnDigits == [] || !AllDigits(columnDigits) then None
          else Some(MachineFields(fileName, DecimalValue(lineDigits), DecimalValue(columnDigits), text))
  }

  /** What `ParseMachineRecord` finds at each of its steps decides what it returns. */
  lemma ParseMachineSteps(s: string, fileName: string, rest: string, lineDigits: string, rest2: string,
                          columnDigits: string, text: string)
    requires SplitFirst(s, ':') == Some((fileName, rest))
    requires SplitFirst(rest, ':') == Some((lineDigits, rest2))
    requires SplitFirst(rest2, ':') == Some((columnDigits, text))
    requires lineDigits != [] && AllDigits(lineDigits) && columnDigits != [] && AllDigits(columnDigits)
    ensures ParseMachineRecord(s)
         == Some(MachineFields(fileName, DecimalValue(lineDigits), DecimalValue(columnDigits), text))
  {
  }

  lemma ColonStep(fileName: string, rest: string)
    requires ':' !in fileName
    ensures SplitFirst(fileName + (":" + rest), ':') == Some((fileName, rest))
  {
    assert fileName + (":" + rest) == fileName + [':'] + rest;
    SplitFirstAt(fileName, ':', rest);
  }

  /** A colon-free file name, two numbers and any text, laid out as a machine
      record, read back as exactly those fields. */
  lemma MachineParse(fileName: string, line: nat, column: nat, text: string)
    requires ':' !in fileName
    ensures ParseMachineRecord(MachineLayout(fileName, line, column, text)) == Some(MachineFields(fileName, line, column, text))
  {
    var lineDigits, columnDigits := NatToDecimal(line), NatToDecimal(column);
    var rest2 := columnDigits + (":" + text);
    var rest := lineDigits + (":" + rest2);
    ColonStep(fileName, rest);
    DigitsStep(line, rest2);
    DigitsStep(column, text);
    ParseMachineSteps(fileName + (":" + rest), fileName, rest, lineDigits, rest2, columnDigits, text);
  }

  /** A machine record shows the file name, the line and the column counted
      from 1, and the matched text exactly. */
  lemma MachineRecordRoundTrip(record: string, fileName: string, lineNum: nat, m: Match)
    requires ':' !in fileName
    requires record == MachineRecord(fileName, lineNum, m)
    ensures ParseMachineRecord(record) == Some(MachineFields(fileName, lineNum + 1, m.start + 1, m.text))
  {
    var line, column := lineNum + 1, m.start + 1;
    assert record == MachineLayout(fileName, line, column, m.text);
    MachineParse(fileName, line, column, m.text);
  }

  lemma RecordHasNoNewline(fileName: string, lineNum: nat, m: Match)
    requires '\n' !in fileName && '\n' !in m.text
    ensures '\n' !in MachineRecord(fileName, lineNum, m)
  {
    DecimalHasNo(lineNum + 1, '\n');
    DecimalHasNo(m.start + 1, '\n');
  }

  /** The machine output of a line with k matches splits at its newlines into
      exactly the k records, in match order, and so holds k - 1 newlines. */
  lemma MachineLines(fileName: string, lineNum: nat, ms: seq<Match>)
    requires ms != []
    requires '\n' !in fileName
    requires forall i :: 0 <= i < |ms| ==> '\n' !in ms[i].text
    ensures Split(MachineFormat(fileName, lineNum, ms), '\n') == MachineRecords(fileName, lineNum, ms)
    ensures Occurrences(MachineFormat(fileName, lineNum, ms), "\n") == |ms| - 1
  {
    var records := MachineRecords(fileName, lineNum, ms);
    forall i | 0 <= i < |records|
      ensures '\n' !in records[i]
    {
      RecordHasNoNewline(fileName, lineNum, ms[i]);
    }
    SplitJoin(records, '\n');
    JoinSeparators(records, '\n');
  }

  // -------------------------------------------------------------- colour format

  /** A base record is a prefix fixed by the file name and line number, the
      line, and a closing quote; the prefix holds no escape character when
      the file name holds none. */
  lemma BaseAround(fileName: string, lineNum: nat, line: string, prefix: string)
    requires prefix == fileName + (", line " + (NatToDecimal(lineNum + 1) + ": \""))
    ensures BaseFormat(fileName, lineNum, line) == prefix + (line + "\"")
    ensures Esc !in fileName ==> Esc !in prefix
  {
    DecimalHasNo(lineNum + 1, Esc);
  }

  lemma StripQuote()
    ensures StripColor("\"") == "\""
  {
    StripPlain("\"", []);
    assert "\"" + [] == "\"";
  }

  lemma StripAfterPrefix(prefix: string, body: string, line: string)
    requires Esc !in prefix
    requires StripColor(body + "\"") == line + "\""
    ensures StripColor(prefix + (body + "\"")) == prefix + (line + "\"")
  {
    StripPlain(prefix, body + "\"");
  }

  /** Removing the colour codes from a colour record gives the base record of
      the line itself: same file name, same line number, same text. */
  lemma ColorRecordStrips(fileName: string, lineNum: nat, line: string, ms: seq<Match>)
    requires WellFormed(line, ms)
    requires Esc !in fileName && Esc !in line
    ensures StripColor(BaseFormat(fileName, lineNum, Colorized(line, ms))) == BaseFormat(fileName, lineNum, line)
  {
    var prefix := fileName + (", line " + (NatToDecimal(lineNum + 1) + ": \""));
    var c := Colorized(line, ms);
    BaseAround(fileName, lineNum, c, prefix);
    BaseAround(fileName, lineNum, line, prefix);
    StripColorized(line, ms, "\"");
    StripQuote();
    StripAfterPrefix(prefix, c, line);
  }

  // ------------------------------------------------------------------ formatter

  class GrepFormatter {
    const color: bool
    const machine: bool

    /** Stores the mode flags; `Create` is the checked way in. */
    constructor(color: bool, machine: bool)
      requires !(color && machine)
      ensures this.color == color && this.machine == machine
    {
      this.color := color;
      this.machine := machine;
    }

    /** `GrepFormatter(color, machine)`: both modes together are refused with
        an error; any other pair gives a formatter holding the two flags,
        which no later call can change. */
    static method Create(color: bool, machine: bool) returns (r: Result<GrepFormatter, ConfigError>)
      ensures r.Failure? <==> color && machine
      ensures r.Failure? ==> r.error == IncompatibleModes
      ensures r.Success? ==> fresh(r.value) && r.value.color == color && r.value.machine == machine
    {
      if color && machine {
        return Failure(IncompatibleModes);
      }
      var f := new GrepFormatter(color, machine);
      return Success(f);
    }

    /** `_color_format`: the base format of the highlighted line. */
    method ColorFormat(fileName: string, lineNum: nat, line: string, ms: seq<Match>) returns (r: string)
      ensures r == BaseFormat(fileName, lineNum, Colorized(line, ms))
    {
      var colored := ColorizeLine(line, ms);
      r := BaseFormat(fileName, lineNum, colored);
    }

    /** `formatter`: colour mode wins over machine mode, and base mode is what
        is left; the base format ignores the matches. */
    method Format(fileName: string, lineNum: nat, line: string, ms: seq<Match>) returns (r: string)
      ensures color ==> r == BaseFormat(fileName, lineNum, Colorized(line, ms))
      ensures !color && machine ==> r == MachineFormat(fileName, lineNum, ms)
      ensures !color && !machine ==> r == BaseFormat(fileName, lineNum, line)
    {
      if color {
        r := ColorFormat(fileName, lineNum, line, ms);
      } else if machine {
        r := MachineFormat(fileName, lineNum, ms);
      } else {
        r := BaseFormat(fileName, lineNum, line);
      }
    }
  }

  // ------------------------------------------------------------ per-line filter

  /** One result of `get_re_matches`: the line's 0-based index, the line, and its matches. */
  datatype LineMatches = LineMatches(lineNum: nat, line: string, matches: seq<Match>)

  /** `h` is line `h.lineNum` of `lines` with the matches `find` gives it, and there are some. */
  predicate IsHit(find: string -> seq<Match>, lines: seq<string>, h: LineMatches)
  {
    h.lineNum < |lines| && h.line == lines[h.lineNum] && h.matches == find(h.line) && h.matches != []
  }

  /** `hits` is what `get_re_matches` has yielded once it has looked at the
      first `n` lines: hits only, in increasing line order, and one for every
      line before `n` that has a match. */
  predicate HitsUpTo(find: string -> seq<Match>, lines: seq<string>, hits: seq<LineMatches>, n: nat)
  {
    && (forall k :: 0 <= k < |hits| ==> IsHit(find, lines, hits[k]) && hits[k].lineNum < n)
    && (forall k, l :: 0 <= k < l < |hits| ==> hits[k].lineNum < hits[l].lineNum)
    && (forall j :: 0 <= j < n && j < |lines| && find(lines[j]) != [] ==>
          exists k :: 0 <= k < |hits| && hits[k].lineNum == j)
  }

  /** A line without matches adds nothing. */
  lemma SkipLine(find: string -> seq<Match>, lines: seq<string>, hits: seq<LineMatches>, i: nat)
    requires i < |lines| && find(lines[i]) == []
    requires HitsUpTo(find, lines, hits, i)
    ensures HitsUpTo(find, lines, hits, i + 1)
  {
    forall j | 0 <= j < i + 1 && j < |lines| && find(lines[j]) != []
      ensures exists k :: 0 <= k < |hits| && hits[k].lineNum == j
    {
      assert j < i;
    }
  }

  /** A line with matches is added after all earlier hits. */
  lemma AddLine(find: string -> seq<Match>, lines: seq<string>, hits: seq<LineMatches>, i: nat)
    requires i < |lines| && find(lines[i]) != []
    requires HitsUpTo(find, lines, hits, i)
    ensures HitsUpTo(find, lines, hits + [LineMatches(i, lines[i], find(lines[i]))], i + 1)
  {
    var more := hits + [LineMatches(i, lines[i], find(lines[i]))];
    assert forall k :: 0 <= k < |hits| ==> more[k] == hits[k];
    assert more[|hits|].lineNum == i;
    forall j | 0 <= j < i + 1 && j < |lines| && find(lines[j]) != []
      ensures exists k :: 0 <= k < |more| && more[k].lineNum == j
    {
      if j < i {
        var k :| 0 <= k < |hits| && hits[k].lineNum == j;
        assert more[k].lineNum == j;
      } else {
        assert more[|hits|].lineNum == j;
      }
    }
  }

  /** `get_re_matches`, with `find` standing for `finditer(regex, ·)`: every
      line with a match, and no other, in the order of the lines. */
  method GetReMatches(find: string -> seq<Match>, lines: seq<string>) returns (hits: seq<LineMatches>)
    ensures forall k :: 0 <= k < |hits| ==> IsHit(find, lines, hits[k])
    ensures forall k, l :: 0 <= k < l < |hits| ==> hits[k].lineNum < hits[l].lineNum
    ensures forall i :: 0 <= i < |lines| && find(lines[i]) != [] ==>
              exists k :: 0 <= k < |hits| && hits[k].lineNum == i
  {
    hits := [];
    for i := 0 to |lines|
      invariant HitsUpTo(find, lines, hits, i)
    {
      var reMatches := find(lines[i]);
      if reMatches != [] {
        AddLine(find, lines, hits, i);
        hits := hits + [LineMatches(i, lines[i], reMatches)];
      } else {
        SkipLine(find, lines, hits, i);
      }
    }
  }

  // ----------------------------------------------------------- worked examples

  /** The record of the base-format test: line index 42 is shown as line 43. */
  lemma BaseExample()
    ensures BaseFormat("cool_name", 42, "This line is cool.") == "cool_name, line 43: \"This line is cool.\""
  {
    assert DigitChar(4) == '4' && DigitChar(3) == '3';
    assert NatToDecimal(43) == NatToDecimal(4) + [DigitChar(3)];
    assert NatToDecimal(43) == "43";
    BaseExampleText();
  }

  lemma BaseExampleText()
    ensures "cool_name" + (", line " + ("43" + (": \"" + ("This line is cool." + "\""))))
         == "cool_name, line 43: \"This line is cool.\""
  {
  }

  /** Two matches on the third line of a file: two records, one newline, and
      the columns counted from 1. */
  lemma MachineExample()
    ensures MachineFormat("do", 2, [Match(5, 8, "irs"), Match(34, 37, "ins")]) == "do:3:6:irs\ndo:3:35:ins"
  {
    var ms := [Match(5, 8, "irs"), Match(34, 37, "ins")];
    var records := MachineRecords("do", 2, ms);
    assert records == [MachineRecord("do", 2, ms[0]), MachineRecord("do", 2, ms[1])];
    FirstRecordExample();
    SecondRecordExample();
    assert Join(records, '\n') == records[0] + ['\n'] + Join(records[1..], '\n');
    MachineExampleText();
  }

  lemma FirstRecordExample()
    ensures MachineRecord("do", 2, Match(5, 8, "irs")) == "do:3:6:irs"
  {
    assert DigitChar(3) == '3' && DigitChar(6) == '6';
  }

  lemma SecondRecordExample()
    ensures MachineRecord("do", 2, Match(34, 37, "ins")) == "do:3:35:ins"
  {
    assert DigitChar(3) == '3' && DigitChar(5) == '5';
    assert NatToDecimal(35) == NatToDecimal(3) + [DigitChar(5)];
  }

  lemma MachineExampleText()
    ensures "do:3:6:irs" + ['\n'] + "do:3:35:ins" == "do:3:6:irs\ndo:3:35:ins"
  {
  }

  /** One match in the middle of a line: the text before it is copied, the
      match is wrapped in the codes, and the rest of the line follows once. */
  lemma ColorExample()
    ensures Colorized("a duck!", [Match(2, 6, "duck")]) == "a " + ColorStart + "duck" + ColorReset + "!"
  {
    var line, ms := "a duck!", [Match(2, 6, "duck")];
    assert WellFormed(line, ms);
    MatchHighlighted(line, ms, 0);
    assert BeforeMatch(line, ms, 0, 0) == "a ";
    assert AfterMatch(line, ms, 0) == "!";
  }
}
