/** process_tcontrollog.readrecord: log files as lists of lines, and the records in them. */
module RecordFiles {
  import opened Wrappers
  import opened RecordOrder

  /** A line without its line end. */
  type Line = string

  /** The search for the times and buckets in the text of a record; None when the expression does not match. */
  type Parser = seq<Line> -> Option<Key>

  datatype ReadResult = EndOfFile | ReadOne(record: Record) | ParseError

  function StripLeft(s: string): string {
    if s != "" && (s[0] == ' ' || s[0] == '\t' || s[0] == '\r') then StripLeft(s[1..]) else s
  }

  function StripRight(s: string): string {
    if s != "" && (s[|s| - 1] == ' ' || s[|s| - 1] == '\t' || s[|s| - 1] == '\r') then StripRight(s[..|s| - 1]) else s
  }

  predicate IsBegin(line: Line) {
    StripRight(StripLeft(line)) == "====BEGIN===="
  }

  predicate IsEnd(line: Line) {
    StripRight(StripLeft(line)) == "====END===="
  }

  // ----- One record -----

  function Finish(lines: seq<Line>, parse: Parser): ReadResult {
    if parse(lines).Some? then ReadOne(Record(parse(lines).value, lines)) else ParseError
  }

  /** The next record when `record` holds the lines of the one that has been started, and what follows it. */
  function Next(lines: seq<Line>, record: seq<Line>, parse: Parser): (ReadResult, seq<Line>) {
    if lines == [] then (EndOfFile, [])
    else if record != [] then
      if IsEnd(lines[0]) then (Finish(record + [lines[0]], parse), lines[1..])
      else Next(lines[1..], record + [lines[0]], parse)
    else Next(lines[1..], if IsBegin(lines[0]) then [lines[0]] else [], parse)
  }

  /** readrecord; the stream is advanced to what follows the record. */
  method ReadRecord(stream: seq<Line>, parse: Parser) returns (r: ReadResult, rest: seq<Line>)
    ensures (r, rest) == Next(stream, [], parse)
    ensures r != EndOfFile ==> |rest| < |stream|
  {
    var recordStarted := false;
    var record: seq<Line> := [];
    rest := stream;
    while rest != []
      invariant Next(rest, record, parse) == Next(stream, [], parse)
      invariant recordStarted <==> record != []
      invariant |rest| <= |stream|
      decreases |rest|
    {
      var line := rest[0];
      rest := rest[1..];
      if recordStarted {
        record := record + [line];
        if IsEnd(line) {
          return Finish(record, parse), rest;
        }
      } else if IsBegin(line) {
        recordStarted := true;
        record := [line];
      }
    }
    r := EndOfFile;
  }

  // ----- All records of a file -----

  lemma {:induction false} NextShrinks(lines: seq<Line>, record: seq<Line>, parse: Parser)
    ensures Next(lines, record, parse).0 != EndOfFile ==> |Next(lines, record, parse).1| < |lines|
    decreases |lines|
  {
    if lines != [] && !(record != [] && IsEnd(lines[0])) {
      NextShrinks(lines[1..], if record != [] then record + [lines[0]] else if IsBegin(lines[0]) then [lines[0]]
                  else [], parse);
    }
  }

  /** What repeated reading returns; None when a record cannot be parsed. */
  function ReadAll(lines: seq<Line>, parse: Parser): Option<seq<Record>>
    decreases |lines|
  {
    var (r, rest) := Next(lines, [], parse);
    if r == EndOfFile then Some([])
    else
      NextShrinks(lines, [], parse);
      if r == ParseError then None
      else
        var others := ReadAll(rest, parse);
        if others.Some? then Some([r.record] + others.value) else None
  }

  /** A record starts with a begin line, ends with the first end line after it, and can be parsed. */
  ghost predicate IsRecord(r: Record, parse: Parser) {
    && |r.lines| >= 2 && IsBegin(r.lines[0]) && IsEnd(r.lines[|r.lines| - 1])
    && (forall i :: 0 < i < |r.lines| - 1 ==> !IsEnd(r.lines[i]))
    && parse(r.lines) == Some(r.key)
  }

  /** The lines of the record that has been started, after one more line. */
  function Started(record: seq<Line>, line: Line): seq<Line> {
    if record != [] then record + [line] else if IsBegin(line) then [line] else []
  }

  /** Whatever is read is a record. */
  lemma {:induction false} NextIsRecord(lines: seq<Line>, record: seq<Line>, parse: Parser)
    requires Next(lines, record, parse).0.ReadOne?
    requires record != [] ==> IsBegin(record[0]) && forall i :: 0 < i < |record| ==> !IsEnd(record[i])
    ensures IsRecord(Next(lines, record, parse).0.record, parse)
    decreases |lines|
  {
    hide IsBegin, IsEnd;
    if !(record != [] && IsEnd(lines[0])) {
      NextIsRecord(lines[1..], Started(record, lines[0]), parse);
    }
  }

  /** Its lines stand together in the file, before what is still to be read. */
  lemma {:induction false} NextIsInFile(lines: seq<Line>, record: seq<Line>, parse: Parser) returns (skipped: seq<Line>)
    requires Next(lines, record, parse).0.ReadOne?
    ensures record + lines == skipped + (Next(lines, record, parse).0.record.lines + Next(lines, record, parse).1)
    decreases |lines|
  {
    hide IsBegin, IsEnd;
    var (r, rest) := Next(lines, record, parse);
    assert lines == [lines[0]] + lines[1..];
    if record != [] && IsEnd(lines[0]) {
      skipped := [];
      assert record + lines == r.record.lines + rest;
    } else {
      skipped := NextIsInFile(lines[1..], Started(record, lines[0]), parse);
      if record == [] && !IsBegin(lines[0]) {
        assert [] + lines[1..] == lines[1..];
        skipped := [lines[0]] + skipped;
      } else {
        assert record + lines == Started(record, lines[0]) + lines[1..];
      }
    }
  }

  // ----- Reading back what was written -----

  /** Reading from inside a record gives the whole record. */
  lemma {:induction false} NextInside(lines: seq<Line>, n: nat, rest: seq<Line>, parse: Parser)
    requires 0 < n < |lines| && IsEnd(lines[|lines| - 1]) && forall i :: n <= i < |lines| - 1 ==> !IsEnd(lines[i])
    ensures Next(lines[n..] + rest, lines[..n], parse) == (Finish(lines, parse), rest)
    decreases |lines| - n
  {
    var tail := lines[n..] + rest;
    assert tail[0] == lines[n] && lines[..n] + [lines[n]] == lines[..n + 1];
    if n == |lines| - 1 {
      assert tail[1..] == rest && lines[..n + 1] == lines;
    } else {
      assert tail[1..] == lines[n + 1..] + rest;
      NextInside(lines, n + 1, rest, parse);
    }
  }

  lemma NextOfRecord(r: Record, rest: seq<Line>, parse: Parser)
    requires IsRecord(r, parse)
    ensures Next(r.lines + rest, [], parse) == (ReadOne(r), rest)
  {
    assert (r.lines + rest)[0] == r.lines[0] && (r.lines + rest)[1..] == r.lines[1..] + rest;
    assert [r.lines[0]] == r.lines[..1];
    NextInside(r.lines, 1, rest, parse);
  }

  /** The file of misordered records: one after the other. */
  function WriteMisordered(records: seq<Record>): seq<Line> {
    if records == [] then [] else records[0].lines + WriteMisordered(records[1..])
  }

  /** The other output files: with an empty line before every record but the first. */
  function WriteSeparated(records: seq<Record>, first: bool): seq<Line> {
    if records == [] then []
    else (if first then [] else [""]) + (records[0].lines + WriteSeparated(records[1..], false))
  }

  lemma {:induction false} ReadMisordered(records: seq<Record>, parse: Parser)
    requires forall r :: r in records ==> IsRecord(r, parse)
    ensures ReadAll(WriteMisordered(records), parse) == Some(records)
    decreases |records|
  {
    if records != [] {
      NextOfRecord(records[0], WriteMisordered(records[1..]), parse);
      ReadMisordered(records[1..], parse);
      assert [records[0]] + records[1..] == records;
    }
  }

  lemma {:induction false} ReadSeparated(records: seq<Record>, first: bool, parse: Parser)
    requires forall r :: r in records ==> IsRecord(r, parse)
    ensures ReadAll(WriteSeparated(records, first), parse) == Some(records)
    decreases |records|
  {
    if records != [] {
      var body := records[0].lines + WriteSeparated(records[1..], false);
      NextOfRecord(records[0], WriteSeparated(records[1..], false), parse);
      ReadSeparated(records[1..], false, parse);
      SkipBlank(body, parse);
      assert [] + body == body && [records[0]] + records[1..] == records;
      assert WriteSeparated(records, first) == if first then body else [""] + body;
      assert Next(WriteSeparated(records, first), [], parse) ==
             (ReadOne(records[0]), WriteSeparated(records[1..], false));
    }
  }

  lemma SkipBlank(lines: seq<Line>, parse: Parser)
    ensures Next([""] + lines, [], parse) == Next(lines, [], parse)
  {
    assert ([""] + lines)[1..] == lines;
    assert StripRight(StripLeft("")) == "";
  }

  /** The records that are read from any file can be written to either kind of file and read again unchanged. */
  lemma {:induction false} ReadsRecords(lines: seq<Line>, parse: Parser)
    requires ReadAll(lines, parse).Some?
    ensures forall r :: r in ReadAll(lines, parse).value ==> IsRecord(r, parse)
    ensures ReadAll(WriteMisordered(ReadAll(lines, parse).value), parse) == ReadAll(lines, parse)
    ensures ReadAll(WriteSeparated(ReadAll(lines, parse).value, true), parse) == ReadAll(lines, parse)
    decreases |lines|
  {
    var (r, rest) := Next(lines, [], parse);
    if r != EndOfFile {
      NextShrinks(lines, [], parse);
      NextIsRecord(lines, [], parse);
      ReadsRecords(rest, parse);
    }
    ReadMisordered(ReadAll(lines, parse).value, parse);
    ReadSeparated(ReadAll(lines, parse).value, true, parse);
  }

  // ----- Every record is read -----

  predicate IsPadding(s: string) {
    forall i :: 0 <= i < |s| ==> s[i] == ' ' || s[i] == '\t' || s[i] == '\r'
  }

  lemma {:induction false} StripLeftMeaning(s: string) returns (left: string)
    ensures s == left + StripLeft(s) && IsPadding(left)
    ensures StripLeft(s) != "" ==> StripLeft(s)[0] !in " \t\r"
  {
    left := "";
    if s != "" && (s[0] == ' ' || s[0] == '\t' || s[0] == '\r') {
      var rest := StripLeftMeaning(s[1..]);
      left := [s[0]] + rest;
      assert s == [s[0]] + s[1..];
    }
  }

  lemma {:induction false} StripRightMeaning(s: string) returns (right: string)
    ensures s == StripRight(s) + right && IsPadding(right)
  {
    right := "";
    var n := |s| - 1;
    if s != "" && (s[n] == ' ' || s[n] == '\t' || s[n] == '\r') {
      var rest := StripRightMeaning(s[..n]);
      right := rest + [s[n]];
      assert s == s[..n] + [s[n]];
    }
  }

  lemma {:induction false} StripLeftPadding(left: string, text: string)
    requires IsPadding(left) && text != "" && text[0] != ' ' && text[0] != '\t' && text[0] != '\r'
    ensures StripLeft(left + text) == text
  {
    if left == "" {
      assert left + text == text;
    } else {
      assert (left + text)[1..] == left[1..] + text;
      StripLeftPadding(left[1..], text);
    }
  }

  lemma {:induction false} StripRightPadding(text: string, right: string)
    requires IsPadding(right) && text != ""
    requires var c := text[|text| - 1]; c != ' ' && c != '\t' && c != '\r'
    ensures StripRight(text + right) == text
    decreases |right|
  {
    if right == "" {
      assert text + right == text;
    } else {
      var n := |right| - 1;
      assert (text + right)[..|text + right| - 1] == text + right[..n];
      StripRightPadding(text, right[..n]);
    }
  }

  /** The line holds the text and, around it, only blanks. */
  ghost predicate HoldsOnly(line: Line, text: string) {
    exists left, right :: IsPadding(left) && IsPadding(right) && line == left + text + right
  }

  lemma StripMeaning(line: Line, text: string)
    requires |text| > 0 && text[0] == '=' && text[|text| - 1] == '='
    ensures StripRight(StripLeft(line)) == text <==> HoldsOnly(line, text)
  {
    hide StripLeft, StripRight, IsPadding;
    var left := StripLeftMeaning(line);
    var right := StripRightMeaning(StripLeft(line));
    if StripRight(StripLeft(line)) == text {
      Around(left, text, right);
      assert line == left + text + right;
    }
    if l, r :| IsPadding(l) && IsPadding(r) && line == l + text + r {
      PaddedText(l, text, r);
    }
  }

  lemma Around(left: string, text: string, right: string)
    ensures left + text + right == left + (text + right)
  {
  }

  lemma PaddedText(left: string, text: string, right: string)
    requires IsPadding(left) && IsPadding(right) && |text| > 0 && text[0] == '=' && text[|text| - 1] == '='
    ensures StripRight(StripLeft(left + text + right)) == text
  {
    hide StripLeft, StripRight, IsPadding;
    Around(left, text, right);
    assert text + right != "" && (text + right)[0] == '=';
    StripLeftPadding(left, text + right);
    StripRightPadding(text, right);
  }

  /** Begin and end lines are those with these words and, around them, only blanks. */
  lemma MarkerMeaning(line: Line)
    ensures IsBegin(line) <==> HoldsOnly(line, "====BEGIN====")
    ensures IsEnd(line) <==> HoldsOnly(line, "====END====")
  {
    StripMeaning(line, "====BEGIN====");
    StripMeaning(line, "====END====");
  }

  ghost predicate EndsAfter(lines: seq<Line>, i: nat) {
    exists j :: i <= j < |lines| && IsEnd(lines[j])
  }

  lemma EndsAfterNext(lines: seq<Line>, i: nat)
    requires lines != []
    ensures EndsAfter(lines, i + 1) <==> EndsAfter(lines[1..], i)
    ensures EndsAfter(lines, 0) <==> IsEnd(lines[0]) || EndsAfter(lines, 1)
  {
    hide IsEnd;
    if EndsAfter(lines, i + 1) {
      var j :| i + 1 <= j < |lines| && IsEnd(lines[j]);
      assert lines[1..][j - 1] == lines[j];
    }
    if EndsAfter(lines[1..], i) {
      var j :| i <= j < |lines[1..]| && IsEnd(lines[1..][j]);
      assert lines[j + 1] == lines[1..][j];
    }
  }

  /** A record that has been started is read exactly when an end line follows. */
  lemma {:induction false} StartedIsRead(lines: seq<Line>, record: seq<Line>, parse: Parser)
    requires record != []
    ensures Next(lines, record, parse).0 == EndOfFile <==> !EndsAfter(lines, 0)
    decreases |lines|
  {
    hide IsEnd, IsBegin;
    if lines != [] && !IsEnd(lines[0]) {
      StartedIsRead(lines[1..], record + [lines[0]], parse);
      EndsAfterNext(lines, 0);
    }
  }

  /** A begin line, and somewhere after it an end line. */
  ghost predicate HasRecord(lines: seq<Line>) {
    exists i, j :: 0 <= i < j < |lines| && IsBegin(lines[i]) && IsEnd(lines[j])
  }

  lemma HasRecordNext(lines: seq<Line>)
    requires lines != []
    ensures HasRecord(lines) <==> (IsBegin(lines[0]) && EndsAfter(lines[1..], 0)) || HasRecord(lines[1..])
  {
    hide IsBegin, IsEnd;
    EndsAfterNext(lines, 0);
    if HasRecord(lines) {
      var i, j :| 0 <= i < j < |lines| && IsBegin(lines[i]) && IsEnd(lines[j]);
      if i > 0 {
        assert lines[1..][i - 1] == lines[i] && lines[1..][j - 1] == lines[j];
      }
    }
    if HasRecord(lines[1..]) {
      var i, j :| 0 <= i < j < |lines[1..]| && IsBegin(lines[1..][i]) && IsEnd(lines[1..][j]);
      assert lines[i + 1] == lines[1..][i] && lines[j + 1] == lines[1..][j];
    }
  }

  /** Reading meets the end of the file exactly when no begin line has an end line after it. */
  lemma {:induction false} EndOfFileExactly(lines: seq<Line>, parse: Parser)
    ensures Next(lines, [], parse).0 == EndOfFile <==>
            !exists i, j :: 0 <= i < j < |lines| && IsBegin(lines[i]) && IsEnd(lines[j])
    decreases |lines|
  {
    assert HasRecord(lines) <==> exists i, j :: 0 <= i < j < |lines| && IsBegin(lines[i]) && IsEnd(lines[j]);
    hide IsEnd, IsBegin;
    if lines != [] {
      HasRecordNext(lines);
      if IsBegin(lines[0]) {
        StartedIsRead(lines[1..], [lines[0]], parse);
        MoreEnds(lines[1..]);
      } else {
        EndOfFileExactly(lines[1..], parse);
      }
    }
  }

  lemma MoreEnds(lines: seq<Line>)
    ensures HasRecord(lines) ==> EndsAfter(lines, 0)
  {
    hide IsEnd, IsBegin;
  }

  /** Other lines before a begin line are skipped. */
  lemma {:induction false} OthersSkipped(others: seq<Line>, lines: seq<Line>, parse: Parser)
    requires forall line :: line in others ==> !IsBegin(line)
    ensures Next(others + lines, [], parse) == Next(lines, [], parse)
  {
    if others == [] {
      assert others + lines == lines;
    } else {
      assert (others + lines)[0] == others[0] && (others + lines)[1..] == others[1..] + lines;
      OthersSkipped(others[1..], lines, parse);
    }
  }

  /** A record is read with whatever other lines before it, and reading stops right after it. */
  lemma RecordIsRead(others: seq<Line>, r: Record, rest: seq<Line>, parse: Parser)
    requires IsRecord(r, parse) && forall line :: line in others ==> !IsBegin(line)
    ensures Next(others + r.lines + rest, [], parse) == (ReadOne(r), rest)
  {
    assert others + r.lines + rest == others + (r.lines + rest);
    OthersSkipped(others, r.lines + rest, parse);
    NextOfRecord(r, rest, parse);
  }

  /** The same for lines that cannot be parsed. */
  lemma BadRecordRaises(others: seq<Line>, lines: seq<Line>, rest: seq<Line>, parse: Parser)
    requires |lines| >= 2 && IsBegin(lines[0]) && IsEnd(lines[|lines| - 1]) && parse(lines).None?
    requires forall i :: 0 < i < |lines| - 1 ==> !IsEnd(lines[i])
    requires forall line :: line in others ==> !IsBegin(line)
    ensures Next(others + lines + rest, [], parse) == (ParseError, rest)
  {
    assert others + lines + rest == others + (lines + rest);
    OthersSkipped(others, lines + rest, parse);
    assert (lines + rest)[0] == lines[0] && (lines + rest)[1..] == lines[1..] + rest;
    assert [lines[0]] == lines[..1];
    NextInside(lines, 1, rest, parse);
  }

  /** A log: records with other lines before each of them, and at the end. */
  function Log(gaps: seq<seq<Line>>, records: seq<Record>, tail: seq<Line>): seq<Line>
    requires |gaps| == |records|
  {
    if records == [] then tail else gaps[0] + records[0].lines + Log(gaps[1..], records[1..], tail)
  }

  /** Of a log exactly the records are read, in their order, whatever the other lines are. */
  lemma {:induction false} LogIsRead(gaps: seq<seq<Line>>, records: seq<Record>, tail: seq<Line>, parse: Parser)
    requires |gaps| == |records| && forall r :: r in records ==> IsRecord(r, parse)
    requires forall i :: 0 <= i < |gaps| ==> forall line :: line in gaps[i] ==> !IsBegin(line)
    requires !exists i, j :: 0 <= i < j < |tail| && IsBegin(tail[i]) && IsEnd(tail[j])
    ensures ReadAll(Log(gaps, records, tail), parse) == Some(records)
    decreases |records|
  {
    hide IsBegin, IsEnd, Next;
    if records == [] {
      EndOfFileExactly(tail, parse);
    } else {
      LogIsRead(gaps[1..], records[1..], tail, parse);
      RecordIsRead(gaps[0], records[0], Log(gaps[1..], records[1..], tail), parse);
      assert [records[0]] + records[1..] == records;
    }
  }

  // ----- What is written -----

  /** Writing one more record: the misordered file has one record after the other. */
  lemma {:induction false} MisorderedAppend(records: seq<Record>, r: Record)
    ensures WriteMisordered(records + [r]) == WriteMisordered(records) + r.lines
  {
    if records == [] {
      assert [r][1..] == [];
    } else {
      assert (records + [r])[1..] == records[1..] + [r];
      MisorderedAppend(records[1..], r);
    }
  }

  /** The other files have an empty line before every record but the first. */
  lemma {:induction false} SeparatedAppend(records: seq<Record>, r: Record, first: bool)
    ensures WriteSeparated([], first) == []
    ensures WriteSeparated(records + [r], first) ==
            WriteSeparated(records, first) + (if first && records == [] then [] else [""]) + r.lines
  {
    WriteSeparatedOne(r, first);
    if records == [] {
      assert [] + [r] == [r];
    } else {
      assert (records + [r])[1..] == records[1..] + [r] && (records + [r])[0] == records[0];
      SeparatedAppend(records[1..], r, false);
      Associate(if first then [] else [""], records[0].lines, WriteSeparated(records[1..], false), [""], r.lines);
    }
  }

  lemma WriteSeparatedOne(r: Record, first: bool)
    ensures WriteSeparated([r], first) == (if first then [] else [""]) + r.lines
    ensures [] + ((if first then [] else [""]) + r.lines) == (if first then [] else [""]) + r.lines
    ensures [] + (if first then [] else [""]) + r.lines == (if first then [] else [""]) + r.lines
  {
    assert [r][1..] == [];
    assert r.lines + [] == r.lines;
  }

  lemma Associate(a: seq<Line>, b: seq<Line>, c: seq<Line>, d: seq<Line>, e: seq<Line>)
    ensures a + (b + (c + d + e)) == (a + (b + c)) + d + e
  {
  }
}
