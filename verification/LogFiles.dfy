/** sortfiledata from the lines of the input file to the lines of the output file. */
module LogFiles {
  import opened Wrappers
  import opened RecordOrder
  import opened RecordFiles
  import opened LogSorter
  import opened SorterLimits
  import opened SorterBacklog

  /** Reads all records of a file; None when one of them cannot be parsed. */
  method ReadFile(lines: seq<Line>, parse: Parser) returns (records: Option<seq<Record>>)
    ensures records == ReadAll(lines, parse)
  {
    var rest := lines;
    var done: seq<Record> := [];
    assert ReadAll(lines, parse).Some? ==> [] + ReadAll(lines, parse).value == ReadAll(lines, parse).value;
    while true
      invariant ReadAll(lines, parse) ==
                if ReadAll(rest, parse).Some? then Some(done + ReadAll(rest, parse).value) else None
      decreases |rest|
    {
      var before := rest;
      var r: ReadResult;
      r, rest := ReadRecord(rest, parse);
      if r == EndOfFile {
        assert done + [] == done;
        return Some(done);
      } else if r == ParseError {
        return None;
      }
      if ReadAll(rest, parse).Some? {
        assert done + ([r.record] + ReadAll(rest, parse).value) == (done + [r.record]) + ReadAll(rest, parse).value;
      }
      done := done + [r.record];
    }
  }

  /** Both outputs of the first pass hold records of the input only. */
  lemma FirstPassMembers(input: seq<Record>, b: nat, w: nat, x: Record)
    requires 1 <= w <= b
    requires x in FirstPassOf(input, b, w).out || x in FirstPassOf(input, b, w).misordered
    ensures x in input
  {
    var s := FirstPassOf(input, b, w);
    FirstPassFacts(input, b, w);
    assert WithKey(s.out, x.key) + WithKey(s.misordered, x.key) + WithKey([], x.key) == WithKey(input, x.key);
    WithKeyMembers(s.out, x.key);
    WithKeyMembers(s.misordered, x.key);
    WithKeyMembers(input, x.key);
    assert x in WithKey(s.out, x.key) + WithKey(s.misordered, x.key);
  }

  lemma SortFileMembers(input: seq<Record>, b: nat, w: nat, x: Record)
    requires 1 <= w <= b && x in SortFileOf(input, b, w)
    ensures x in input
  {
    SortFileFacts(input, b, w);
    StableIsPermutation(SortFileOf(input, b, w), input);
    assert x in multiset(input);
  }

  /** Whatever the first pass and the merge write can be read back unchanged. */
  lemma FilesReadBack(lines: seq<Line>, parse: Parser, b: nat, w: nat)
    requires 1 <= w <= b && ReadAll(lines, parse).Some?
    ensures var input := ReadAll(lines, parse).value;
            var s := FirstPassOf(input, b, w);
            && ReadAll(WriteSeparated(s.out, true), parse) == Some(s.out)
            && ReadAll(WriteMisordered(s.misordered), parse) == Some(s.misordered)
            && ReadAll(WriteSeparated(SortFileOf(input, b, w), true), parse) == Some(SortFileOf(input, b, w))
  {
    var input := ReadAll(lines, parse).value;
    var s := FirstPassOf(input, b, w);
    ReadsRecords(lines, parse);
    hide FirstPassOf, SortFileOf, IsRecord, ReadAll;
    forall x | x in s.out || x in s.misordered ensures IsRecord(x, parse) {
      FirstPassMembers(input, b, w, x);
    }
    forall x | x in SortFileOf(input, b, w) ensures IsRecord(x, parse) {
      SortFileMembers(input, b, w, x);
    }
    ReadSeparated(s.out, true, parse);
    ReadMisordered(s.misordered, parse);
    ReadSeparated(SortFileOf(input, b, w), true, parse);
  }

  /**
   * sortfiledata: the first pass writes two files, which the merge pass reads back. The file that is left
   * reads as what sortfiledata makes of the records of the input file; None is an exception on a record
   * that cannot be parsed.
   */
  method SortFile(infile: seq<Line>, parse: Parser, buffersize: nat, writebatchsize: nat)
    returns (outfile: Option<seq<Line>>)
    requires 1 <= writebatchsize <= buffersize
    ensures outfile.None? <==> ReadAll(infile, parse).None?
    ensures outfile.Some? ==>
              var sorted := SortFileOf(ReadAll(infile, parse).value, buffersize, writebatchsize);
              outfile.value == WriteSeparated(sorted, true) && ReadAll(outfile.value, parse) == Some(sorted)
  {
    var input := ReadFile(infile, parse);
    if input.None? {
      return None;
    }
    FilesReadBack(infile, parse, buffersize, writebatchsize);
    hide ReadAll, WriteSeparated, WriteMisordered, FirstPassOf;
    var s := FirstPass(input.value, buffersize, writebatchsize);
    var tmpoutfile, misorderedfile := WriteSeparated(s.out, true), WriteMisordered(s.misordered);
    if s.misordered == [] {
      return Some(tmpoutfile);
    }
    var main := ReadFile(tmpoutfile, parse);
    var misordered := ReadFile(misorderedfile, parse);
    var merged := MergePass(main.value, misordered.value);
    outfile := Some(WriteSeparated(merged, true));
  }

  /** The output file reads as the sorted input records exactly when the misordered records come in key order. */
  lemma SortedFile(infile: seq<Line>, parse: Parser, b: nat, w: nat)
    requires 1 <= w <= b && ReadAll(infile, parse).Some?
    ensures var input := ReadAll(infile, parse).value;
            ReadAll(WriteSeparated(SortFileOf(input, b, w), true), parse) == Some(SortByKey(input)) <==>
            Sorted(FirstPassOf(input, b, w).misordered)
  {
    FilesReadBack(infile, parse, b, w);
    SortFileFacts(ReadAll(infile, parse).value, b, w);
  }

  /** The same condition on the keys of the input records alone. */
  lemma SortedFileByKeys(infile: seq<Line>, parse: Parser, b: nat, w: nat)
    requires 1 <= w <= b && ReadAll(infile, parse).Some?
    ensures var input := ReadAll(infile, parse).value;
            ReadAll(WriteSeparated(SortFileOf(input, b, w), true), parse) == Some(SortByKey(input)) <==>
            !exists i, j, l :: OvertakesByKeys(input, i, j, b, w) && OvertakesByKeys(input, j, l, b, w)
  {
    hide ReadAll, SortFileOf, SortByKey, OvertakesByKeys;
    FilesReadBack(infile, parse, b, w);
    SortedByKeys(ReadAll(infile, parse).value, b, w);
  }

  /**
   * For all sizes and any three records that can be read and have different keys there is a log file that
   * sortfiledata leaves unsorted.
   */
  lemma SortedFileCanFail(x: Record, y: Record, z: Record, parse: Parser, b: nat, w: nat)
    requires 1 <= w <= b && Less(x.key, y.key) && Less(y.key, z.key)
    requires IsRecord(x, parse) && IsRecord(y, parse) && IsRecord(z, parse)
    ensures var input := UnsortedInput(x, y, z, b, w);
            var infile := WriteSeparated(input, true);
            && ReadAll(infile, parse) == Some(input)
            && ReadAll(WriteSeparated(SortFileOf(input, b, w), true), parse) == Some(SortFileOf(input, b, w))
            && SortFileOf(input, b, w) != SortByKey(input)
  {
    var input := UnsortedInput(x, y, z, b, w);
    hide IsRecord, ReadAll, SortFileOf, SortByKey, FirstPassOf;
    ReadSeparated(input, true, parse);
    FilesReadBack(WriteSeparated(input, true), parse, b, w);
    SortCanFail(x, y, z, b, w);
  }

  /** The distance bound is the best possible for log files as well: a file with a misordered record at the next one. */
  lemma FileDistanceIsTight(x: Record, y: Record, z: Record, parse: Parser, b: nat, w: nat)
    requires 1 <= w <= b && Less(x.key, y.key) && Less(y.key, z.key)
    requires IsRecord(x, parse) && IsRecord(y, parse) && IsRecord(z, parse)
    ensures var input := TightInput(x, y, z, b, w);
            && ReadAll(WriteSeparated(input, true), parse) == Some(input)
            && OrderedAtDistance(input, b - w + 2) && FirstPassOf(input, b, w).misordered == [y]
  {
    hide IsRecord, ReadAll, FirstPassOf, OrderedAtDistance;
    ReadSeparated(TightInput(x, y, z, b, w), true, parse);
    DistanceIsTight(x, y, z, b, w);
  }
}
