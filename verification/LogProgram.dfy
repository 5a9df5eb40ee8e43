/** The program process_tcontrollog: every file is sorted, and the sorted files are combined. */
module LogProgram {
  import opened Wrappers
  import opened RecordOrder
  import opened RecordFiles
  import opened LogSorter
  import opened SorterBacklog
  import opened LogFiles
  import opened LogCombiner

  /** A record that has been overtaken overtakes another. */
  ghost predicate HasFault(input: seq<Record>, b: nat, w: nat)
    requires 1 <= w <= b
  {
    exists i, j, l :: OvertakesByKeys(input, i, j, b, w) && OvertakesByKeys(input, j, l, b, w)
  }

  ghost function SortedFiles(inputs: seq<seq<Record>>, b: nat, w: nat): (r: seq<seq<Record>>)
    requires 1 <= w <= b
    ensures |r| == |inputs| && forall i :: 0 <= i < |inputs| ==> r[i] == SortFileOf(inputs[i], b, w)
  {
    seq(|inputs|, i requires 0 <= i < |inputs| => SortFileOf(inputs[i], b, w))
  }

  // ----- On records -----

  lemma {:induction false} FlattenStable(a: seq<seq<Record>>, b: seq<seq<Record>>)
    requires |a| == |b| && forall i :: 0 <= i < |a| ==> StablePermutation(a[i], b[i])
    ensures StablePermutation(Flatten(a), Flatten(b))
    decreases |a|
  {
    if a != [] {
      FlattenStable(a[1..], b[1..]);
      assert StablePermutation(a[0], b[0]);
      hide Flatten, WithKey;
      forall k ensures WithKey(a[0] + Flatten(a[1..]), k) == WithKey(b[0] + Flatten(b[1..]), k) {
        WithKeyConcat(a[0], Flatten(a[1..]), k);
        WithKeyConcat(b[0], Flatten(b[1..]), k);
      }
      FirstFile(a);
      FirstFile(b);
    }
  }

  lemma FirstFile(a: seq<seq<Record>>)
    requires a != []
    ensures Flatten(a) == a[0] + Flatten(a[1..])
  {
  }

  lemma SameSort(a: seq<Record>, b: seq<Record>)
    requires StablePermutation(a, b)
    ensures SortByKey(a) == SortByKey(b)
  {
    SortFacts(a);
    SortFacts(b);
    StableSortUnique(SortByKey(a), SortByKey(b));
  }

  /** The combined file is the stable sort of all records exactly when no input file has a fault. */
  lemma CombinedExactly(inputs: seq<seq<Record>>, b: nat, w: nat)
    requires 1 <= w <= b
    ensures Sorted(Combine(SortedFiles(inputs, b, w))) <==> forall i :: 0 <= i < |inputs| ==> !HasFault(inputs[i], b, w)
    ensures Combine(SortedFiles(inputs, b, w)) == SortByKey(Flatten(inputs)) <==>
            forall i :: 0 <= i < |inputs| ==> !HasFault(inputs[i], b, w)
    ensures multiset(Combine(SortedFiles(inputs, b, w))) == multiset(Flatten(inputs))
  {
    var files := SortedFiles(inputs, b, w);
    hide SortFileOf, Combine, Flatten, SortByKey, WithKey, OvertakesByKeys, Sorted, FirstPassOf;
    forall i | 0 <= i < |inputs|
      ensures StablePermutation(files[i], inputs[i]) && (Sorted(files[i]) <==> !HasFault(inputs[i], b, w))
    {
      SortFileFacts(inputs[i], b, w);
      SortedByKeys(inputs[i], b, w);
    }
    CombineIsSort(files);
    FlattenStable(files, inputs);
    StableIsPermutation(Flatten(files), Flatten(inputs));
    SameSort(Flatten(files), Flatten(inputs));
    SortFacts(Flatten(inputs));
  }

  // ----- On lines -----

  ghost predicate AllReadable(infiles: seq<seq<Line>>, parse: Parser) {
    forall i :: 0 <= i < |infiles| ==> ReadAll(infiles[i], parse).Some?
  }

  ghost function Inputs(infiles: seq<seq<Line>>, parse: Parser): (r: seq<seq<Record>>)
    requires AllReadable(infiles, parse)
    ensures |r| == |infiles| && forall i :: 0 <= i < |infiles| ==> ReadAll(infiles[i], parse) == Some(r[i])
  {
    seq(|infiles|, i requires 0 <= i < |infiles| => ReadAll(infiles[i], parse).value)
  }

  /** The records of all files that are written can be read again. */
  lemma CombinedReadsBack(infiles: seq<seq<Line>>, parse: Parser, b: nat, w: nat)
    requires 1 <= w <= b && AllReadable(infiles, parse)
    ensures var combined := Combine(SortedFiles(Inputs(infiles, parse), b, w));
            ReadAll(WriteSeparated(combined, true), parse) == Some(combined)
  {
    var inputs := Inputs(infiles, parse);
    var combined := Combine(SortedFiles(inputs, b, w));
    CombinedExactly(inputs, b, w);
    hide Combine, SortFileOf, Flatten, ReadAll, IsRecord, HasFault, SortByKey;
    forall x | x in combined ensures IsRecord(x, parse) {
      assert x in multiset(combined);
      FlattenMembers(inputs, x);
      var t :| 0 <= t < |inputs| && x in inputs[t];
      ReadsRecords(infiles[t], parse);
    }
    ReadSeparated(combined, true, parse);
  }

  /**
   * Sorts every file, stops at the first one that cannot be read, and combines what has been sorted. The
   * combined file reads as the stable sort of the records of all files exactly when no file has a fault.
   */
  method SortAndCombine(infiles: seq<seq<Line>>, parse: Parser, buffersize: nat, writebatchsize: nat)
    returns (combined: Option<seq<Line>>)
    requires 1 <= writebatchsize <= buffersize
    ensures combined.Some? <==> AllReadable(infiles, parse)
    ensures combined.Some? ==>
              var inputs := Inputs(infiles, parse);
              && ReadAll(combined.value, parse) == Some(Combine(SortedFiles(inputs, buffersize, writebatchsize)))
              && (ReadAll(combined.value, parse) == Some(SortByKey(Flatten(inputs))) <==>
                  forall i :: 0 <= i < |inputs| ==> !HasFault(inputs[i], buffersize, writebatchsize))
  {
    hide ReadAll, SortFileOf, Combine, Flatten, SortByKey, HasFault, WriteSeparated;
    var sorted: seq<seq<Record>> := [];
    for i := 0 to |infiles|
      invariant |sorted| == i
      invariant forall k :: 0 <= k < i ==>
                  && ReadAll(infiles[k], parse).Some?
                  && sorted[k] == SortFileOf(ReadAll(infiles[k], parse).value, buffersize, writebatchsize)
    {
      var outfile := SortFile(infiles[i], parse, buffersize, writebatchsize);
      if outfile.None? {
        return None;
      }
      var records := ReadFile(outfile.value, parse);
      sorted := sorted + [records.value];
    }
    assert sorted == SortedFiles(Inputs(infiles, parse), buffersize, writebatchsize);
    var out := CombineFiles(sorted);
    CombinedReadsBack(infiles, parse, buffersize, writebatchsize);
    CombinedExactly(Inputs(infiles, parse), buffersize, writebatchsize);
    combined := Some(WriteSeparated(out, true));
  }
}
