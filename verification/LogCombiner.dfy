/** process_tcontrollog.combinefiles: the k-way merge of the sorted files. */
module LogCombiner {
  import opened Wrappers
  import opened RecordOrder
  import opened LogSorter

  /** The records of all files, one file after the other. */
  ghost function Flatten(streams: seq<seq<Record>>): seq<Record> {
    if streams == [] then [] else streams[0] + Flatten(streams[1..])
  }

  ghost predicate AllSorted(streams: seq<seq<Record>>) {
    forall i :: 0 <= i < |streams| ==> Sorted(streams[i])
  }

  /** The stream whose next record is smallest, the leftmost one among equals; None when all are at their end. */
  function Smallest(streams: seq<seq<Record>>): (r: Option<nat>)
    ensures r.Some? ==> r.value < |streams| && streams[r.value] != []
    ensures r.None? <==> forall i :: 0 <= i < |streams| ==> streams[i] == []
  {
    if streams == [] then None
    else
      var n := |streams| - 1;
      var m := Smallest(streams[..n]);
      if streams[n] == [] then m
      else if m.None? then Some(n)
      else if Less(streams[n][0].key, streams[m.value][0].key) then Some(n) else m
  }

  lemma {:induction false} SmallestFacts(streams: seq<seq<Record>>)
    requires Smallest(streams).Some?
    ensures var s := Smallest(streams).value;
            && (forall t :: 0 <= t < |streams| && streams[t] != [] ==> LessEq(streams[s][0].key, streams[t][0].key))
            && (forall t :: 0 <= t < s && streams[t] != [] ==> Less(streams[s][0].key, streams[t][0].key))
  {
    var n, s := |streams| - 1, Smallest(streams).value;
    var front := streams[..n];
    var m := Smallest(front);
    if m.Some? {
      SmallestFacts(front);
      if streams[n] != [] {
        LessEqTotal(streams[n][0].key, front[m.value][0].key);
        if s == n {
          forall t | 0 <= t < n && streams[t] != []
            ensures Less(streams[n][0].key, streams[t][0].key) && LessEq(streams[n][0].key, streams[t][0].key)
          {
            assert front[t] == streams[t];
            LessThenLessEq(streams[n][0].key, front[m.value][0].key, front[t][0].key);
            LessEqTotal(streams[n][0].key, streams[t][0].key);
          }
        }
        LessEqTotal(streams[n][0].key, streams[n][0].key);
      }
    } else {
      LessEqTotal(streams[n][0].key, streams[n][0].key);
      assert forall t :: 0 <= t < n ==> streams[t] == front[t] == [];
    }
    assert forall t :: 0 <= t < n ==> streams[t] == front[t];
  }

  lemma {:induction false} FlattenUpdate(streams: seq<seq<Record>>, s: nat)
    returns (before: seq<Record>, after: seq<Record>)
    requires s < |streams| && streams[s] != []
    ensures Flatten(streams) == before + ([streams[s][0]] + after)
    ensures Flatten(streams[s := streams[s][1..]]) == before + after
    ensures forall x :: x in before ==> exists t :: 0 <= t < s && x in streams[t]
  {
    var updated := streams[s := streams[s][1..]];
    if s == 0 {
      before, after := [], streams[0][1..] + Flatten(streams[1..]);
      assert streams[0] == [streams[0][0]] + streams[0][1..];
      assert updated[1..] == streams[1..];
    } else {
      var b, a := FlattenUpdate(streams[1..], s - 1);
      before, after := streams[0] + b, a;
      assert updated[1..] == streams[1..][s - 1 := streams[s][1..]];
      forall x | x in before ensures exists t :: 0 <= t < s && x in streams[t] {
        if x !in streams[0] {
          var t :| 0 <= t < s - 1 && x in streams[1..][t];
          assert x in streams[t + 1];
        }
      }
    }
  }

  lemma {:induction false} FlattenMembers(streams: seq<seq<Record>>, x: Record)
    ensures x in Flatten(streams) <==> exists t :: 0 <= t < |streams| && x in streams[t]
  {
    if streams != [] {
      FlattenMembers(streams[1..], x);
      if t :| 0 <= t < |streams| && x in streams[t] {
        if t > 0 { assert x in streams[1..][t - 1]; }
      }
      if t :| 0 <= t < |streams[1..]| && x in streams[1..][t] {
        assert x in streams[t + 1];
      }
    }
  }

  /** The merged file. */
  ghost function Combine(streams: seq<seq<Record>>): seq<Record>
    decreases |Flatten(streams)|
  {
    var s := Smallest(streams);
    if s.None? then []
    else
      var rest := streams[s.value := streams[s.value][1..]];
      CombineShrinks(streams, s.value);
      [streams[s.value][0]] + Combine(rest)
  }

  lemma CombineShrinks(streams: seq<seq<Record>>, s: nat)
    requires s < |streams| && streams[s] != []
    ensures |Flatten(streams[s := streams[s][1..]])| < |Flatten(streams)|
  {
    var before, after := FlattenUpdate(streams, s);
  }

  lemma {:induction false} AllEmpty(streams: seq<seq<Record>>)
    requires forall i :: 0 <= i < |streams| ==> streams[i] == []
    ensures Flatten(streams) == []
  {
    if streams != [] { AllEmpty(streams[1..]); }
  }

  lemma {:induction false} CombineMembers(streams: seq<seq<Record>>)
    ensures multiset(Combine(streams)) == multiset(Flatten(streams))
    decreases |Flatten(streams)|
  {
    var s := Smallest(streams);
    if s.None? {
      AllEmpty(streams);
    } else {
      var before, after := FlattenUpdate(streams, s.value);
      CombineMembers(streams[s.value := streams[s.value][1..]]);
    }
  }

  /** In sorted streams the record that is written is at most every record left. */
  lemma SmallestAtMost(streams: seq<seq<Record>>, s: nat)
    requires Smallest(streams) == Some(s) && AllSorted(streams)
    ensures AtMost(streams[s][0], Flatten(streams))
    ensures forall t, x :: 0 <= t < s && x in streams[t] ==> Less(streams[s][0].key, x.key)
  {
    SmallestFacts(streams);
    var r := streams[s][0];
    forall t, x | 0 <= t < |streams| && x in streams[t] ensures LessEq(r.key, x.key) && (t < s ==> Less(r.key, x.key)) {
      LessEqTotal(streams[t][0].key, streams[t][0].key);
      AtMostSorted(streams[t][0], streams[t]);
      LessEqTransitive(r.key, streams[t][0].key, x.key);
      if t < s { LessThenLessEq(r.key, streams[t][0].key, x.key); }
    }
    forall x | x in Flatten(streams) ensures LessEq(r.key, x.key) {
      FlattenMembers(streams, x);
    }
  }

  lemma PopSorted(streams: seq<seq<Record>>, s: nat)
    requires s < |streams| && streams[s] != []
    ensures AllSorted(streams) <==>
            AllSorted(streams[s := streams[s][1..]]) && AtMost(streams[s][0], streams[s][1..])
  {
    var rest := streams[s := streams[s][1..]];
    SortedCons(streams[s][0], streams[s][1..]);
    assert streams[s] == [streams[s][0]] + streams[s][1..];
    assert forall i :: 0 <= i < |streams| && i != s ==> rest[i] == streams[i];
    assert rest[s] == streams[s][1..];
  }

  /** The merged file is sorted exactly when every file is. */
  lemma {:induction false} CombineSorted(streams: seq<seq<Record>>)
    ensures Sorted(Combine(streams)) <==> AllSorted(streams)
    decreases |Flatten(streams)|
  {
    var s := Smallest(streams);
    if s.Some? {
      var r, rest := streams[s.value][0], streams[s.value := streams[s.value][1..]];
      CombineShrinks(streams, s.value);
      CombineSorted(rest);
      CombineMembers(rest);
      SortedCons(r, Combine(rest));
      PopSorted(streams, s.value);
      assert forall x :: x in Combine(rest) <==> x in multiset(Flatten(rest));
      var before, after := FlattenUpdate(streams, s.value);
      if AllSorted(streams) {
        SmallestAtMost(streams, s.value);
        assert forall x :: x in Flatten(rest) ==> x in Flatten(streams);
      }
      if Sorted(Combine(streams)) {
        forall x | x in streams[s.value][1..] ensures LessEq(r.key, x.key) {
          assert x in rest[s.value];
          FlattenMembers(rest, x);
        }
      }
    }
  }

  /** Records with equal keys come out file by file, each file's in their order. */
  lemma {:induction false} CombineStable(streams: seq<seq<Record>>, k: Key)
    requires AllSorted(streams)
    ensures WithKey(Combine(streams), k) == WithKey(Flatten(streams), k)
    decreases |Flatten(streams)|
  {
    var s := Smallest(streams);
    if s.None? {
      AllEmpty(streams);
    } else {
      var r, rest := streams[s.value][0], streams[s.value := streams[s.value][1..]];
      CombineShrinks(streams, s.value);
      PopSorted(streams, s.value);
      CombineStable(rest, k);
      var before, after := FlattenUpdate(streams, s.value);
      NoneBefore(streams, s.value, before);
      PopStable(before, after, r, Combine(rest), k);
    }
  }

  /** Taking a record out from behind records with other keys and putting it first keeps the order of equal keys. */
  lemma PopStable(before: seq<Record>, after: seq<Record>, r: Record, merged: seq<Record>, k: Key)
    requires WithKey(merged, k) == WithKey(before + after, k)
    requires forall x :: x in before ==> x.key != r.key
    ensures WithKey([r] + merged, k) == WithKey(before + ([r] + after), k)
  {
    hide WithKey;
    WithKeyConcat(before, [r] + after, k);
    WithKeyConcat([r], after, k);
    WithKeyConcat(before, after, k);
    WithKeyConcat([r], merged, k);
    WithKeyOne(r, k);
    if r.key == k {
      WithKeyNone(before, k);
    }
  }

  /** The files before the one with the smallest record have no record with its key. */
  lemma NoneBefore(streams: seq<seq<Record>>, s: nat, before: seq<Record>)
    requires Smallest(streams) == Some(s) && AllSorted(streams)
    requires forall x :: x in before ==> exists t :: 0 <= t < s && x in streams[t]
    ensures forall x :: x in before ==> x.key != streams[s][0].key
  {
    SmallestAtMost(streams, s);
    forall x | x in before ensures x.key != streams[s][0].key {
      var t :| 0 <= t < s && x in streams[t];
      LessEqTotal(streams[s][0].key, x.key);
    }
  }

  /** The inner loop of combinefiles: the first of the streams whose next record is smallest. */
  method FindSmallest(instreams: seq<seq<Record>>) returns (smaller: Option<nat>)
    ensures smaller == Smallest(instreams)
  {
    smaller := None;
    for i := 0 to |instreams|
      invariant smaller == Smallest(instreams[..i])
    {
      assert instreams[..i + 1][..i] == instreams[..i];
      if instreams[i] == [] {
        continue;
      } else if smaller.None? {
        smaller := Some(i);
      } else if Less(instreams[i][0].key, instreams[smaller.value][0].key) {
        smaller := Some(i);
      }
    }
    assert instreams[..|instreams|] == instreams;
  }

  /** combinefiles; it reads the parameter infiles where the code names an undefined variable. */
  method CombineFiles(infiles: seq<seq<Record>>) returns (out: seq<Record>)
    ensures out == Combine(infiles)
    ensures multiset(out) == multiset(Flatten(infiles))
    ensures Sorted(out) <==> AllSorted(infiles)
    ensures AllSorted(infiles) ==> out == SortByKey(Flatten(infiles))
  {
    var instreams := infiles;
    out := [];
    while true
      invariant out + Combine(instreams) == Combine(infiles)
      decreases |Flatten(instreams)|
    {
      var smaller := FindSmallest(instreams);
      if smaller.None? {
        break;
      }
      var s := smaller.value;
      CombineShrinks(instreams, s);
      Shift(out, instreams[s][0], Combine(instreams[s := instreams[s][1..]]));
      out := out + [instreams[s][0]];
      instreams := instreams[s := instreams[s][1..]];
    }
    assert out == Combine(infiles);
    CombineIsSort(infiles);
  }

  /** The merge of sorted files is the stable sort of all their records. */
  lemma CombineIsSort(infiles: seq<seq<Record>>)
    ensures multiset(Combine(infiles)) == multiset(Flatten(infiles))
    ensures Sorted(Combine(infiles)) <==> AllSorted(infiles)
    ensures AllSorted(infiles) ==> Combine(infiles) == SortByKey(Flatten(infiles))
  {
    CombineMembers(infiles);
    CombineSorted(infiles);
    if AllSorted(infiles) {
      SortFacts(Flatten(infiles));
      forall k ensures WithKey(Combine(infiles), k) == WithKey(SortByKey(Flatten(infiles)), k) {
        CombineStable(infiles, k);
      }
      StableSortUnique(Combine(infiles), SortByKey(Flatten(infiles)));
    }
  }
}
