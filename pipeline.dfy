/**
 * `uniquify(data)`: sorts the walked paths by digest, lays out the report
 * rows for the sorted list, and returns one path per digest.
 *
 * `main` performs the same three steps on the paths found under the input
 * directory, with the report and the cleaning switched by its flags.
 */
module Pipeline {
  import opened Keys
  import opened KeySort
  import opened Cleaner
  import opened Report

  /**
   * On a non-empty list: one path is kept for each digest found, no two kept
   * paths share a digest, kept digests increase, and the path kept for a
   * digest is the first path with that digest in walk order. An empty list
   * ends in `IndexError` after the header-only report.
   */
  method Uniquify(data: seq<Path>, ikey: Path -> Digest)
    returns (placed: seq<Placement>, lastRow: int, unique: Result<seq<Path>>)
    ensures placed == Layout(SortByKey(data, ikey), ikey)
    ensures lastRow == FinalRow(SortByKey(data, ikey), ikey)
    ensures unique == IndexError <==> data == []
    ensures unique.Ok? ==> multiset(unique.value) <= multiset(data)
    ensures unique.Ok? ==> KeySet(unique.value, ikey) == KeySet(data, ikey)
    ensures unique.Ok? ==> KeysIncrease(unique.value, ikey)
    ensures unique.Ok? ==> |unique.value| == |KeySet(data, ikey)|
    ensures unique.Ok? ==> (|unique.value| == |data| <==> DistinctKeys(data, ikey))
    ensures unique.Ok? ==> forall j :: 0 <= j < |unique.value| ==>
      WithKey(data, ikey, ikey(unique.value[j])) != [] &&
      WithKey(data, ikey, ikey(unique.value[j]))[0] == unique.value[j]
  {
    var sloc := SortByKey(data, ikey);
    placed, lastRow := WriteRows(sloc, ikey);
    unique := SortedCleaner(sloc, ikey);
    if unique.Ok? {
      SortedKeepsFirstDiscovered(data, ikey);
    }
  }

  /** The properties above, stated of the specification functions. */
  lemma SortedKeepsFirstDiscovered(data: seq<Path>, ikey: Path -> Digest)
    ensures multiset(Cleaned(SortByKey(data, ikey), ikey)) <= multiset(data)
    ensures KeySet(Cleaned(SortByKey(data, ikey), ikey), ikey) == KeySet(data, ikey)
    ensures KeysIncrease(Cleaned(SortByKey(data, ikey), ikey), ikey)
    ensures |Cleaned(SortByKey(data, ikey), ikey)| == |KeySet(data, ikey)|
    ensures |Cleaned(SortByKey(data, ikey), ikey)| == |data| <==> DistinctKeys(data, ikey)
    ensures forall j :: 0 <= j < |Cleaned(SortByKey(data, ikey), ikey)| ==>
      var x := Cleaned(SortByKey(data, ikey), ikey)[j];
      WithKey(data, ikey, ikey(x)) != [] && WithKey(data, ikey, ikey(x))[0] == x
  {
    var t := SortByKey(data, ikey);
    var u := Cleaned(t, ikey);
    KeptIsSubMultiset(t, ikey, |t|);
    KeptKeySet(t, ikey, |t|);
    assert t[..|t|] == t;
    SortedKeySet(data, t, ikey);
    SortedCleanedKeysIncrease(t, ikey);
    SortedCleanedSize(t, ikey);
    KeySetSize(data, ikey);
    SortedCleanedKeepsFirstOfEachGroup(t, ikey);
    forall j | 0 <= j < |u|
      ensures WithKey(data, ikey, ikey(u[j])) != [] && WithKey(data, ikey, ikey(u[j]))[0] == u[j]
    {
      SortIsStable(data, ikey, ikey(u[j]));
    }
  }

  /** Sorting keeps the digests and the size of the list. */
  lemma SortedKeySet(data: seq<Path>, t: seq<Path>, ikey: Path -> Digest)
    requires multiset(t) == multiset(data)
    ensures KeySet(t, ikey) == KeySet(data, ikey)
    ensures |t| == |data|
  {
    assert forall x :: x in t <==> x in multiset(t);
    assert forall x :: x in data <==> x in multiset(data);
    assert |t| == |multiset(t)| == |multiset(data)| == |data|;
  }
}
