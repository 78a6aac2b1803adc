/**
 * `sorted_cleaner`: keeps the first path and every later path whose digest
 * differs from the digest of the path just before it.
 *
 * `Kept(s, ikey, n)` is what the loop has collected after looking at the
 * first `n` paths; the method is proved to return `Kept(s, ikey, |s|)`, and
 * the lemmas below say what that sequence is.
 */
module Cleaner {
  import opened Keys
  import opened KeySort

  /** The outcome of `sorted_cleaner`: the kept paths, or the `IndexError` raised on an empty list. */
  datatype Result<T> = Ok(value: T) | IndexError

  /** Position `i` starts a run of equal digests: it is the first position, or its digest differs from its predecessor's. */
  predicate IsBoundary(s: seq<Path>, ikey: Path -> Digest, i: nat)
    requires i < |s|
  {
    i == 0 || ikey(s[i - 1]) != ikey(s[i])
  }

  /** The number of positions `i` with `1 <= i < n` whose digest differs from that of `i - 1`. */
  function CountBoundaries(s: seq<Path>, ikey: Path -> Digest, n: nat): nat
    requires n <= |s|
  {
    if n <= 1 then 0
    else CountBoundaries(s, ikey, n - 1) + (if ikey(s[n - 2]) != ikey(s[n - 1]) then 1 else 0)
  }

  /** The paths kept from the first `n` positions of `s`. */
  function Kept(s: seq<Path>, ikey: Path -> Digest, n: nat): seq<Path>
    requires n <= |s|
  {
    if n == 0 then []
    else Kept(s, ikey, n - 1) + (if IsBoundary(s, ikey, n - 1) then [s[n - 1]] else [])
  }

  /** The positions kept from the first `n` positions of `s`, in increasing order. */
  function KeptPositions(s: seq<Path>, ikey: Path -> Digest, n: nat): seq<nat>
    requires n <= |s|
  {
    if n == 0 then []
    else KeptPositions(s, ikey, n - 1) + (if IsBoundary(s, ikey, n - 1) then [n - 1] else [])
  }

  /** What `sorted_cleaner` returns for a non-empty list. */
  function Cleaned(s: seq<Path>, ikey: Path -> Digest): seq<Path>
  {
    Kept(s, ikey, |s|)
  }

  /** No two neighbours share a digest. */
  predicate AdjacentDistinct(s: seq<Path>, ikey: Path -> Digest)
  {
    forall i :: 1 <= i < |s| ==> ikey(s[i - 1]) != ikey(s[i])
  }

  /** Digests strictly increase from left to right. */
  predicate KeysIncrease(s: seq<Path>, ikey: Path -> Digest)
  {
    forall i, j :: 0 <= i < j < |s| ==> LexLt(ikey(s[i]), ikey(s[j]))
  }

  /**
   * `sorted_cleaner(sorted_data)`. An empty list fails at `sorted_data[0]`
   * before the loop; otherwise the first path is kept, the result never
   * grows beyond the input, and it equals `Cleaned`.
   */
  method SortedCleaner(sortedData: seq<Path>, ikey: Path -> Digest) returns (r: Result<seq<Path>>)
    ensures r == IndexError <==> sortedData == []
    ensures r.Ok? ==> r.value == Cleaned(sortedData, ikey)
    ensures r.Ok? ==> 1 <= |r.value| <= |sortedData| && r.value[0] == sortedData[0]
  {
    if |sortedData| == 0 {
      return IndexError;
    }
    var unique := [sortedData[0]];
    for i := 1 to |sortedData|
      invariant unique == Kept(sortedData, ikey, i)
    {
      if ikey(sortedData[i - 1]) != ikey(sortedData[i]) {
        unique := unique + [sortedData[i]];
      }
    }
    KeptLength(sortedData, ikey, |sortedData|);
    KeptStartsWithFirst(sortedData, ikey, |sortedData|);
    r := Ok(unique);
  }

  /** One path is kept per run: the first, plus one per digest change. */
  lemma {:induction false} KeptLength(s: seq<Path>, ikey: Path -> Digest, n: nat)
    requires 1 <= n <= |s|
    ensures |Kept(s, ikey, n)| == 1 + CountBoundaries(s, ikey, n)
    ensures CountBoundaries(s, ikey, n) <= n - 1
  {
    if n > 1 {
      KeptLength(s, ikey, n - 1);
    }
  }

  lemma {:induction false} KeptStartsWithFirst(s: seq<Path>, ikey: Path -> Digest, n: nat)
    requires 1 <= n <= |s|
    ensures |Kept(s, ikey, n)| >= 1 && Kept(s, ikey, n)[0] == s[0]
  {
    if n > 1 {
      KeptStartsWithFirst(s, ikey, n - 1);
    }
  }

  /**
   * The kept paths are the paths at the kept positions; those positions
   * increase, and position `i` is kept exactly when it starts a run.
   */
  lemma {:induction false} KeptSelects(s: seq<Path>, ikey: Path -> Digest, n: nat)
    requires n <= |s|
    ensures |KeptPositions(s, ikey, n)| == |Kept(s, ikey, n)|
    ensures forall j :: 0 <= j < |Kept(s, ikey, n)| ==>
      KeptPositions(s, ikey, n)[j] < n && Kept(s, ikey, n)[j] == s[KeptPositions(s, ikey, n)[j]]
    ensures forall j, k :: 0 <= j < k < |KeptPositions(s, ikey, n)| ==>
      KeptPositions(s, ikey, n)[j] < KeptPositions(s, ikey, n)[k]
    ensures forall i :: 0 <= i < n ==> (i in KeptPositions(s, ikey, n) <==> IsBoundary(s, ikey, i))
  {
    if n > 0 {
      KeptSelects(s, ikey, n - 1);
    }
  }

  /** The kept paths form a sub-multiset of the input. */
  lemma {:induction false} KeptIsSubMultiset(s: seq<Path>, ikey: Path -> Digest, n: nat)
    requires n <= |s|
    ensures multiset(Kept(s, ikey, n)) <= multiset(s[..n])
  {
    if n > 0 {
      var prev, last := Kept(s, ikey, n - 1), s[n - 1];
      var tail := if IsBoundary(s, ikey, n - 1) then [last] else [];
      KeptIsSubMultiset(s, ikey, n - 1);
      assert Kept(s, ikey, n) == prev + tail;
      PrefixExtends(s, n);
      SubMultisetAppend(prev, s[..n - 1], tail, [last]);
    }
  }

  /** A prefix one longer is the shorter prefix plus the next path. */
  lemma PrefixExtends(s: seq<Path>, n: nat)
    requires 0 < n <= |s|
    ensures s[..n] == s[..n - 1] + [s[n - 1]]
  {
  }

  /** Appending a sub-multiset to a sub-multiset gives a sub-multiset. */
  lemma SubMultisetAppend(a: seq<Path>, b: seq<Path>, c: seq<Path>, d: seq<Path>)
    requires multiset(a) <= multiset(b) && multiset(c) <= multiset(d)
    ensures multiset(a + c) <= multiset(b + d)
  {
    assert multiset(a + c) == multiset(a) + multiset(c);
    assert multiset(b + d) == multiset(b) + multiset(d);
  }

  /** The last kept path has the digest of the last path looked at. */
  lemma {:induction false} KeptLastKey(s: seq<Path>, ikey: Path -> Digest, n: nat)
    requires 1 <= n <= |s|
    ensures Kept(s, ikey, n) != []
    ensures ikey(Kept(s, ikey, n)[|Kept(s, ikey, n)| - 1]) == ikey(s[n - 1])
  {
    if n > 1 {
      KeptLastKey(s, ikey, n - 1);
    }
  }

  /** Kept paths never share a digest with their neighbour, whatever the input order. */
  lemma {:induction false} KeptAdjacentDistinct(s: seq<Path>, ikey: Path -> Digest, n: nat)
    requires n <= |s|
    ensures AdjacentDistinct(Kept(s, ikey, n), ikey)
  {
    if n > 1 {
      KeptAdjacentDistinct(s, ikey, n - 1);
      KeptLastKey(s, ikey, n - 1);
    }
  }

  /** Every digest of the input survives, and no other. */
  lemma {:induction false} KeptKeySet(s: seq<Path>, ikey: Path -> Digest, n: nat)
    requires n <= |s|
    ensures KeySet(Kept(s, ikey, n), ikey) == KeySet(s[..n], ikey)
  {
    if n > 0 {
      var prev := Kept(s, ikey, n - 1);
      KeptKeySet(s, ikey, n - 1);
      assert s[..n] == s[..n - 1] + [s[n - 1]];
      KeySetAppend(s[..n - 1], [s[n - 1]], ikey);
      assert KeySet([s[n - 1]], ikey) == {ikey(s[n - 1])};
      if IsBoundary(s, ikey, n - 1) {
        KeySetAppend(prev, [s[n - 1]], ikey);
      } else {
        KeptLastKey(s, ikey, n - 1);
        assert prev[|prev| - 1] in prev;
      }
    }
  }

  /** A list whose neighbours all differ in digest comes back unchanged. */
  lemma {:induction false} CleanedFixesAdjacentDistinct(s: seq<Path>, ikey: Path -> Digest, n: nat)
    requires n <= |s|
    requires AdjacentDistinct(s, ikey)
    ensures Kept(s, ikey, n) == s[..n]
  {
    if n > 0 {
      CleanedFixesAdjacentDistinct(s, ikey, n - 1);
      assert s[..n] == s[..n - 1] + [s[n - 1]];
    }
  }

  /** Running the uniquifier on its own output changes nothing. */
  lemma CleanedIdempotent(s: seq<Path>, ikey: Path -> Digest)
    ensures Cleaned(Cleaned(s, ikey), ikey) == Cleaned(s, ikey)
  {
    var u := Cleaned(s, ikey);
    KeptAdjacentDistinct(s, ikey, |s|);
    CleanedFixesAdjacentDistinct(u, ikey, |u|);
    assert u[..|u|] == u;
  }

  /** Exactly one path per digest change is dropped, and nothing is dropped when neighbours all differ. */
  lemma {:induction false} CountBoundariesFull(s: seq<Path>, ikey: Path -> Digest, n: nat)
    requires 1 <= n <= |s|
    ensures CountBoundaries(s, ikey, n) == n - 1
        <==> forall i :: 1 <= i < n ==> ikey(s[i - 1]) != ikey(s[i])
  {
    if n > 1 {
      CountBoundariesFull(s, ikey, n - 1);
      KeptLength(s, ikey, n - 1);
    }
  }

  /** Nothing is removed exactly when no two neighbours share a digest. */
  lemma CleanedKeepsAllIff(s: seq<Path>, ikey: Path -> Digest)
    requires s != []
    ensures |Cleaned(s, ikey)| == |s| <==> AdjacentDistinct(s, ikey)
  {
    KeptLength(s, ikey, |s|);
    CountBoundariesFull(s, ikey, |s|);
  }

  /**
   * In a digest-sorted list, a position starts a run exactly when no earlier
   * path has its digest: each run is the whole group of that digest.
   */
  lemma SortedBoundaryIsFirstOfGroup(s: seq<Path>, ikey: Path -> Digest, i: nat)
    requires KeySorted(s, ikey)
    requires i < |s|
    ensures IsBoundary(s, ikey, i) <==> forall k :: 0 <= k < i ==> ikey(s[k]) != ikey(s[i])
  {
    if IsBoundary(s, ikey, i) {
      forall k | 0 <= k < i ensures ikey(s[k]) != ikey(s[i]) {
        if ikey(s[k]) == ikey(s[i]) {
          assert LexLe(ikey(s[k]), ikey(s[i - 1]));
          if k < i - 1 {
            LexLeAntisymmetric(ikey(s[i - 1]), ikey(s[i]));
          }
        }
      }
    }
  }

  /** On digest-sorted input the kept digests strictly increase, so no two kept paths share one. */
  lemma SortedCleanedKeysIncrease(s: seq<Path>, ikey: Path -> Digest)
    requires KeySorted(s, ikey)
    ensures KeysIncrease(Cleaned(s, ikey), ikey)
    ensures DistinctKeys(Cleaned(s, ikey), ikey)
  {
    var u, p := Cleaned(s, ikey), KeptPositions(s, ikey, |s|);
    KeptSelects(s, ikey, |s|);
    forall j, k | 0 <= j < k < |u| ensures LexLt(ikey(u[j]), ikey(u[k])) {
      assert p[k] in p;
      SortedBoundaryIsFirstOfGroup(s, ikey, p[k]);
      assert ikey(s[p[j]]) != ikey(s[p[k]]);
    }
  }

  /**
   * On digest-sorted input there are as many kept paths as digests, and as
   * many as paths exactly when all digests differ.
   */
  lemma SortedCleanedSize(s: seq<Path>, ikey: Path -> Digest)
    requires KeySorted(s, ikey)
    ensures |Cleaned(s, ikey)| == |KeySet(s, ikey)|
    ensures |Cleaned(s, ikey)| == |s| <==> DistinctKeys(s, ikey)
  {
    var u := Cleaned(s, ikey);
    SortedCleanedKeysIncrease(s, ikey);
    KeySetSize(u, ikey);
    KeptKeySet(s, ikey, |s|);
    assert s[..|s|] == s;
    KeySetSize(s, ikey);
  }

  /**
   * On digest-sorted input each kept path is the first path of its digest,
   * and every digest of the input has exactly one kept path.
   */
  lemma SortedCleanedKeepsFirstOfEachGroup(s: seq<Path>, ikey: Path -> Digest)
    requires KeySorted(s, ikey)
    ensures forall j :: 0 <= j < |Cleaned(s, ikey)| ==>
      WithKey(s, ikey, ikey(Cleaned(s, ikey)[j])) != [] &&
      WithKey(s, ikey, ikey(Cleaned(s, ikey)[j]))[0] == Cleaned(s, ikey)[j]
    ensures forall d :: d in KeySet(s, ikey) ==>
      exists j :: 0 <= j < |Cleaned(s, ikey)| && ikey(Cleaned(s, ikey)[j]) == d
    ensures DistinctKeys(Cleaned(s, ikey), ikey)
  {
    var u, p := Cleaned(s, ikey), KeptPositions(s, ikey, |s|);
    KeptSelects(s, ikey, |s|);
    forall j | 0 <= j < |u|
      ensures WithKey(s, ikey, ikey(u[j])) != [] && WithKey(s, ikey, ikey(u[j]))[0] == u[j]
    {
      assert p[j] in p;
      SortedBoundaryIsFirstOfGroup(s, ikey, p[j]);
      WithKeyFirst(s, ikey, p[j]);
    }
    forall d | d in KeySet(s, ikey)
      ensures exists j :: 0 <= j < |u| && ikey(u[j]) == d
    {
      KeptKeySet(s, ikey, |s|);
      assert s[..|s|] == s;
      var x :| x in u && ikey(x) == d;
      var j :| 0 <= j < |u| && u[j] == x;
    }
    SortedCleanedKeysIncrease(s, ikey);
  }
}
