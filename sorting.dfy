/**
 * The sort step `sorted(data, key=ikey)`: a stable sort of the walked paths
 * by their digest.
 *
 * Python's `sorted` is a stable merge sort implemented in the interpreter;
 * here it is written as a stable insertion sort. The two agree on every
 * input: `StableSortIsUnique` shows that a digest-sorted sequence that keeps
 * each digest's paths in their original order is determined by the input.
 */
module KeySort {
  import opened Keys

  /** Digests never decrease from left to right. */
  predicate KeySorted(s: seq<Path>, ikey: Path -> Digest)
  {
    forall i, j :: 0 <= i < j < |s| ==> LexLe(ikey(s[i]), ikey(s[j]))
  }

  /** The paths of `s` whose digest is `d`, in their order in `s`. */
  function WithKey(s: seq<Path>, ikey: Path -> Digest, d: Digest): seq<Path>
  {
    if s == [] then []
    else (if ikey(s[0]) == d then [s[0]] else []) + WithKey(s[1..], ikey, d)
  }

  /**
   * Inserts `x` into `r` in front of the first path whose digest is not
   * below `ikey(x)`, so `x` precedes the paths of its own digest.
   */
  function Insert(x: Path, r: seq<Path>, ikey: Path -> Digest): (t: seq<Path>)
    ensures multiset(t) == multiset(r) + multiset{x}
  {
    if r == [] then [x]
    else if LexLe(ikey(x), ikey(r[0])) then [x] + r
    else
      assert r == [r[0]] + r[1..];
      [r[0]] + Insert(x, r[1..], ikey)
  }

  /** `sorted(data, key=ikey)`: a permutation of `data` with non-decreasing digests. */
  function SortByKey(data: seq<Path>, ikey: Path -> Digest): (t: seq<Path>)
    ensures multiset(t) == multiset(data)
    ensures KeySorted(t, ikey)
  {
    if data == [] then []
    else
      var rest := SortByKey(data[1..], ikey);
      InsertKeepsSorted(data[0], rest, ikey);
      assert data == [data[0]] + data[1..];
      Insert(data[0], rest, ikey)
  }

  /** A path whose digest is at most every digest of a sorted list can go in front of it. */
  lemma ConsKeepsSorted(y: Path, u: seq<Path>, ikey: Path -> Digest)
    requires KeySorted(u, ikey)
    requires forall k :: 0 <= k < |u| ==> LexLe(ikey(y), ikey(u[k]))
    ensures KeySorted([y] + u, ikey)
  {
    var t := [y] + u;
    forall i, j | 0 <= i < j < |t| ensures LexLe(ikey(t[i]), ikey(t[j])) {
      assert t[j] == u[j - 1];
      if i > 0 {
        assert t[i] == u[i - 1];
      }
    }
  }

  lemma {:induction false} InsertKeepsSorted(x: Path, r: seq<Path>, ikey: Path -> Digest)
    requires KeySorted(r, ikey)
    ensures KeySorted(Insert(x, r, ikey), ikey)
  {
    if r == [] {
    } else if LexLe(ikey(x), ikey(r[0])) {
      forall k | 0 <= k < |r| ensures LexLe(ikey(x), ikey(r[k])) {
        if k > 0 {
          LexLeTransitive(ikey(x), ikey(r[0]), ikey(r[k]));
        }
      }
      ConsKeepsSorted(x, r, ikey);
    } else {
      var rest := r[1..];
      var u := Insert(x, rest, ikey);
      assert Insert(x, r, ikey) == [r[0]] + u;
      InsertKeepsSorted(x, rest, ikey);
      LexLeTotal(ikey(x), ikey(r[0]));
      forall k | 0 <= k < |u| ensures LexLe(ikey(r[0]), ikey(u[k])) {
        var y := u[k];
        assert y in multiset(u);
        if y != x {
          assert y in multiset(rest);
          var m :| 0 <= m < |rest| && rest[m] == y;
          assert r[m + 1] == y;
        }
      }
      ConsKeepsSorted(r[0], u, ikey);
    }
  }

  /** The paths of digest `d` in `[y] + rest`. */
  lemma WithKeyCons(y: Path, rest: seq<Path>, ikey: Path -> Digest, d: Digest)
    ensures WithKey([y] + rest, ikey, d) == (if ikey(y) == d then [y] else []) + WithKey(rest, ikey, d)
  {
    assert ([y] + rest)[1..] == rest;
  }

  /** Inserting `x` adds `x` in front of the paths of its digest and changes nothing else. */
  lemma {:induction false} InsertWithKey(x: Path, r: seq<Path>, ikey: Path -> Digest, d: Digest)
    ensures WithKey(Insert(x, r, ikey), ikey, d)
         == (if ikey(x) == d then [x] else []) + WithKey(r, ikey, d)
  {
    if r == [] {
      WithKeyCons(x, [], ikey, d);
    } else if LexLe(ikey(x), ikey(r[0])) {
      WithKeyCons(x, r, ikey, d);
    } else {
      var u := Insert(x, r[1..], ikey);
      assert Insert(x, r, ikey) == [r[0]] + u;
      InsertWithKey(x, r[1..], ikey, d);
      WithKeyCons(r[0], u, ikey, d);
      WithKeyCons(r[0], r[1..], ikey, d);
      assert r == [r[0]] + r[1..];
      var rest := WithKey(r[1..], ikey, d);
      if ikey(x) == d {
        LexLeReflexive(ikey(x));
        assert ikey(r[0]) != d;
        assert WithKey(u, ikey, d) == [x] + rest;
        assert WithKey(r, ikey, d) == rest;
      } else {
        assert WithKey(u, ikey, d) == rest;
      }
    }
  }

  /** The sort is stable: the paths of each digest keep their input order. */
  lemma {:induction false} SortIsStable(data: seq<Path>, ikey: Path -> Digest, d: Digest)
    ensures WithKey(SortByKey(data, ikey), ikey, d) == WithKey(data, ikey, d)
  {
    if data != [] {
      SortIsStable(data[1..], ikey, d);
      InsertWithKey(data[0], SortByKey(data[1..], ikey), ikey, d);
    }
  }

  /** A path is among those of digest `d` exactly when it is in `s` and has digest `d`. */
  lemma {:induction false} WithKeyMembers(s: seq<Path>, ikey: Path -> Digest, d: Digest, x: Path)
    ensures x in WithKey(s, ikey, d) <==> x in s && ikey(x) == d
  {
    if s != [] {
      WithKeyMembers(s[1..], ikey, d, x);
      assert x in s <==> x == s[0] || x in s[1..];
    }
  }

  /**
   * If `s[i]` is the first path of `s` with digest `d`, it heads the paths of
   * digest `d`.
   */
  lemma {:induction false} WithKeyFirst(s: seq<Path>, ikey: Path -> Digest, i: nat)
    requires i < |s|
    requires forall k :: 0 <= k < i ==> ikey(s[k]) != ikey(s[i])
    ensures WithKey(s, ikey, ikey(s[i])) != []
    ensures WithKey(s, ikey, ikey(s[i]))[0] == s[i]
  {
    if i > 0 {
      WithKeyFirst(s[1..], ikey, i - 1);
    }
  }

  /**
   * Two digest-sorted sequences that list the paths of every digest in the
   * same order are equal: a stable sort has only one possible result.
   */
  lemma {:induction false} StableSortIsUnique(t: seq<Path>, u: seq<Path>, ikey: Path -> Digest)
    requires KeySorted(t, ikey) && KeySorted(u, ikey)
    requires forall d :: WithKey(t, ikey, d) == WithKey(u, ikey, d)
    ensures t == u
    decreases |t| + |u|
  {
    HeadHasItsKey(t, ikey);
    HeadHasItsKey(u, ikey);
    if t != [] && u != [] {
      var a, b := ikey(t[0]), ikey(u[0]);
      HeadKeyIsLeast(t, u, ikey);
      HeadKeyIsLeast(u, t, ikey);
      LexLeAntisymmetric(a, b);
      assert WithKey(t, ikey, a) == [t[0]] + WithKey(t[1..], ikey, a);
      assert WithKey(u, ikey, a) == [u[0]] + WithKey(u[1..], ikey, a);
      assert t[0] == WithKey(t, ikey, a)[0] == WithKey(u, ikey, a)[0] == u[0];
      forall d ensures WithKey(t[1..], ikey, d) == WithKey(u[1..], ikey, d) {
        var head := if a == d then [t[0]] else [];
        assert WithKey(t, ikey, d) == head + WithKey(t[1..], ikey, d);
        assert WithKey(u, ikey, d) == head + WithKey(u[1..], ikey, d);
        assert WithKey(t, ikey, d) == WithKey(u, ikey, d);
        assert WithKey(t[1..], ikey, d) == WithKey(t, ikey, d)[|head|..];
        assert WithKey(u[1..], ikey, d) == WithKey(u, ikey, d)[|head|..];
      }
      StableSortIsUnique(t[1..], u[1..], ikey);
      assert t == [t[0]] + t[1..] && u == [u[0]] + u[1..];
    }
  }

  /** A non-empty sequence lists at least one path under its first path's digest. */
  lemma HeadHasItsKey(s: seq<Path>, ikey: Path -> Digest)
    ensures s != [] ==> WithKey(s, ikey, ikey(s[0])) != []
  {
  }

  /** Under the hypotheses above, the first digest of `u` is at most the first digest of `t`. */
  lemma HeadKeyIsLeast(t: seq<Path>, u: seq<Path>, ikey: Path -> Digest)
    requires t != [] && u != []
    requires KeySorted(u, ikey)
    requires forall d :: WithKey(t, ikey, d) == WithKey(u, ikey, d)
    ensures LexLe(ikey(u[0]), ikey(t[0]))
  {
    var a := ikey(t[0]);
    assert t[0] in WithKey(t, ikey, a);
    WithKeyMembers(u, ikey, a, t[0]);
    var j :| 0 <= j < |u| && u[j] == t[0];
    if j == 0 {
      LexLeReflexive(a);
    }
  }

  /** Any stable sort of `data` by digest returns `SortByKey(data, ikey)`. */
  lemma SortByKeyIsTheStableSort(data: seq<Path>, t: seq<Path>, ikey: Path -> Digest)
    requires KeySorted(t, ikey)
    requires forall d :: WithKey(t, ikey, d) == WithKey(data, ikey, d)
    ensures t == SortByKey(data, ikey)
  {
    forall d ensures WithKey(t, ikey, d) == WithKey(SortByKey(data, ikey), ikey, d) {
      SortIsStable(data, ikey, d);
    }
    StableSortIsUnique(t, SortByKey(data, ikey), ikey);
  }
}
