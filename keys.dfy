/**
 * Paths, content digests and the order `sorted` uses on digests.
 *
 * `ikey` hashes the decoded pixels of a picture with SHA-256 and returns the
 * hex digest as a string. The model never looks inside it: every operation
 * takes it as a parameter `ikey: Path -> Digest`, a total deterministic
 * function, so equal paths always get equal digests.
 */
module Keys {

  /** A file path as produced by the directory walk. */
  type Path = string

  /** A hex digest as returned by `ikey`. */
  type Digest = string

  /**
   * Python's `<=` on `str`: lexicographic by code point, a proper prefix
   * being smaller than the longer string.
   */
  predicate LexLe(a: string, b: string)
  {
    |a| == 0 || (|b| > 0 && (a[0] < b[0] || (a[0] == b[0] && LexLe(a[1..], b[1..]))))
  }

  /** Python's `<` on `str`. */
  predicate LexLt(a: string, b: string)
  {
    LexLe(a, b) && a != b
  }

  lemma {:induction false} LexLeReflexive(a: string)
    ensures LexLe(a, a)
  {
    if |a| > 0 {
      LexLeReflexive(a[1..]);
    }
  }

  lemma {:induction false} LexLeTotal(a: string, b: string)
    ensures LexLe(a, b) || LexLe(b, a)
  {
    if |a| > 0 && |b| > 0 && a[0] == b[0] {
      LexLeTotal(a[1..], b[1..]);
    }
  }

  lemma {:induction false} LexLeAntisymmetric(a: string, b: string)
    requires LexLe(a, b) && LexLe(b, a)
    ensures a == b
  {
    if |a| > 0 && |b| > 0 {
      LexLeAntisymmetric(a[1..], b[1..]);
      assert a == [a[0]] + a[1..] && b == [b[0]] + b[1..];
    }
  }

  lemma {:induction false} LexLeTransitive(a: string, b: string, c: string)
    requires LexLe(a, b) && LexLe(b, c)
    ensures LexLe(a, c)
  {
    if |a| > 0 && a[0] == b[0] && b[0] == c[0] {
      LexLeTransitive(a[1..], b[1..], c[1..]);
    }
  }

  /** The set of digests of the paths in `s`. */
  function KeySet(s: seq<Path>, ikey: Path -> Digest): set<Digest>
  {
    set x | x in s :: ikey(x)
  }

  /** The digests of a concatenation are the digests of its parts. */
  lemma KeySetAppend(a: seq<Path>, b: seq<Path>, ikey: Path -> Digest)
    ensures KeySet(a + b, ikey) == KeySet(a, ikey) + KeySet(b, ikey)
  {
    assert forall x :: x in a + b <==> x in a || x in b;
  }

  /** No two positions of `s` carry the same digest. */
  predicate DistinctKeys(s: seq<Path>, ikey: Path -> Digest)
  {
    forall i, j :: 0 <= i < j < |s| ==> ikey(s[i]) != ikey(s[j])
  }

  /**
   * There are never more digests than paths, and exactly as many when no two
   * paths share a digest.
   */
  lemma {:induction false} KeySetSize(s: seq<Path>, ikey: Path -> Digest)
    ensures |KeySet(s, ikey)| <= |s|
    ensures |KeySet(s, ikey)| == |s| <==> DistinctKeys(s, ikey)
  {
    if s != [] {
      var rest := s[1..];
      KeySetSize(rest, ikey);
      assert KeySet(s, ikey) == {ikey(s[0])} + KeySet(rest, ikey) by {
        assert forall x :: x in s <==> x == s[0] || x in rest;
      }
      if ikey(s[0]) in KeySet(rest, ikey) {
        var x :| x in rest && ikey(x) == ikey(s[0]);
        var j :| 0 <= j < |rest| && rest[j] == x;
        assert ikey(s[0]) == ikey(s[j + 1]);
      } else {
        if DistinctKeys(rest, ikey) {
          forall i, j | 0 <= i < j < |s| ensures ikey(s[i]) != ikey(s[j]) {
            if i == 0 {
              assert s[j] in rest;
            } else {
              assert s[i] == rest[i - 1] && s[j] == rest[j - 1];
            }
          }
        } else {
          var i, j :| 0 <= i < j < |rest| && ikey(rest[i]) == ikey(rest[j]);
          assert s[i + 1] == rest[i] && s[j + 1] == rest[j];
        }
      }
    }
  }
}
