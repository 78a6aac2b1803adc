/**
 * The row numbering of `write_to_xlsx`.
 *
 * Row 1 holds the header. The counter starts at row 2; for every position
 * `i >= 1` of the sorted list it first skips one row when the digest at `i`
 * differs from the digest at `i - 1`, then writes path `i` on the current
 * row and moves down one. Position 0 is never written. The workbook, the
 * cell values and the saved file are not modelled: a written row is the
 * pair of its row number and the path whose name and directory go on it.
 */
module Report {
  import opened Keys
  import opened KeySort
  import opened Cleaner

  /** The row holding the "Filename" and "Path" headings. */
  const HeaderRow := 1

  /** The row the counter starts at. */
  const FirstDataRow := 2

  /** A spreadsheet row written for one path. */
  datatype Placement = Placement(row: int, path: Path)

  /**
   * The row path `i` is written to: the rows written before it, plus one
   * skipped row for each digest change up to and including position `i`.
   */
  function RowOf(s: seq<Path>, ikey: Path -> Digest, i: nat): int
    requires 1 <= i < |s|
  {
    FirstDataRow + (i - 1) + CountBoundaries(s, ikey, i + 1)
  }

  /** The rows written for `s`: positions 1 to `|s| - 1`, in order. */
  function Layout(s: seq<Path>, ikey: Path -> Digest): seq<Placement>
  {
    if |s| == 0 then []
    else seq(|s| - 1, j requires 0 <= j < |s| - 1 => Placement(RowOf(s, ikey, j + 1), s[j + 1]))
  }

  /** The counter's value after the loop. */
  function FinalRow(s: seq<Path>, ikey: Path -> Digest): int
  {
    if |s| == 0 then FirstDataRow
    else FirstDataRow + (|s| - 1) + CountBoundaries(s, ikey, |s|)
  }

  /**
   * The loop of `write_to_xlsx(sorted_data)`: returns the rows written and
   * the final value of `cur_row`.
   */
  method WriteRows(sortedData: seq<Path>, ikey: Path -> Digest) returns (placed: seq<Placement>, curRow: int)
    ensures placed == Layout(sortedData, ikey)
    ensures curRow == FinalRow(sortedData, ikey)
  {
    placed := [];
    curRow := FirstDataRow;
    var i := 1;
    while i < |sortedData|
      invariant |sortedData| == 0 ==> i == 1 && placed == [] && curRow == FirstDataRow
      invariant |sortedData| > 0 ==> 1 <= i <= |sortedData|
      invariant |placed| == i - 1
      invariant forall j :: 0 <= j < |placed| ==>
        placed[j] == Placement(RowOf(sortedData, ikey, j + 1), sortedData[j + 1])
      invariant |sortedData| > 0 ==>
        curRow == FirstDataRow + (i - 1) + CountBoundaries(sortedData, ikey, i)
    {
      if ikey(sortedData[i - 1]) != ikey(sortedData[i]) {
        curRow := curRow + 1;
      }
      placed := placed + [Placement(curRow, sortedData[i])];
      curRow := curRow + 1;
      i := i + 1;
    }
  }

  /** Path 0 is never written; paths 1 to `|s| - 1` are, once each and in order. */
  lemma LayoutOmitsFirstPath(s: seq<Path>, ikey: Path -> Digest)
    requires s != []
    ensures |Layout(s, ikey)| == |s| - 1
    ensures forall j :: 0 <= j < |Layout(s, ikey)| ==> Layout(s, ikey)[j].path == s[j + 1]
  {
  }

  /** `CountBoundaries` never decreases as more positions are looked at. */
  lemma {:induction false} CountBoundariesMonotone(s: seq<Path>, ikey: Path -> Digest, m: nat, n: nat)
    requires m <= n <= |s|
    ensures CountBoundaries(s, ikey, m) <= CountBoundaries(s, ikey, n)
    decreases n - m
  {
    if m < n {
      CountBoundariesMonotone(s, ikey, m, n - 1);
    }
  }

  /**
   * Written rows lie strictly below the header, strictly increase, and stay
   * strictly above the final counter, so no cell is written twice.
   */
  lemma LayoutRowsIncrease(s: seq<Path>, ikey: Path -> Digest)
    ensures forall j :: 0 <= j < |Layout(s, ikey)| ==>
      HeaderRow < Layout(s, ikey)[j].row < FinalRow(s, ikey)
    ensures forall j, k :: 0 <= j < k < |Layout(s, ikey)| ==>
      Layout(s, ikey)[j].row < Layout(s, ikey)[k].row
  {
    var l := Layout(s, ikey);
    forall j, k | 0 <= j < k < |l| ensures l[j].row < l[k].row {
      CountBoundariesMonotone(s, ikey, j + 2, k + 2);
    }
    forall j | 0 <= j < |l| ensures HeaderRow < l[j].row < FinalRow(s, ikey) {
      CountBoundariesMonotone(s, ikey, j + 2, |s|);
    }
  }

  /**
   * Exactly one empty row separates a written row from the one above it
   * (the header, for path 1) when its path's digest differs from the
   * previous path's, and none otherwise.
   */
  lemma LayoutSkipsOneRowPerBoundary(s: seq<Path>, ikey: Path -> Digest, j: nat)
    requires j < |Layout(s, ikey)|
    ensures Layout(s, ikey)[j].row
         == (if j == 0 then HeaderRow else Layout(s, ikey)[j - 1].row) + 1
          + (if IsBoundary(s, ikey, j + 1) then 1 else 0)
  {
    var l := Layout(s, ikey);
    assert l[j].row == RowOf(s, ikey, j + 1);
    assert CountBoundaries(s, ikey, j + 2)
        == CountBoundaries(s, ikey, j + 1) + (if IsBoundary(s, ikey, j + 1) then 1 else 0);
    if j > 0 {
      assert l[j - 1].row == RowOf(s, ikey, j);
    }
  }

  /**
   * The final counter is one past the last written row, and it is the first
   * data row plus the `|s| - 1` written rows plus one empty row for each of
   * the `|Cleaned(s)| - 1` digest changes.
   */
  lemma FinalRowCountsGroups(s: seq<Path>, ikey: Path -> Digest)
    requires s != []
    ensures |s| > 1 ==> FinalRow(s, ikey) == Layout(s, ikey)[|s| - 2].row + 1
    ensures FinalRow(s, ikey) == FirstDataRow + (|s| - 1) + (|Cleaned(s, ikey)| - 1)
  {
    KeptLength(s, ikey, |s|);
  }

  /**
   * On a digest-sorted list the number of empty rows is one less than the
   * number of distinct digests.
   */
  lemma SortedFinalRowCountsDigests(s: seq<Path>, ikey: Path -> Digest)
    requires s != []
    requires KeySorted(s, ikey)
    ensures FinalRow(s, ikey) == FirstDataRow + (|s| - 1) + (|KeySet(s, ikey)| - 1)
  {
    FinalRowCountsGroups(s, ikey);
    SortedCleanedSize(s, ikey);
  }
}
