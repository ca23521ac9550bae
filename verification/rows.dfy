/** Row enumeration: every ordered sequence of the two block lengths whose
    total is exactly the panel width.

    All lengths are in half-units, so the blocks of 3 and 4.5 become 6 and 9
    and the width 3..48 becomes 6..96; every comparison of running sums is
    then an exact integer comparison. */
module RowGenerator {

  /** The short block (3 units). */
  const Block1: nat := 6
  /** The long block (4.5 units). */
  const Block2: nat := 9

  /** A row of blocks, left to right, as lengths in half-units. */
  type Row = seq<nat>

  predicate IsBlock(b: nat) {
    b == Block1 || b == Block2
  }

  predicate AllBlocks(r: Row) {
    forall i :: 0 <= i < |r| ==> IsBlock(r[i])
  }

  predicate Positive(r: Row) {
    forall i :: 0 <= i < |r| ==> r[i] > 0
  }

  /** Total length of a row; summed from the right end, so that appending a
      block adds exactly its length. */
  function Sum(r: Row): nat {
    if |r| == 0 then 0 else Sum(r[..|r| - 1]) + r[|r| - 1]
  }

  /** Offset of the joint that follows the first `i` blocks. */
  function PrefixSum(r: Row, i: nat): nat
    requires i <= |r|
  {
    Sum(r[..i])
  }

  /** A row of the panel: made of the two block lengths only, and exactly as
      long as the width. */
  predicate IsRow(r: Row, width: nat) {
    AllBlocks(r) && Sum(r) == width
  }

  lemma SumAppend(r: Row, b: nat)
    ensures Sum(r + [b]) == Sum(r) + b
  {
    assert (r + [b])[..|r|] == r;
  }

  lemma PrefixSumStep(r: Row, i: nat)
    requires i < |r|
    ensures PrefixSum(r, i + 1) == PrefixSum(r, i) + r[i]
  {
    assert r[..i + 1] == r[..i] + [r[i]];
    SumAppend(r[..i], r[i]);
  }

  lemma PrefixSumWhole(r: Row)
    ensures PrefixSum(r, |r|) == Sum(r)
  {
    assert r[..|r|] == r;
  }

  /** With positive blocks, joint offsets grow strictly from left to right. */
  lemma {:induction false} PrefixSumStrictlyIncreasing(r: Row, i: nat, j: nat)
    requires Positive(r) && i < j <= |r|
    ensures PrefixSum(r, i) < PrefixSum(r, j)
    decreases j - i
  {
    PrefixSumStep(r, j - 1);
    if i < j - 1 {
      PrefixSumStrictlyIncreasing(r, i, j - 1);
    }
  }

  lemma BlocksArePositive(r: Row)
    requires AllBlocks(r)
    ensures Positive(r)
  {
  }

  /** The rows the depth-first search emits below the partial row `row`,
      whose length so far is `sum`: the row itself once it fills the width,
      nothing once it overshoots, and otherwise every row continuing with
      Block1 followed by every row continuing with Block2. */
  function PlaceBlock(row: Row, sum: nat, width: nat): seq<Row>
    decreases width - sum
  {
    if sum == width then
      [row]
    else if sum > width then
      []
    else
      PlaceBlock(row + [Block1], sum + Block1, width)
        + PlaceBlock(row + [Block2], sum + Block2, width)
  }

  /** Every row of the panel, in the order the search finds them. */
  function Rows(width: nat): seq<Row> {
    PlaceBlock([], 0, width)
  }

  /** One step of the search below a partial row still short of the width. */
  lemma PlaceBlockStep(row: Row, sum: nat, width: nat)
    requires sum < width
    ensures PlaceBlock(row, sum, width)
            == PlaceBlock(row + [Block1], sum + Block1, width)
               + PlaceBlock(row + [Block2], sum + Block2, width)
  {
  }

  /** The search emits only extensions of the partial row; when `sum` is the
      partial row's length and the row is made of the two blocks, each one
      is a row of the panel: only the two blocks, total exactly `width`. */
  lemma {:induction false} PlaceBlockSound(row: Row, sum: nat, width: nat)
    requires sum == Sum(row)
    ensures forall r :: r in PlaceBlock(row, sum, width) ==> |row| <= |r| && r[..|row|] == row
    ensures AllBlocks(row) ==> forall r :: r in PlaceBlock(row, sum, width) ==> IsRow(r, width)
    decreases width - sum
  {
    if sum < width {
      SumAppend(row, Block1);
      SumAppend(row, Block2);
      PlaceBlockSound(row + [Block1], sum + Block1, width);
      PlaceBlockSound(row + [Block2], sum + Block2, width);
      forall r | r in PlaceBlock(row + [Block1], sum + Block1, width)
        ensures r[..|row|] == row
      {
        assert r[..|row|] == r[..|row| + 1][..|row|];
      }
      forall r | r in PlaceBlock(row + [Block2], sum + Block2, width)
        ensures r[..|row|] == row
      {
        assert r[..|row|] == r[..|row| + 1][..|row|];
      }
    }
  }

  /** Every row the enumeration produces is a row of the panel. */
  lemma RowsSound(width: nat)
    ensures forall r :: r in Rows(width) ==> IsRow(r, width)
  {
    PlaceBlockSound([], 0, width);
  }

  /** The search misses no row: every row of the panel that extends the
      partial row is emitted below it. */
  lemma {:induction false} PlaceBlockComplete(row: Row, sum: nat, width: nat, r: Row)
    requires sum == Sum(row)
    requires IsRow(r, width) && |row| <= |r| && r[..|row|] == row
    ensures r in PlaceBlock(row, sum, width)
    decreases |r| - |row|
  {
    BlocksArePositive(r);
    PrefixSumWhole(r);
    assert sum == PrefixSum(r, |row|);
    if |row| == |r| {
      assert row == r;
    } else {
      PrefixSumStrictlyIncreasing(r, |row|, |r|);
      var b := r[|row|];
      assert r[..|row| + 1] == row + [b];
      SumAppend(row, b);
      PlaceBlockComplete(row + [b], sum + b, width, r);
      PlaceBlockStep(row, sum, width);
    }
  }

  lemma RowsComplete(width: nat, r: Row)
    requires IsRow(r, width)
    ensures r in Rows(width)
  {
    PlaceBlockComplete([], 0, width, r);
  }

  /** Strict lexicographic order on rows; a proper prefix comes first. */
  predicate LexLess(a: Row, b: Row) {
    |b| > 0 && (|a| == 0 || a[0] < b[0] || (a[0] == b[0] && LexLess(a[1..], b[1..])))
  }

  predicate StrictlySorted(rows: seq<Row>) {
    forall i, j :: 0 <= i < j < |rows| ==> LexLess(rows[i], rows[j])
  }

  lemma {:induction false} LexLessIrreflexive(a: Row)
    ensures !LexLess(a, a)
  {
    if |a| > 0 {
      LexLessIrreflexive(a[1..]);
    }
  }

  /** Two rows that agree on their first `k` blocks and then differ are
      ordered by the block at position `k`. */
  lemma {:induction false} LexLessAtFork(a: Row, b: Row, k: nat)
    requires k < |a| && k < |b| && a[..k] == b[..k] && a[k] < b[k]
    ensures LexLess(a, b)
  {
    if k > 0 {
      assert a[0] == a[..k][0] == b[..k][0] == b[0];
      assert a[1..][..k - 1] == a[1..k] == a[..k][1..];
      assert b[1..][..k - 1] == b[1..k] == b[..k][1..];
      LexLessAtFork(a[1..], b[1..], k - 1);
    }
  }

  /** A row below the Block1 branch of a partial row precedes every row
      below its Block2 branch. */
  lemma BranchesOrdered(row: Row, a: Row, b: Row)
    requires |row| < |a| && a[..|row| + 1] == row + [Block1]
    requires |row| < |b| && b[..|row| + 1] == row + [Block2]
    ensures LexLess(a, b)
  {
    assert a[..|row|] == a[..|row| + 1][..|row|];
    assert b[..|row|] == b[..|row| + 1][..|row|];
    assert a[|row|] == (row + [Block1])[|row|];
    assert b[|row|] == (row + [Block2])[|row|];
    LexLessAtFork(a, b, |row|);
  }

  /** Because the Block1 branch is explored before the Block2 branch, the
      search emits its rows in strictly increasing lexicographic order. */
  lemma {:induction false} PlaceBlockSorted(row: Row, sum: nat, width: nat)
    requires sum == Sum(row)
    ensures StrictlySorted(PlaceBlock(row, sum, width))
    decreases width - sum
  {
    if sum < width {
      SumAppend(row, Block1);
      SumAppend(row, Block2);
      var left := PlaceBlock(row + [Block1], sum + Block1, width);
      var right := PlaceBlock(row + [Block2], sum + Block2, width);
      PlaceBlockSorted(row + [Block1], sum + Block1, width);
      PlaceBlockSorted(row + [Block2], sum + Block2, width);
      PlaceBlockSound(row + [Block1], sum + Block1, width);
      PlaceBlockSound(row + [Block2], sum + Block2, width);
      var all := left + right;
      assert all == PlaceBlock(row, sum, width);
      forall i, j | 0 <= i < j < |all|
        ensures LexLess(all[i], all[j])
      {
        if j < |left| {
          assert all[i] == left[i] && all[j] == left[j];
        } else if |left| <= i {
          assert all[i] == right[i - |left|] && all[j] == right[j - |left|];
        } else {
          var a, b := left[i], right[j - |left|];
          assert a in left && b in right;
          BranchesOrdered(row, a, b);
        }
      }
    }
  }

  /** Rows come out in strictly increasing lexicographic order. */
  lemma RowsSorted(width: nat)
    ensures StrictlySorted(Rows(width))
  {
    PlaceBlockSorted([], 0, width);
  }

  /** Each row of the panel is emitted once and only once. */
  lemma RowsDistinct(width: nat)
    ensures forall i, j :: 0 <= i < |Rows(width)| && 0 <= j < |Rows(width)| && i != j
              ==> Rows(width)[i] != Rows(width)[j]
  {
    var rows := Rows(width);
    RowsSorted(width);
    forall i, j | 0 <= i < |rows| && 0 <= j < |rows| && i != j
      ensures rows[i] != rows[j]
    {
      if i < j {
        LexLessIrreflexive(rows[i]);
      } else {
        LexLessIrreflexive(rows[j]);
      }
    }
  }
}
