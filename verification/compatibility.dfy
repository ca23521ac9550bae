/** Row compatibility: one row may sit directly on another when no interior
    joint of the one lines up with an interior joint of the other. */
module Compatibility {
  import opened RowGenerator
  import opened IndexLists

  /** What the walk may assume of a row: positive blocks adding up to the
      width. Every row of the enumeration is one (see `GeneratedRowsValid`). */
  predicate ValidRow(r: Row, width: nat) {
    Positive(r) && Sum(r) == width
  }

  /** The interior joints of a row: its prefix sums strictly between 0 and
      the width. */
  ghost function Joints(r: Row, width: nat): set<nat> {
    set i: nat | i <= |r| && 0 < PrefixSum(r, i) < width :: PrefixSum(r, i)
  }

  /** The running-bond rule: the two rows share no interior joint. */
  ghost predicate Compatible(a: Row, b: Row, width: nat) {
    Joints(a, width) !! Joints(b, width)
  }

  function Max(x: nat, y: nat): nat {
    if x < y then y else x
  }

  lemma GeneratedRowsValid(width: nat, r: Row)
    requires r in Rows(width)
    ensures ValidRow(r, width)
  {
    RowsSound(width);
    BlocksArePositive(r);
  }

  /** The joint after block `i` (0-based, not the last block) is interior. */
  lemma JointIsInterior(r: Row, width: nat, i: nat)
    requires ValidRow(r, width) && i + 1 < |r|
    ensures PrefixSum(r, i + 1) in Joints(r, width)
  {
    PrefixSumStrictlyIncreasing(r, 0, i + 1);
    PrefixSumStrictlyIncreasing(r, i + 1, |r|);
    PrefixSumWhole(r);
  }

  /** No joint of a row lies strictly between two consecutive joints. */
  lemma NoJointBetween(r: Row, width: nat, k: nat, v: nat)
    requires ValidRow(r, width) && k < |r|
    requires PrefixSum(r, k) < v < PrefixSum(r, k + 1)
    ensures v !in Joints(r, width)
  {
    if v in Joints(r, width) {
      var i: nat :| i <= |r| && PrefixSum(r, i) == v;
      if i <= k {
        if i < k { PrefixSumStrictlyIncreasing(r, i, k); }
      } else if i > k + 1 {
        PrefixSumStrictlyIncreasing(r, k + 1, i);
      }
    }
  }

  /** Every interior joint lies at or beyond the end of the first block. */
  lemma JointsFromFirstBlock(r: Row, width: nat)
    requires ValidRow(r, width) && |r| > 0
    ensures forall v :: v in Joints(r, width) ==> v >= PrefixSum(r, 1)
  {
    forall v | v in Joints(r, width)
      ensures v >= PrefixSum(r, 1)
    {
      var i: nat :| i <= |r| && 0 < PrefixSum(r, i) == v;
      if i > 1 {
        PrefixSumStrictlyIncreasing(r, 1, i);
      }
    }
  }

  /** Facts about the walk's state used at each step: the running sum of a
      row at position `pos` is never past the width, and equals it exactly
      at the last block. */
  lemma RunningSumBound(r: Row, width: nat, pos: nat)
    requires ValidRow(r, width) && pos < |r|
    ensures PrefixSum(r, pos + 1) <= width
    ensures PrefixSum(r, pos + 1) == width <==> pos == |r| - 1
  {
    PrefixSumWhole(r);
    if pos + 1 < |r| {
      PrefixSumStrictlyIncreasing(r, pos + 1, |r|);
    }
  }

  /** Advancing the row with the smaller running sum keeps the walk's
      invariant: every shared interior joint lies at or beyond both sums. */
  lemma AdvanceKeepsInvariant(a: Row, b: Row, width: nat, posA: nat, sumB: nat)
    requires ValidRow(a, width) && ValidRow(b, width) && posA + 1 < |a|
    requires PrefixSum(a, posA + 1) < sumB
    requires forall v :: v in Joints(a, width) && v in Joints(b, width)
               ==> v >= Max(PrefixSum(a, posA + 1), sumB)
    ensures forall v :: v in Joints(a, width) && v in Joints(b, width)
              ==> v >= Max(PrefixSum(a, posA + 2), sumB)
  {
    forall v | v in Joints(a, width) && v in Joints(b, width)
      ensures v >= Max(PrefixSum(a, posA + 2), sumB)
    {
      if v < PrefixSum(a, posA + 2) {
        NoJointBetween(a, width, posA + 1, v);
      }
    }
  }

  /** The lock-step walk of `rowsAreCompatible`: both running sums start at
      the first block; while both are short of the width, an equal sum
      before the last block of the first row rejects the pair, otherwise the
      smaller sum advances. On a tie that gets past the check, both rows are
      at their last block and the walk stops. */
  method RowsAreCompatible(row1: Row, row2: Row, width: nat) returns (compatible: bool)
    requires width > 0 && ValidRow(row1, width) && ValidRow(row2, width)
    ensures compatible <==> Compatible(row1, row2, width)
  {
    PrefixSumWhole(row1);
    PrefixSumWhole(row2);
    PrefixSumStep(row1, 0);
    PrefixSumStep(row2, 0);
    JointsFromFirstBlock(row1, width);
    JointsFromFirstBlock(row2, width);
    var row1Pos: nat := 0;
    var row2Pos: nat := 0;
    var row1Sum := row1[0];
    var row2Sum := row2[0];
    while true
      invariant row1Pos < |row1| && row2Pos < |row2|
      invariant row1Sum == PrefixSum(row1, row1Pos + 1)
      invariant row2Sum == PrefixSum(row2, row2Pos + 1)
      invariant forall v :: v in Joints(row1, width) && v in Joints(row2, width)
                  ==> v >= Max(row1Sum, row2Sum)
      decreases |row1| - row1Pos + |row2| - row2Pos
    {
      RunningSumBound(row1, width, row1Pos);
      RunningSumBound(row2, width, row2Pos);
      if row1Sum == row2Sum && row1Pos != |row1| - 1 {
        JointIsInterior(row1, width, row1Pos);
        JointIsInterior(row2, width, row2Pos);
        return false;
      }
      if row1Sum < row2Sum {
        AdvanceKeepsInvariant(row1, row2, width, row1Pos, row2Sum);
        PrefixSumStep(row1, row1Pos + 1);
        row1Pos := row1Pos + 1;
        row1Sum := row1Sum + row1[row1Pos];
      } else if row2Sum < row1Sum {
        AdvanceKeepsInvariant(row2, row1, width, row2Pos, row1Sum);
        PrefixSumStep(row2, row2Pos + 1);
        row2Pos := row2Pos + 1;
        row2Sum := row2Sum + row2[row2Pos];
      } else {
        // A tie that survived the check above has both rows at their last
        // block, so neither guarded advance of the source can fire here.
        assert row1Pos == |row1| - 1 && row2Pos == |row2| - 1;
      }
      if !(row1Sum < width && row2Sum < width) {
        break;
      }
    }
    RunningSumBound(row1, width, row1Pos);
    RunningSumBound(row2, width, row2Pos);
    return true;
  }

  /** The rule is symmetric: which row is below does not matter. */
  lemma CompatibleSymmetric(a: Row, b: Row, width: nat)
    ensures Compatible(a, b, width) <==> Compatible(b, a, width)
  {
  }

  /** A row of two or more blocks cannot sit on a copy of itself: its first
      joint lines up with itself. */
  lemma MultiBlockRowSelfIncompatible(r: Row, width: nat)
    requires ValidRow(r, width) && |r| >= 2
    ensures !Compatible(r, r, width)
  {
    JointIsInterior(r, width, 0);
  }

  /** A row of one block has no interior joint. */
  lemma SingleBlockRowHasNoJoints(r: Row, width: nat)
    requires ValidRow(r, width) && |r| == 1
    ensures Joints(r, width) == {}
  {
    assert PrefixSum(r, 0) == 0 by { assert r[..0] == []; }
    PrefixSumWhole(r);
  }

  /** A one-block row is compatible with every row, itself included. */
  lemma SingleBlockRowCompatible(r: Row, other: Row, width: nat)
    requires ValidRow(r, width) && |r| == 1
    ensures Compatible(r, other, width) && Compatible(other, r, width)
  {
    SingleBlockRowHasNoJoints(r, width);
  }

  /** `list` holds, in ascending order, exactly the indices below `n` of the
      rows compatible with row `i`. */
  ghost predicate ListsCompatibleBelow(rows: seq<Row>, width: nat, i: nat, list: seq<nat>, n: nat)
    requires i < |rows| && n <= |rows|
  {
    && Ascending(list)
    && (forall t :: 0 <= t < |list| ==> list[t] < n)
    && (forall j :: 0 <= j < n ==> (j in list <==> Compatible(rows[i], rows[j], width)))
  }

  /** `adj[i]` is the `compatibleRows` list of row `i`: every index `j` of a
      row compatible with it, ascending. */
  ghost predicate IsCompatibilityLists(rows: seq<Row>, width: nat, adj: seq<seq<nat>>) {
    |adj| == |rows| && forall i :: 0 <= i < |rows| ==> ListsCompatibleBelow(rows, width, i, adj[i], |rows|)
  }

  /** The indices below `n` of the rows compatible with row `i`, ascending. */
  ghost function CompatibleIndices(rows: seq<Row>, width: nat, i: nat, n: nat): (list: seq<nat>)
    requires i < |rows| && n <= |rows|
    ensures ListsCompatibleBelow(rows, width, i, list, n)
  {
    if n == 0 then []
    else CompatibleIndices(rows, width, i, n - 1)
           + (if Compatible(rows[i], rows[n - 1], width) then [n - 1] else [])
  }

  /** The compatibility lists of all rows, as a value. */
  ghost function CompatibilityLists(rows: seq<Row>, width: nat): (adj: seq<seq<nat>>)
    ensures IsCompatibilityLists(rows, width, adj)
  {
    seq(|rows|, i requires 0 <= i < |rows| => CompatibleIndices(rows, width, i, |rows|))
  }

  /** The nested loop that fills every row's `compatibleRows`: for each row
      `i`, each index `j` in turn is appended when the walk accepts the
      pair. */
  method BuildCompatibility(rows: seq<Row>, width: nat) returns (adj: seq<seq<nat>>)
    requires width > 0 && forall i :: 0 <= i < |rows| ==> ValidRow(rows[i], width)
    ensures IsCompatibilityLists(rows, width, adj)
  {
    adj := [];
    var i := 0;
    while i < |rows|
      invariant i <= |rows| && |adj| == i
      invariant forall a :: 0 <= a < i ==> ListsCompatibleBelow(rows, width, a, adj[a], |rows|)
    {
      var list: seq<nat> := [];
      var j := 0;
      while j < |rows|
        invariant j <= |rows|
        invariant ListsCompatibleBelow(rows, width, i, list, j)
      {
        var ok := RowsAreCompatible(rows[i], rows[j], width);
        if ok {
          list := list + [j];
        }
        j := j + 1;
      }
      adj := adj + [list];
      i := i + 1;
    }
  }
}
