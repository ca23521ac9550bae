/** The panel count of `getNumberOfPanels`: enumerate the rows of the
    width, list for every row the rows that may sit on it, and count the
    stacks of `height` rows in which every two adjacent rows are compatible.

    Widths are in half-units (the driver accepts 3..48 in steps of 0.5,
    that is 6..96 here) and heights are at least 1. */
module BlockCalc {
  import opened RowGenerator
  import opened Compatibility
  import opened Levels

  /** A panel over `rows`: row indices from the bottom level up, every two
      vertically adjacent rows compatible. */
  ghost predicate IsPanel(rows: seq<Row>, width: nat, p: seq<nat>) {
    && (forall i :: 0 <= i < |p| ==> p[i] < |rows|)
    && (forall i :: 0 <= i < |p| - 1 ==> Compatible(rows[p[i]], rows[p[i + 1]], width))
  }

  /** All panels of the given height. */
  ghost function Panels(rows: seq<Row>, width: nat, height: nat): set<seq<nat>> {
    set p | p in IndexSeqs(|rows|, height) && IsPanel(rows, width, p)
  }

  /** The number the program prints: how many panels of `height` rows can be
      built from the rows of `width`. */
  ghost function PanelCount(width: nat, height: nat): nat {
    |Panels(Rows(width), width, height)|
  }

  lemma PanelsMembership(rows: seq<Row>, width: nat, height: nat, p: seq<nat>)
    ensures p in Panels(rows, width, height) <==> |p| == height && IsPanel(rows, width, p)
  {
    IndexSeqsMembership(|rows|, height, p);
  }

  /** The compatibility lists fit the level counter's expectations. */
  lemma ListsAreWellFormed(rows: seq<Row>, width: nat, adj: seq<seq<nat>>)
    requires IsCompatibilityLists(rows, width, adj)
    ensures WellFormed(adj)
  {
  }

  /** Stacking along the compatibility lists builds exactly the panels. */
  lemma PanelsAreStacks(rows: seq<Row>, width: nat, adj: seq<seq<nat>>, height: nat)
    requires IsCompatibilityLists(rows, width, adj)
    ensures Panels(rows, width, height) == StackSet(adj, height)
  {
    forall p | p in IndexSeqs(|rows|, height)
      ensures IsPanel(rows, width, p) <==> IsStack(adj, p)
    {
      IndexSeqsMembership(|rows|, height, p);
      if IsPanel(rows, width, p) || IsStack(adj, p) {
        forall i | 0 <= i < |p| - 1
          ensures p[i + 1] in adj[p[i]] <==> Compatible(rows[p[i]], rows[p[i + 1]], width)
        {
          assert ListsCompatibleBelow(rows, width, p[i], adj[p[i]], |rows|);
        }
      }
    }
  }

  /** The rows of the width, every one of them a valid row for the walk. */
  lemma RowsAreValid(width: nat)
    ensures forall i :: 0 <= i < |Rows(width)| ==> ValidRow(Rows(width)[i], width)
  {
    forall i | 0 <= i < |Rows(width)|
      ensures ValidRow(Rows(width)[i], width)
    {
      GeneratedRowsValid(width, Rows(width)[i]);
    }
  }

  /** The whole computation of `getNumberOfPanels`: rows, compatibility
      lists, level propagation, sum. */
  method GetNumberOfPanels(width: nat, height: nat) returns (panelCount: nat)
    requires width > 0 && height >= 1
    ensures panelCount == PanelCount(width, height)
  {
    var rows := Rows(width);
    RowsAreValid(width);
    var adj := BuildCompatibility(rows, width);
    ListsAreWellFormed(rows, width, adj);
    panelCount := CountPanels(adj, height);
    PanelsAreStacks(rows, width, adj, height);
  }

  // ---------------------------------------------------------------------
  // Consequences for every width.
  // ---------------------------------------------------------------------

  /** Panels of height 1 are the rows themselves. */
  lemma HeightOneCountsRows(width: nat)
    ensures PanelCount(width, 1) == |Rows(width)|
  {
    var rows := Rows(width);
    var adj := CompatibilityLists(rows, width);
    PanelsAreStacks(rows, width, adj, 1);
    HeightOneCount(adj);
  }

  /** A width no row fits gives no panel at any height. */
  lemma NoRowsNoPanels(width: nat, height: nat)
    requires Rows(width) == [] && height >= 1
    ensures PanelCount(width, height) == 0
  {
    var rows := Rows(width);
    var adj := CompatibilityLists(rows, width);
    PanelsAreStacks(rows, width, adj, height);
    NoRowsNoStacks(adj, height);
  }

  /** A count of zero at some height stays zero at every greater height. */
  lemma ZeroPanelsPersist(width: nat, height: nat, higher: nat)
    requires height <= higher && PanelCount(width, height) == 0
    ensures PanelCount(width, higher) == 0
  {
    var rows := Rows(width);
    var adj := CompatibilityLists(rows, width);
    PanelsAreStacks(rows, width, adj, height);
    PanelsAreStacks(rows, width, adj, higher);
    ZeroCountPersists(adj, height, higher);
  }

  // ---------------------------------------------------------------------
  // Concrete widths.
  // ---------------------------------------------------------------------

  lemma RowsOfOneBlock(width: nat)
    requires width == Block1 || width == Block2
    ensures Rows(width) == [[width]]
  {
    PlaceBlockStep([], 0, width);
    assert [] + [Block1] == [Block1] && [] + [Block2] == [Block2];
    if width == Block2 {
      PlaceBlockStep([Block1], Block1, width);
      assert [Block1] + [Block1] == [Block1, Block1];
      assert [Block1] + [Block2] == [Block1, Block2];
    }
  }

  lemma RowsOfWidthSix()
    ensures Rows(2 * Block1) == [[Block1, Block1]]
  {
    var width := 2 * Block1;
    PlaceBlockStep([], 0, width);
    assert [] + [Block1] == [Block1] && [] + [Block2] == [Block2];
    PlaceBlockStep([Block1], Block1, width);
    assert [Block1] + [Block1] == [Block1, Block1];
    assert [Block1] + [Block2] == [Block1, Block2];
  }

  lemma SearchAfterShortBlockAtSevenAndAHalf()
    ensures PlaceBlock([Block1], Block1, Block1 + Block2) == [[Block1, Block2]]
  {
    var width := Block1 + Block2;
    PlaceBlockStep([], 0, width);
    assert [] + [Block1] == [Block1];
    PlaceBlockStep([Block1], Block1, width);
    assert [Block1] + [Block1] == [Block1, Block1];
    assert [Block1] + [Block2] == [Block1, Block2];
    PlaceBlockStep([Block1, Block1], 2 * Block1, width);
  }

  lemma SearchAfterLongBlockAtSevenAndAHalf()
    ensures PlaceBlock([Block2], Block2, Block1 + Block2) == [[Block2, Block1]]
  {
    var width := Block1 + Block2;
    PlaceBlockStep([], 0, width);
    assert [] + [Block2] == [Block2];
    PlaceBlockStep([Block2], Block2, width);
    assert [Block2] + [Block1] == [Block2, Block1];
    assert [Block2] + [Block2] == [Block2, Block2];
  }

  lemma RowsOfWidthSevenAndAHalf()
    ensures Rows(Block1 + Block2) == [[Block1, Block2], [Block2, Block1]]
  {
    PlaceBlockStep([], 0, Block1 + Block2);
    assert [] + [Block1] == [Block1] && [] + [Block2] == [Block2];
    SearchAfterShortBlockAtSevenAndAHalf();
    SearchAfterLongBlockAtSevenAndAHalf();
  }

  /** With one row that fits on itself, the only panel of each height is
      the tower of copies of that row. */
  lemma OneSelfCompatibleRow(rows: seq<Row>, width: nat, height: nat)
    requires |rows| == 1 && Compatible(rows[0], rows[0], width)
    ensures |Panels(rows, width, height)| == 1
  {
    var tower := seq(height, _ => 0);
    PanelsMembership(rows, width, height, tower);
    assert tower in Panels(rows, width, height);
    forall p | p in Panels(rows, width, height)
      ensures p == tower
    {
      PanelsMembership(rows, width, height, p);
    }
    assert Panels(rows, width, height) == {tower};
  }

  /** A width of one block (3 or 4.5) has that block as its only row, and
      exactly one panel at every height. */
  lemma SingleBlockWidth(width: nat, height: nat)
    requires width == Block1 || width == Block2
    ensures Rows(width) == [[width]]
    ensures PanelCount(width, height) == 1
  {
    RowsOfOneBlock(width);
    assert Sum([width]) == width by {
      assert [width][..0] == [];
    }
    SingleBlockRowCompatible([width], [width], width);
    OneSelfCompatibleRow(Rows(width), width, height);
  }

  /** A row of two blocks has its one interior joint after the first. */
  lemma TwoBlockJoints(a: nat, b: nat)
    requires a > 0 && b > 0
    ensures ValidRow([a, b], a + b)
    ensures Joints([a, b], a + b) == {a}
  {
    var r := [a, b];
    assert PrefixSum(r, 0) == 0 by {
      assert r[..0] == [];
    }
    PrefixSumStep(r, 0);
    PrefixSumStep(r, 1);
    PrefixSumWhole(r);
    assert PrefixSum(r, 1) in Joints(r, a + b);
  }

  /** Width 6 (two short blocks): the single row [3, 3] cannot sit on
      itself, so there is one panel of height 1 and none of any greater
      height. */
  lemma WidthSix(height: nat)
    requires height >= 1
    ensures Rows(2 * Block1) == [[Block1, Block1]]
    ensures PanelCount(2 * Block1, height) == if height == 1 then 1 else 0
  {
    var width := 2 * Block1;
    RowsOfWidthSix();
    var rows := Rows(width);
    HeightOneCountsRows(width);
    if height > 1 {
      TwoBlockJoints(Block1, Block1);
      assert !Compatible(rows[0], rows[0], width);
      forall p | p in IndexSeqs(1, 2)
        ensures !IsPanel(rows, width, p)
      {
        IndexSeqsMembership(1, 2, p);
        assert p[0] == 0 && p[1] == 0;
      }
      assert Panels(rows, width, 2) == {};
      ZeroPanelsPersist(width, 2, height);
    }
  }

  /** The stack of `height` levels alternating between index `s` and the
      other index of a two-row width. */
  function Alternating(height: nat, s: nat): seq<nat>
    requires s < 2
  {
    seq(height, i => if i % 2 == 0 then s else 1 - s)
  }

  /** A sequence over {0, 1} whose neighbours always differ alternates from
      its first entry. */
  lemma {:induction false} AlternatesFromFirst(p: seq<nat>, i: nat)
    requires i < |p|
    requires forall j :: 0 <= j < |p| ==> p[j] < 2
    requires forall j :: 0 <= j < |p| - 1 ==> p[j] != p[j + 1]
    ensures p[i] == if i % 2 == 0 then p[0] else 1 - p[0]
  {
    if i > 0 {
      AlternatesFromFirst(p, i - 1);
      assert p[i - 1] != p[i];
    }
  }

  /** With two rows that each clash with themselves and fit on each other,
      the panels of each positive height are the two alternating stacks. */
  lemma TwoAlternatingRows(rows: seq<Row>, width: nat, height: nat)
    requires |rows| == 2 && height >= 1
    requires forall a, b :: 0 <= a < 2 && 0 <= b < 2 ==> (Compatible(rows[a], rows[b], width) <==> a != b)
    ensures |Panels(rows, width, height)| == 2
  {
    var low, high := Alternating(height, 0), Alternating(height, 1);
    forall s | 0 <= s < 2
      ensures Alternating(height, s) in Panels(rows, width, height)
    {
      PanelsMembership(rows, width, height, Alternating(height, s));
    }
    forall p | p in Panels(rows, width, height)
      ensures p == low || p == high
    {
      PanelsMembership(rows, width, height, p);
      forall i | 0 <= i < |p|
        ensures p[i] == Alternating(height, p[0])[i]
      {
        AlternatesFromFirst(p, i);
      }
    }
    assert Panels(rows, width, height) == {low, high};
    assert low[0] != high[0];
  }

  /** Width 7.5: the rows [3, 4.5] and [4.5, 3] each clash with themselves
      and fit on each other, so there are two panels at every height. */
  lemma WidthSevenAndAHalf(height: nat)
    requires height >= 1
    ensures Rows(Block1 + Block2) == [[Block1, Block2], [Block2, Block1]]
    ensures PanelCount(Block1 + Block2, height) == 2
  {
    var width := Block1 + Block2;
    RowsOfWidthSevenAndAHalf();
    var rows := Rows(width);
    TwoBlockJoints(Block1, Block2);
    TwoBlockJoints(Block2, Block1);
    TwoAlternatingRows(rows, width, height);
  }
}
