/** Level counting: how many stacks of `height` rows can be built when
    `adj[j]` lists the rows allowed directly above row `j`.

    The count is specified declaratively, as the size of the set of all
    stacks (`StackSet`), and computed the way the source does: a vector with
    one entry per row starts at all ones and is pushed through the
    adjacency lists `height - 1` times. */
module Levels {
  import opened IndexLists

  /** Every listed index names a row. */
  predicate InRange(adj: seq<seq<nat>>) {
    forall j, t :: 0 <= j < |adj| && 0 <= t < |adj[j]| ==> adj[j][t] < |adj|
  }

  /** Adjacency lists as the compatibility stage builds them: in range and
      each list ascending, so without repeats. */
  predicate WellFormed(adj: seq<seq<nat>>) {
    InRange(adj) && forall j :: 0 <= j < |adj| ==> Ascending(adj[j])
  }

  /** A stack of row indices, bottom level first, each row allowed directly
      above the one below it. */
  ghost predicate IsStack(adj: seq<seq<nat>>, p: seq<nat>) {
    && (forall i :: 0 <= i < |p| ==> p[i] < |adj|)
    && (forall i :: 0 <= i < |p| - 1 ==> p[i + 1] in adj[p[i]])
  }

  /** All sequences of `h` indices below `n`. */
  ghost function IndexSeqs(n: nat, h: nat): set<seq<nat>> {
    if h == 0 then {[]}
    else set p, k: nat | p in IndexSeqs(n, h - 1) && k < n :: p + [k]
  }

  /** All stacks of height `h`: the panels being counted. */
  ghost function StackSet(adj: seq<seq<nat>>, h: nat): set<seq<nat>> {
    set p | p in IndexSeqs(|adj|, h) && IsStack(adj, p)
  }

  /** The members of `s` whose entry at `pos` is `j`. */
  ghost function Slice(s: set<seq<nat>>, pos: nat, j: nat): set<seq<nat>> {
    set p | p in s && pos < |p| && p[pos] == j
  }

  /** The members of `s` whose entry at `pos` is below `j`. */
  ghost function Below(s: set<seq<nat>>, pos: nat, j: nat): set<seq<nat>> {
    set p | p in s && pos < |p| && p[pos] < j
  }

  /** The stacks of height `h` with row `k` on top. */
  ghost function Topped(adj: seq<seq<nat>>, h: nat, k: nat): set<seq<nat>>
    requires h >= 1
  {
    Slice(StackSet(adj, h), h - 1, k)
  }

  /** Each member of `s` with `k` put on top. */
  ghost function Extend(s: set<seq<nat>>, k: nat): set<seq<nat>> {
    set p | p in s :: p + [k]
  }

  /** The sum of the first `j` entries. */
  function Total(v: seq<nat>, j: nat): nat
    requires j <= |v|
  {
    if j == 0 then 0 else Total(v, j - 1) + v[j - 1]
  }

  /** What each row below passes up to row `k` in one round: its own count,
      once per occurrence of `k` in its list. */
  function Terms(adj: seq<seq<nat>>, current: seq<nat>, k: nat): seq<nat>
    requires |current| == |adj|
  {
    seq(|adj|, j requires 0 <= j < |adj| => current[j] * multiset(adj[j])[k])
  }

  /** One round of propagation, gathered per target row: the vector times
      the adjacency matrix. */
  function Propagate(adj: seq<seq<nat>>, current: seq<nat>): seq<nat>
    requires |current| == |adj|
  {
    seq(|adj|, k requires 0 <= k < |adj| => Total(Terms(adj, current, k), |adj|))
  }

  /** The level vector after `h - 1` rounds from all ones. */
  function Level(adj: seq<seq<nat>>, h: nat): (v: seq<nat>)
    requires h >= 1
    ensures |v| == |adj|
  {
    if h == 1 then seq(|adj|, _ => 1) else Propagate(adj, Level(adj, h - 1))
  }

  // ---------------------------------------------------------------------
  // The two loops of the source.
  // ---------------------------------------------------------------------

  /** One round of the source's propagation, scattered per source row: a
      fresh all-zero vector, then for each row `j` and each row `k` on its
      list, `current[j]` is added to entry `k`. */
  method NextLevel(adj: seq<seq<nat>>, current: seq<nat>) returns (next: seq<nat>)
    requires InRange(adj) && |current| == |adj|
    ensures next == Propagate(adj, current)
  {
    var numRows := |adj|;
    next := seq(numRows, _ => 0);
    var j := 0;
    while j < numRows
      invariant j <= numRows && |next| == numRows
      invariant forall k :: 0 <= k < numRows ==> next[k] == Total(Terms(adj, current, k), j)
    {
      var times := current[j];
      var compatibleRows := adj[j];
      ghost var before := next;
      var t := 0;
      while t < |compatibleRows|
        invariant t <= |compatibleRows| && |next| == numRows
        invariant forall k :: 0 <= k < numRows ==>
                    next[k] == before[k] + times * multiset(compatibleRows[..t])[k]
      {
        var compatRow := compatibleRows[t];
        ScatterOne(before, next, compatibleRows, t, times);
        next := next[compatRow := next[compatRow] + times];
        t := t + 1;
      }
      assert compatibleRows[..t] == adj[j];
      forall k | 0 <= k < numRows
        ensures next[k] == Total(Terms(adj, current, k), j + 1)
      {
        TermsStep(adj, current, k, j);
      }
      j := j + 1;
    }
  }

  /** Adding `times` at entry `s[t]` extends the scatter of `s[..t]` to
      the scatter of `s[..t + 1]`. */
  lemma ScatterOne(before: seq<nat>, next: seq<nat>, s: seq<nat>, t: nat, times: nat)
    requires t < |s| && s[t] < |next| && |before| == |next|
    requires forall k :: 0 <= k < |next| ==> next[k] == before[k] + times * multiset(s[..t])[k]
    ensures forall k :: 0 <= k < |next| ==>
              next[s[t] := next[s[t]] + times][k] == before[k] + times * multiset(s[..t + 1])[k]
  {
    assert s[..t + 1] == s[..t] + [s[t]];
    forall k | 0 <= k < |next|
      ensures times * multiset(s[..t + 1])[k]
              == times * multiset(s[..t])[k] + (if s[t] == k then times else 0)
    {
      assert multiset(s[..t + 1])[k] == multiset(s[..t])[k] + (if s[t] == k then 1 else 0);
    }
  }

  lemma TermsStep(adj: seq<seq<nat>>, current: seq<nat>, k: nat, j: nat)
    requires |current| == |adj| && j < |adj|
    ensures Total(Terms(adj, current, k), j + 1)
            == Total(Terms(adj, current, k), j) + current[j] * multiset(adj[j])[k]
  {
  }

  /** The count of `getNumberOfPanels`: all ones, `height - 1` rounds, then
      the sum of the entries. It is the number of stacks of that height. */
  method CountPanels(adj: seq<seq<nat>>, height: nat) returns (count: nat)
    requires WellFormed(adj) && height >= 1
    ensures count == |StackSet(adj, height)|
  {
    var numRows := |adj|;
    var currentLevel := seq(numRows, _ => 1);
    var i := 1;
    while i < height
      invariant 1 <= i <= height
      invariant currentLevel == Level(adj, i)
    {
      currentLevel := NextLevel(adj, currentLevel);
      i := i + 1;
    }
    count := 0;
    var k := 0;
    while k < numRows
      invariant k <= numRows && count == Total(currentLevel, k)
    {
      count := count + currentLevel[k];
      k := k + 1;
    }
    LevelTotalCountsStacks(adj, height);
  }

  // ---------------------------------------------------------------------
  // The propagation counts stacks.
  // ---------------------------------------------------------------------

  lemma {:induction false} IndexSeqsMembership(n: nat, h: nat, p: seq<nat>)
    ensures p in IndexSeqs(n, h) <==> |p| == h && forall i :: 0 <= i < h ==> p[i] < n
  {
    if h > 0 {
      if p in IndexSeqs(n, h) {
        var q, k: nat :| q in IndexSeqs(n, h - 1) && k < n && p == q + [k];
        IndexSeqsMembership(n, h - 1, q);
      }
      if |p| == h && forall i :: 0 <= i < h ==> p[i] < n {
        var q := p[..h - 1];
        IndexSeqsMembership(n, h - 1, q);
        assert p == q + [p[h - 1]];
      }
    }
  }

  lemma StackSetMembership(adj: seq<seq<nat>>, h: nat, p: seq<nat>)
    ensures p in StackSet(adj, h) <==> |p| == h && IsStack(adj, p)
  {
    IndexSeqsMembership(|adj|, h, p);
  }

  /** Putting the same row on top of distinct stacks gives distinct stacks. */
  lemma {:induction false} ExtendCard(s: set<seq<nat>>, k: nat)
    ensures |Extend(s, k)| == |s|
    decreases s
  {
    if s != {} {
      var x :| x in s;
      var rest := s - {x};
      ExtendCard(rest, k);
      assert Extend(s, k) == Extend(rest, k) + {x + [k]};
      forall p | p in rest
        ensures p + [k] != x + [k]
      {
        AppendInjective(p, x, k);
      }
    }
  }

  lemma AppendInjective(p: seq<nat>, q: seq<nat>, k: nat)
    ensures p + [k] == q + [k] ==> p == q
  {
    assert (p + [k])[..|p|] == p;
    assert (q + [k])[..|q|] == q;
  }

  /** Splitting a set by the value at one position: the part below `j` is
      as large as the slices for `0 .. j - 1` together. */
  lemma {:induction false} PartitionBySlot(s: set<seq<nat>>, pos: nat, j: nat, sizes: seq<nat>)
    requires j <= |sizes|
    requires forall j' :: 0 <= j' < |sizes| ==> |Slice(s, pos, j')| == sizes[j']
    ensures |Below(s, pos, j)| == Total(sizes, j)
  {
    if j == 0 {
      assert Below(s, pos, 0) == {};
    } else {
      PartitionBySlot(s, pos, j - 1, sizes);
      assert Below(s, pos, j) == Below(s, pos, j - 1) + Slice(s, pos, j - 1);
      assert Below(s, pos, j - 1) * Slice(s, pos, j - 1) == {};
    }
  }

  /** In a list without repeats, an index occurs once or not at all. */
  lemma {:induction false} AscendingOccurrences(s: seq<nat>, k: nat)
    requires Ascending(s)
    ensures multiset(s)[k] == if k in s then 1 else 0
  {
    if |s| > 0 {
      var init := s[..|s| - 1];
      assert s == init + [s[|s| - 1]];
      AscendingOccurrences(init, k);
      if s[|s| - 1] == k {
        assert k !in init;
      }
    }
  }

  /** The stacks of height `h + 1` topped by `k` whose level-`h` row is `j`
      are the stacks of height `h` topped by `j`, each with `k` put on top,
      when `k` may sit on `j`, and there are none otherwise. */
  lemma SliceOfTopped(adj: seq<seq<nat>>, h: nat, k: nat, j: nat)
    requires InRange(adj) && h >= 1 && k < |adj| && j < |adj|
    ensures Slice(Topped(adj, h + 1, k), h - 1, j)
            == if k in adj[j] then Extend(Topped(adj, h, j), k) else {}
  {
    var lhs := Slice(Topped(adj, h + 1, k), h - 1, j);
    var rhs := if k in adj[j] then Extend(Topped(adj, h, j), k) else {};
    forall q | q in lhs
      ensures q in rhs
    {
      StackSetMembership(adj, h + 1, q);
      var p := q[..h];
      assert q == p + [k];
      assert IsStack(adj, p);
      StackSetMembership(adj, h, p);
      assert p in Topped(adj, h, j);
    }
    forall q | q in rhs
      ensures q in lhs
    {
      var p :| p in Topped(adj, h, j) && q == p + [k];
      StackSetMembership(adj, h, p);
      assert IsStack(adj, q);
      StackSetMembership(adj, h + 1, q);
    }
  }

  /** The stacks of height 1 topped by `k`: the single one-row stack. */
  lemma ToppedAtHeightOne(adj: seq<seq<nat>>, k: nat)
    requires k < |adj|
    ensures Topped(adj, 1, k) == {[k]}
  {
    StackSetMembership(adj, 1, [k]);
    forall p | p in Topped(adj, 1, k)
      ensures p == [k]
    {
      StackSetMembership(adj, 1, p);
    }
  }

  /** The loop invariant of the propagation: after `h - 1` rounds, entry `k`
      of the level vector is the number of stacks of height `h` with row `k`
      on top. */
  lemma {:induction false} LevelCountsStacks(adj: seq<seq<nat>>, h: nat)
    requires WellFormed(adj) && h >= 1
    ensures forall k :: 0 <= k < |adj| ==> Level(adj, h)[k] == |Topped(adj, h, k)|
  {
    if h == 1 {
      forall k | 0 <= k < |adj|
        ensures Level(adj, h)[k] == |Topped(adj, h, k)|
      {
        ToppedAtHeightOne(adj, k);
      }
    } else {
      LevelCountsStacks(adj, h - 1);
      var current := Level(adj, h - 1);
      forall k | 0 <= k < |adj|
        ensures Level(adj, h)[k] == |Topped(adj, h, k)|
      {
        var s := Topped(adj, h, k);
        var sizes := Terms(adj, current, k);
        forall j | 0 <= j < |adj|
          ensures |Slice(s, h - 2, j)| == sizes[j]
        {
          SliceOfTopped(adj, h - 1, k, j);
          ExtendCard(Topped(adj, h - 1, j), k);
          AscendingOccurrences(adj[j], k);
        }
        PartitionBySlot(s, h - 2, |adj|, sizes);
        forall p | p in s
          ensures p in Below(s, h - 2, |adj|)
        {
          StackSetMembership(adj, h, p);
        }
        assert Below(s, h - 2, |adj|) == s;
      }
    }
  }

  /** The sum of the level vector after `h - 1` rounds is the number of
      stacks of height `h`. */
  lemma LevelTotalCountsStacks(adj: seq<seq<nat>>, h: nat)
    requires WellFormed(adj) && h >= 1
    ensures Total(Level(adj, h), |adj|) == |StackSet(adj, h)|
  {
    LevelCountsStacks(adj, h);
    var s := StackSet(adj, h);
    PartitionBySlot(s, h - 1, |adj|, Level(adj, h));
    forall p | p in s
      ensures p in Below(s, h - 1, |adj|)
    {
      StackSetMembership(adj, h, p);
    }
    assert Below(s, h - 1, |adj|) == s;
  }

  // ---------------------------------------------------------------------
  // Consequences.
  // ---------------------------------------------------------------------

  lemma {:induction false} TotalOfOnes(n: nat, j: nat)
    requires j <= n
    ensures Total(seq(n, _ => 1), j) == j
  {
    if j > 0 {
      TotalOfOnes(n, j - 1);
    }
  }

  /** At height 1 every row is a stack on its own. */
  lemma HeightOneCount(adj: seq<seq<nat>>)
    requires WellFormed(adj)
    ensures |StackSet(adj, 1)| == |adj|
  {
    LevelTotalCountsStacks(adj, 1);
    TotalOfOnes(|adj|, |adj|);
  }

  /** Without rows there is no stack of any positive height. */
  lemma NoRowsNoStacks(adj: seq<seq<nat>>, h: nat)
    requires |adj| == 0 && h >= 1
    ensures StackSet(adj, h) == {}
  {
    forall p | p in StackSet(adj, h)
      ensures false
    {
      StackSetMembership(adj, h, p);
    }
  }

  /** Every stack of height `h + 1` rests on a stack of height `h`. */
  lemma StackRestsOnStack(adj: seq<seq<nat>>, h: nat, p: seq<nat>)
    requires p in StackSet(adj, h + 1)
    ensures |p| == h + 1 && p[..h] in StackSet(adj, h)
  {
    StackSetMembership(adj, h + 1, p);
    StackSetMembership(adj, h, p[..h]);
  }

  /** Once no stack of some height exists, none of any greater height does. */
  lemma {:induction false} ZeroCountPersists(adj: seq<seq<nat>>, h: nat, h': nat)
    requires h <= h' && |StackSet(adj, h)| == 0
    ensures |StackSet(adj, h')| == 0
    decreases h' - h
  {
    if h < h' {
      if StackSet(adj, h + 1) != {} {
        var p :| p in StackSet(adj, h + 1);
        StackRestsOnStack(adj, h, p);
      }
      ZeroCountPersists(adj, h + 1, h');
    }
  }

  /** An all-zero level vector stays all zero: each round starts from a
      fresh zero vector and only adds multiples of the current entries. */
  lemma ZeroLevelStaysZero(adj: seq<seq<nat>>, current: seq<nat>)
    requires |current| == |adj| && forall j :: 0 <= j < |current| ==> current[j] == 0
    ensures forall k :: 0 <= k < |adj| ==> Propagate(adj, current)[k] == 0
  {
    forall k | 0 <= k < |adj|
      ensures Propagate(adj, current)[k] == 0
    {
      TotalOfZeros(Terms(adj, current, k), |adj|);
    }
  }

  lemma {:induction false} TotalOfZeros(v: seq<nat>, j: nat)
    requires j <= |v| && forall i :: 0 <= i < |v| ==> v[i] == 0
    ensures Total(v, j) == 0
  {
    if j > 0 {
      TotalOfZeros(v, j - 1);
    }
  }
}
