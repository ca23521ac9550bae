/** Lists of row indices, the shape shared by the compatibility lists that
    one stage builds and the level counter that consumes them. */
module IndexLists {

  /** Strictly increasing, hence without repeats. */
  predicate Ascending(s: seq<nat>) {
    forall a, b :: 0 <= a < b < |s| ==> s[a] < s[b]
  }
}
