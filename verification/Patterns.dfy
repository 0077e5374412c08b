/** Values of the corpus generator shared by its worker pool and its pattern filter. */
module Patterns {

  datatype SlugPatterns = SlugPatterns(
    slug: string, option: seq<string>, transient: seq<string>, table: seq<string>, cronHook: seq<string>)

  ghost predicate Distinct(xs: seq<string>) {
    forall i, j :: 0 <= i < j < |xs| ==> xs[i] != xs[j]
  }

  lemma {:induction false} DistinctCounts(xs: seq<string>)
    requires Distinct(xs)
    ensures forall x :: multiset(xs)[x] <= 1
  {
    if xs != [] {
      DistinctCounts(xs[1..]);
      assert xs == [xs[0]] + xs[1..];
      assert xs[0] !in xs[1..];
    }
  }
}
