/** Subsequences picked by a mask, and the facts about them the drivers need. */
module Seqs {

  /** The subsequence of `xs` made of the elements whose mask bit is set, in their order in `xs`. */
  function Select<T>(xs: seq<T>, mask: seq<bool>): (ys: seq<T>)
    requires |mask| == |xs|
    ensures |ys| <= |xs|
  {
    if xs == [] then [] else (if mask[0] then [xs[0]] else []) + Select(xs[1..], mask[1..])
  }

  predicate Distinct<T(==)>(xs: seq<T>) {
    forall i, j :: 0 <= i < j < |xs| ==> xs[i] != xs[j]
  }

  /** The list 0, 1, ..., n-1. */
  function Range(n: nat): (r: seq<int>)
    ensures |r| == n
    ensures forall i :: 0 <= i < n ==> r[i] == i
  {
    if n == 0 then [] else Range(n - 1) + [n - 1]
  }

  lemma RangeDistinct(n: nat)
    ensures Distinct(Range(n))
  {
  }

  lemma {:induction false} SelectAppend<T>(xs: seq<T>, m: seq<bool>, ys: seq<T>, n: seq<bool>)
    requires |m| == |xs| && |n| == |ys|
    ensures Select(xs + ys, m + n) == Select(xs, m) + Select(ys, n)
  {
    if xs != [] {
      assert (xs + ys)[1..] == xs[1..] + ys;
      assert (m + n)[1..] == m[1..] + n;
      SelectAppend(xs[1..], m[1..], ys, n);
    } else {
      assert xs + ys == ys;
      assert m + n == n;
    }
  }

  /** Splitting off the last element of a selection. */
  lemma {:induction false} SelectSnoc<T>(xs: seq<T>, mask: seq<bool>)
    requires |mask| == |xs| > 0
    ensures Select(xs, mask)
            == Select(xs[..|xs| - 1], mask[..|xs| - 1]) + (if mask[|xs| - 1] then [xs[|xs| - 1]] else [])
  {
    var n := |xs|;
    var xs', m', x, b := xs[..n - 1], mask[..n - 1], xs[n - 1], mask[n - 1];
    assert xs == xs' + [x] && mask == m' + [b];
    SelectAppend(xs', m', [x], [b]);
    assert Select([x], [b]) == (if b then [x] else []) + Select([], []);
  }

  /** A mask that holds exactly below `e` picks the first `e` elements. */
  lemma {:induction false} SelectPrefix<T>(xs: seq<T>, mask: seq<bool>, e: nat)
    requires |mask| == |xs| && e <= |xs|
    requires forall j :: 0 <= j < |mask| ==> mask[j] == (j < e)
    ensures Select(xs, mask) == xs[..e]
  {
    if xs != [] {
      SelectPrefix(xs[1..], mask[1..], if e == 0 then 0 else e - 1);
      if e > 0 {
        assert xs[..e] == [xs[0]] + xs[1..][..e - 1];
      }
    }
  }

  /** Elements past the last set mask bit do not contribute. */
  lemma {:induction false} SelectUpTo<T>(xs: seq<T>, mask: seq<bool>, e: nat)
    requires |mask| == |xs| && e <= |xs|
    requires forall j :: e <= j < |mask| ==> !mask[j]
    ensures Select(xs, mask) == Select(xs[..e], mask[..e])
  {
    if xs != [] && e > 0 {
      assert xs[..e][1..] == xs[1..][..e - 1];
      assert mask[..e][1..] == mask[1..][..e - 1];
      SelectUpTo(xs[1..], mask[1..], e - 1);
    } else if xs != [] {
      SelectPrefix(xs, mask, 0);
    }
  }

  /** A selection holds only elements of its source. */
  lemma {:induction false} SelectSubset<T>(xs: seq<T>, mask: seq<bool>)
    requires |mask| == |xs|
    ensures forall y :: y in Select(xs, mask) ==> y in xs
  {
    if xs != [] {
      SelectSubset(xs[1..], mask[1..]);
    }
  }

  /** A selection of distinct elements has no duplicates. */
  lemma {:induction false} SelectDistinct<T>(xs: seq<T>, mask: seq<bool>)
    requires |mask| == |xs| && Distinct(xs)
    ensures Distinct(Select(xs, mask))
  {
    if xs != [] {
      var rest := Select(xs[1..], mask[1..]);
      SelectDistinct(xs[1..], mask[1..]);
      SelectSubset(xs[1..], mask[1..]);
      if mask[0] {
        assert xs[0] !in xs[1..];
        assert xs[0] !in rest;
        var ys := [xs[0]] + rest;
        forall i, j | 0 <= i < j < |ys| ensures ys[i] != ys[j] {
          if i == 0 {
            assert ys[j] == rest[j - 1];
          } else {
            assert ys[i] == rest[i - 1] && ys[j] == rest[j - 1];
          }
        }
      }
    }
  }
}
