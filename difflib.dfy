/**
 * The similarity score of Python's `difflib.SequenceMatcher(None, a, b).ratio()`
 * (Ratcliff/Obershelp): find the longest matching block, recurse on the parts to
 * its left and right, and score 2*M/T where M is the number of matched characters
 * and T = |a| + |b|. No element is junk, because the matcher is built with
 * `isjunk=None`. Scores are exact fractions, not floating-point numbers.
 */
module Difflib {

  /** A matching block: a[i..i+size] == b[j..j+size]. */
  datatype Block = Block(i: nat, j: nat, size: nat)

  /** The length of the run of equal characters of a and b starting at a[i], b[j], bounded by ahi and bhi. */
  function RunLength(a: string, b: string, i: nat, j: nat, ahi: nat, bhi: nat): (k: nat)
    requires i <= ahi <= |a| && j <= bhi <= |b|
    ensures i + k <= ahi && j + k <= bhi
    decreases ahi - i
  {
    if i < ahi && j < bhi && a[i] == b[j] then 1 + RunLength(a, b, i + 1, j + 1, ahi, bhi) else 0
  }

  /**
   * The run is a common substring, the characters it covers being equal in a and b,
   * and it cannot be extended inside the bounds.
   */
  lemma {:induction false} RunIsCommon(a: string, b: string, i: nat, j: nat, ahi: nat, bhi: nat)
    requires i <= ahi <= |a| && j <= bhi <= |b|
    ensures var k := RunLength(a, b, i, j, ahi, bhi); a[i..i + k] == b[j..j + k]
    ensures var k := RunLength(a, b, i, j, ahi, bhi); i + k == ahi || j + k == bhi || a[i + k] != b[j + k]
    decreases ahi - i
  {
    if i < ahi && j < bhi && a[i] == b[j] {
      RunIsCommon(a, b, i + 1, j + 1, ahi, bhi);
      var k := RunLength(a, b, i + 1, j + 1, ahi, bhi);
      assert a[i..i + 1 + k] == [a[i]] + a[i + 1..i + 1 + k];
      assert b[j..j + 1 + k] == [b[j]] + b[j + 1..j + 1 + k];
    }
  }

  /** Pair (p, q) is visited before pair (i, j): rows of a first, then columns of b. */
  predicate Before(p: nat, q: nat, i: nat, j: nat) {
    p < i || (p == i && q < j)
  }

  /**
   * m is what `find_longest_match` keeps after visiting every start pair of the box
   * [alo, ahi) x [blo, bhi) that comes before (i, j): a longest run, and among the
   * longest the first one visited; (alo, blo, 0) while nothing matched.
   */
  ghost predicate BestAmong(a: string, b: string, alo: nat, ahi: nat, blo: nat, bhi: nat, m: Block, i: nat, j: nat)
    requires alo <= ahi <= |a| && blo <= bhi <= |b|
  {
    && alo <= m.i && m.i + m.size <= ahi && blo <= m.j && m.j + m.size <= bhi
    && (m.size == 0 ==> m.i == alo && m.j == blo)
    && (m.size > 0 ==> RunLength(a, b, m.i, m.j, ahi, bhi) == m.size && Before(m.i, m.j, i, j))
    && (forall p, q :: alo <= p < ahi && blo <= q < bhi && Before(p, q, i, j) ==>
          RunLength(a, b, p, q, ahi, bhi) <= m.size)
    && (forall p, q :: alo <= p < ahi && blo <= q < bhi && Before(p, q, i, j)
          && RunLength(a, b, p, q, ahi, bhi) == m.size > 0
          ==> !Before(p, q, m.i, m.j))
  }

  /** The search of `find_longest_match`: every start pair in order, replacing the best only by a strictly longer run. */
  function Search(a: string, b: string, alo: nat, ahi: nat, blo: nat, bhi: nat, i: nat, j: nat, best: Block): Block
    requires alo <= ahi <= |a| && blo <= bhi <= |b|
    requires alo <= i <= ahi && blo <= j <= bhi
    decreases ahi - i, bhi - j
  {
    if i == ahi then best
    else if j == bhi then Search(a, b, alo, ahi, blo, bhi, i + 1, blo, best)
    else
      var k := RunLength(a, b, i, j, ahi, bhi);
      Search(a, b, alo, ahi, blo, bhi, i, j + 1, if k > best.size then Block(i, j, k) else best)
  }

  /** Visiting (i, j) keeps the best block of what has been visited. */
  lemma VisitPair(a: string, b: string, alo: nat, ahi: nat, blo: nat, bhi: nat, i: nat, j: nat, best: Block)
    requires alo <= ahi <= |a| && blo <= bhi <= |b|
    requires alo <= i < ahi && blo <= j < bhi
    requires BestAmong(a, b, alo, ahi, blo, bhi, best, i, j)
    ensures var k := RunLength(a, b, i, j, ahi, bhi);
      BestAmong(a, b, alo, ahi, blo, bhi, if k > best.size then Block(i, j, k) else best, i, j + 1)
  {
    var k := RunLength(a, b, i, j, ahi, bhi);
    var next := if k > best.size then Block(i, j, k) else best;
    forall p, q | alo <= p < ahi && blo <= q < bhi && Before(p, q, i, j + 1)
      ensures RunLength(a, b, p, q, ahi, bhi) <= next.size
    {
      if Before(p, q, i, j) {
      } else {
        assert p == i && q == j;
      }
    }
    forall p, q | alo <= p < ahi && blo <= q < bhi && Before(p, q, i, j + 1)
        && RunLength(a, b, p, q, ahi, bhi) == next.size > 0
      ensures !Before(p, q, next.i, next.j)
    {
      if Before(p, q, i, j) {
      } else {
        assert p == i && q == j;
      }
    }
  }

  /** Finishing row i of the box is the same as starting row i + 1. */
  lemma NextRow(a: string, b: string, alo: nat, ahi: nat, blo: nat, bhi: nat, i: nat, best: Block)
    requires alo <= ahi <= |a| && blo <= bhi <= |b|
    requires alo <= i < ahi
    requires BestAmong(a, b, alo, ahi, blo, bhi, best, i, bhi)
    ensures BestAmong(a, b, alo, ahi, blo, bhi, best, i + 1, blo)
  {
    forall p, q | alo <= p < ahi && blo <= q < bhi
      ensures Before(p, q, i + 1, blo) == Before(p, q, i, bhi)
    {
    }
  }

  /** Once every row is visited, which column the search stopped at no longer matters. */
  lemma WholeBox(a: string, b: string, alo: nat, ahi: nat, blo: nat, bhi: nat, j: nat, best: Block)
    requires alo <= ahi <= |a| && blo <= bhi <= |b|
    requires BestAmong(a, b, alo, ahi, blo, bhi, best, ahi, j)
    ensures BestAmong(a, b, alo, ahi, blo, bhi, best, ahi, blo)
  {
    forall p, q | alo <= p < ahi && blo <= q < bhi
      ensures Before(p, q, ahi, blo) && Before(p, q, ahi, j)
    {
    }
  }

  lemma {:induction false} SearchFinds(a: string, b: string, alo: nat, ahi: nat, blo: nat, bhi: nat, i: nat, j: nat, best: Block)
    requires alo <= ahi <= |a| && blo <= bhi <= |b|
    requires alo <= i <= ahi && blo <= j <= bhi
    requires BestAmong(a, b, alo, ahi, blo, bhi, best, i, j)
    ensures BestAmong(a, b, alo, ahi, blo, bhi, Search(a, b, alo, ahi, blo, bhi, i, j, best), ahi, blo)
    decreases ahi - i, bhi - j
  {
    if i == ahi {
      WholeBox(a, b, alo, ahi, blo, bhi, j, best);
    } else if j == bhi {
      NextRow(a, b, alo, ahi, blo, bhi, i, best);
      SearchFinds(a, b, alo, ahi, blo, bhi, i + 1, blo, best);
    } else {
      var k := RunLength(a, b, i, j, ahi, bhi);
      VisitPair(a, b, alo, ahi, blo, bhi, i, j, best);
      SearchFinds(a, b, alo, ahi, blo, bhi, i, j + 1, if k > best.size then Block(i, j, k) else best);
    }
  }

  /**
   * `find_longest_match(alo, ahi, blo, bhi)` with no junk: a block of maximal size
   * inside the box, the one starting earliest in a and then earliest in b; the block
   * (alo, blo, 0) when no character matches.
   */
  function LongestMatch(a: string, b: string, alo: nat, ahi: nat, blo: nat, bhi: nat): (m: Block)
    requires alo <= ahi <= |a| && blo <= bhi <= |b|
    ensures alo <= m.i && m.i + m.size <= ahi && blo <= m.j && m.j + m.size <= bhi
    ensures a[m.i..m.i + m.size] == b[m.j..m.j + m.size]
    ensures forall p, q :: alo <= p < ahi && blo <= q < bhi ==> RunLength(a, b, p, q, ahi, bhi) <= m.size
    ensures forall p, q :: alo <= p < ahi && blo <= q < bhi && RunLength(a, b, p, q, ahi, bhi) == m.size > 0 ==>
              m.i < p || (m.i == p && m.j <= q)
    ensures m.size == 0 ==> m.i == alo && m.j == blo
  {
    var start := Block(alo, blo, 0);
    SearchFinds(a, b, alo, ahi, blo, bhi, alo, blo, start);
    var m := Search(a, b, alo, ahi, blo, bhi, alo, blo, start);
    assert m.size > 0 ==> RunLength(a, b, m.i, m.j, ahi, bhi) == m.size;
    RunIsCommon(a, b, m.i, m.j, ahi, bhi);
    m
  }

  /**
   * The number of characters covered by `get_matching_blocks()` inside the box: the
   * longest block plus, recursively, the blocks left of it and right of it.
   */
  function MatchedSize(a: string, b: string, alo: nat, ahi: nat, blo: nat, bhi: nat): (n: nat)
    requires alo <= ahi <= |a| && blo <= bhi <= |b|
    ensures n <= ahi - alo && n <= bhi - blo
    decreases (ahi - alo) + (bhi - blo)
  {
    var m := LongestMatch(a, b, alo, ahi, blo, bhi);
    if m.size == 0 then 0
    else
      m.size
      + (if alo < m.i && blo < m.j then MatchedSize(a, b, alo, m.i, blo, m.j) else 0)
      + (if m.i + m.size < ahi && m.j + m.size < bhi
         then MatchedSize(a, b, m.i + m.size, ahi, m.j + m.size, bhi) else 0)
  }

  /** A score num/den with den > 0, kept as an exact fraction. */
  datatype Ratio = Ratio(num: nat, den: nat)

  /** x > y, by cross-multiplication. */
  predicate Greater(x: Ratio, y: Ratio) {
    x.num * y.den > y.num * x.den
  }

  /** x > 0.6, the threshold of the header matcher. */
  predicate AboveThreshold(x: Ratio) {
    5 * x.num > 3 * x.den
  }

  /** `SequenceMatcher(None, a, b).ratio()`: 2*M/(|a|+|b|), and 1.0 when both strings are empty. */
  function SequenceRatio(a: string, b: string): (r: Ratio)
    ensures 0 < r.den && r.num <= r.den
  {
    var total := |a| + |b|;
    if total == 0 then Ratio(1, 1) else Ratio(2 * MatchedSize(a, b, 0, |a|, 0, |b|), total)
  }

  lemma {:induction false} RunLengthOfSelf(a: string, i: nat)
    requires i <= |a|
    ensures RunLength(a, a, i, i, |a|, |a|) == |a| - i
    decreases |a| - i
  {
    if i < |a| {
      RunLengthOfSelf(a, i + 1);
    }
  }

  /** A string compared with itself scores exactly 1. */
  lemma RatioOfIdentical(a: string)
    ensures SequenceRatio(a, a).num == SequenceRatio(a, a).den
  {
    if a != [] {
      RunLengthOfSelf(a, 0);
      var m := LongestMatch(a, a, 0, |a|, 0, |a|);
      assert m.size >= |a|;
      assert m.i == 0 && m.j == 0 && m.size == |a|;
      assert MatchedSize(a, a, 0, |a|, 0, |a|) == |a|;
    }
  }

  lemma MulMonotone(x: int, y: int, c: int)
    requires x <= y && 0 <= c
    ensures x * c <= y * c
  {
  }

  lemma MulCancel(x: int, y: int, c: int)
    requires x * c < y * c && 0 < c
    ensures x < y
  {
    if x >= y {
      MulMonotone(y, x, c);
    }
  }

  /** A score strictly above one at least as high as x is strictly above x. */
  lemma GreaterThanAtLeast(x: Ratio, y: Ratio, z: Ratio)
    requires 0 < x.den && 0 < y.den && 0 < z.den
    requires !Greater(x, y) && Greater(z, y)
    ensures Greater(z, x)
  {
    MulMonotone(x.num * y.den, y.num * x.den, z.den);
    MulMonotone(y.num * z.den, z.num * y.den - 1, x.den);
    assert x.num * y.den * z.den == (x.num * z.den) * y.den;
    assert y.num * x.den * z.den == y.num * z.den * x.den;
    assert (z.num * y.den - 1) * x.den <= z.num * y.den * x.den;
    assert z.num * y.den * x.den == (z.num * x.den) * y.den;
    MulCancel(x.num * z.den, z.num * x.den, y.den);
  }
}
