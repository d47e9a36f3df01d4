/**
 * The shape of the edge-inference loops, independent of what is scored:
 * `for i in 0..n, for j in i+1..n`, keeping the pairs a test accepts and
 * producing one value per kept pair. The lemmas here say which pairs are
 * kept, in which order, how many at most, and which value stands at each
 * position.
 */
module PairScan {

  /** A pair of positions in a sequence. */
  datatype Pair = Pair(i: nat, j: nat)

  /** Lexicographic order on pairs: the order in which the loops visit them. */
  predicate LexLess(p: Pair, q: Pair) {
    p.i < q.i || (p.i == q.i && p.j < q.j)
  }

  predicate Ordered(ps: seq<Pair>) {
    forall k, l :: 0 <= k < l < |ps| ==> LexLess(ps[k], ps[l])
  }

  /** The kept pairs (i, k) with i < k < j, in increasing k. */
  function RowPairs<T>(xs: seq<T>, keep: (T, T) -> bool, i: nat, j: nat): (r: seq<Pair>)
    requires i < j <= |xs|
    ensures |r| <= j - i - 1
    decreases j
  {
    if j == i + 1 then []
    else RowPairs(xs, keep, i, j - 1) + (if keep(xs[i], xs[j - 1]) then [Pair(i, j - 1)] else [])
  }

  /** The kept pairs whose first position is below i, in visiting order. */
  function PairsBefore<T>(xs: seq<T>, keep: (T, T) -> bool, i: nat): seq<Pair>
    requires i <= |xs|
    decreases i
  {
    if i == 0 then [] else PairsBefore(xs, keep, i - 1) + RowPairs(xs, keep, i - 1, |xs|)
  }

  /** Every kept pair, in visiting order. */
  function Kept<T>(xs: seq<T>, keep: (T, T) -> bool): seq<Pair> {
    PairsBefore(xs, keep, |xs|)
  }

  /** The values `f(xs[i], i, xs[k], k)` of the kept pairs (i, k) with i < k < j. */
  function RowImages<T, U>(xs: seq<T>, keep: (T, T) -> bool, f: (T, nat, T, nat) -> U, i: nat, j: nat): seq<U>
    requires i < j <= |xs|
    decreases j
  {
    if j == i + 1 then []
    else RowImages(xs, keep, f, i, j - 1) + (if keep(xs[i], xs[j - 1]) then [f(xs[i], i, xs[j - 1], j - 1)] else [])
  }

  /** The values of the kept pairs whose first position is below i. */
  function ImagesBefore<T, U>(xs: seq<T>, keep: (T, T) -> bool, f: (T, nat, T, nat) -> U, i: nat): seq<U>
    requires i <= |xs|
    decreases i
  {
    if i == 0 then [] else ImagesBefore(xs, keep, f, i - 1) + RowImages(xs, keep, f, i - 1, |xs|)
  }

  /** The values of every kept pair, in visiting order. */
  function Images<T, U>(xs: seq<T>, keep: (T, T) -> bool, f: (T, nat, T, nat) -> U): seq<U> {
    ImagesBefore(xs, keep, f, |xs|)
  }

  /** The value f gives pair p of xs. */
  function PairImage<T, U>(xs: seq<T>, f: (T, nat, T, nat) -> U, p: Pair): U
    requires p.i < p.j < |xs|
  {
    f(xs[p.i], p.i, xs[p.j], p.j)
  }

  /** Every pair of ps has its first position in lo..hi-1, is a pair of
      positions of xs with i < j, and is accepted by the test. */
  ghost predicate AllKept<T>(xs: seq<T>, keep: (T, T) -> bool, ps: seq<Pair>, lo: nat, hi: nat) {
    forall k :: 0 <= k < |ps| ==>
      lo <= ps[k].i < hi && ps[k].i < ps[k].j < |xs| && keep(xs[ps[k].i], xs[ps[k].j])
  }

  /** imgs holds, position by position, the values of the pairs ps. */
  ghost predicate ImagesOf<T, U>(xs: seq<T>, f: (T, nat, T, nat) -> U, ps: seq<Pair>, imgs: seq<U>) {
    |imgs| == |ps| &&
    forall k :: 0 <= k < |ps| ==> ps[k].i < ps[k].j < |xs| && imgs[k] == PairImage(xs, f, ps[k])
  }

  lemma AllKeptJoin<T>(xs: seq<T>, keep: (T, T) -> bool, ps: seq<Pair>, qs: seq<Pair>, lo: nat, hi: nat)
    requires AllKept(xs, keep, ps, lo, hi) && AllKept(xs, keep, qs, lo, hi)
    ensures AllKept(xs, keep, ps + qs, lo, hi)
  {
    forall k | 0 <= k < |ps + qs|
      ensures lo <= (ps + qs)[k].i < hi && (ps + qs)[k].i < (ps + qs)[k].j < |xs|
      ensures keep(xs[(ps + qs)[k].i], xs[(ps + qs)[k].j])
    {
      if k < |ps| {
        assert (ps + qs)[k] == ps[k];
      } else {
        assert (ps + qs)[k] == qs[k - |ps|];
      }
    }
  }

  lemma ImagesOfJoin<T, U>(xs: seq<T>, f: (T, nat, T, nat) -> U, ps: seq<Pair>, imgs: seq<U>, qs: seq<Pair>, jmgs: seq<U>)
    requires ImagesOf(xs, f, ps, imgs) && ImagesOf(xs, f, qs, jmgs)
    ensures ImagesOf(xs, f, ps + qs, imgs + jmgs)
  {
    forall k | 0 <= k < |ps + qs|
      ensures (ps + qs)[k].i < (ps + qs)[k].j < |xs| && (imgs + jmgs)[k] == PairImage(xs, f, (ps + qs)[k])
    {
      if k < |ps| {
        assert (ps + qs)[k] == ps[k] && (imgs + jmgs)[k] == imgs[k];
      } else {
        assert (ps + qs)[k] == qs[k - |ps|] && (imgs + jmgs)[k] == jmgs[k - |ps|];
      }
    }
  }

  // ---------------------------------------------------------------------
  // Which pairs are kept

  /** Row i holds exactly the accepted pairs (i, k) with i < k < j. */
  lemma {:induction false} RowPairsExact<T>(xs: seq<T>, keep: (T, T) -> bool, i: nat, j: nat, k: nat)
    requires i < j <= |xs|
    ensures Pair(i, k) in RowPairs(xs, keep, i, j) <==> i < k < j && keep(xs[i], xs[k])
    decreases j
  {
    if j > i + 1 {
      RowPairsExact(xs, keep, i, j - 1, k);
    }
  }

  lemma {:induction false} RowPairsSound<T>(xs: seq<T>, keep: (T, T) -> bool, i: nat, j: nat)
    requires i < j <= |xs|
    ensures AllKept(xs, keep, RowPairs(xs, keep, i, j), i, i + 1)
    decreases j
  {
    if j > i + 1 {
      RowPairsSound(xs, keep, i, j - 1);
      var last := if keep(xs[i], xs[j - 1]) then [Pair(i, j - 1)] else [];
      assert AllKept(xs, keep, last, i, i + 1);
      AllKeptJoin(xs, keep, RowPairs(xs, keep, i, j - 1), last, i, i + 1);
    }
  }

  lemma {:induction false} PairsBeforeSound<T>(xs: seq<T>, keep: (T, T) -> bool, i: nat)
    requires i <= |xs|
    ensures AllKept(xs, keep, PairsBefore(xs, keep, i), 0, i)
    decreases i
  {
    if i > 0 {
      var before, row := PairsBefore(xs, keep, i - 1), RowPairs(xs, keep, i - 1, |xs|);
      PairsBeforeSound(xs, keep, i - 1);
      RowPairsSound(xs, keep, i - 1, |xs|);
      assert AllKept(xs, keep, before, 0, i) && AllKept(xs, keep, row, 0, i);
      AllKeptJoin(xs, keep, before, row, 0, i);
    }
  }

  lemma {:induction false} PairsBeforeComplete<T>(xs: seq<T>, keep: (T, T) -> bool, i: nat, p: Pair)
    requires i <= |xs|
    requires p.i < i && p.i < p.j < |xs| && keep(xs[p.i], xs[p.j])
    ensures p in PairsBefore(xs, keep, i)
    decreases i
  {
    var before, row := PairsBefore(xs, keep, i - 1), RowPairs(xs, keep, i - 1, |xs|);
    assert PairsBefore(xs, keep, i) == before + row;
    if p.i < i - 1 {
      PairsBeforeComplete(xs, keep, i - 1, p);
    } else {
      RowPairsExact(xs, keep, i - 1, |xs|, p.j);
      assert p == Pair(i - 1, p.j);
    }
  }

  /** A pair is kept exactly when i < j < n and the test accepts it. */
  lemma KeptExact<T>(xs: seq<T>, keep: (T, T) -> bool, p: Pair)
    ensures p in Kept(xs, keep) <==> p.i < p.j < |xs| && keep(xs[p.i], xs[p.j])
  {
    if p in Kept(xs, keep) {
      PairsBeforeSound(xs, keep, |xs|);
      var k :| 0 <= k < |Kept(xs, keep)| && Kept(xs, keep)[k] == p;
    } else if p.i < p.j < |xs| && keep(xs[p.i], xs[p.j]) {
      PairsBeforeComplete(xs, keep, |xs|, p);
    }
  }

  // ---------------------------------------------------------------------
  // In which order

  lemma {:induction false} RowPairsOrdered<T>(xs: seq<T>, keep: (T, T) -> bool, i: nat, j: nat)
    requires i < j <= |xs|
    ensures Ordered(RowPairs(xs, keep, i, j))
    ensures forall k :: 0 <= k < |RowPairs(xs, keep, i, j)| ==> RowPairs(xs, keep, i, j)[k].j < j
    decreases j
  {
    if j > i + 1 {
      RowPairsOrdered(xs, keep, i, j - 1);
      RowPairsSound(xs, keep, i, j - 1);
      var r, r' := RowPairs(xs, keep, i, j), RowPairs(xs, keep, i, j - 1);
      forall k | 0 <= k < |r| ensures r[k].j < j {
        if k < |r'| {
          assert r[k] == r'[k];
        }
      }
      forall k, l | 0 <= k < l < |r| ensures LexLess(r[k], r[l]) {
        if l >= |r'| {
          assert r[k] == r'[k];
        }
      }
    }
  }

  /** Joining an ordered list whose first positions are below i to an ordered
      list whose first positions are all i keeps the order. */
  lemma OrderedJoin(before: seq<Pair>, row: seq<Pair>, i: nat)
    requires Ordered(before) && Ordered(row)
    requires forall k :: 0 <= k < |before| ==> before[k].i < i
    requires forall k :: 0 <= k < |row| ==> row[k].i == i
    ensures Ordered(before + row)
  {
    var r := before + row;
    forall k, l | 0 <= k < l < |r| ensures LexLess(r[k], r[l]) {
      if k < |before| && l >= |before| {
        assert r[k] == before[k] && r[l] == row[l - |before|];
      } else if k >= |before| {
        assert r[k] == row[k - |before|] && r[l] == row[l - |before|];
      }
    }
  }

  lemma {:induction false} PairsBeforeOrdered<T>(xs: seq<T>, keep: (T, T) -> bool, i: nat)
    requires i <= |xs|
    ensures Ordered(PairsBefore(xs, keep, i))
    decreases i
  {
    if i > 0 {
      var before, row := PairsBefore(xs, keep, i - 1), RowPairs(xs, keep, i - 1, |xs|);
      PairsBeforeOrdered(xs, keep, i - 1);
      PairsBeforeSound(xs, keep, i - 1);
      RowPairsOrdered(xs, keep, i - 1, |xs|);
      RowPairsSound(xs, keep, i - 1, |xs|);
      OrderedJoin(before, row, i - 1);
      assert PairsBefore(xs, keep, i) == before + row;
    }
  }

  /** The kept pairs come out in strictly increasing lexicographic order,
      so none comes out twice. */
  lemma KeptOrdered<T>(xs: seq<T>, keep: (T, T) -> bool)
    ensures Ordered(Kept(xs, keep))
    ensures forall k, l :: 0 <= k < l < |Kept(xs, keep)| ==> Kept(xs, keep)[k] != Kept(xs, keep)[l]
  {
    PairsBeforeOrdered(xs, keep, |xs|);
  }

  // ---------------------------------------------------------------------
  // How many

  /** The number of unordered pairs of n positions: 0 + 1 + ... + (n - 1). */
  function Triangle(n: nat): nat {
    if n == 0 then 0 else Triangle(n - 1) + (n - 1)
  }

  lemma {:induction false} TriangleClosedForm(n: nat)
    ensures 2 * Triangle(n) == n * (n - 1)
  {
    if n > 0 {
      TriangleClosedForm(n - 1);
      assert (n - 1) * (n - 2) + 2 * (n - 1) == (n - 1) * n;
    }
  }

  /** The pairs with first position below i number Triangle(n) - Triangle(n - i);
      the kept ones are among them. */
  lemma {:induction false} PairsBeforeBound<T>(xs: seq<T>, keep: (T, T) -> bool, i: nat)
    requires i <= |xs|
    ensures |PairsBefore(xs, keep, i)| <= Triangle(|xs|) - Triangle(|xs| - i)
    decreases i
  {
    if i > 0 {
      PairsBeforeBound(xs, keep, i - 1);
      assert Triangle(|xs| - i + 1) == Triangle(|xs| - i) + (|xs| - i);
    }
  }

  /** At most n(n-1)/2 pairs are kept: one per unordered pair. */
  lemma KeptBound<T>(xs: seq<T>, keep: (T, T) -> bool)
    ensures |Kept(xs, keep)| <= |xs| * (|xs| - 1) / 2
  {
    PairsBeforeBound(xs, keep, |xs|);
    TriangleClosedForm(|xs|);
  }

  // ---------------------------------------------------------------------
  // Which value stands where

  lemma {:induction false} RowImagesAt<T, U>(xs: seq<T>, keep: (T, T) -> bool, f: (T, nat, T, nat) -> U, i: nat, j: nat)
    requires i < j <= |xs|
    ensures ImagesOf(xs, f, RowPairs(xs, keep, i, j), RowImages(xs, keep, f, i, j))
    decreases j
  {
    if j > i + 1 {
      RowImagesAt(xs, keep, f, i, j - 1);
      var c := keep(xs[i], xs[j - 1]);
      var ps := if c then [Pair(i, j - 1)] else [];
      var imgs := if c then [f(xs[i], i, xs[j - 1], j - 1)] else [];
      assert ImagesOf(xs, f, ps, imgs);
      ImagesOfJoin(xs, f, RowPairs(xs, keep, i, j - 1), RowImages(xs, keep, f, i, j - 1), ps, imgs);
    }
  }

  lemma {:induction false} ImagesBeforeAt<T, U>(xs: seq<T>, keep: (T, T) -> bool, f: (T, nat, T, nat) -> U, i: nat)
    requires i <= |xs|
    ensures ImagesOf(xs, f, PairsBefore(xs, keep, i), ImagesBefore(xs, keep, f, i))
    decreases i
  {
    if i > 0 {
      ImagesBeforeAt(xs, keep, f, i - 1);
      RowImagesAt(xs, keep, f, i - 1, |xs|);
      ImagesOfJoin(xs, f, PairsBefore(xs, keep, i - 1), ImagesBefore(xs, keep, f, i - 1),
        RowPairs(xs, keep, i - 1, |xs|), RowImages(xs, keep, f, i - 1, |xs|));
    }
  }

  /** Value k is the value of kept pair k, and there is one value per kept pair. */
  lemma ImagesAt<T, U>(xs: seq<T>, keep: (T, T) -> bool, f: (T, nat, T, nat) -> U, k: nat)
    requires k < |Kept(xs, keep)|
    ensures |Images(xs, keep, f)| == |Kept(xs, keep)|
    ensures var p := Kept(xs, keep)[k];
      p.i < p.j < |xs| && Images(xs, keep, f)[k] == f(xs[p.i], p.i, xs[p.j], p.j)
  {
    ImagesBeforeAt(xs, keep, f, |xs|);
  }
}
