/** Rank normalisation of a field: every pixel is replaced by its position in
    descending order of value, divided by the pixel count. */
module Histogram {
  import opened Fields

  /** The value given to the pixel of rank `k`. */
  function Level(k: int): (x: real)
    ensures 0 <= k ==> 0.0 <= x
    ensures k < PixelCount ==> x < 1.0
  {
    k as real / PixelCount as real
  }

  /** Levels are ordered as their ranks are. */
  lemma LevelIsMonotone(a: int, b: int)
    ensures a < b <==> Level(a) < Level(b)
  {
  }

  /** The field a rank assignment produces. */
  function Levels(r: seq<nat>): (w: seq<real>)
    ensures |w| == |r|
    ensures forall i :: 0 <= i < |r| ==> w[i] == Level(r[i])
  {
    seq(|r|, i requires 0 <= i < |r| => Level(r[i]))
  }

  /** No index occurs twice in `s`. */
  predicate Distinct(s: seq<nat>)
  {
    forall i, j :: 0 <= i < j < |s| ==> s[i] != s[j]
  }

  /** Every index in `s` is below `n`. */
  predicate Below(s: seq<nat>, n: nat)
  {
    forall i :: 0 <= i < |s| ==> s[i] < n
  }

  /** `s` is an ordering of the indices `0 .. n-1`. */
  predicate IsPermutation(s: seq<nat>, n: nat)
  {
    |s| == n && Below(s, n) && Distinct(s)
  }

  /** `r` gives each pixel of `v` its own rank in `0 .. |v|-1`, and a pixel of
      strictly greater value a strictly smaller rank. Pixels of equal value
      may receive their ranks in either order. */
  predicate IsRanking(v: seq<real>, r: seq<nat>)
  {
    && IsPermutation(r, |v|)
    && forall i, j :: 0 <= i < |v| && 0 <= j < |v| && v[i] > v[j] ==> r[i] < r[j]
  }

  /** `w` is a possible outcome of normalising `v`. */
  ghost predicate IsNormalizationOf(v: seq<real>, w: seq<real>)
  {
    exists r :: IsRanking(v, r) && w == Levels(r)
  }

  /** In a sequence of distinct elements the last one does not occur before. */
  lemma LastNotInFront(s: seq<nat>)
    requires Distinct(s) && |s| > 0
    ensures s[|s| - 1] !in s[..|s| - 1]
  {
  }

  /** Removing the largest index `n-1` from a permutation of `0 .. n-1`
      leaves a permutation of `0 .. n-2` whose entries all occur in `s`. */
  lemma RemoveTop(s: seq<nat>, n: nat, j: nat) returns (rest: seq<nat>)
    requires IsPermutation(s, n) && j < n && s[j] == n - 1
    ensures IsPermutation(rest, n - 1)
    ensures forall x :: x in rest ==> x in s
  {
    rest := s[..j] + s[j + 1..];
    assert forall i :: 0 <= i < |rest| ==> rest[i] == (if i < j then s[i] else s[i + 1]);
    forall x | x in rest ensures x in s {
      var i :| 0 <= i < |rest| && rest[i] == x;
      assert x == (if i < j then s[i] else s[i + 1]);
    }
  }

  /** Pigeonhole: `n` distinct indices below `n` are all of them. */
  lemma {:induction false} PermutationCovers(s: seq<nat>, n: nat)
    requires IsPermutation(s, n)
    ensures forall x: nat :: x < n ==> x in s
    decreases n
  {
    if n > 0 {
      var top := n - 1;
      if top in s {
        var j :| 0 <= j < |s| && s[j] == top;
        var rest := RemoveTop(s, n, j);
        PermutationCovers(rest, top);
      } else {
        var front := s[..top];
        LastNotInFront(s);
        assert IsPermutation(front, top);
        PermutationCovers(front, top);
        assert false;
      }
    }
  }

  /** Every rank `0 .. |v|-1` is held by some pixel. */
  lemma RankIsTaken(v: seq<real>, r: seq<nat>, k: nat) returns (i: nat)
    requires IsRanking(v, r)
    requires k < |v|
    ensures i < |v| && r[i] == k
  {
    PermutationCovers(r, |v|);
    assert k in r;
    i :| 0 <= i < |r| && r[i] == k;
  }

  /** A full-size field in which each of the levels 0/N, 1/N, ..., (N-1)/N
      is held by exactly one pixel, and no pixel holds anything else. */
  ghost predicate IsUniform(w: seq<real>)
  {
    && |w| == PixelCount
    && (forall k :: 0 <= k < PixelCount ==> Level(k) in w)
    && (forall i :: 0 <= i < |w| ==> exists k :: 0 <= k < PixelCount && w[i] == Level(k))
    && (forall i, j :: 0 <= i < j < |w| ==> w[i] != w[j])
  }

  /** A normalised full-size field takes exactly the values 0/N, 1/N, ...,
      (N-1)/N, each at exactly one pixel. */
  lemma NormalizedIsUniform(v: seq<real>, r: seq<nat>)
    requires IsRanking(v, r)
    requires |v| == PixelCount
    ensures IsUniform(Levels(r))
  {
    var w := Levels(r);
    forall k | 0 <= k < PixelCount ensures Level(k) in w {
      var i := RankIsTaken(v, r, k);
      assert w[i] == Level(k);
    }
    forall i | 0 <= i < PixelCount ensures exists k :: 0 <= k < PixelCount && w[i] == Level(k) {
      assert w[i] == Level(r[i]);
    }
    forall i, j | 0 <= i < j < PixelCount ensures w[i] != w[j] {
      LevelIsMonotone(r[i], r[j]);
      LevelIsMonotone(r[j], r[i]);
    }
  }

  /** Normalisation reverses strict order: a brighter pixel gets a smaller level. */
  lemma NormalizationReversesOrder(v: seq<real>, r: seq<nat>, i: nat, j: nat)
    requires IsRanking(v, r)
    requires i < |v| && j < |v|
    ensures v[i] > v[j] ==> Levels(r)[i] < Levels(r)[j]
    ensures Levels(r)[i] < Levels(r)[j] ==> v[i] >= v[j]
  {
    LevelIsMonotone(r[i], r[j]);
  }

  /** The strictly greatest pixel receives level 0. */
  lemma GreatestGetsZero(v: seq<real>, r: seq<nat>, i: nat)
    requires IsRanking(v, r)
    requires i < |v|
    requires forall j :: 0 <= j < |v| && j != i ==> v[i] > v[j]
    ensures r[i] == 0 && Levels(r)[i] == 0.0
  {
    var z := RankIsTaken(v, r, 0);
  }

  /** The strictly smallest pixel receives the top level (|v|-1)/N. */
  lemma SmallestGetsTop(v: seq<real>, r: seq<nat>, i: nat)
    requires IsRanking(v, r)
    requires i < |v|
    requires forall j :: 0 <= j < |v| && j != i ==> v[i] < v[j]
    ensures r[i] == |v| - 1 && Levels(r)[i] == Level(|v| - 1)
  {
    var t := RankIsTaken(v, r, |v| - 1);
  }

  /** No two pixels of `v` hold the same value. */
  predicate DistinctValues(v: seq<real>)
  {
    forall i, j :: 0 <= i < |v| && 0 <= j < |v| && i != j ==> v[i] != v[j]
  }

  /** Without ties, two rankings agree on every pixel whose rank in the first
      is below `k`. */
  lemma {:induction false} RankingsAgreeBelow(v: seq<real>, r1: seq<nat>, r2: seq<nat>, k: nat)
    requires IsRanking(v, r1) && IsRanking(v, r2) && DistinctValues(v)
    requires k <= |v|
    ensures forall i :: 0 <= i < |v| && r1[i] < k ==> r2[i] == r1[i]
  {
    if k > 0 {
      RankingsAgreeBelow(v, r1, r2, k - 1);
      var i := RankIsTaken(v, r1, k - 1);
      if r2[i] < k - 1 {
        var i2 := RankIsTaken(v, r1, r2[i]);
        assert false;
      } else if r2[i] > k - 1 {
        var j := RankIsTaken(v, r2, k - 1);
        assert false;
      }
      assert forall i' :: 0 <= i' < |v| && r1[i'] == k - 1 ==> i' == i;
    }
  }

  /** Without ties the ranking is unique: normalisation is deterministic, and
      only ties leave room for the sort's choices. */
  lemma RankingOfDistinctValuesIsUnique(v: seq<real>, r1: seq<nat>, r2: seq<nat>)
    requires IsRanking(v, r1) && IsRanking(v, r2) && DistinctValues(v)
    ensures r1 == r2
  {
    RankingsAgreeBelow(v, r1, r2, |v|);
  }

  /** Without ties the normalised field is determined by the input field. */
  lemma NormalizationOfDistinctValuesIsDeterministic(v: seq<real>, w1: seq<real>, w2: seq<real>)
    requires IsNormalizationOf(v, w1) && IsNormalizationOf(v, w2) && DistinctValues(v)
    ensures w1 == w2
  {
    var r1 :| IsRanking(v, r1) && w1 == Levels(r1);
    var r2 :| IsRanking(v, r2) && w2 == Levels(r2);
    RankingOfDistinctValuesIsUnique(v, r1, r2);
  }

  /** Every level of a field no larger than the image lies in [0, 1). */
  lemma NormalizedInUnitInterval(v: seq<real>, r: seq<nat>)
    requires IsRanking(v, r)
    requires |v| <= PixelCount
    ensures forall i :: 0 <= i < |r| ==> 0.0 <= Levels(r)[i] < 1.0
  {
  }

  /** Writing rank `k` into the pixel at position `k` of a descending
      ordering of the pixels yields a ranking of their values. */
  lemma SortedOrderGivesRanking(v: seq<real>, order: seq<nat>, rk: seq<nat>, w: seq<real>)
    requires IsPermutation(order, |v|)
    requires SortedDescending(v, order)
    requires |rk| == |v| && |w| == |v|
    requires forall k :: 0 <= k < |order| ==> rk[order[k]] == k && w[order[k]] == Level(k)
    ensures IsRanking(v, rk) && w == Levels(rk)
  {
    var n := |v|;
    PermutationCovers(order, n);
    forall p | 0 <= p < n ensures rk[p] < n && order[rk[p]] == p && w[p] == Level(rk[p]) {
      assert p in order;
      var k :| 0 <= k < n && order[k] == p;
    }
    assert Distinct(rk) by {
      forall i, j | 0 <= i < j < n ensures rk[i] != rk[j] {
        assert order[rk[i]] == i && order[rk[j]] == j;
      }
    }
    forall i, j | 0 <= i < n && 0 <= j < n && v[i] > v[j] ensures rk[i] < rk[j] {
      var p, q := rk[i], rk[j];
      assert order[p] == i && order[q] == j;
    }
  }

  /** Exchanging two entries of a permutation leaves a permutation. */
  lemma SwapKeepsPermutation(s: seq<nat>, n: nat, i: nat, j: nat)
    requires IsPermutation(s, n) && i < |s| && j < |s|
    ensures IsPermutation(s[i := s[j]][j := s[i]], n)
  {
    var t := s[i := s[j]][j := s[i]];
    forall p, q | 0 <= p < q < |t| ensures t[p] != t[q] {
      var p', q' := if p == i then j else if p == j then i else p, if q == i then j else if q == j then i else q;
      assert t[p] == s[p'] && t[q] == s[q'] && p' != q';
    }
  }

  /** `pixels.extend(img.pixels_mut())`: the pixel indices in raster order. */
  method CollectPixels(n: nat) returns (pixels: array<nat>)
    ensures fresh(pixels)
    ensures pixels.Length == n
    ensures forall p :: 0 <= p < n ==> pixels[p] == p
  {
    pixels := new nat[n];
    for k := 0 to n
      invariant forall p :: 0 <= p < k ==> pixels[p] == p
    {
      pixels[k] := k;
    }
  }

  /** A position, at or after `from`, of a pixel of greatest value among the
      pixels listed from there on. */
  method PositionOfGreatest(img: array<real>, pixels: array<nat>, from: nat) returns (m: nat)
    requires from < pixels.Length
    requires Below(pixels[..], img.Length)
    ensures from <= m < pixels.Length
    ensures forall q :: from <= q < pixels.Length ==> img[pixels[m]] >= img[pixels[q]]
  {
    m := from;
    for j := from + 1 to pixels.Length
      invariant from <= m < pixels.Length
      invariant forall q :: from <= q < j ==> img[pixels[m]] >= img[pixels[q]]
    {
      if img[pixels[j]] > img[pixels[m]] {
        m := j;
      }
    }
  }

  /** The pixels listed in `s` appear in descending order of value. */
  ghost predicate SortedDescending(v: seq<real>, s: seq<nat>)
    requires Below(s, |v|)
  {
    forall p, q :: 0 <= p < q < |s| ==> v[s[p]] >= v[s[q]]
  }

  /** The first `i` entries of `s` are in descending order of value, and
      none of them is below an entry after them. */
  ghost predicate SelectedUpTo(v: seq<real>, s: seq<nat>, i: nat)
    requires Below(s, |v|) && i <= |s|
  {
    && (forall p, q :: 0 <= p < q < i ==> v[s[p]] >= v[s[q]])
    && (forall p, q :: 0 <= p < i <= q < |s| ==> v[s[p]] >= v[s[q]])
  }

  /** One step of selection: bringing a greatest entry of the unsorted part to
      its front extends the sorted prefix by one. */
  lemma SelectionStep(v: seq<real>, s: seq<nat>, i: nat, m: nat)
    requires IsPermutation(s, |v|) && i <= m < |s|
    requires SelectedUpTo(v, s, i)
    requires forall q :: i <= q < |s| ==> v[s[m]] >= v[s[q]]
    ensures IsPermutation(s[i := s[m]][m := s[i]], |v|)
    ensures SelectedUpTo(v, s[i := s[m]][m := s[i]], i + 1)
  {
    SwapKeepsPermutation(s, |v|, i, m);
  }

  /** Exchanges two entries of `a`. */
  method Swap(a: array<nat>, i: nat, j: nat)
    requires i < a.Length && j < a.Length
    modifies a
    ensures a[..] == old(a[..])[i := old(a[j])][j := old(a[i])]
  {
    a[i], a[j] := a[j], a[i];
  }

  /** The stand-in for `sort_unstable_by` with the descending comparator:
      reorders the pixel indices in `pixels` so that their values in `img`
      never increase. Ties end up in an order the contract leaves open. */
  method SortDescending(img: array<real>, pixels: array<nat>)
    requires IsPermutation(pixels[..], img.Length)
    modifies pixels
    ensures IsPermutation(pixels[..], img.Length)
    ensures SortedDescending(img[..], pixels[..])
  {
    var n := pixels.Length;
    for i := 0 to n
      invariant IsPermutation(pixels[..], img.Length)
      invariant SelectedUpTo(img[..], pixels[..], i)
    {
      var m := PositionOfGreatest(img, pixels, i);
      SelectionStep(img[..], pixels[..], i, m);
      Swap(pixels, i, m);
    }
  }

  /** The write loop of `normalize_histogram`: the pixel at sorted position
      `index` receives `index / PixelCount`, and every pixel is written once.
      `rk` is the rank each pixel received. */
  method WriteLevels(img: array<real>, pixels: array<nat>) returns (ghost rk: seq<nat>)
    requires IsPermutation(pixels[..], img.Length)
    modifies img
    ensures |rk| == img.Length
    ensures forall k :: 0 <= k < pixels.Length ==> img[pixels[k]] == Level(k) && rk[pixels[k]] == k
  {
    var n := pixels.Length;
    rk := seq(n, p => 0);
    for index := 0 to n
      invariant |rk| == n
      invariant forall k :: 0 <= k < index ==> img[pixels[k]] == Level(k) && rk[pixels[k]] == k
    {
      assert forall k :: 0 <= k < n && k != index ==> pixels[k] != pixels[index];
      img[pixels[index]] := Level(index);
      rk := rk[pixels[index] := index];
    }
  }

  /** `normalize_histogram`: collects the pixels, sorts them by descending
      value and writes `index / PixelCount` into the pixel at each sorted
      position. `ranks` is the rank each pixel received. */
  method NormalizeHistogram(img: array<real>) returns (ghost ranks: seq<nat>)
    modifies img
    ensures IsRanking(old(img[..]), ranks)
    ensures img[..] == Levels(ranks)
  {
    var pixels := CollectPixels(img.Length);
    SortDescending(img, pixels);
    ghost var sorted := pixels[..];
    ghost var before := img[..];
    ranks := WriteLevels(img, pixels);
    SortedOrderGivesRanking(before, sorted, ranks, img[..]);
  }
}
