/** The choropleth classifier: a tract's percentage decides its fill colour
    (one of six buckets) and its fill opacity (transparent at exactly 0%). */
module Classifier {
  import opened Numbers

  /** The six fill colours, lowest bucket first. */
  const Palette: seq<string> := ["#fee5d9", "#fcbba1", "#fc9272", "#fb6a4a", "#de2d26", "#a50f15"]

  /** The bucket boundaries, ascending; bucket k (k > 0) holds what exceeds
      Thresholds[k - 1] but not Thresholds[k]. */
  const Thresholds: seq<int> := [75, 80, 85, 90, 95]

  const TransparentOpacity: real := 0.0
  const ShapeOpacity: real := 0.75

  /** fillColorPercentage: the first threshold, from the top, that `d`
      strictly exceeds picks the colour; nothing exceeded gives the lowest. */
  function FillColorPercentage(d: Num): (c: string)
    ensures c in Palette
  {
    if Exceeds(d, 95) then "#a50f15"
    else if Exceeds(d, 90) then "#de2d26"
    else if Exceeds(d, 85) then "#fb6a4a"
    else if Exceeds(d, 80) then "#fc9272"
    else if Exceeds(d, 75) then "#fcbba1"
    else "#fee5d9"
  }

  /** fillOpacity: 0 for a zero percentage, 0.75 for anything else (NaN too). */
  function FillOpacity(d: Num): (o: real)
    ensures o == TransparentOpacity <==> d == Finite(0)
    ensures o == ShapeOpacity <==> d != Finite(0)
  {
    if IsZero(d) then 0.0 else 0.75
  }

  /** How many of the thresholds `ts` the value `d` strictly exceeds. */
  function ExceededCount(ts: seq<int>, d: Num): (n: nat)
    ensures n <= |ts|
  {
    if ts == [] then 0
    else ExceededCount(ts[..|ts| - 1], d) + (if Exceeds(d, ts[|ts| - 1]) then 1 else 0)
  }

  /** The bucket rank of a percentage, defined independently of the
      classifier: the number of thresholds it strictly exceeds. */
  function Bucket(d: Num): (k: nat)
    ensures k < |Palette|
  {
    ExceededCount(Thresholds, d)
  }

  /** Over ascending thresholds, exceeding `k` of them means exceeding
      exactly the lowest `k`. */
  lemma {:induction false} ExceededCountIsPrefix(ts: seq<int>, d: Num, j: nat)
    requires forall i, k :: 0 <= i < k < |ts| ==> ts[i] < ts[k]
    requires j < |ts|
    ensures Exceeds(d, ts[j]) <==> j < ExceededCount(ts, d)
  {
    var n := |ts| - 1;
    var front := ts[..n];
    if j < n {
      assert front[j] == ts[j];
      ExceededCountIsPrefix(front, d, j);
      if Exceeds(d, ts[n]) {
        ExceedsLower(d, ts[j], ts[n]);
        ExceededCountIsPrefix(front, d, j);
        ExceededCountFull(front, d);
      }
    } else {
      if Exceeds(d, ts[n]) {
        ExceededCountFull(front, d);
      }
    }
  }

  lemma ExceedsLower(d: Num, lo: int, hi: int)
    requires lo < hi && Exceeds(d, hi)
    ensures Exceeds(d, lo)
  {
  }

  /** A value above the top of ascending thresholds exceeds all of them. */
  lemma {:induction false} ExceededCountFull(ts: seq<int>, d: Num)
    requires forall i, k :: 0 <= i < k < |ts| ==> ts[i] < ts[k]
    requires ts != [] ==> Exceeds(d, ts[|ts| - 1])
    ensures ExceededCount(ts, d) == |ts|
  {
    if ts != [] {
      var n := |ts| - 1;
      if n > 0 {
        ExceedsLower(d, ts[n - 1], ts[n]);
        assert ts[..n][n - 1] == ts[n - 1];
      }
      ExceededCountFull(ts[..n], d);
    }
  }

  /** fillColorPercentage picks the colour of bucket Bucket(d): the highest
      threshold `d` strictly exceeds, or the lowest colour if none. */
  lemma FillColorIsBucket(d: Num)
    ensures FillColorPercentage(d) == Palette[Bucket(d)]
    ensures Bucket(d) > 0 ==> Exceeds(d, Thresholds[Bucket(d) - 1])
    ensures Bucket(d) < |Thresholds| ==> !Exceeds(d, Thresholds[Bucket(d)])
  {
    var k := Bucket(d);
    forall j | 0 <= j < |Thresholds|
      ensures Exceeds(d, Thresholds[j]) <==> j < k
    {
      ExceededCountIsPrefix(Thresholds, d, j);
    }
    assert Exceeds(d, 95) <==> 4 < k by { assert Thresholds[4] == 95; }
    assert Exceeds(d, 90) <==> 3 < k by { assert Thresholds[3] == 90; }
    assert Exceeds(d, 85) <==> 2 < k by { assert Thresholds[2] == 85; }
    assert Exceeds(d, 80) <==> 1 < k by { assert Thresholds[1] == 80; }
    assert Exceeds(d, 75) <==> 0 < k by { assert Thresholds[0] == 75; }
  }

  /** The six colours are pairwise distinct, so a colour names its bucket. */
  lemma PaletteDistinct(i: nat, j: nat)
    requires i < |Palette| && j < |Palette| && Palette[i] == Palette[j]
    ensures i == j
  {
  }

  /** The bucket of a colour (its position in the palette). */
  function ColorRank(c: string): (k: nat)
    requires c in Palette
    ensures k < |Palette| && Palette[k] == c
  {
    if c == Palette[0] then 0
    else if c == Palette[1] then 1
    else if c == Palette[2] then 2
    else if c == Palette[3] then 3
    else if c == Palette[4] then 4
    else 5
  }

  /** The order of numbers, JavaScript's `<=` on the values the script meets
      (NaN is comparable to nothing). */
  predicate NumLe(d1: Num, d2: Num)
  {
    match (d1, d2)
    case (NaN, _) => false
    case (_, NaN) => false
    case (NegInf, _) => true
    case (_, PosInf) => true
    case (Finite(x), Finite(y)) => x <= y
    case _ => false
  }

  /** Raising the percentage never lowers the colour's bucket. */
  lemma {:induction false} FillColorMonotone(d1: Num, d2: Num)
    requires NumLe(d1, d2)
    ensures ColorRank(FillColorPercentage(d1)) <= ColorRank(FillColorPercentage(d2))
  {
    FillColorIsBucket(d1);
    FillColorIsBucket(d2);
    BucketMonotone(Thresholds, d1, d2);
  }

  lemma {:induction false} BucketMonotone(ts: seq<int>, d1: Num, d2: Num)
    requires NumLe(d1, d2)
    ensures ExceededCount(ts, d1) <= ExceededCount(ts, d2)
  {
    if ts != [] {
      BucketMonotone(ts[..|ts| - 1], d1, d2);
    }
  }

  /** The strict boundaries: 75 is still the lowest bucket, 95 is not the top
      one, 96 and 100 are. Infinity (a positive count over a zero total) is
      top; NaN falls through to the lowest bucket. */
  lemma ThresholdsAreStrict()
    ensures FillColorPercentage(Finite(75)) == "#fee5d9"
    ensures FillColorPercentage(Finite(76)) == "#fcbba1"
    ensures FillColorPercentage(Finite(95)) == "#de2d26"
    ensures FillColorPercentage(Finite(96)) == "#a50f15" == FillColorPercentage(Finite(100))
    ensures FillColorPercentage(PosInf) == "#a50f15"
    ensures FillColorPercentage(NaN) == "#fee5d9" && FillOpacity(NaN) == 0.75
  {
  }
}
