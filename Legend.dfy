/** The legend control: one swatch and one range label per colour bucket. */
module Legend {
  import opened Numbers
  import opened Classifier

  /** The lower bounds of the legend's ranges. */
  const Amounts: seq<int> := [0, 75, 80, 85, 90, 95]

  /** "lo% – hi%" or, for the last entry, "lo% +". */
  datatype RangeLabel = Between(low: int, high: int) | AndAbove(low: int)

  datatype LegendEntry = LegendEntry(swatch: string, range: RangeLabel)

  /** The label of entry `i`: it closes the range at `amounts[i + 1]` when
      that element is truthy, i.e. exists and is not 0. */
  function LabelAt(amounts: seq<int>, i: nat): (l: RangeLabel)
    requires i < |amounts|
    ensures l.low == amounts[i]
    ensures l.Between? <==> i + 1 < |amounts| && amounts[i + 1] != 0
    ensures l.Between? ==> l.high == amounts[i + 1]
  {
    if i + 1 < |amounts| && amounts[i + 1] != 0 then Between(amounts[i], amounts[i + 1])
    else AndAbove(amounts[i])
  }

  /** The swatch of entry `i`, the colour of `amounts[i] + 1`, is the colour
      of bucket `i`. */
  lemma SwatchIsBucket(i: nat)
    requires i < |Amounts|
    ensures FillColorPercentage(Finite(Amounts[i] + 1)) == Palette[i]
  {
  }

  /** legend.onAdd: one entry per element of Amounts, in order. */
  method BuildLegend() returns (entries: seq<LegendEntry>)
    ensures |entries| == |Palette|
    ensures forall i :: 0 <= i < |entries| ==> entries[i].swatch == Palette[i]
    ensures forall i :: 0 <= i < |entries| - 1 ==> entries[i].range == Between(Amounts[i], Amounts[i + 1])
    ensures entries[|entries| - 1].range == AndAbove(95)
    ensures forall i, j :: 0 <= i < j < |entries| ==> entries[i].swatch != entries[j].swatch
  {
    entries := [];
    for i := 0 to |Amounts|
      invariant |entries| == i
      invariant forall k :: 0 <= k < i ==> entries[k].swatch == Palette[k] && entries[k].range == LabelAt(Amounts, k)
    {
      SwatchIsBucket(i);
      entries := entries + [LegendEntry(FillColorPercentage(Finite(Amounts[i] + 1)), LabelAt(Amounts, i))];
    }
    forall i, j | 0 <= i < j < |entries|
      ensures entries[i].swatch != entries[j].swatch
    {
      if entries[i].swatch == entries[j].swatch {
        PaletteDistinct(i, j);
      }
    }
  }

  /** Every whole-number percentage is drawn in the swatch of the legend
      entry whose range holds it: entry `i` covers (Amounts[i], Amounts[i+1]]
      and the last one everything above 95; at or below 75 is entry 0. */
  lemma {:induction false} LegendMatchesClassifier(v: int, i: nat)
    requires i < |Amounts|
    requires i == 0 || Amounts[i] < v
    requires i + 1 == |Amounts| || v <= Amounts[i + 1]
    ensures FillColorPercentage(Finite(v)) == Palette[i]
  {
    FillColorIsBucket(Finite(v));
    assert Amounts[1..] == Thresholds;
    if i > 0 {
      assert Amounts[i] == Thresholds[i - 1];
      ExceededCountIsPrefix(Thresholds, Finite(v), i - 1);
    }
    if i + 1 < |Amounts| {
      assert Amounts[i + 1] == Thresholds[i];
      ExceededCountIsPrefix(Thresholds, Finite(v), i);
    }
  }
}
