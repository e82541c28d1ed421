/** The point overlay: open graffiti complaints from the city's 311 API,
    filtered on their coordinates and coloured by an ordinal scale over the
    distinct resolution descriptions. */
module Complaints {

  /** A field of an API record as JavaScript sees it: absent (undefined),
      JSON null, or a string. */
  datatype JsonValue = Undefined | Null | Text(text: string)

  /** The fields of a complaint record the overlay reads. */
  datatype Complaint = Complaint(latitude: JsonValue, longitude: JsonValue, resolution: JsonValue)

  /** The number of colours of the ordinal scale's palette (category20). */
  const PaletteSize: nat := 20

  /** One circle marker: placed at the record's coordinates, filled with
      palette colour `colourSlot`, no outline, radius 5, opacity 1, and a
      popup showing the resolution description. */
  datatype Marker = Marker(latitude: JsonValue, longitude: JsonValue, colourSlot: nat,
                           stroke: bool, fillOpacity: real, radius: nat, popup: JsonValue)

  /** `typeof v !== "undefined"`. */
  predicate IsDefined(v: JsonValue)
  {
    !v.Undefined?
  }

  /** JavaScript truthiness: null, undefined and the empty string are false. */
  predicate Truthy(v: JsonValue)
  {
    v.Text? && v.text != ""
  }

  /** The marker filter of plotAPIData, as written: (latitude defined or
      longitude defined) or (latitude and longitude both truthy). The second
      disjunct adds nothing: a record passes as soon as either coordinate is
      present, even as null. */
  function PassesCoordinateCheck(r: Complaint): (b: bool)
    ensures b <==> IsDefined(r.latitude) || IsDefined(r.longitude)
  {
    (IsDefined(r.latitude) || IsDefined(r.longitude)) || (Truthy(r.latitude) && Truthy(r.longitude))
  }

  /** The records that become markers, in dataset order: every record that
      passes is kept as often as it occurs (AcceptedMultiplicity), every
      other one is dropped. */
  function Accepted(ds: seq<Complaint>): (acc: seq<Complaint>)
    ensures |acc| <= |ds|
    ensures forall r :: r in acc <==> r in ds && PassesCoordinateCheck(r)
  {
    if ds == [] then []
    else
      var front := ds[..|ds| - 1];
      var last := ds[|ds| - 1];
      assert ds == front + [last];
      Accepted(front) + (if PassesCoordinateCheck(last) then [last] else [])
  }

  /** The filter keeps every passing record as many times as it occurs in
      the dataset, and drops every other record. */
  lemma {:induction false} AcceptedMultiplicity(ds: seq<Complaint>, r: Complaint)
    ensures multiset(Accepted(ds))[r] == if PassesCoordinateCheck(r) then multiset(ds)[r] else 0
  {
    if ds != [] {
      var front := ds[..|ds| - 1];
      var last := ds[|ds| - 1];
      AcceptedMultiplicity(front, r);
      assert ds == front + [last];
      assert multiset(ds) == multiset(front) + multiset{last};
    }
  }

  /** The filter keeps dataset order: the accepted records of two batches
      one after the other are those of the first batch, then those of the
      second. With AcceptedMultiplicity on single records, this fixes
      `Accepted` completely. */
  lemma {:induction false} AcceptedAppend(a: seq<Complaint>, b: seq<Complaint>)
    ensures Accepted(a + b) == Accepted(a) + Accepted(b)
  {
    if b == [] {
      assert a + b == a;
    } else {
      var front := b[..|b| - 1];
      var last := b[|b| - 1];
      var tail := if PassesCoordinateCheck(last) then [last] else [];
      AcceptedAppend(a, front);
      assert (a + b)[..|a + b| - 1] == a + front;
      assert Accepted(a + b) == Accepted(a + front) + tail;
      assert Accepted(b) == Accepted(front) + tail;
    }
  }

  /** The `resolution_description` of every record, duplicates included. */
  function Resolutions(ds: seq<Complaint>): (labels: seq<JsonValue>)
    ensures |labels| == |ds|
    ensures forall i :: 0 <= i < |ds| ==> labels[i] == ds[i].resolution
  {
    seq(|ds|, i requires 0 <= i < |ds| => ds[i].resolution)
  }

  predicate NoDuplicates(s: seq<JsonValue>)
  {
    forall i, j :: 0 <= i < j < |s| ==> s[i] != s[j]
  }

  /** `_.uniq`: the distinct elements of `s`, each where it first occurs. */
  function Uniq(s: seq<JsonValue>): (u: seq<JsonValue>)
    ensures NoDuplicates(u)
    ensures forall x :: x in u <==> x in s
    ensures |u| <= |s|
  {
    if s == [] then []
    else
      var front := Uniq(s[..|s| - 1]);
      var last := s[|s| - 1];
      assert s == s[..|s| - 1] + [last];
      if last in front then front else front + [last]
  }

  /** The position of the first occurrence of `x` in `s`. */
  function FirstIndex(s: seq<JsonValue>, x: JsonValue): (i: nat)
    requires x in s
    ensures i < |s| && s[i] == x
    ensures forall j :: 0 <= j < i ==> s[j] != x
  {
    if s[0] == x then 0 else 1 + FirstIndex(s[1..], x)
  }

  /** Occurrences in a prefix are first occurrences in the whole. */
  lemma FirstIndexPrefix(s: seq<JsonValue>, n: nat, x: JsonValue)
    requires n <= |s| && x in s[..n]
    ensures x in s && FirstIndex(s, x) == FirstIndex(s[..n], x)
  {
    var k := FirstIndex(s[..n], x);
    assert s[k] == x;
    var m := FirstIndex(s, x);
    assert m < n ==> s[..n][m] == s[m];
  }

  /** `_.uniq` keeps first-occurrence order: earlier in the result means
      first seen earlier in the input. */
  lemma {:induction false} UniqKeepsFirstOccurrenceOrder(s: seq<JsonValue>, i: nat, j: nat)
    requires i < j < |Uniq(s)|
    ensures FirstIndex(s, Uniq(s)[i]) < FirstIndex(s, Uniq(s)[j])
  {
    var n := |s| - 1;
    var front := s[..n];
    var last := s[n];
    var u := Uniq(front);
    assert Uniq(s) == if last in u then u else u + [last];
    assert Uniq(s)[i] == u[i] && u[i] in front;
    FirstIndexPrefix(s, n, u[i]);
    if j < |u| {
      UniqKeepsFirstOccurrenceOrder(front, i, j);
      FirstIndexPrefix(s, n, u[j]);
    } else {
      assert Uniq(s)[j] == last && last !in front;
      assert FirstIndex(s, last) == n;
    }
  }

  /** A sequence without duplicates has as many elements as its set. */
  lemma {:induction false} DistinctCardinality(s: seq<JsonValue>)
    requires NoDuplicates(s)
    ensures |set x | x in s| == |s|
  {
    if s != [] {
      var front := s[..|s| - 1];
      var last := s[|s| - 1];
      DistinctCardinality(front);
      assert (set x | x in s) == (set x | x in front) + {last};
      assert last !in front;
    }
  }

  /** The scale's domain has one entry per distinct label. */
  lemma UniqSize(s: seq<JsonValue>)
    ensures |Uniq(s)| == |set x | x in s|
  {
    DistinctCardinality(Uniq(s));
    assert (set x | x in Uniq(s)) == (set x | x in s);
  }

  /** `_.uniq` leaves a sequence without duplicates as it is, so applying it
      twice is applying it once. */
  lemma {:induction false} UniqOfDistinct(s: seq<JsonValue>)
    requires NoDuplicates(s)
    ensures Uniq(s) == s
  {
    if s != [] {
      var front := s[..|s| - 1];
      UniqOfDistinct(front);
      assert s[|s| - 1] !in front;
      assert s == front + [s[|s| - 1]];
    }
  }

  /** The loop of setUpD3Scale collects every record's description, then
      `_.uniq` reduces them to the scale's domain. */
  method SetUpD3Scale(dataset: seq<Complaint>) returns (domain: seq<JsonValue>)
    ensures domain == Uniq(Resolutions(dataset))
    ensures NoDuplicates(domain)
    ensures forall i :: 0 <= i < |dataset| ==> dataset[i].resolution in domain
    ensures forall x :: x in domain ==> x in Resolutions(dataset)
  {
    var labels: seq<JsonValue> := [];
    for i := 0 to |dataset|
      invariant labels == Resolutions(dataset[..i])
    {
      labels := labels + [dataset[i].resolution];
    }
    assert dataset[..|dataset|] == dataset;
    domain := Uniq(labels);
  }

  /** The ordinal scale (d3 category20 with that domain): the colour of a
      label is the palette slot of its position in the domain, cycling after
      20; an unseen label would be appended to the domain. */
  function ColourSlot(domain: seq<JsonValue>, x: JsonValue): (slot: nat)
    ensures slot < PaletteSize
  {
    if x in domain then FirstIndex(domain, x) % PaletteSize else |domain| % PaletteSize
  }

  /** In a domain without duplicates the i-th label gets slot i mod 20. */
  lemma ColourSlotCycles(domain: seq<JsonValue>, i: nat)
    requires NoDuplicates(domain) && i < |domain|
    ensures ColourSlot(domain, domain[i]) == i % PaletteSize
  {
    var k := FirstIndex(domain, domain[i]);
    assert k == i;
  }

  /** With at most 20 distinct labels, distinct labels get distinct colours. */
  lemma ColourSlotsDistinct(domain: seq<JsonValue>, x: JsonValue, y: JsonValue)
    requires NoDuplicates(domain) && |domain| <= PaletteSize
    requires x in domain && y in domain && x != y
    ensures ColourSlot(domain, x) != ColourSlot(domain, y)
  {
    var i, j := FirstIndex(domain, x), FirstIndex(domain, y);
    assert i % PaletteSize == i && j % PaletteSize == j;
  }

  /** The marker plotAPIData builds for an accepted record. */
  function MarkerFor(domain: seq<JsonValue>, r: Complaint): (m: Marker)
    ensures m.latitude == r.latitude && m.longitude == r.longitude && m.popup == r.resolution
    ensures m.colourSlot == ColourSlot(domain, r.resolution)
    ensures !m.stroke && m.fillOpacity == 1.0 && m.radius == 5
  {
    Marker(r.latitude, r.longitude, ColourSlot(domain, r.resolution), false, 1.0, 5, r.resolution)
  }

  /** The markers built for the records of `ds` that pass the check, in
      order: marker i is the marker of accepted record i. */
  function MarkersOf(domain: seq<JsonValue>, ds: seq<Complaint>): (ms: seq<Marker>)
    ensures |ms| == |Accepted(ds)|
    ensures forall i :: 0 <= i < |ms| ==> ms[i] == MarkerFor(domain, Accepted(ds)[i])
  {
    if ds == [] then []
    else
      var last := ds[|ds| - 1];
      MarkersOf(domain, ds[..|ds| - 1]) + (if PassesCoordinateCheck(last) then [MarkerFor(domain, last)] else [])
  }

  /** plotAPIData: one marker per record that passes the coordinate check,
      in dataset order, all in one overlay group; the colours come from the
      scale over every record's description. */
  method PlotApiData(dataset: seq<Complaint>) returns (markers: seq<Marker>)
    ensures markers == MarkersOf(Uniq(Resolutions(dataset)), dataset)
    ensures |markers| == |Accepted(dataset)|
  {
    var domain := SetUpD3Scale(dataset);
    markers := [];
    for i := 0 to |dataset|
      invariant markers == MarkersOf(domain, dataset[..i])
    {
      assert dataset[..i + 1][..i] == dataset[..i];
      if PassesCoordinateCheck(dataset[i]) {
        markers := markers + [MarkerFor(domain, dataset[i])];
      }
    }
    assert dataset[..|dataset|] == dataset;
  }

  /** Every marker stands for a record that has at least one coordinate, and
      every record that has one gets a marker. */
  lemma MarkersCoverRecordsWithACoordinate(dataset: seq<Complaint>, r: Complaint)
    ensures r in Accepted(dataset) <==> r in dataset && (IsDefined(r.latitude) || IsDefined(r.longitude))
  {
  }

  /** The filter lets through records that have only one coordinate, or a
      null one. */
  lemma OneCoordinateSuffices()
    ensures PassesCoordinateCheck(Complaint(Text("40.65"), Undefined, Text("Closed")))
    ensures PassesCoordinateCheck(Complaint(Null, Null, Text("Closed")))
    ensures !PassesCoordinateCheck(Complaint(Undefined, Undefined, Text("Closed")))
  {
  }

  /** A single record at (40.65, -73.93) resolved "Closed" gives exactly one
      marker, in the first palette colour, with popup "Closed". */
  lemma SingleClosedComplaint()
    ensures var r := Complaint(Text("40.65"), Text("-73.93"), Text("Closed"));
            Accepted([r]) == [r] &&
            MarkerFor(Uniq(Resolutions([r])), r).colourSlot == 0 &&
            MarkerFor(Uniq(Resolutions([r])), r).popup == Text("Closed")
  {
    var r := Complaint(Text("40.65"), Text("-73.93"), Text("Closed"));
    assert [r][..0] == [];
    assert Resolutions([r]) == [Text("Closed")];
    assert Resolutions([r])[..0] == [];
  }
}
