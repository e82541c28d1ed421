# Brooklyn choropleth and graffiti-complaint overlay — a Dafny model

The script `js/script.js` draws Brooklyn's census tracts coloured by the share
of residents who lived in the same house a year earlier, overlays open
graffiti complaints from New York City's 311 API as circle markers, adds a
legend, and builds a sidebar list whose entries re-open a tract's popup.
Beneath the calls into Leaflet, jQuery, d3 and underscore sits a small core
that this project models and proves things about:

- `Numbers.dfy` — the numbers the script meets (whole numbers, the two
  infinities and NaN that an unguarded division produces), JavaScript's `>`
  and loose `== 0` on them, the `toFixed(0)` rounding, and the decimal
  rendering of the id counter with its inverse.
- `Classifier.dfy` — `fillColorPercentage` (six colours, strict thresholds
  95/90/85/80/75) and `fillOpacity`, with an independent definition of the
  bucket (how many thresholds a value strictly exceeds) and monotonicity.
- `Percentage.dfy` — `calculatePercentage` and `acsStyle`.
- `LayerIds.dfy` — the page's running counter and `acsOnEachFeature`, which
  gives every tract shape the id `'acsLayerID' + count`; the layer registry;
  the sidebar click that looks up `'acsLayerID' + i`; the shared popup. It is
  a class whose methods update the counter, the registry and the popup.
- `Legend.dfy` — the loop of `legend.onAdd` over `amounts = [0, 75, 80, 85, 90, 95]`.
- `Complaints.dfy` — the coordinate filter and marker loop of `plotAPIData`,
  the label collection loop and `_.uniq` of `setUpD3Scale`, and the ordinal
  colour scale as a cyclic slot assignment.

Two behaviours of the code are easy to misread; the model follows the code:

- A positive count over a zero total gives `Infinity`, not a non-numeric
  value. `Infinity > 95` holds, so such a tract gets the TOP colour
  `#a50f15`. Only `0/0` gives NaN, which falls to the lowest colour. Both get
  opacity 0.75.
- The complaint filter is modelled as written. It accepts a record as soon
  as either coordinate is present, even when that coordinate is null.

## Model

| member | source | states |
|---|---|---|
| `Numbers.DecimalRoundTrip` | js/script.js:101 | the decimal text of the counter reads back as the counter |
| `Numbers.DecimalStringInjective` | js/script.js:101 | distinct counter values render to distinct texts |
| `Numbers.RoundRatio` | js/script.js:58 | `toFixed(0)` of a ratio: within one half of the exact ratio; an exact half goes away from zero; non-negative for a non-negative ratio |
| `Classifier.FillColorPercentage` | js/script.js:66-73 | the colour is always one of the six palette constants |
| `Classifier.FillOpacity` | js/script.js:76-79 | opacity is 0 exactly when the percentage is 0, and 0.75 for every other value, NaN included |
| `Classifier.FillColorIsBucket` | js/script.js:66-73 | the colour is the one of the highest threshold strictly exceeded: bucket k exceeds threshold k-1 and not threshold k |
| `Classifier.FillColorMonotone` | js/script.js:66-73 | a larger percentage never gets a lower bucket |
| `Classifier.ThresholdsAreStrict` | js/script.js:67-72 | 75 is lowest, 76 is second, 95 is second-highest, 96 and 100 are top; Infinity is top; NaN is lowest at opacity 0.75 |
| `Classifier.PaletteDistinct` | js/script.js:67-72 | the six colours are pairwise distinct |
| `Percentage.CalculatePercentage` | js/script.js:54-63 | numerator and denominator are echoed; with a non-zero total the percentage is the whole number nearest 100·num/den; with a zero total it is not finite |
| `Percentage.PercentageTiesRoundUp` | js/script.js:58 | an exact half percent rounds up |
| `Percentage.PercentageBounded` | js/script.js:54-63 | a count between 0 and a positive total gives 0% to 100% |
| `Percentage.PercentageExamples` | js/script.js:54-63 | 1 of 4 is 25, 950 of 1000 is 95, 1 of 0 is Infinity, 0 of 0 is NaN |
| `Percentage.ZeroPercentIffSmallShare` | js/script.js:58 | the percentage is 0 exactly when the total is non-zero and the count is under half a percent of it |
| `Percentage.AcsStyle` | js/script.js:38-52 | grey outline of weight 1 and opacity 0.25; fill colour of the percentage's bucket; fill opacity 0 when the share rounds to 0% and 0.75 otherwise |
| `LayerIds.LayerIdInjective` | js/script.js:101 | no two counter values give the same `'acsLayerID'` id |
| `LayerIds.RegisteredLookup` | js/script.js:177-181 | after one pass from counter 0, id `'acsLayerID' + n` is registered exactly when n is a list position, and it names the feature at that position |
| `LayerIds.RegisteredSize` | js/script.js:101-102 | one pass registers exactly one entry per feature, so the ids are pairwise distinct |
| `LayerIds.ChoroplethLayers.constructor` | js/script.js:82-85 | the counter starts at 0 with nothing registered and no popup open |
| `LayerIds.ChoroplethLayers.OnEachFeature` | js/script.js:88-104 | the shape gets the id of the current counter, which was not in use; the counter grows by exactly 1; nothing else is registered or removed |
| `LayerIds.RegisteredAppend` | js/script.js:101-102 | after earlier features, feature i of a new pass is registered under the id of their number plus i |
| `LayerIds.ChoroplethLayers.PlotDataset` | js/script.js:27-31 | the features are registered in order after the earlier ones; the counter grows by the number of features |
| `LayerIds.ChoroplethLayers.LayerAt` | js/script.js:180-181 | the lookup of `'acsLayerID' + i` finds the i-th feature given an id since page load, and nothing past the last |
| `LayerIds.ChoroplethLayers.ClickListEntry` | js/script.js:177-182 | a click on entry i shows the statistic of the i-th feature in the shared popup; past the last feature the lookup fails and the popup is unchanged |
| `LayerIds.LoadTracts` | js/script.js:18-24 | on a fresh page, sidebar entry i finds the shape of feature i for every i |
| `Legend.LabelAt` | js/script.js:143 | the entry's range starts at its own amount, is closed exactly when the next amount exists and is non-zero, and then ends at the next amount |
| `Legend.SwatchIsBucket` | js/script.js:142 | the swatch of entry i (the colour of amounts[i]+1) is the colour of bucket i |
| `Legend.BuildLegend` | js/script.js:132-147 | six entries; entry i is coloured with bucket i; entries 0 to 4 are labelled amounts[i] to amounts[i+1]; the last is "95% +"; all six colours differ |
| `Legend.LegendMatchesClassifier` | js/script.js:136-144 | every percentage inside an entry's range is coloured with that entry's swatch |
| `Complaints.PassesCoordinateCheck` | js/script.js:228 | a record passes exactly when latitude or longitude is defined; the "both truthy" disjunct adds nothing |
| `Complaints.OneCoordinateSuffices` | js/script.js:228 | a record with only a latitude passes, and so does one with two nulls; one with neither coordinate does not |
| `Complaints.Accepted` | js/script.js:225-247 | the accepted records are those of the dataset that pass the check, and no more of them than the dataset has |
| `Complaints.AcceptedMultiplicity` | js/script.js:225-247 | a passing record is accepted as many times as it occurs in the dataset; a failing one never |
| `Complaints.AcceptedAppend` | js/script.js:225-247 | the filter keeps dataset order: accepting two batches in sequence gives the first batch's accepted records, then the second's |
| `Complaints.MarkersCoverRecordsWithACoordinate` | js/script.js:225-247 | a record gets a marker exactly when it has at least one coordinate |
| `Complaints.Uniq` | js/script.js:299 | `_.uniq` returns no duplicates and exactly the elements of its input |
| `Complaints.UniqKeepsFirstOccurrenceOrder` | js/script.js:299 | the de-duplicated labels are in order of first occurrence |
| `Complaints.UniqSize` | js/script.js:299-303 | the scale's domain has one entry per distinct label |
| `Complaints.UniqOfDistinct` | js/script.js:299 | a list without duplicates is left as it is, so de-duplicating twice is de-duplicating once |
| `Complaints.SetUpD3Scale` | js/script.js:287-307 | the domain is the de-duplicated list of all records' descriptions: every record's description is in it, nothing else is, and it has no duplicates |
| `Complaints.ColourSlot` | js/script.js:302-303 | the ordinal scale gives one of the 20 palette slots |
| `Complaints.ColourSlotCycles` | js/script.js:302-303 | the i-th label of the domain gets slot i mod 20 |
| `Complaints.ColourSlotsDistinct` | js/script.js:302-303 | with at most 20 distinct labels, distinct labels get distinct colours |
| `Complaints.MarkerFor` | js/script.js:230-240 | a marker sits at the record's coordinates, is coloured by the scale for its description, has no stroke, radius 5, opacity 1, and a popup with the description |
| `Complaints.MarkersOf` | js/script.js:225-247 | as many markers as accepted records, marker i built from accepted record i |
| `Complaints.PlotApiData` | js/script.js:218-251 | the markers are those of the accepted records in dataset order, coloured over the domain of all descriptions; one per accepted record |
| `Complaints.SingleClosedComplaint` | js/script.js:225-247 | one record at (40.65, -73.93) resolved "Closed" gives one marker, in the first palette slot, with popup "Closed" |

## Left out

- Leaflet map, tile layer, popup placement at the shape's centre, layer
  controls and the `addTo` calls: rendering inside a library whose code is
  not part of this model. The layer registry is modelled only for tract
  shapes; Leaflet's numeric ids for other layers never look like
  `'acsLayerID…'`.
- Both `$.getJSON` fetches and their asynchronous callbacks: network I/O.
  `LoadTracts` stands for the geographic callback on a fresh page.
- The d3 construction of the sidebar list and its labels, and the actual
  colours of d3's category20 palette: the scale is modelled as a palette
  slot. d3 would append a label it has not seen to the domain; the model
  returns that slot but does not record the extension, which the script
  never triggers because the domain holds every record's label.
- The second sidebar branch, which looks up `'apiLayerGroup' + i` on
  `dataset.value`, and the commented-out list function: no marker is ever
  registered under such ids, so the branch has no behaviour to model.
- `Percentage.CalculatePercentage`: does not model `parseFloat` of the
  property strings or floating-point division. The counts are whole numbers
  and the percentage is rounded from the exact ratio. At an exact half this
  can differ from what floating point gives.
- HTML text of the popups, the legend heading and the legend entries. The
  popup holds the statistic; a legend entry holds its swatch and range.
- `console.log` calls, and the legend's position on the map.
- `LayerIds.ChoroplethLayers.PlotDataset`: assumes Leaflet's GeoJSON layer
  calls `acsOnEachFeature` for every feature, in order. Leaflet skips a
  feature whose geometry is null (GeoJSON, RFC 7946 section 3.2, allows
  one). The sidebar still lists that feature, so every later entry would
  then open the popup of the next feature.
- `LayerIds.ChoroplethLayers.ClickListEntry` and `LayerIds.LoadTracts`:
  assume the tract overlay stays on the map. The layer control
  (js/script.js:113-119) can switch it off, which removes its shapes from
  `map._layers`; every sidebar lookup would then throw.
- `Complaints.MarkerFor` and `Complaints.PlotApiData`: assume `L.latLng`
  accepts whatever coordinates the filter lets through, including a missing
  or null one; what Leaflet does with such a marker is not modelled.
