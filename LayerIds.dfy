/** The synthetic layer ids of the tract shapes, and the sidebar list that
    finds a shape again by its list position. The page keeps one running
    counter; every tract shape gets the id 'acsLayerID' + counter, and the
    map's layer registry then holds the shape under that id. */
module LayerIds {
  import opened Numbers
  import opened Percentage
  import opened Classifier

  datatype Option<T> = None | Some(value: T)

  const IdPrefix: string := "acsLayerID"

  /** 'acsLayerID' + n, with n written in decimal. */
  function LayerId(n: nat): string
  {
    IdPrefix + DecimalString(n)
  }

  /** Two counter values never share an id: the digits after the prefix
      read back as the counter value. */
  lemma LayerIdInjective(m: nat, n: nat)
    requires LayerId(m) == LayerId(n)
    ensures m == n
  {
    assert LayerId(m)[|IdPrefix|..] == DecimalString(m);
    assert LayerId(n)[|IdPrefix|..] == DecimalString(n);
    DecimalStringInjective(m, n);
  }

  /** The registry after the shapes of `fs` were given ids 0, 1, ... in order:
      each id maps to the feature its shape was built from. */
  function Registered(fs: seq<Feature>): map<string, Feature>
  {
    if fs == [] then map[]
    else Registered(fs[..|fs| - 1])[LayerId(|fs| - 1) := fs[|fs| - 1]]
  }

  /** The id of position `n` is registered exactly when `n` is a position of
      `fs`, and then it names the feature at that position. */
  lemma {:induction false} RegisteredLookup(fs: seq<Feature>, n: nat)
    ensures LayerId(n) in Registered(fs) <==> n < |fs|
    ensures n < |fs| ==> Registered(fs)[LayerId(n)] == fs[n]
  {
    if fs != [] {
      var last := |fs| - 1;
      var front := fs[..last];
      RegisteredLookup(front, n);
      if n != last {
        if LayerId(n) == LayerId(last) {
          LayerIdInjective(n, last);
        }
        if n < last {
          assert front[n] == fs[n];
        }
      }
    }
  }

  /** No id is handed out twice: the registry has one entry per feature. */
  lemma {:induction false} RegisteredSize(fs: seq<Feature>)
    ensures |Registered(fs)| == |fs|
  {
    if fs != [] {
      var last := |fs| - 1;
      RegisteredSize(fs[..last]);
      RegisteredLookup(fs[..last], last);
    }
  }

  /** The ids handed out after earlier features continue from their number. */
  lemma RegisteredAppend(before: seq<Feature>, fs: seq<Feature>, i: nat)
    requires i < |fs|
    ensures LayerId(|before| + i) in Registered(before + fs)
    ensures Registered(before + fs)[LayerId(|before| + i)] == fs[i]
  {
    RegisteredLookup(before + fs, |before| + i);
  }

  /** The tract layer and the page state around it: the running counter
      `count`, the registry of tract shapes by id, and the one shared popup
      (None while closed). `Features` is every feature given an id so far. */
  class ChoroplethLayers {
    var count: nat
    var layers: map<string, Feature>
    var popup: Option<Statistic>
    ghost var Features: seq<Feature>

    ghost predicate Valid()
      reads this
    {
      count == |Features| && layers == Registered(Features)
    }

    /** Page load: the counter starts at 0, nothing is registered, no popup. */
    constructor ()
      ensures Valid() && Features == [] && count == 0 && popup == None
    {
      count := 0;
      layers := map[];
      popup := None;
      Features := [];
    }

    /** acsOnEachFeature: the shape of `f` gets id 'acsLayerID' + count, the
        counter goes up by one, and the shape is registered under that id. */
    method OnEachFeature(f: Feature)
      requires Valid()
      modifies this`count, this`layers, this`Features
      ensures Valid() && Features == old(Features) + [f]
      ensures count == old(count) + 1
      ensures LayerId(old(count)) !in old(layers)
      ensures layers == old(layers)[LayerId(old(count)) := f]
    {
      RegisteredLookup(Features, count);
      layers := layers[LayerId(count) := f];
      count := count + 1;
      Features := Features + [f];
      assert Features[..|Features| - 1] == old(Features);
    }

    /** plotDataset: every feature of the collection, in order, goes through
        acsOnEachFeature, so feature i of `fs` gets the id of the old counter
        plus i (RegisteredAppend). */
    method PlotDataset(fs: seq<Feature>)
      requires Valid()
      modifies this`count, this`layers, this`Features
      ensures Valid() && Features == old(Features) + fs
      ensures count == old(count) + |fs|
      ensures layers == Registered(old(Features) + fs)
    {
      ghost var before := Features;
      for i := 0 to |fs|
        invariant Valid() && Features == before + fs[..i]
      {
        OnEachFeature(fs[i]);
        assert fs[..i + 1] == fs[..i] + [fs[i]];
      }
      assert fs[..|fs|] == fs;
    }

    /** map._layers['acsLayerID' + i]: the shape of the i-th feature given an
        id since page load, or nothing (undefined) past the last one. */
    method LayerAt(i: nat) returns (f: Option<Feature>)
      requires Valid()
      ensures i < |Features| ==> f == Some(Features[i])
      ensures i >= |Features| ==> f == None
    {
      RegisteredLookup(Features, i);
      var id := LayerId(i);
      if id in layers {
        f := Some(layers[id]);
      } else {
        f := None;
      }
    }

    /** A click on sidebar entry `i`: fires the click of the shape with id
        'acsLayerID' + i, which puts that tract's statistic in the shared
        popup. Past the last shape the lookup is undefined and the call
        throws (`ok` is false, nothing changes). */
    method ClickListEntry(i: nat) returns (ok: bool)
      requires Valid()
      modifies this`popup
      ensures ok <==> i < |Features|
      ensures ok ==> popup == Some(CalculatePercentage(Features[i]))
      ensures !ok ==> popup == old(popup)
    {
      var f := LayerAt(i);
      ok := f.Some?;
      if ok {
        popup := Some(CalculatePercentage(f.value));
      }
    }
  }

  /** The geographic fetch's callback on a fresh page: plotDataset, then
      the sidebar. Entry `i` of the list then finds the shape of `fs[i]`. */
  method LoadTracts(fs: seq<Feature>) returns (m: ChoroplethLayers)
    ensures fresh(m) && m.Valid() && m.Features == fs && m.popup == None
    ensures forall i :: 0 <= i < |fs| ==> LayerId(i) in m.layers && m.layers[LayerId(i)] == fs[i]
  {
    m := new ChoroplethLayers();
    m.PlotDataset(fs);
    assert [] + fs == fs;
    assert m.layers == Registered(fs);
    forall i | 0 <= i < |fs|
      ensures LayerId(i) in m.layers && m.layers[LayerId(i)] == fs[i]
    {
      RegisteredLookup(fs, i);
    }
  }

  /** A tract where 950 of 1000 people lived in the same house: 95%, drawn in
      the second-highest colour at opacity 0.75; its sidebar entry opens the
      popup with those three numbers. */
  method SameHouseTractScenario()
  {
    var tract := Feature(950, 1000, "Census Tract 1");
    var m := LoadTracts([tract]);
    var ok := m.ClickListEntry(0);
    assert ok && m.popup == Some(Statistic(950, 1000, Finite(95)));
    var style := AcsStyle(tract);
    assert style.fillColor == "#de2d26" by {
      FillColorIsBucket(Finite(95));
    }
    assert style.fillOpacity == 0.75;
  }
}
