/** The logic of src/pages/LayersPage.jsx: the map and layer lookups, and the
    selection state the page keeps in step with the `?layer=` search
    parameter. The badge, icon and label helpers of the same file are
    `Geometry.ListBadgeClass`, `Geometry.IconCategory` and
    `Geometry.ListLabel`. */
module LayersPage {
  import opened Wrappers
  import opened Seqs
  import opened Catalog
  import CatalogLemmas

  // ---------------------------------------------------------------------
  // Lookups

  predicate NamedMap(mapName: string, m: MapDescriptor) {
    m.name == mapName
  }

  /** `maps.find(m => m.name === mapName)`; `None` is the "Map not found"
      view. */
  function FindMap(maps: seq<MapDescriptor>, mapName: string): Option<MapDescriptor> {
    Find(maps, m => NamedMap(mapName, m))
  }

  predicate OnMap(mapName: string, r: LayerRecord) {
    r.mapName == mapName
  }

  /** `allLayers.filter(layer => layer.map === mapName)` */
  function MapLayers(allLayers: seq<LayerRecord>, mapName: string): seq<LayerRecord> {
    Filter(allLayers, r => OnMap(mapName, r))
  }

  /** The page finds a map exactly when one has that name, and then the
      first such. */
  lemma FindMapSpec(maps: seq<MapDescriptor>, mapName: string)
    ensures FindMap(maps, mapName).Some? <==> exists i :: 0 <= i < |maps| && maps[i].name == mapName
    ensures FindMap(maps, mapName).Some? ==>
      exists i :: 0 <= i < |maps| && maps[i] == FindMap(maps, mapName).value && maps[i].name == mapName
        && forall j :: 0 <= j < i ==> maps[j].name != mapName
  {
    FindFirst(maps, m => NamedMap(mapName, m));
  }

  /** `mapLayers` holds exactly the records of the map, in catalog order. */
  lemma MapLayersSpec(allLayers: seq<LayerRecord>, mapName: string)
    ensures forall r :: r in MapLayers(allLayers, mapName) <==> r in allLayers && r.mapName == mapName
    ensures IsSubsequence(MapLayers(allLayers, mapName), allLayers)
  {
    FilterSpec(allLayers, r => OnMap(mapName, r));
  }

  /** For the catalog the reconciliation builds, a map name the root
      capabilities do not list takes the not-found branch and would have no
      layers anyway. */
  lemma UnknownMapHasNoLayers(maps: seq<MapDescriptor>, index: map<string, DetailEntry>,
                              info: map<string, LayerInfoEntry>, mapName: string)
    requires FindMap(maps, mapName).None?
    ensures MapLayers(CatalogSpec(maps, index, info), mapName) == []
  {
    var c := CatalogSpec(maps, index, info);
    FindMapSpec(maps, mapName);
    CatalogLemmas.CatalogNames(maps, index, info);
    forall r | r in c ensures !OnMap(mapName, r) {
      var k :| 0 <= k < |c| && c[k] == r;
      CatalogLemmas.NamePairsFromMaps(maps, k);
    }
    FilterNone(c, r => OnMap(mapName, r));
  }

  lemma MapLayersAppend(a: seq<LayerRecord>, b: seq<LayerRecord>, mapName: string)
    ensures MapLayers(a + b, mapName) == MapLayers(a, mapName) + MapLayers(b, mapName)
  {
    FilterAppend(a, b, r => OnMap(mapName, r));
  }

  /** The records of one map are all on that map. */
  lemma MapLayersOfOneMap(m: MapDescriptor, index: map<string, DetailEntry>,
                          info: map<string, LayerInfoEntry>, mapName: string)
    ensures MapLayers(MapRecords(m, index, info), mapName)
      == if m.name == mapName then MapRecords(m, index, info) else []
  {
    var back := MapRecords(m, index, info);
    CatalogLemmas.MapRecordsNames(m, index, info);
    if m.name == mapName {
      forall r | r in back ensures OnMap(mapName, r) {
        var j :| 0 <= j < |back| && back[j] == r;
      }
      FilterAll(back, r => OnMap(mapName, r));
    } else {
      forall r | r in back ensures !OnMap(mapName, r) {
        var j :| 0 <= j < |back| && back[j] == r;
      }
      FilterNone(back, r => OnMap(mapName, r));
    }
  }

  /** With map names unique, the page lists every layer the root
      capabilities declare for the map, and only those: its
      `{mapLayers.length} layers` is the declared count. */
  lemma {:induction false} MapLayersCount(maps: seq<MapDescriptor>, index: map<string, DetailEntry>,
                                          info: map<string, LayerInfoEntry>, i: nat)
    requires i < |maps|
    requires forall a, b :: 0 <= a < b < |maps| ==> maps[a].name != maps[b].name
    ensures |MapLayers(CatalogSpec(maps, index, info), maps[i].name)| == |LayersOf(maps[i])|
    decreases |maps|
  {
    var n := |maps| - 1;
    var mapName := maps[i].name;
    var prefix := maps[..n];
    assert CatalogSpec(maps, index, info) == CatalogSpec(prefix, index, info) + MapRecords(maps[n], index, info);
    MapLayersAppend(CatalogSpec(prefix, index, info), MapRecords(maps[n], index, info), mapName);
    MapLayersOfOneMap(maps[n], index, info, mapName);
    if i == n {
      assert FindMap(prefix, mapName).None? by {
        FindMapSpec(prefix, mapName);
        forall a | 0 <= a < n ensures prefix[a].name != mapName {
          assert prefix[a] == maps[a];
        }
      }
      UnknownMapHasNoLayers(prefix, index, info, mapName);
    } else {
      assert prefix[i] == maps[i];
      assert forall a, b :: 0 <= a < b < |prefix| ==> prefix[a].name != prefix[b].name;
      MapLayersCount(prefix, index, info, i);
    }
  }

  // ---------------------------------------------------------------------
  // The selection effect

  /** `URLSearchParams` as its (key, value) pairs. */
  type Params = seq<(string, string)>

  /** `searchParams.get(key)`: the first value under `key`. */
  function Get(params: Params, key: string): (r: Option<string>)
    ensures r.Some? ==> (key, r.value) in params
    ensures r.Some? ==>
      exists i :: 0 <= i < |params| && params[i] == (key, r.value) &&
        forall j :: 0 <= j < i ==> params[j].0 != key
    ensures r.None? ==> forall i :: 0 <= i < |params| ==> params[i].0 != key
    decreases |params|
  {
    if params == [] then None
    else if params[0].0 == key then Some(params[0].1)
    else Get(params[1..], key)
  }

  /** `{ layer: name }` as search parameters. */
  function LayerParam(name: string): Params {
    [("layer", name)]
  }

  predicate Named(name: string, l: LayerRecord) {
    l.name == name
  }

  /** The outcome of one run of the effect: the new selection, and the
      parameters it replaces the current ones with, if it does. */
  datatype SyncOutcome = SyncOutcome(selected: Option<LayerRecord>, replaceWith: Option<Params>)

  /** The effect of lines 16-31 as a function of its inputs. */
  function Sync(mapLayers: seq<LayerRecord>, params: Params, selected: Option<LayerRecord>): SyncOutcome {
    if mapLayers == [] then SyncOutcome(selected, None)
    else
      var layerName := Get(params, "layer");
      var found := if layerName.Some? && layerName.value != "" then Find(mapLayers, l => Named(layerName.value, l)) else None;
      if found.Some? then SyncOutcome(found, None)
      else SyncOutcome(Some(mapLayers[0]), Some(LayerParam(mapLayers[0].name)))
  }

  /** A `layer` parameter naming a layer of the map selects the first layer
      of that name and leaves the parameters alone. */
  lemma SyncKeepsNamedLayer(mapLayers: seq<LayerRecord>, params: Params, selected: Option<LayerRecord>, i: nat)
    requires i < |mapLayers| && Get(params, "layer") == Some(mapLayers[i].name) && mapLayers[i].name != ""
    ensures var o := Sync(mapLayers, params, selected);
      && o.replaceWith.None?
      && o.selected.Some? && o.selected.value in mapLayers && o.selected.value.name == mapLayers[i].name
      && (exists j :: 0 <= j <= i && mapLayers[j] == o.selected.value
            && forall j' :: 0 <= j' < j ==> mapLayers[j'].name != mapLayers[i].name)
  {
    var name := mapLayers[i].name;
    FindFirst(mapLayers, l => Named(name, l));
  }

  /** Otherwise (no parameter, an empty one, or a name the map lacks) the
      first layer is selected and the parameters become `layer=<its name>`. */
  lemma SyncFallsBackToFirst(mapLayers: seq<LayerRecord>, params: Params, selected: Option<LayerRecord>)
    requires mapLayers != []
    requires forall i :: 0 <= i < |mapLayers| ==> Get(params, "layer") != Some(mapLayers[i].name) || mapLayers[i].name == ""
    ensures Sync(mapLayers, params, selected) == SyncOutcome(Some(mapLayers[0]), Some(LayerParam(mapLayers[0].name)))
  {
    var layerName := Get(params, "layer");
    if layerName.Some? && layerName.value != "" {
      FindFirst(mapLayers, l => Named(layerName.value, l));
    }
  }

  /** With no layers on the map the effect leaves selection and parameters alone. */
  lemma SyncWithoutLayers(params: Params, selected: Option<LayerRecord>)
    ensures Sync([], params, selected) == SyncOutcome(selected, None)
  {
  }

  /** The effect settles: run again on what it produced, it keeps the
      selection and writes the same parameters at most. */
  lemma SyncSettles(mapLayers: seq<LayerRecord>, params: Params, selected: Option<LayerRecord>)
    ensures var o := Sync(mapLayers, params, selected);
      var again := Sync(mapLayers, if o.replaceWith.Some? then o.replaceWith.value else params, o.selected);
      && again.selected == o.selected
      && (again.replaceWith.None? || again.replaceWith == o.replaceWith)
  {
    var o := Sync(mapLayers, params, selected);
    if mapLayers != [] && o.replaceWith.Some? {
      var first := mapLayers[0];
      assert Get(LayerParam(first.name), "layer") == Some(first.name);
      if first.name != "" {
        FindFirst(mapLayers, l => Named(first.name, l));
      }
    }
  }

  /** The page's state: the selected layer and the history of search
      parameters, whose last entry is the current URL's. */
  class LayersPageState {
    var selected: Option<LayerRecord>
    var history: seq<Params>

    predicate Valid()
      reads this
    {
      |history| > 0
    }

    /** The search parameters of the current URL. */
    function Current(): Params
      reads this
      requires Valid()
    {
      history[|history| - 1]
    }

    /** The page mounts with no selection, at the URL it was opened with. */
    constructor (params: Params)
      ensures Valid() && selected.None? && history == [params]
    {
      selected := None;
      history := [params];
    }

    /** `setSearchParams(p)` pushes a history entry; with `{ replace: true }`
        it overwrites the current one. */
    method SetSearchParams(p: Params, replace: bool)
      requires Valid()
      modifies this
      ensures Valid() && Current() == p && selected == old(selected)
      ensures history == if replace then old(history)[..|old(history)| - 1] + [p] else old(history) + [p]
    {
      if replace {
        history := history[..|history| - 1] + [p];
      } else {
        history := history + [p];
      }
    }

    /** One run of the effect of lines 16-31. */
    method SyncFromUrl(mapLayers: seq<LayerRecord>)
      requires Valid()
      modifies this
      ensures Valid()
      ensures var o := Sync(mapLayers, old(Current()), old(selected));
        && selected == o.selected
        && history == if o.replaceWith.Some? then old(history)[..|old(history)| - 1] + [o.replaceWith.value]
                      else old(history)
    {
      if |mapLayers| == 0 {
        return;
      }
      var layerName := Get(Current(), "layer");
      if layerName.Some? && layerName.value != "" {
        var layer := Find(mapLayers, l => Named(layerName.value, l));
        if layer.Some? {
          selected := layer;
          return;
        }
      }
      var firstLayer := mapLayers[0];
      selected := Some(firstLayer);
      SetSearchParams(LayerParam(firstLayer.name), true);
    }

    /** `handleLayerSelect(layer)` of lines 34-37. */
    method HandleLayerSelect(layer: LayerRecord)
      requires Valid()
      modifies this
      ensures Valid() && selected == Some(layer)
      ensures history == old(history) + [LayerParam(layer.name)]
    {
      selected := Some(layer);
      SetSearchParams(LayerParam(layer.name), false);
    }
  }

  /** After a click on a layer of the map, the effect that follows keeps
      the clicked layer, provided layer names are unique within the map
      and the name is not empty. */
  lemma SelectThenSync(mapLayers: seq<LayerRecord>, layer: LayerRecord)
    requires layer in mapLayers && layer.name != ""
    requires forall a, b :: 0 <= a < b < |mapLayers| ==> mapLayers[a].name != mapLayers[b].name
    ensures Sync(mapLayers, LayerParam(layer.name), Some(layer)) == SyncOutcome(Some(layer), None)
  {
    assert Get(LayerParam(layer.name), "layer") == Some(layer.name);
    FindFirst(mapLayers, l => Named(layer.name, l));
    var i :| 0 <= i < |mapLayers| && mapLayers[i] == layer;
  }
}
