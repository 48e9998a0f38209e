/** The layer catalog that `fetchData` in `src/App.jsx` builds once the root
    capabilities document, the layer-info document and the per-map detail
    documents have been fetched. The fetched documents are inputs; the three
    `forEach` phases are methods with loops, each proved equal to a
    specification function, and the promises of the design are lemmas about
    those functions. */
module Catalog {
  import opened Wrappers
  import opened Strings
  import opened Seqs

  // ---------------------------------------------------------------------
  // The three input documents and the reconciled record

  /** One attribute of a layer: its name and its declared type label. The
      sequence order is the order of `Object.entries`. */
  datatype Field = Field(name: string, typeLabel: string)
  type Fields = seq<Field>

  /** A layer as the root capabilities document declares it inside a map. */
  datatype LayerSummary = LayerSummary(
    name: string,
    minzoom: Option<int>,
    maxzoom: Option<int>,
    tiles: Option<seq<string>>)

  datatype MapDescriptor = MapDescriptor(
    name: string,
    attribution: Option<string>,
    minzoom: Option<int>,
    maxzoom: Option<int>,
    layers: Option<seq<LayerSummary>>)

  datatype RootCapabilities = RootCapabilities(maps: Option<seq<MapDescriptor>>)

  /** One `vector_layers` entry of a per-map detail document; the geometry is
      published under either of two spellings. */
  datatype VectorLayer = VectorLayer(
    id: string,
    geometry_type: Option<string>,
    geometryType: Option<string>,
    fields: Option<Fields>)

  datatype MapDetail = MapDetail(vector_layers: Option<seq<VectorLayer>>)

  datatype ZoomFilter = ZoomFilter(
    zoomLevel: int,
    filter: string,
    tolerance: string,
    minArea: string,
    viewName: string)

  datatype LayerInfoEntry = LayerInfoEntry(
    description: Option<string>,
    details: Option<seq<string>>,
    filtersPerZoomLevel: Option<seq<ZoomFilter>>,
    tegolaConfig: Option<string>)

  /** The layer-info document: `by_layer_name` maps a layer name to a list
      of entries (a `null` list is represented by the empty list; both are
      skipped). */
  datatype LayersInfoDoc = LayersInfoDoc(byLayerName: Option<map<string, seq<LayerInfoEntry>>>)

  /** What the detail index stores per key; "" stands for a falsy geometry. */
  datatype DetailEntry = DetailEntry(geometryType: string, fields: Fields)

  datatype LayerRecord = LayerRecord(
    id: string,
    name: string,
    mapName: string,
    minzoom: int,
    maxzoom: int,
    tiles: seq<string>,
    geometryType: string,
    fields: Fields,
    description: string,
    details: seq<string>,
    filtersPerZoomLevel: seq<ZoomFilter>,
    tegolaConfig: Option<string>)

  /** What a successful build hands to the pages. */
  datatype Catalog = Catalog(
    layers: seq<LayerRecord>,
    maps: seq<MapDescriptor>,
    info: map<string, LayerInfoEntry>)

  // ---------------------------------------------------------------------
  // Reading the documents (optional chaining and `|| []`)

  /** `capabilities.maps || []` */
  function MapsOf(c: RootCapabilities): seq<MapDescriptor> {
    c.maps.GetOr([])
  }

  /** `map.layers`, where `?.forEach` on an absent list does nothing. */
  function LayersOf(m: MapDescriptor): seq<LayerSummary> {
    m.layers.GetOr([])
  }

  /** The `vector_layers` of `mapCapabilitiesResults[i]`; a `null` result, a
      position past the end, or a document without `vector_layers` yields
      nothing. */
  function VectorLayersAt(results: seq<Option<MapDetail>>, i: nat): seq<VectorLayer> {
    if i < |results| && results[i].Some? then results[i].value.vector_layers.GetOr([]) else []
  }

  // ---------------------------------------------------------------------
  // Phase 1: the detail index `allMapLayersMap`

  /** The index key `${map}:${layerId}`. */
  function Key(mapName: string, layerId: string): string {
    mapName + ":" + layerId
  }

  /** `{ geometryType: vl.geometry_type || vl.geometryType, fields: vl.fields || {} }` */
  function EntryOf(vl: VectorLayer): (e: DetailEntry)
    ensures vl.geometry_type.Some? && vl.geometry_type.value != "" ==> e.geometryType == vl.geometry_type.value
    ensures (vl.geometry_type.None? || vl.geometry_type.value == "") ==> e.geometryType == OrElse(vl.geometryType, "")
  {
    DetailEntry(OrElse(vl.geometry_type, OrElse(vl.geometryType, "")), vl.fields.GetOr([]))
  }

  /** The assignments one map contributes, in `vector_layers` order. */
  function MapPairs(mapName: string, vls: seq<VectorLayer>): seq<(string, DetailEntry)> {
    seq(|vls|, j requires 0 <= j < |vls| => (Key(mapName, vls[j].id), EntryOf(vls[j])))
  }

  /** Every assignment `allMapLayersMap[key] = ...` in execution order: maps
      in root order, then each map's `vector_layers` in order. */
  function DetailPairs(maps: seq<MapDescriptor>, results: seq<Option<MapDetail>>): seq<(string, DetailEntry)>
    decreases |maps|
  {
    if maps == [] then []
    else
      var n := |maps| - 1;
      DetailPairs(maps[..n], results) + MapPairs(maps[n].name, VectorLayersAt(results, n))
  }

  lemma DetailPairsSnoc(maps: seq<MapDescriptor>, results: seq<Option<MapDetail>>, i: nat)
    requires i < |maps|
    ensures DetailPairs(maps[..i + 1], results)
      == DetailPairs(maps[..i], results) + MapPairs(maps[i].name, VectorLayersAt(results, i))
  {
    assert maps[..i + 1][..i] == maps[..i];
  }

  /** The dictionary a sequence of assignments `d[k] = v` leaves behind. */
  function Upsert<K, V>(ps: seq<(K, V)>): map<K, V>
    decreases |ps|
  {
    if ps == [] then map[] else Upsert(ps[..|ps| - 1])[ps[|ps| - 1].0 := ps[|ps| - 1].1]
  }

  lemma UpsertSnoc<K, V>(ps: seq<(K, V)>, k: K, v: V)
    ensures Upsert(ps + [(k, v)]) == Upsert(ps)[k := v]
  {
    assert (ps + [(k, v)])[..|ps|] == ps;
  }

  /** The inner `vector_layers.forEach`: one assignment per vector layer of
      the map, on top of the assignments `before` already made. */
  method IndexMapLayers(index: map<string, DetailEntry>, ghost before: seq<(string, DetailEntry)>,
                        mapName: string, vls: seq<VectorLayer>) returns (updated: map<string, DetailEntry>)
    requires index == Upsert(before)
    ensures updated == Upsert(before + MapPairs(mapName, vls))
  {
    updated := index;
    var j := 0;
    assert before + MapPairs(mapName, vls)[..0] == before;
    while j < |vls|
      invariant 0 <= j <= |vls|
      invariant updated == Upsert(before + MapPairs(mapName, vls)[..j])
    {
      var vl := vls[j];
      UpsertSnoc(before + MapPairs(mapName, vls)[..j], Key(mapName, vl.id), EntryOf(vl));
      assert before + MapPairs(mapName, vls)[..j + 1]
        == (before + MapPairs(mapName, vls)[..j]) + [(Key(mapName, vl.id), EntryOf(vl))];
      updated := updated[Key(mapName, vl.id) := EntryOf(vl)];
      j := j + 1;
    }
    assert MapPairs(mapName, vls)[..|vls|] == MapPairs(mapName, vls);
  }

  /** The lines 45-58 loop: `allMapLayersMap`, built in place. */
  method BuildDetailIndex(maps: seq<MapDescriptor>, results: seq<Option<MapDetail>>)
    returns (index: map<string, DetailEntry>)
    ensures index == Upsert(DetailPairs(maps, results))
  {
    index := map[];
    var i := 0;
    while i < |maps|
      invariant 0 <= i <= |maps|
      invariant index == Upsert(DetailPairs(maps[..i], results))
    {
      index := IndexMapLayers(index, DetailPairs(maps[..i], results), maps[i].name, VectorLayersAt(results, i));
      DetailPairsSnoc(maps, results, i);
      i := i + 1;
    }
    assert maps[..|maps|] == maps;
  }

  // ---------------------------------------------------------------------
  // Phase 2: `infoMap`

  /** First entry of every non-empty `by_layer_name` list. */
  function InfoIndex(doc: LayersInfoDoc): map<string, LayerInfoEntry> {
    match doc.byLayerName
    case None => map[]
    case Some(byName) => map name | name in byName && |byName[name]| > 0 :: byName[name][0]
  }

  /** The lines 62-72 loop over `Object.keys(by_layer_name)`. */
  method BuildInfoMap(doc: LayersInfoDoc) returns (infoMap: map<string, LayerInfoEntry>)
    ensures forall name :: name in infoMap <==>
      doc.byLayerName.Some? && name in doc.byLayerName.value && |doc.byLayerName.value[name]| > 0
    ensures forall name :: name in infoMap ==> infoMap[name] == doc.byLayerName.value[name][0]
    ensures infoMap == InfoIndex(doc)
  {
    infoMap := map[];
    if doc.byLayerName.Some? {
      var byName := doc.byLayerName.value;
      var pending := byName.Keys;
      while pending != {}
        invariant pending <= byName.Keys
        invariant forall name :: name in infoMap <==> name in byName && name !in pending && |byName[name]| > 0
        invariant forall name :: name in infoMap ==> infoMap[name] == byName[name][0]
        decreases pending
      {
        var layerName :| layerName in pending;
        var layerInfo := byName[layerName];
        if |layerInfo| > 0 {
          infoMap := infoMap[layerName := layerInfo[0]];
        }
        pending := pending - {layerName};
      }
    }
  }

  // ---------------------------------------------------------------------
  // Phase 3: one record per (map, layer)

  /** Geometry inferred from the layer name alone, rules in source order. */
  function InferGeometry(layerName: string): string {
    if Includes(layerName, "centroids") || Includes(layerName, "points") then "point"
    else if Includes(layerName, "lines") || Includes(layerName, "_lines") then "linestring"
    else if Includes(layerName, "areas") || Includes(layerName, "_areas") || !Includes(layerName, "_")
    then "multipolygon"
    else "unknown"
  }

  /** Geometry type and fields of a layer: a detail entry wins, otherwise
      the name decides and the fields are empty. */
  function Resolve(mapName: string, layerName: string, index: map<string, DetailEntry>): (string, Fields) {
    var key := Key(mapName, layerName);
    if key in index then
      (if index[key].geometryType != "" then index[key].geometryType else "unknown", index[key].fields)
    else (InferGeometry(layerName), [])
  }

  /** `${layerName.replace(/_/g, ' ')} layer` */
  function DefaultDescription(layerName: string): string {
    UnderscoresToSpaces(layerName) + " layer"
  }

  /** `z || d` for a number: absent and 0 are falsy. */
  function ZoomOr(z: Option<int>, d: int): int {
    if z.Some? && z.value != 0 then z.value else d
  }

  /** The object pushed at lines 101-114. */
  function MakeRecord(m: MapDescriptor, layer: LayerSummary, index: map<string, DetailEntry>,
                      info: map<string, LayerInfoEntry>): LayerRecord
  {
    var (geometryType, fields) := Resolve(m.name, layer.name, index);
    var hasInfo := layer.name in info;
    LayerRecord(
      layer.name, layer.name, m.name,
      ZoomOr(layer.minzoom, 0), ZoomOr(layer.maxzoom, 20),
      layer.tiles.GetOr([]),
      geometryType, fields,
      if hasInfo then OrElse(info[layer.name].description, DefaultDescription(layer.name))
      else DefaultDescription(layer.name),
      if hasInfo then info[layer.name].details.GetOr([]) else [],
      if hasInfo then info[layer.name].filtersPerZoomLevel.GetOr([]) else [],
      if hasInfo && OrElse(info[layer.name].tegolaConfig, "") != "" then info[layer.name].tegolaConfig else None)
  }

  /** The records of one map, in its declared layer order. */
  function MapRecords(m: MapDescriptor, index: map<string, DetailEntry>,
                      info: map<string, LayerInfoEntry>): seq<LayerRecord>
  {
    seq(|LayersOf(m)|, j requires 0 <= j < |LayersOf(m)| => MakeRecord(m, LayersOf(m)[j], index, info))
  }

  lemma MapRecordsAt(m: MapDescriptor, index: map<string, DetailEntry>,
                     info: map<string, LayerInfoEntry>, j: nat)
    requires j < |LayersOf(m)|
    ensures |MapRecords(m, index, info)| == |LayersOf(m)|
    ensures MapRecords(m, index, info)[j] == MakeRecord(m, LayersOf(m)[j], index, info)
  {
  }

  /** The catalog: maps in root order, each map's layers in declared order. */
  function CatalogSpec(maps: seq<MapDescriptor>, index: map<string, DetailEntry>,
                       info: map<string, LayerInfoEntry>): seq<LayerRecord>
    decreases |maps|
  {
    if maps == [] then []
    else
      var n := |maps| - 1;
      CatalogSpec(maps[..n], index, info) + MapRecords(maps[n], index, info)
  }

  lemma CatalogSpecSnoc(maps: seq<MapDescriptor>, index: map<string, DetailEntry>,
                        info: map<string, LayerInfoEntry>, i: nat)
    requires i < |maps|
    ensures CatalogSpec(maps[..i + 1], index, info) == CatalogSpec(maps[..i], index, info) + MapRecords(maps[i], index, info)
  {
    assert maps[..i + 1][..i] == maps[..i];
  }

  /** The inner `map.layers?.forEach`: pushes one record per layer of `m`. */
  method PushMapRecords(allLayers: seq<LayerRecord>, m: MapDescriptor, index: map<string, DetailEntry>,
                        info: map<string, LayerInfoEntry>) returns (grown: seq<LayerRecord>)
    ensures grown == allLayers + MapRecords(m, index, info)
  {
    var layers := LayersOf(m);
    ghost var records := MapRecords(m, index, info);
    grown := allLayers;
    var j := 0;
    while j < |layers|
      invariant 0 <= j <= |layers|
      invariant grown == allLayers + records[..j]
    {
      var record := MakeRecord(m, layers[j], index, info);
      MapRecordsAt(m, index, info, j);
      PrefixSnoc(records, j);
      grown := grown + [record];
      j := j + 1;
    }
    assert records[..|layers|] == records;
  }

  /** The lines 75-116 nested `forEach`, growing `allLayers` with `push`. */
  method BuildLayers(maps: seq<MapDescriptor>, index: map<string, DetailEntry>,
                     info: map<string, LayerInfoEntry>) returns (allLayers: seq<LayerRecord>)
    ensures allLayers == CatalogSpec(maps, index, info)
  {
    allLayers := [];
    var i := 0;
    while i < |maps|
      invariant 0 <= i <= |maps|
      invariant allLayers == CatalogSpec(maps[..i], index, info)
    {
      allLayers := PushMapRecords(allLayers, maps[i], index, info);
      CatalogSpecSnoc(maps, index, info, i);
      i := i + 1;
    }
    assert maps[..|maps|] == maps;
  }

  /** `fetchData` after the fetches: a non-ok response for either of the two
      documents aborts with one message and no catalog; otherwise the three
      phases run, and nothing else aborts. */
  method FetchData(capabilitiesOk: bool, layersInfoOk: bool, capabilities: RootCapabilities,
                   layersInfoData: LayersInfoDoc, mapCapabilitiesResults: seq<Option<MapDetail>>)
    returns (r: Result<Catalog, string>)
    ensures !(capabilitiesOk && layersInfoOk) <==> r == Failure("Failed to fetch data")
    ensures r.Success? <==> capabilitiesOk && layersInfoOk
    ensures r.Success? ==> r.value.maps == MapsOf(capabilities)
    ensures r.Success? ==> r.value.info == InfoIndex(layersInfoData)
    ensures r.Success? ==> r.value.layers == CatalogSpec(MapsOf(capabilities),
      Upsert(DetailPairs(MapsOf(capabilities), mapCapabilitiesResults)), InfoIndex(layersInfoData))
    ensures r.Success? && MapsOf(capabilities) == [] ==> r.value.layers == []
  {
    if !capabilitiesOk || !layersInfoOk {
      return Failure("Failed to fetch data");
    }
    var maps := MapsOf(capabilities);
    var allMapLayersMap := BuildDetailIndex(maps, mapCapabilitiesResults);
    var infoMap := BuildInfoMap(layersInfoData);
    var allLayers := BuildLayers(maps, allMapLayersMap, infoMap);
    r := Success(Catalog(allLayers, maps, infoMap));
  }
}
