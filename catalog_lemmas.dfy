/** What the reconciliation in `src/App.jsx` promises, proved about the
    specification functions of module Catalog that its loops are proved to
    compute. */
module CatalogLemmas {
  import opened Wrappers
  import opened Strings
  import opened Seqs
  import opened Catalog

  // ---------------------------------------------------------------------
  // One record per declared layer, in order, and nothing else

  /** The number of layers the root capabilities declare. */
  function TotalLayers(maps: seq<MapDescriptor>): nat
    decreases |maps|
  {
    if maps == [] then 0 else TotalLayers(maps[..|maps| - 1]) + |LayersOf(maps[|maps| - 1])|
  }

  lemma {:induction false} CatalogLength(maps: seq<MapDescriptor>, index: map<string, DetailEntry>,
                                         info: map<string, LayerInfoEntry>)
    ensures |CatalogSpec(maps, index, info)| == TotalLayers(maps)
    decreases |maps|
  {
    if maps != [] {
      CatalogLength(maps[..|maps| - 1], index, info);
    }
  }

  /** Layer `j` of map `i` is the record at position (layers of the maps
      before `i`) + `j`. */
  lemma CatalogAt(maps: seq<MapDescriptor>, index: map<string, DetailEntry>,
                  info: map<string, LayerInfoEntry>, i: nat, j: nat)
    requires i < |maps| && j < |LayersOf(maps[i])|
    ensures TotalLayers(maps[..i]) + j < |CatalogSpec(maps, index, info)|
    ensures CatalogSpec(maps, index, info)[TotalLayers(maps[..i]) + j] == MapRecords(maps[i], index, info)[j]
  {
    CatalogIsConcat(maps, index, info);
    PartAt(maps, index, info, i);
    ConcatAtPart(CatalogSpec(maps, index, info), Parts(maps, index, info),
                 MapRecords(maps[i], index, info), TotalLayers(maps[..i]), i, j);
  }

  lemma PartAt(maps: seq<MapDescriptor>, index: map<string, DetailEntry>,
               info: map<string, LayerInfoEntry>, i: nat)
    requires i < |maps|
    ensures Parts(maps, index, info)[i] == MapRecords(maps[i], index, info)
    ensures |Parts(maps, index, info)[i]| == |LayersOf(maps[i])|
    ensures |Concat(Parts(maps, index, info)[..i])| == TotalLayers(maps[..i])
  {
    PartsPrefixLength(maps, index, info, i);
  }

  /** The records of the maps before `i` number the layers they declare. */
  lemma PartsPrefixLength(maps: seq<MapDescriptor>, index: map<string, DetailEntry>,
                          info: map<string, LayerInfoEntry>, i: nat)
    requires i <= |maps|
    ensures |Concat(Parts(maps, index, info)[..i])| == TotalLayers(maps[..i])
  {
    PartsPrefix(maps, index, info, i);
    CatalogIsConcat(maps[..i], index, info);
    CatalogLength(maps[..i], index, info);
  }

  lemma PartsPrefix(maps: seq<MapDescriptor>, index: map<string, DetailEntry>,
                    info: map<string, LayerInfoEntry>, i: nat)
    requires i <= |maps|
    ensures Parts(maps, index, info)[..i] == Parts(maps[..i], index, info)
  {
  }

  /** The records of each map, map by map. */
  function Parts(maps: seq<MapDescriptor>, index: map<string, DetailEntry>,
                 info: map<string, LayerInfoEntry>): (r: seq<seq<LayerRecord>>)
    ensures |r| == |maps|
  {
    seq(|maps|, i requires 0 <= i < |maps| => MapRecords(maps[i], index, info))
  }

  /** The catalog is the maps' records concatenated. */
  lemma {:induction false} CatalogIsConcat(maps: seq<MapDescriptor>, index: map<string, DetailEntry>,
                                           info: map<string, LayerInfoEntry>)
    ensures CatalogSpec(maps, index, info) == Concat(Parts(maps, index, info))
    decreases |maps|
  {
    if maps != [] {
      var n := |maps| - 1;
      CatalogIsConcat(maps[..n], index, info);
      assert Parts(maps, index, info)[..n] == Parts(maps[..n], index, info);
    }
  }

  /** Every record comes from a layer some map declares. */
  lemma {:induction false} CatalogProvenance(maps: seq<MapDescriptor>, index: map<string, DetailEntry>,
                                             info: map<string, LayerInfoEntry>, k: nat)
    requires k < |CatalogSpec(maps, index, info)|
    ensures exists i, j :: (0 <= i < |maps| && 0 <= j < |LayersOf(maps[i])|
      && CatalogSpec(maps, index, info)[k] == MakeRecord(maps[i], LayersOf(maps[i])[j], index, info))
    decreases |maps|
  {
    var n := |maps| - 1;
    var prefix := maps[..n];
    var front := CatalogSpec(prefix, index, info);
    var last := MapRecords(maps[n], index, info);
    assert CatalogSpec(maps, index, info) == front + last;
    if k < |front| {
      CatalogProvenance(prefix, index, info, k);
      var i, j :| 0 <= i < |prefix| && 0 <= j < |LayersOf(prefix[i])|
        && front[k] == MakeRecord(prefix[i], LayersOf(prefix[i])[j], index, info);
      assert prefix[i] == maps[i];
      assert CatalogSpec(maps, index, info)[k] == front[k];
    } else {
      var j := k - |front|;
      MapRecordsAt(maps[n], index, info, j);
      assert CatalogSpec(maps, index, info)[k] == last[j];
    }
  }

  /** Each record names its layer and its map and copies the summary,
      with the falsy defaults of lines 105-107. */
  lemma RecordFromSummary(m: MapDescriptor, layer: LayerSummary, index: map<string, DetailEntry>,
                          info: map<string, LayerInfoEntry>)
    ensures var r := MakeRecord(m, layer, index, info);
      && r.id == layer.name && r.name == layer.name && r.mapName == m.name
      && r.tiles == (if layer.tiles.Some? then layer.tiles.value else [])
      && (layer.minzoom.Some? && layer.minzoom.value != 0 ==> r.minzoom == layer.minzoom.value)
      && (layer.minzoom.None? || layer.minzoom.value == 0 ==> r.minzoom == 0)
      && (layer.maxzoom.Some? && layer.maxzoom.value != 0 ==> r.maxzoom == layer.maxzoom.value)
      && (layer.maxzoom.None? || layer.maxzoom.value == 0 ==> r.maxzoom == 20)
  {
  }

  /** The (map name, layer name) pair of every declared layer, in catalog order. */
  function NamePairs(maps: seq<MapDescriptor>): (r: seq<(string, string)>)
    ensures |r| == TotalLayers(maps)
    decreases |maps|
  {
    if maps == [] then []
    else
      var n := |maps| - 1;
      var m := maps[n];
      NamePairs(maps[..n]) + MapNamePairs(m)
  }

  /** The pairs of one map's layers. */
  function MapNamePairs(m: MapDescriptor): (r: seq<(string, string)>)
    ensures |r| == |LayersOf(m)|
  {
    seq(|LayersOf(m)|, j requires 0 <= j < |LayersOf(m)| => (m.name, LayersOf(m)[j].name))
  }

  /** The records carry the pairs, position by position. */
  predicate CarriesNames(records: seq<LayerRecord>, pairs: seq<(string, string)>) {
    |records| == |pairs| && forall k :: 0 <= k < |pairs| ==> (records[k].mapName, records[k].name) == pairs[k]
  }

  lemma CarriesNamesAppend(a: seq<LayerRecord>, b: seq<LayerRecord>, pa: seq<(string, string)>, pb: seq<(string, string)>)
    requires CarriesNames(a, pa) && CarriesNames(b, pb)
    ensures CarriesNames(a + b, pa + pb)
  {
    forall k | 0 <= k < |pa + pb| ensures ((a + b)[k].mapName, (a + b)[k].name) == (pa + pb)[k] {
      if k < |pa| {
        assert (a + b)[k] == a[k] && (pa + pb)[k] == pa[k];
      } else {
        assert (a + b)[k] == b[k - |a|] && (pa + pb)[k] == pb[k - |pa|];
      }
    }
  }

  /** Each record carries the names of the layer and map it came from. */
  lemma {:induction false} CatalogNames(maps: seq<MapDescriptor>, index: map<string, DetailEntry>,
                                        info: map<string, LayerInfoEntry>)
    ensures |CatalogSpec(maps, index, info)| == |NamePairs(maps)|
    ensures forall k :: 0 <= k < |NamePairs(maps)| ==>
      (CatalogSpec(maps, index, info)[k].mapName, CatalogSpec(maps, index, info)[k].name) == NamePairs(maps)[k]
  {
    CatalogCarriesNames(maps, index, info);
  }

  lemma {:induction false} CatalogCarriesNames(maps: seq<MapDescriptor>, index: map<string, DetailEntry>,
                                               info: map<string, LayerInfoEntry>)
    ensures CarriesNames(CatalogSpec(maps, index, info), NamePairs(maps))
    decreases |maps|
  {
    if maps != [] {
      var n := |maps| - 1;
      CatalogCarriesNames(maps[..n], index, info);
      MapRecordsNames(maps[n], index, info);
      CarriesNamesAppend(CatalogSpec(maps[..n], index, info), MapRecords(maps[n], index, info),
                         NamePairs(maps[..n]), MapNamePairs(maps[n]));
    }
  }

  lemma MapRecordsNames(m: MapDescriptor, index: map<string, DetailEntry>, info: map<string, LayerInfoEntry>)
    ensures CarriesNames(MapRecords(m, index, info), MapNamePairs(m))
  {
  }

  /** The map half of every pair names one of the maps. */
  lemma {:induction false} NamePairsFromMaps(maps: seq<MapDescriptor>, p: nat)
    requires p < |NamePairs(maps)|
    ensures exists i :: 0 <= i < |maps| && NamePairs(maps)[p].0 == maps[i].name
    decreases |maps|
  {
    var n := |maps| - 1;
    var front := NamePairs(maps[..n]);
    if p < |front| {
      NamePairsFromMaps(maps[..n], p);
      var i :| 0 <= i < n && front[p].0 == maps[..n][i].name;
      assert maps[..n][i] == maps[i];
    } else {
      assert NamePairs(maps)[p].0 == maps[n].name;
    }
  }

  /** Distinct map names and distinct layer names within a map make the
      pairs distinct. */
  lemma {:induction false} NamePairsUnique(maps: seq<MapDescriptor>)
    requires forall a, b :: 0 <= a < b < |maps| ==> maps[a].name != maps[b].name
    requires forall i, a, b :: (0 <= i < |maps| && 0 <= a < b < |LayersOf(maps[i])|
      ==> LayersOf(maps[i])[a].name != LayersOf(maps[i])[b].name)
    ensures forall p, q :: 0 <= p < q < |NamePairs(maps)| ==> NamePairs(maps)[p] != NamePairs(maps)[q]
    decreases |maps|
  {
    if maps != [] {
      var n := |maps| - 1;
      var prefix := maps[..n];
      var ps := NamePairs(maps);
      var front := NamePairs(prefix);
      assert forall i :: 0 <= i < n ==> prefix[i] == maps[i];
      NamePairsUnique(prefix);
      forall p, q | 0 <= p < q < |ps|
        ensures ps[p] != ps[q]
      {
        if p < |front| <= q {
          NamePairsFromMaps(prefix, p);
          assert ps[q].0 == maps[n].name;
        }
      }
    }
  }

  /** With the names unique, no two records share (map, layer name). */
  lemma CatalogPairsUnique(maps: seq<MapDescriptor>, index: map<string, DetailEntry>,
                           info: map<string, LayerInfoEntry>)
    requires forall a, b :: 0 <= a < b < |maps| ==> maps[a].name != maps[b].name
    requires forall i, a, b :: (0 <= i < |maps| && 0 <= a < b < |LayersOf(maps[i])|
      ==> LayersOf(maps[i])[a].name != LayersOf(maps[i])[b].name)
    ensures var c := CatalogSpec(maps, index, info);
      forall p, q :: 0 <= p < q < |c| ==> c[p].mapName != c[q].mapName || c[p].name != c[q].name
  {
    CatalogNames(maps, index, info);
    NamePairsUnique(maps);
  }

  // ---------------------------------------------------------------------
  // Geometry and fields

  /** A detail entry decides geometry and fields outright; only without one
      is the name consulted. The geometry is never left empty. */
  lemma GeometryPrecedence(m: MapDescriptor, layer: LayerSummary, index: map<string, DetailEntry>,
                           info: map<string, LayerInfoEntry>)
    ensures var r := MakeRecord(m, layer, index, info);
      var key := Key(m.name, layer.name);
      && (key in index ==>
            && r.fields == index[key].fields
            && r.geometryType == (if index[key].geometryType != "" then index[key].geometryType else "unknown"))
      && (key !in index ==> r.fields == [] && r.geometryType == InferGeometry(layer.name))
      && r.geometryType != ""
  {
  }

  /** The inference rules without the redundant `_lines` and `_areas`
      tests: the first rule that holds wins. */
  lemma InferGeometryRules(name: string)
    ensures InferGeometry(name) == "point" <==> Includes(name, "centroids") || Includes(name, "points")
    ensures InferGeometry(name) == "linestring" <==>
      !Includes(name, "centroids") && !Includes(name, "points") && Includes(name, "lines")
    ensures InferGeometry(name) == "multipolygon" <==>
      !Includes(name, "centroids") && !Includes(name, "points") && !Includes(name, "lines")
      && (Includes(name, "areas") || !Includes(name, "_"))
    ensures InferGeometry(name) == "unknown" <==>
      !Includes(name, "centroids") && !Includes(name, "points") && !Includes(name, "lines")
      && !Includes(name, "areas") && Includes(name, "_")
  {
    if Includes(name, "_lines") {
      assert "_lines" == "_" + "lines";
      IncludesSuffix(name, "lines");
    }
    if Includes(name, "_areas") {
      assert "_areas" == "_" + "areas";
      IncludesSuffix(name, "areas");
    }
  }

  /** A name lacking a letter of `centroids` and a letter of `points`: the
      point rule does not fire. */
  lemma NotPointName(name: string, c: char, p: char)
    requires c in "centroids" && c !in name && p in "points" && p !in name
    ensures !Includes(name, "centroids") && !Includes(name, "points")
  {
    AbsentChar(name, "centroids", c);
    AbsentChar(name, "points", p);
  }

  /** A name that ends in a keyword includes it. */
  lemma EndsInKeyword(name: string, head: string, keyword: string)
    requires name == head + keyword
    ensures Includes(name, keyword)
  {
    IncludesSuffixOf(head, keyword);
  }

  /** A name lacking a letter of each point and line keyword, but
      including `areas`, is an area. */
  lemma AreaRuleApplies(name: string, c: char, p: char, l: char)
    requires c in "centroids" && p in "points" && l in "lines"
    requires c !in name && p !in name && l !in name && Includes(name, "areas")
    ensures InferGeometry(name) == "multipolygon"
  {
    NotPointName(name, c, p);
    AbsentChar(name, "lines", l);
    InferGeometryRules(name);
  }

  /** A name with an underscore that lacks a letter of every keyword matches
      no rule. */
  lemma NoRuleApplies(name: string, c: char, p: char, l: char, a: char)
    requires c in "centroids" && p in "points" && l in "lines" && a in "areas"
    requires c !in name && p !in name && l !in name && a !in name && '_' in name
    ensures InferGeometry(name) == "unknown"
  {
    NotPointName(name, c, p);
    AbsentChar(name, "lines", l);
    AbsentChar(name, "areas", a);
    var k :| 0 <= k < |name| && name[k] == '_';
    assert name[k..k + 1] == "_";
    IncludesAt(name, "_", k);
    InferGeometryRules(name);
  }

  /** `admin_areas` contains `areas` and none of the earlier keywords. */
  lemma InferAdminAreas()
    ensures InferGeometry("admin_areas") == "multipolygon"
  {
    EndsInKeyword("admin_areas", "admin_", "areas");
    AreaRuleApplies("admin_areas", 'c', 'p', 'l');
  }

  lemma InferRoadLines()
    ensures InferGeometry("road_lines") == "linestring"
  {
    NotPointName("road_lines", 'c', 'p');
    EndsInKeyword("road_lines", "road_", "lines");
  }

  lemma InferPlaceCentroids()
    ensures InferGeometry("place_centroids") == "point"
  {
    EndsInKeyword("place_centroids", "place_", "centroids");
  }

  /** No keyword and no underscore: the no-underscore fallback. */
  lemma InferWater()
    ensures InferGeometry("water") == "multipolygon"
  {
    NotPointName("water", 'c', 'p');
    assert !Includes("water", "lines") by { AbsentChar("water", "lines", 'l'); }
    assert !Includes("water", "_lines") by { AbsentChar("water", "_lines", 'l'); }
    assert !Includes("water", "_") by { AbsentChar("water", "_", '_'); }
  }

  /** "lines" matches inside a word. */
  lemma InferCoastlines()
    ensures InferGeometry("coastlines") == "linestring"
  {
    NotPointName("coastlines", 'd', 'p');
    EndsInKeyword("coastlines", "coast", "lines");
  }

  /** An underscore and no keyword: no rule applies. */
  lemma InferLandUse()
    ensures InferGeometry("land_use") == "unknown"
  {
    NoRuleApplies("land_use", 'c', 'p', 'i', 'r');
  }

  /** Rules are tried in order: the point rule is checked first. */
  lemma InferPointsBeforeAreas()
    ensures InferGeometry("points_areas") == "point"
  {
    assert Includes("points_areas", "points") by { IncludesAt("points_areas", "points", 0); }
  }

  // ---------------------------------------------------------------------
  // Info-derived fields

  /** Description, details, filters and Tegola config come from the layer's
      info entry when there is one, each with its falsy default. */
  lemma InfoDefaults(m: MapDescriptor, layer: LayerSummary, index: map<string, DetailEntry>,
                     info: map<string, LayerInfoEntry>)
    ensures var r := MakeRecord(m, layer, index, info);
      && (layer.name !in info ==>
            && r.description == DefaultDescription(layer.name)
            && r.details == [] && r.filtersPerZoomLevel == [] && r.tegolaConfig == None)
      && (layer.name in info ==>
            var e := info[layer.name];
            && r.description == OrElse(e.description, DefaultDescription(layer.name))
            && r.details == (if e.details.Some? then e.details.value else [])
            && r.filtersPerZoomLevel == (if e.filtersPerZoomLevel.Some? then e.filtersPerZoomLevel.value else [])
            && r.tegolaConfig == (if e.tegolaConfig.Some? && e.tegolaConfig.value != "" then e.tegolaConfig else None))
  {
  }

  /** The derived description is the name with every underscore turned into
      a space, followed by " layer". */
  lemma DefaultDescriptionShape(name: string)
    ensures var d := DefaultDescription(name);
      && |d| == |name| + 6 && d[|name|..] == " layer"
      && (forall i :: 0 <= i < |name| ==> d[i] == if name[i] == '_' then ' ' else name[i])
      && (forall i :: 0 <= i < |name| ==> d[i] != '_')
  {
  }

  /** Only the first entry of a non-empty list is kept, keyed by the bare
      layer name; names with empty lists are absent. */
  lemma InfoIndexFirstEntry(doc: LayersInfoDoc, name: string)
    ensures name in InfoIndex(doc) <==>
      doc.byLayerName.Some? && name in doc.byLayerName.value && |doc.byLayerName.value[name]| > 0
    ensures name in InfoIndex(doc) ==> InfoIndex(doc)[name] == doc.byLayerName.value[name][0]
  {
  }

  // ---------------------------------------------------------------------
  // The detail index

  /** A key is in the dictionary iff some assignment wrote it. */
  lemma {:induction false} UpsertKeys<K, V>(ps: seq<(K, V)>, k: K)
    ensures k in Upsert(ps) <==> exists q :: 0 <= q < |ps| && ps[q].0 == k
    decreases |ps|
  {
    if ps != [] {
      var n := |ps| - 1;
      UpsertKeys(ps[..n], k);
      if k in Upsert(ps[..n]) {
        var q :| 0 <= q < n && ps[..n][q].0 == k;
        assert ps[q].0 == k;
      }
      if exists q :: 0 <= q < |ps| && ps[q].0 == k {
        var q :| 0 <= q < |ps| && ps[q].0 == k;
        if q < n { assert ps[..n][q].0 == k; }
      }
    }
  }

  /** The last assignment to a key is the one that stays. */
  lemma {:induction false} UpsertLastWins<K, V>(ps: seq<(K, V)>, q: nat)
    requires q < |ps|
    requires forall q' :: q < q' < |ps| ==> ps[q'].0 != ps[q].0
    ensures ps[q].0 in Upsert(ps) && Upsert(ps)[ps[q].0] == ps[q].1
    decreases |ps|
  {
    var n := |ps| - 1;
    if q < n {
      assert ps[..n][q] == ps[q];
      UpsertLastWins(ps[..n], q);
    }
  }

  /** Assignments that never write `k` leave `k` as it was. */
  lemma {:induction false} UpsertAppendNoKey<K, V>(a: seq<(K, V)>, b: seq<(K, V)>, k: K)
    requires forall q :: 0 <= q < |b| ==> b[q].0 != k
    ensures k in Upsert(a + b) <==> k in Upsert(a)
    ensures k in Upsert(a) ==> Upsert(a + b)[k] == Upsert(a)[k]
    decreases |b|
  {
    if b != [] {
      var n := |b| - 1;
      assert (a + b)[..|a + b| - 1] == a + b[..n];
      assert (a + b)[|a + b| - 1] == b[n];
      assert b[n].0 != k;
      UpsertAppendNoKey(a, b[..n], k);
      assert Upsert(a + b) == Upsert(a + b[..n])[b[n].0 := b[n].1];
    } else {
      assert a + b == a;
    }
  }

  /** In a key, the first ':' sits right after the map name. */
  lemma SeparatorPosition(m: string, l: string)
    requires ':' !in m
    ensures |Key(m, l)| == |m| + 1 + |l| && Key(m, l)[|m|] == ':'
    ensures forall i :: 0 <= i < |m| ==> Key(m, l)[i] != ':'
  {
    assert forall i :: 0 <= i < |m| ==> Key(m, l)[i] == m[i];
  }

  /** The map name is never allowed a ':', so different (map, layer) pairs
      give different keys. Without that assumption keys can collide, e.g.
      ("a", "b:c") and ("a:b", "c"). */
  lemma KeyInjective(m1: string, l1: string, m2: string, l2: string)
    requires ':' !in m1 && ':' !in m2
    requires Key(m1, l1) == Key(m2, l2)
    ensures m1 == m2 && l1 == l2
  {
    var k := Key(m1, l1);
    SeparatorPosition(m1, l1);
    SeparatorPosition(m2, l2);
    assert |m1| == |m2|;
    assert m1 == k[..|m1|] == m2;
    assert l1 == k[|m1| + 1..] == l2;
  }

  /** The two collisions the separator allows are real. */
  lemma KeyCollision()
    ensures Key("a", "b:c") == Key("a:b", "c")
  {
  }

  /** Keys of one map share the map's name, so they coincide only for equal ids. */
  lemma SameMapKey(mapName: string, id1: string, id2: string)
    requires Key(mapName, id1) == Key(mapName, id2)
    ensures id1 == id2
  {
    assert id1 == Key(mapName, id1)[|mapName| + 1..];
  }

  /** Every assignment comes from a vector layer of the detail document at
      the same position as its map. */
  lemma {:induction false} DetailPairsOrigin(maps: seq<MapDescriptor>, results: seq<Option<MapDetail>>, q: nat)
    requires q < |DetailPairs(maps, results)|
    ensures exists i, j :: (0 <= i < |maps| && 0 <= j < |VectorLayersAt(results, i)|
      && DetailPairs(maps, results)[q] == (Key(maps[i].name, VectorLayersAt(results, i)[j].id),
                                           EntryOf(VectorLayersAt(results, i)[j])))
    decreases |maps|
  {
    var n := |maps| - 1;
    var prefix := maps[..n];
    var front := DetailPairs(prefix, results);
    if q < |front| {
      DetailPairsOrigin(prefix, results, q);
      var i, j :| 0 <= i < |prefix| && 0 <= j < |VectorLayersAt(results, i)|
        && front[q] == (Key(prefix[i].name, VectorLayersAt(results, i)[j].id), EntryOf(VectorLayersAt(results, i)[j]));
      assert prefix[i] == maps[i];
    } else {
      var j := q - |front|;
      assert DetailPairs(maps, results)[q] == MapPairs(maps[n].name, VectorLayersAt(results, n))[j];
    }
  }

  /** When a map's detail fetch failed (or its document has no
      `vector_layers`), every layer of that map is resolved by name. */
  lemma NoDetailMeansInference(maps: seq<MapDescriptor>, results: seq<Option<MapDetail>>,
                               info: map<string, LayerInfoEntry>, i: nat, j: nat)
    requires forall a :: 0 <= a < |maps| ==> ':' !in maps[a].name
    requires forall a, b :: 0 <= a < b < |maps| ==> maps[a].name != maps[b].name
    requires i < |maps| && j < |LayersOf(maps[i])|
    requires VectorLayersAt(results, i) == []
    ensures TotalLayers(maps[..i]) + j < |CatalogSpec(maps, Upsert(DetailPairs(maps, results)), info)|
    ensures var index := Upsert(DetailPairs(maps, results));
      var r := CatalogSpec(maps, index, info)[TotalLayers(maps[..i]) + j];
      && Key(maps[i].name, LayersOf(maps[i])[j].name) !in index
      && r.geometryType == InferGeometry(LayersOf(maps[i])[j].name) && r.fields == []
  {
    var ps := DetailPairs(maps, results);
    var index := Upsert(ps);
    var layer := LayersOf(maps[i])[j];
    var k := Key(maps[i].name, layer.name);
    if k in index {
      UpsertKeys(ps, k);
      var q :| 0 <= q < |ps| && ps[q].0 == k;
      DetailPairsOrigin(maps, results, q);
      var i', j' :| 0 <= i' < |maps| && 0 <= j' < |VectorLayersAt(results, i')|
        && ps[q] == (Key(maps[i'].name, VectorLayersAt(results, i')[j'].id), EntryOf(VectorLayersAt(results, i')[j']));
      KeyInjective(maps[i'].name, VectorLayersAt(results, i')[j'].id, maps[i].name, layer.name);
      assert false;
    }
    CatalogAt(maps, index, info, i, j);
    MapRecordsAt(maps[i], index, info, j);
  }

  /** The last `vector_layers` entry of map `i` with a given id is the entry
      the index holds for that (map, layer) key. */
  lemma {:induction false} DetailMatchWins(maps: seq<MapDescriptor>, results: seq<Option<MapDetail>>, i: nat, j: nat)
    requires forall a :: 0 <= a < |maps| ==> ':' !in maps[a].name
    requires forall a, b :: 0 <= a < b < |maps| ==> maps[a].name != maps[b].name
    requires i < |maps| && j < |VectorLayersAt(results, i)|
    requires forall j' :: (j < j' < |VectorLayersAt(results, i)|
      ==> VectorLayersAt(results, i)[j'].id != VectorLayersAt(results, i)[j].id)
    ensures var k := Key(maps[i].name, VectorLayersAt(results, i)[j].id);
      var index := Upsert(DetailPairs(maps, results));
      k in index && index[k] == EntryOf(VectorLayersAt(results, i)[j])
    decreases |maps|
  {
    var n := |maps| - 1;
    var prefix := maps[..n];
    var vls := VectorLayersAt(results, i);
    var k := Key(maps[i].name, vls[j].id);
    var front := DetailPairs(prefix, results);
    var back := MapPairs(maps[n].name, VectorLayersAt(results, n));
    var ps := DetailPairs(maps, results);
    assert ps == front + back;
    if i == n {
      var q := |front| + j;
      assert ps[q] == back[j] == (k, EntryOf(vls[j]));
      forall q' | q < q' < |ps| ensures ps[q'].0 != ps[q].0 {
        var j' := q' - |front|;
        assert ps[q'] == back[j'];
        if ps[q'].0 == k {
          SameMapKey(maps[n].name, vls[j'].id, vls[j].id);
        }
      }
      UpsertLastWins(ps, q);
    } else {
      assert forall a :: 0 <= a < n ==> prefix[a] == maps[a];
      DetailMatchWins(prefix, results, i, j);
      forall q | 0 <= q < |back| ensures back[q].0 != k {
        if back[q].0 == k {
          KeyInjective(maps[n].name, VectorLayersAt(results, n)[q].id, maps[i].name, vls[j].id);
        }
      }
      UpsertAppendNoKey(front, back, k);
    }
  }

  /** Detailed evidence always beats the naming convention: a layer that the
      detail document of its own map describes takes that document's
      geometry (or "unknown" when it is empty) and fields. */
  lemma DetailWinsOverInference(maps: seq<MapDescriptor>, results: seq<Option<MapDetail>>,
                                info: map<string, LayerInfoEntry>, i: nat, j: nat, v: nat)
    requires forall a :: 0 <= a < |maps| ==> ':' !in maps[a].name
    requires forall a, b :: 0 <= a < b < |maps| ==> maps[a].name != maps[b].name
    requires i < |maps| && j < |LayersOf(maps[i])| && v < |VectorLayersAt(results, i)|
    requires VectorLayersAt(results, i)[v].id == LayersOf(maps[i])[j].name
    requires forall v' :: (v < v' < |VectorLayersAt(results, i)|
      ==> VectorLayersAt(results, i)[v'].id != VectorLayersAt(results, i)[v].id)
    ensures TotalLayers(maps[..i]) + j < |CatalogSpec(maps, Upsert(DetailPairs(maps, results)), info)|
    ensures var index := Upsert(DetailPairs(maps, results));
      var e := EntryOf(VectorLayersAt(results, i)[v]);
      var r := CatalogSpec(maps, index, info)[TotalLayers(maps[..i]) + j];
      && r.geometryType == (if e.geometryType != "" then e.geometryType else "unknown")
      && r.fields == e.fields
  {
    var index := Upsert(DetailPairs(maps, results));
    DetailMatchWins(maps, results, i, v);
    CatalogAt(maps, index, info, i, j);
    MapRecordsAt(maps[i], index, info, j);
  }
}
