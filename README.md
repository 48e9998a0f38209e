# vtiles-schema, modelled in Dafny

vtiles-schema is the OpenHistoricalMap browser for the vector-tile schema. It reads three documents:

- the tiler's root capabilities, which list maps and their layers;
- one detail document per map, listing vector layers with geometry and fields;
- the layer-info document, with descriptions, details, per-zoom filters and Tegola configuration names per layer.

It merges them into a catalog of layer records. Pages then show the catalog by map, with badges, icons and labels for each geometry type. A separate page lists the locales of the `name_*` fields, with counts, and shows them on a map.

This project models the logic of that application and proves what it does:

- **`Config`** (`config.dfy`). The environment choice (a `VITE_ENV` override, otherwise production or staging by build), the selection between the two configurations, and the two URL builders. The URL builders come with their inverses.
- **`Catalog`** and **`CatalogLemmas`** (`catalog.dfy`, `catalog_lemmas.dfy`). The reconciliation inside `fetchData`, written as the loops of the source. Each loop is a method proved against a specification function:
  - the detail index keyed by `map:layer`, where the last entry wins;
  - the info index, which takes the first entry of each non-empty list;
  - the per-layer record loop, with the geometry precedence, name inference and falsy defaults of JavaScript.
  The lemmas state the catalog's shape, the provenance of each record, its defaults, the inference rules, and how a detail match wins over inference.
- **`Geometry`** (`geometry.dfy`). The geometry helpers repeated in three components:
  - the normalisation that lower-cases and then strips the first `multi`;
  - the badge category and the icon category;
  - the two badge palettes;
  - the label with its two placeholders.
  Each helper is defined once, and the lemmas relate the three copies.
- **`LayerDetail`** (`layer_detail.dfy`):
  - The URL-in-text tokeniser, a `while` loop over the regex `exec`, proved against a segment function. Its lemmas say the segments concatenate to the input, text and URL segments alternate, and every URL is a maximal `https?://[^\s)]+` match.
  - The `name_` field partition.
  - The Tegola configuration link, which is a finding (see below).
- **`LayersPage`** (`layers_page.dfy`). Map lookup, the map's layers, and the URL-driven selection. The selection is a class holding the selected layer and the history of search parameters, whose methods are the effect and the click handler.
- **`Locales`** and **`LocalesMapPage`** (`locales.dfy`, `locales_map_page.dfy`):
  - locale extraction and the comparator sort (count descending, then key name), as an insertion sort;
  - the search filter and the heading count;
  - feature lookup and the row highlight;
  - the bounding-box loop over a polygon's outer ring, as a method.
- **`Wrappers`**, **`Strings`**, **`Seqs`**. Option/Result, the string primitives of JavaScript the code relies on, and generic sequence lemmas.

Modelling choices:

- JavaScript falsiness is modelled explicitly. An absent value is `None`, the empty string is falsy, and an absent or zero zoom is falsy.
- The fetch results, including a failed per-map fetch (`null`), are inputs.

## Model

| member | source | states |
|---|---|---|
| Config.GetEnvironment | src/config.js:3-8 | a non-empty `VITE_ENV` is the environment; without one, a PROD build is `production` and any other build is `staging` |
| Config.SelectConfig | src/config.js:48 | the production configuration is chosen exactly when the environment is the string `production`; every other value selects staging |
| Config.ProductionSelection | src/config.js:3-48 | production is selected iff `VITE_ENV` is `production`, or it is unset or empty in a PROD build |
| Config.GitHubBranchPerEnvironment | src/config.js:22-44 | the GitHub branch is `main` in production and `staging` otherwise; the repository base and `images/tiler-server` are shared |
| Config.MapCapabilitiesUrl | src/config.js:61-63 | the URL starts with the capabilities base and `/`, ends with `.json`, and is exactly six characters longer than base plus map name |
| Config.MapNameOfCapabilitiesUrl | src/config.js:61-63 | any map name it recovers from a URL builds that same URL |
| Config.MapCapabilitiesUrlRoundTrip | src/config.js:61-63 | the map name is recovered from the URL built for it |
| Config.MapCapabilitiesUrlInjective | src/config.js:61-63 | two maps never share a capabilities URL |
| Config.TegolaConfigUrl | src/config.js:69-71 | the link starts with `base/blob/branch/` of the chosen configuration |
| Config.ConfigPathOfTegolaUrl | src/config.js:69-71 | any configuration path it recovers from a link builds that same link |
| Config.TegolaConfigUrlRoundTrip | src/config.js:69-71 | the configuration path is recovered from the link built for it |
| Catalog.InferGeometry | src/App.jsx:91-98 | the geometry guessed from a layer name alone, by the first keyword rule that applies; `CatalogLemmas.InferGeometryRules` states each rule as an iff |
| Catalog.Resolve | src/App.jsx:81-99 | the geometry and fields a layer takes: a matching detail entry's when its `map:name` key is indexed, otherwise the guess from the name and no fields; `CatalogLemmas.GeometryPrecedence` proves the precedence |
| Catalog.ZoomOr | src/App.jsx:105-106 | a zoom level with JavaScript's `or` default: an absent zoom and the zoom 0 are both falsy and give the default |
| Catalog.DefaultDescription | src/App.jsx:110 | the description of a layer whose info gives none; `CatalogLemmas.DefaultDescriptionShape` gives its shape |
| Catalog.MakeRecord | src/App.jsx:101-114 | the one record pushed for a layer of a map, with the resolved geometry and every falsy default; `CatalogLemmas.RecordFromSummary` and `CatalogLemmas.InfoDefaults` state its fields |
| Catalog.MapRecords | src/App.jsx:76-115 | the records of one map, one per layer in declared order: the specification `Catalog.PushMapRecords` is proved against |
| Catalog.CatalogSpec | src/App.jsx:75-116 | every map's records, map after map: the specification `Catalog.BuildLayers` is proved against, whose shape `CatalogLemmas.CatalogLength`, `CatalogAt` and `CatalogProvenance` state |
| Catalog.DetailPairs | src/App.jsx:45-58 | the `map:id` key and entry of every vector layer, in the order the loops visit them, as `CatalogLemmas.DetailPairsOrigin` states |
| Catalog.Upsert | src/App.jsx:52 | the object built by assigning pairs in order, so that a later pair overwrites an earlier one with its key; `CatalogLemmas.UpsertKeys` and `UpsertLastWins` state it |
| Catalog.InfoIndex | src/App.jsx:65-72 | the specification of `infoMap` that `Catalog.BuildInfoMap` is proved against; `CatalogLemmas.InfoIndexFirstEntry` states its keys and values |
| Catalog.EntryOf | src/App.jsx:52-55 | a detail entry's geometry is `geometry_type` when that is non-empty, otherwise `geometryType` or empty |
| Catalog.IndexMapLayers | src/App.jsx:49-56 | the inner `forEach` leaves the index equal to the last-wins map of every pair seen so far plus this map's `map:id` pairs |
| Catalog.BuildDetailIndex | src/App.jsx:45-58 | the detail index is the last-wins map of all `map:id` pairs, in map order, with a null result contributing nothing |
| Catalog.BuildInfoMap | src/App.jsx:62-72 | a name is in `infoMap` iff its info list exists and is non-empty, and it maps to the list's first entry |
| Catalog.PushMapRecords | src/App.jsx:76-115 | the layer loop appends exactly this map's records, one per layer in declared order |
| Catalog.BuildLayers | src/App.jsx:75-116 | the nested loops produce exactly the catalog specification: each map's records in root order |
| Catalog.FetchData | src/App.jsx:28-120 | it fails with `Failed to fetch data` iff either of the two documents came back with a non-ok response, and it yields a catalog exactly when both are ok; otherwise maps, info map and layers are the ones the merge defines, and no maps means no layers |
| CatalogLemmas.CatalogLength | src/App.jsx:75-116 | the catalog has as many records as all maps have layers together |
| CatalogLemmas.CatalogAt | src/App.jsx:75-116 | layer `j` of map `i` sits at position (layers of earlier maps) + `j`, and is that layer's record |
| CatalogLemmas.CatalogProvenance | src/App.jsx:75-116 | every record is the record of some layer of some map; nothing else is in the catalog |
| CatalogLemmas.RecordFromSummary | src/App.jsx:101-107 | `id` and `name` are the layer name, `map` is the map name, tiles default to empty, a falsy minzoom gives 0 and a falsy maxzoom (including 0) gives 20 |
| CatalogLemmas.CatalogNames | src/App.jsx:101-104 | the catalog's (map, name) pairs are, position by position, the root's (map, layer) pairs |
| CatalogLemmas.NamePairsFromMaps | src/App.jsx:75-104 | every (map, layer) pair names a map of the root |
| CatalogLemmas.NamePairsUnique | src/App.jsx:75-104 | with distinct map names and distinct layer names per map, no (map, layer) pair repeats |
| CatalogLemmas.CatalogPairsUnique | src/App.jsx:75-116 | under the same assumption no two records share map and name |
| CatalogLemmas.GeometryPrecedence | src/App.jsx:81-99 | with a detail match the geometry is the stored type (or `unknown` when empty) and the fields are the detail's; without one the fields are empty and the geometry is inferred from the name; the geometry is never empty |
| CatalogLemmas.InferGeometryRules | src/App.jsx:91-98 | inference picks `point` for `centroids`/`points`, else `linestring` for `lines`, else `multipolygon` for `areas` or no `_`, else `unknown`, each as an iff |
| CatalogLemmas.NotPointName | src/App.jsx:91-92 | a name lacking a letter of `centroids` and a letter of `points` sets off neither point keyword |
| CatalogLemmas.EndsInKeyword | src/App.jsx:91-97 | a name ending in a keyword includes it, as `includes` tests |
| CatalogLemmas.AreaRuleApplies | src/App.jsx:91-97 | a name with `areas` and no point or line keyword is inferred as `multipolygon` |
| CatalogLemmas.NoRuleApplies | src/App.jsx:91-98 | a name with an underscore and no keyword is inferred as `unknown` |
| CatalogLemmas.InferAdminAreas | src/App.jsx:95-97 | `admin_areas` is inferred as `multipolygon` |
| CatalogLemmas.InferRoadLines | src/App.jsx:93-94 | `road_lines` is inferred as `linestring` |
| CatalogLemmas.InferPlaceCentroids | src/App.jsx:91-92 | `place_centroids` is inferred as `point` |
| CatalogLemmas.InferWater | src/App.jsx:95-97 | `water`, with no `_`, is inferred as `multipolygon` |
| CatalogLemmas.InferCoastlines | src/App.jsx:93-94 | `coastlines` is inferred as `linestring` |
| CatalogLemmas.InferLandUse | src/App.jsx:91-98 | `land_use` matches no rule and stays `unknown` |
| CatalogLemmas.InferPointsBeforeAreas | src/App.jsx:91-92 | a name with both `points` and `areas` is a `point`: the first rule wins |
| CatalogLemmas.InfoDefaults | src/App.jsx:110-113 | without info the description is the derived one and details, filters and Tegola configuration are empty; with info each falsy field falls back the same way |
| CatalogLemmas.DefaultDescriptionShape | src/App.jsx:110 | the derived description is the name with every `_` replaced by a space, then ` layer` |
| CatalogLemmas.InfoIndexFirstEntry | src/App.jsx:65-72 | `infoMap` holds exactly the names with a non-empty list, each with its first entry |
| CatalogLemmas.UpsertKeys | src/App.jsx:52 | a key is in the index iff some pair carries it |
| CatalogLemmas.UpsertLastWins | src/App.jsx:52 | the value kept for a key is that of its last pair |
| CatalogLemmas.UpsertAppendNoKey | src/App.jsx:52 | pairs for other keys, added later, do not change a key's entry |
| CatalogLemmas.SeparatorPosition | src/App.jsx:51 | for a map name without `:` the key's first `:` sits right after the map name |
| CatalogLemmas.KeyInjective | src/App.jsx:51 | for map names without `:`, equal keys mean equal map names and layer ids |
| CatalogLemmas.KeyCollision | src/App.jsx:51 | without that assumption keys collide: (`a`, `b:c`) and (`a:b`, `c`) share a key |
| CatalogLemmas.SameMapKey | src/App.jsx:84 | within one map, equal keys mean equal layer names |
| CatalogLemmas.DetailPairsOrigin | src/App.jsx:45-58 | every indexed pair is the `map:id` key and entry of some vector layer of that map's detail result |
| CatalogLemmas.NoDetailMeansInference | src/App.jsx:47-99 | a map whose detail is null or has no vector layers gets no index entries, and its layers' geometries are inferred with empty fields |
| CatalogLemmas.DetailMatchWins | src/App.jsx:49-55 | the last vector layer with a given id is the entry the index keeps under `map:id` |
| CatalogLemmas.DetailWinsOverInference | src/App.jsx:84-88 | a layer whose map's detail lists it takes that detail's geometry (or `unknown`) and fields, with no name inference |
| Geometry.Normalise | src/components/LayerDetail.jsx:14 | the type every badge and icon test reads: `unknown` for a falsy type, lower-cased, with the first `multi` removed; the `Normalise` lemmas below state what it does |
| Geometry.BadgeCategory | src/components/LayerDetail.jsx:13-19 | the branch a badge takes: point, line (for `linestring` and `line`), polygon, or the gray fallback for anything else |
| Geometry.IconCategory | src/pages/LayersPage.jsx:57-86 | the icon shown: point, line or polygon, and none otherwise (`line` included); `Geometry.IconAgreesWithBadge` relates it to the badge |
| Geometry.DetailClass | src/components/LayerDetail.jsx:15-18 | the detail page's four class strings, one per branch |
| Geometry.ListClass | src/components/Sidebar.jsx:39-42 | the four class strings of the sidebar and the layer list, one per branch |
| Geometry.DetailBadgeClass | src/components/LayerDetail.jsx:13-19 | the detail page's `getGeometryBadgeClass` |
| Geometry.ListBadgeClass | src/components/Sidebar.jsx:37-43 | the `getGeometryBadgeClass` shared, letter for letter, by the sidebar and the layers page (src/pages/LayersPage.jsx:39-45) |
| Geometry.Format | src/components/LayerDetail.jsx:21-29 | `formatGeometryType` with its placeholder: a falsy type shows the placeholder; otherwise the first lower-case `multi` goes, with no lower-casing, and a result equal to `line` up to case shows as `linestring` |
| Geometry.DetailLabel | src/components/LayerDetail.jsx:21-29 | the detail page's label, whose placeholder is `unknown` |
| Geometry.ListLabel | src/components/Sidebar.jsx:45-53 | the label of the sidebar and the layers page (src/pages/LayersPage.jsx:47-55), whose placeholder is `?` |
| Geometry.NormaliseIsLower | src/components/LayerDetail.jsx:14 | the normalised type holds no upper-case letter |
| Geometry.NormaliseIgnoresCase | src/components/Sidebar.jsx:7 | types equal up to case normalise alike and get the same badge and icon |
| Geometry.NormaliseMultiPrefix | src/components/Sidebar.jsx:38 | a leading `multi`, in any case, is stripped: `MultiPoint` normalises to `point` |
| Geometry.NormalisePlain | src/pages/LayersPage.jsx:40 | a lower-case non-empty type without `multi` is left as it is |
| Geometry.NormaliseMultiLower | src/pages/LayersPage.jsx:58 | `multi` followed by a lower-case type normalises to that type |
| Geometry.NormaliseStripsOnce | src/components/LayerDetail.jsx:14 | only the first `multi` goes: `multimultipoint` becomes `multipoint` |
| Geometry.IconAgreesWithBadge | src/pages/LayersPage.jsx:57-86 | an icon is shown only for a non-gray badge of the same category, and none is shown exactly for a gray badge or the normalised `line` |
| Geometry.LineHasNoIcon | src/pages/LayersPage.jsx:42-67 | `line` and `multiline` get the purple badge but no icon |
| Geometry.MultiShapes | src/components/Sidebar.jsx:6-43 | `Multi`+`Point`, `LineString` and `Polygon` (with `multi` in any case) get the point, line and polygon badge and icon |
| Geometry.DetailClassesDistinct | src/components/LayerDetail.jsx:15-18 | the four categories get four different detail badge classes |
| Geometry.ListClassesDistinct | src/components/Sidebar.jsx:39-42 | the four categories get four different list badge classes |
| Geometry.BadgeClassesDistinguish | src/components/LayerDetail.jsx:13-19 | two types get the same badge class (in either palette) iff they have the same category |
| Geometry.SidebarPolygons | src/components/Sidebar.jsx:37-43 | `multipolygon` and `polygon` share the blue class |
| Geometry.SidebarLines | src/components/Sidebar.jsx:37-43 | `multilinestring`, `linestring` and `line` share the purple class |
| Geometry.SidebarUnknown | src/components/Sidebar.jsx:38-42 | an empty or `unknown` type falls to the gray class |
| Geometry.InferredCategories | src/pages/LayersPage.jsx:39-86 | each geometry the catalog infers from a name gets the matching badge and icon, and `unknown` gets gray and no icon |
| Geometry.FormatLine | src/components/LayerDetail.jsx:25-27 | a remaining `line`, in any case, is shown as `linestring` |
| Geometry.FormatLeadingMulti | src/components/LayerDetail.jsx:23 | a leading lower-case `multi` does not change the label |
| Geometry.FormatKeepsCapitalMulti | src/components/LayerDetail.jsx:23 | the label strips `multi` case-sensitively, so `MultiPolygon` keeps its prefix although its badge is a polygon's |
| Geometry.FormatEmptyIff | src/components/LayerDetail.jsx:21-29 | the label is empty exactly for the type `multi` |
| Geometry.Placeholders | src/components/Sidebar.jsx:45-53 | a falsy type is labelled `unknown` in the detail view and `?` in the lists; otherwise the labels agree |
| LayerDetail.RunLength | src/components/LayerDetail.jsx:76 | the run of URL characters stays inside the text |
| LayerDetail.RunLengthMaximal | src/components/LayerDetail.jsx:76 | the run holds only URL characters and stops at the end or at whitespace or `)` |
| LayerDetail.UrlLengthAt | src/components/LayerDetail.jsx:76 | a match at a position stays inside the text |
| LayerDetail.SchemesExclusive | src/components/LayerDetail.jsx:76 | `https://` and `http://` never both start at one position |
| LayerDetail.UrlShape | src/components/LayerDetail.jsx:76 | a match starts with `http://` or `https://`, has at least one more character, holds no whitespace or `)` and is maximal |
| LayerDetail.MatchTable | src/components/LayerDetail.jsx:76 | the table holds the match length at each position of the text and at its end |
| LayerDetail.Exec | src/components/LayerDetail.jsx:84 | `exec` from `lastIndex` returns a position at or after it where a match starts |
| LayerDetail.ExecLeftmost | src/components/LayerDetail.jsx:84 | that position is the leftmost match, and no result means no match remains |
| LayerDetail.Step | src/components/LayerDetail.jsx:85-91 | one loop turn pushes the text before the match (if any) and the URL, and moves `lastIndex` strictly forward past the match |
| LayerDetail.Tokenise | src/components/LayerDetail.jsx:77-97 | the loop and the final push produce exactly the segment list of the text |
| LayerDetail.RenderTextWithLinks | src/components/LayerDetail.jsx:75-101 | the function yields the text itself when no segment arises, otherwise the segment list |
| LayerDetail.SegsCover | src/components/LayerDetail.jsx:84-97 | the segments, concatenated in order, give back the scanned text |
| LayerDetail.SegsShape | src/components/LayerDetail.jsx:86-97 | each segment lies at its offset in the text: a text segment is non-empty and holds no match start, a URL segment is a full match there, and a text segment is followed only by a URL |
| LayerDetail.NoSegmentsIffEmpty | src/components/LayerDetail.jsx:95-99 | no segment arises exactly for the empty text |
| LayerDetail.SegmentOfTextAt | src/components/LayerDetail.jsx:76-97 | each segment lies at its offset in the text; a text segment is non-empty, starts no match and is followed only by a URL; a URL segment is the full match at its offset |
| LayerDetail.RenderedSpec | src/components/LayerDetail.jsx:75-101 | the plain text comes back exactly for the empty input; otherwise the segments concatenate to the input and each has the shape above |
| LayerDetail.NoUrlSingleText | src/components/LayerDetail.jsx:95-97 | a non-empty text with no URL renders as one text segment |
| LayerDetail.Segs | src/components/LayerDetail.jsx:77-97 | the segments the loop pushes from a given `lastIndex`: text before each match, the match, and the remaining text; `LayerDetail.SegsCover` and `SegsShape` state what they are |
| LayerDetail.Rendered | src/components/LayerDetail.jsx:75-101 | the text itself when no segment arises, otherwise the segment list; `LayerDetail.RenderedSpec` states it |
| LayerDetail.FieldsWithoutLocale | src/components/LayerDetail.jsx:134 | the fields whose name does not start with `name_` |
| LayerDetail.FieldsWithLocale | src/components/LayerDetail.jsx:135 | the fields whose name starts with `name_` |
| LayerDetail.FieldPartition | src/components/LayerDetail.jsx:133-135 | the two lists keep the fields' order, hold exactly the fields with and without the `name_` prefix, and together are the fields as a multiset, count included |
| LayerDetail.TegolaHrefAsWritten | src/components/LayerDetail.jsx:53 | the link the page builds, with the staging branch written into it |
| LayerDetail.TegolaHref | src/config.js:69-71 | the corrected link, built by the configuration's own helper for the chosen environment |
| LayerDetail.TegolaHrefAsWrittenIsStaging | src/components/LayerDetail.jsx:53 | the link as written is the staging configuration's link |
| LayerDetail.TegolaHrefAsWrittenWrongInProduction | src/components/LayerDetail.jsx:53 | the link as written differs from the production configuration's link for every configuration name |
| LayerDetail.TegolaHrefFollowsEnvironment | src/config.js:69-71 | the corrected link names the environment's branch, and its configuration name is recovered from it |
| LayersPage.FindMap | src/pages/LayersPage.jsx:12 | the first map with the route's name, if any; `LayersPage.FindMapSpec` states it |
| LayersPage.MapLayers | src/pages/LayersPage.jsx:13 | the catalog records of that map, in catalog order; `LayersPage.MapLayersSpec` states it |
| LayersPage.Sync | src/pages/LayersPage.jsx:16-31 | the selection the effect makes and the parameters it writes, if any, from the map's layers, the URL's parameters and the current selection; the `Sync` lemmas below state its three branches |
| LayersPage.FindMapSpec | src/pages/LayersPage.jsx:12 | a map is found iff one has that name, and it is the first such map; none found is the not-found page |
| LayersPage.MapLayersSpec | src/pages/LayersPage.jsx:13 | the map's layers are exactly the catalog records of that map, in catalog order |
| LayersPage.UnknownMapHasNoLayers | src/pages/LayersPage.jsx:12-13 | a name no map carries has no layers in the catalog |
| LayersPage.MapLayersOfOneMap | src/pages/LayersPage.jsx:13 | one map's records are kept whole when the name is its own, and dropped otherwise |
| LayersPage.MapLayersCount | src/pages/LayersPage.jsx:122 | with distinct map names, the layer count shown for a map is the number of its root layers |
| LayersPage.Get | src/pages/LayersPage.jsx:19 | the value found is that of the first entry with the key, so `?layer=a&layer=b` gives `a`; none found means no entry has that key |
| LayersPage.SyncWithoutLayers | src/pages/LayersPage.jsx:17 | with no layers the effect changes neither selection nor parameters |
| LayersPage.SyncKeepsNamedLayer | src/pages/LayersPage.jsx:19-26 | a `layer` parameter naming a layer of the map selects the first layer of that name and leaves the parameters alone |
| LayersPage.SyncFallsBackToFirst | src/pages/LayersPage.jsx:27-30 | otherwise the first layer is selected and the parameters are replaced by its name |
| LayersPage.SyncSettles | src/pages/LayersPage.jsx:16-31 | run again on its own outcome, the effect keeps the selection and writes nothing new |
| LayersPage.LayersPageState.constructor | src/pages/LayersPage.jsx:9-10 | the page starts with no selection and the URL's parameters as its history |
| LayersPage.LayersPageState.SetSearchParams | src/pages/LayersPage.jsx:30 | setting parameters replaces the current history entry or pushes a new one, and leaves the selection alone |
| LayersPage.LayersPageState.SyncFromUrl | src/pages/LayersPage.jsx:16-31 | the effect sets the selection the outcome names, and replaces the current entry only when the outcome asks for it |
| LayersPage.LayersPageState.HandleLayerSelect | src/pages/LayersPage.jsx:34-37 | a click selects the layer and pushes its name as the `layer` parameter |
| LayersPage.SelectThenSync | src/pages/LayersPage.jsx:16-37 | after a click on a layer of the map (names distinct, non-empty) the effect keeps that selection and writes nothing |
| Locales.LocaleOf | src/pages/LocalesMapPage.jsx:27-30 | the locale of one feature: its properties, with `id` set to the key name |
| Locales.StrLe | src/pages/LocalesMapPage.jsx:33 | the key-name order used in place of `localeCompare`; `Locales.StrLeSpec` characterises it |
| Locales.Before | src/pages/LocalesMapPage.jsx:30-34 | the comparator as an order: a higher count comes first, and equal counts go by key name |
| Locales.LocaleList | src/pages/LocalesMapPage.jsx:27-34 | the locales of the features, sorted by the comparator; `Locales.LocaleListPermutation`, `LocaleListProvenance` and `LocaleListOrder` state it |
| Locales.FindFeature | src/pages/LocalesMapPage.jsx:266-268 | the first feature with a given key name, if any; `Locales.FindFeatureSpec` states it |
| Locales.Extract | src/pages/LocalesMapPage.jsx:27-30 | one locale per feature |
| Locales.StrLeSpec | src/pages/LocalesMapPage.jsx:33 | the key-name order holds iff one name is a prefix of the other or the first difference is smaller |
| Locales.StrLeTotal | src/pages/LocalesMapPage.jsx:33 | any two key names are ordered one way or the other |
| Locales.StrLeTrans | src/pages/LocalesMapPage.jsx:33 | the key-name order is transitive |
| Locales.StrLeAntisymmetric | src/pages/LocalesMapPage.jsx:33 | names ordered both ways are equal |
| Locales.BeforeTotal | src/pages/LocalesMapPage.jsx:30-34 | the comparator orders any two locales one way or the other |
| Locales.BeforeTrans | src/pages/LocalesMapPage.jsx:30-34 | the comparator's order is transitive |
| Locales.BeforeBothWays | src/pages/LocalesMapPage.jsx:30-34 | locales the comparator ties have the same count and key name |
| Locales.Insert | src/components/LocalesMap.jsx:28-32 | insertion adds exactly the one locale |
| Locales.Sort | src/components/LocalesMap.jsx:28-32 | the sort neither adds nor drops locales |
| Locales.InsertSorted | src/components/LocalesMap.jsx:28-32 | inserting into a sorted list keeps it sorted |
| Locales.SortSorted | src/components/LocalesMap.jsx:28-32 | the sort's result is ordered by the comparator |
| Locales.LocaleListPermutation | src/components/LocalesMap.jsx:25-32 | the list, whose length the heading shows, has one entry per feature and is a permutation of the features' locales |
| Locales.LocaleListProvenance | src/pages/LocalesMapPage.jsx:27-30 | every listed locale has `id` equal to its key name and comes from some feature's properties |
| Locales.LocaleListOrder | src/pages/LocalesMapPage.jsx:30-34 | counts never increase down the list, and equal counts are in key-name order |
| Locales.SortedUnique | src/pages/LocalesMapPage.jsx:30-34 | two sorted permutations of locales without full ties are equal, so the order of the list is determined |
| Locales.FindFeatureSpec | src/pages/LocalesMapPage.jsx:266-268 | a feature is found iff one carries the key name, and it is the first such feature |
| Locales.ListedLocaleHasFeature | src/components/LocalesMap.jsx:161-163 | a click on a listed locale always finds a feature with its key name |
| Locales.HighlightOneRow | src/components/LocalesMap.jsx:221-223 | with distinct key names, a clicked locale highlights its own row and no other |
| LocalesMapPage.QueryHits | src/pages/LocalesMapPage.jsx:228-232 | the search test: the lower-cased query occurs in the lower-cased key name or alias |
| LocalesMapPage.Matches | src/pages/LocalesMapPage.jsx:227-232 | the list filter's test: a query that trims to nothing keeps everything, any other must hit |
| LocalesMapPage.FilteredLocales | src/pages/LocalesMapPage.jsx:226-233 | the locales the list shows; `LocalesMapPage.FilteredLocalesSpec` states which and in what order |
| LocalesMapPage.HeadingCount | src/pages/LocalesMapPage.jsx:344-349 | the number in the heading, which repeats the search test itself; `LocalesMapPage.HeadingCountsRows` shows it counts the shown rows |
| LocalesMapPage.ShownOnMap | src/pages/LocalesMapPage.jsx:241-242 | a feature is drawn when the first locale with its key name is one the list shows |
| LocalesMapPage.FilteredFeatures | src/pages/LocalesMapPage.jsx:240-243 | the features of the `languages-filtered` source; `LocalesMapPage.FilteredFeaturesSpec` states which |
| LocalesMapPage.BlankQueryKeepsAll | src/pages/LocalesMapPage.jsx:227 | an empty or whitespace-only query keeps every locale |
| LocalesMapPage.FilteredLocalesSpec | src/pages/LocalesMapPage.jsx:226-233 | a locale is kept iff the query is blank or its lower-cased form occurs in the lower-cased key name or alias, and the kept ones keep their order |
| LocalesMapPage.HeadingCountsRows | src/pages/LocalesMapPage.jsx:344-349 | the heading's count is the number of rows the list shows |
| LocalesMapPage.QueryCaseInsensitive | src/pages/LocalesMapPage.jsx:228-231 | queries equal up to case keep the same locales |
| LocalesMapPage.PaddedQueryMisses | src/pages/LocalesMapPage.jsx:227-231 | blankness is judged on the trimmed query but matching uses it untrimmed, so ` en` misses the locale `en` that `en` finds |
| LocalesMapPage.FilteredFeaturesSpec | src/pages/LocalesMapPage.jsx:240-243 | with distinct key names, the map shows exactly the features whose locale the search keeps, in order |
| LocalesMapPage.OwnLocaleFound | src/pages/LocalesMapPage.jsx:241 | the lookup of a feature's key name in the list finds that feature's own locale |
| LocalesMapPage.BoundingBox | src/pages/LocalesMapPage.jsx:288-306 | an empty ring is rejected; otherwise the box is ordered, holds every point with two components, and each bound is attained by such a point |
| LocalesMapPage.ClickBounds | src/pages/LocalesMapPage.jsx:285-306 | only a polygon is framed; a box comes out iff the outer ring has a usable first point, and then it is the smallest box holding every usable point of that ring: ordered, containing them all, and each bound attained by one of them |

## Left out

- Network I/O: `fetch`, `Promise.all`, `.json()` and the per-map catch (src/App.jsx:23-42). Their outcomes are parameters: the two responses' `ok` flags, the parsed documents and a per-map optional detail. The languages fetch and its `Failed to load languages data` error are left out the same way.
- Catalog.FetchData: a rejected `fetch` (src/App.jsx:23-26) or a failed `.json()` (src/App.jsx:32-33) reaches the catch at src/App.jsx:122-123 with its own `err.message`. The model only has the two `ok` flags, so it does not capture those errors or their messages.
- React state, effects, routing and rendering. `App.jsx`'s routes, `MapsPage`, `LayerDetailPage` and `Header` are not part of this model. The selection effect is a transition of the `LayersPageState` class instead.
- MapLibre: map construction, sources, layers, paint expressions, popups, `fitBounds`, and the `LngLatBounds.extend` fold of LocalesMap.jsx (164-173). These are calls into a library whose code is not part of this model.
- `formatNumber` (src/components/LayerDetail.jsx:198-203), because it needs floating-point parsing and locale formatting.
- The clipboard, `window.location`, the `Retry` reloads and `console.error` logging, which are browser I/O.
- `import.meta.env` is not read. `PROD` and `VITE_ENV` are parameters of `Config.GetEnvironment`.
- The URLs hard-coded at src/components/LocalesMap.jsx:5-6. They are constants only used for fetching.
- Sidebar's `collapsed` toggle, which is display state only.
- Strings.ToLower: folds ASCII letters only, not the full Unicode case mapping of `toLowerCase`.
- Locales.StrLeSpec: `localeCompare` is modelled as lexicographic order on code points, not collation by locale.
- Strings.IsSpace: `\s` and `trim` use a fixed set of whitespace characters.
- Locales.Sort: the order is stated through the comparator and a uniqueness lemma when no two locales tie fully. Stability among full ties is not stated.
- LocalesMapPage.BoundingBox: coordinates are reals without NaN. A first point with fewer than two components, which gives NaN bounds in the page, is a `Failure` carrying the model's own message `Bounds are not numbers`. The page has no such message.
- Object key order: `Object.keys`/`Object.entries` over the parsed documents are modelled as the sequence order of the input. The field map of a detail entry is a sequence of fields.
- Key collisions: a map name or layer id containing `:` can make two keys collide. `CatalogLemmas.KeyCollision` shows this, and the index lemmas assume map names without `:`.
- The regex engine is replaced by the match table. `LayerDetail.MatchTable` gives the match length at each position, and `LayerDetail.Exec` scans it from `lastIndex`. That is what a global regex `exec` does for `https?://[^\s)]+`, which has no backtracking alternatives.
- The feature lookup of LocalesMapPage re-fetches the document on each click. It is modelled as a lookup in a given feature list.

## Findings

| source | as written | input that shows it | evidently intended | confidence | as-written member | corrected member |
|---|---|---|---|---|---|---|
| src/components/LayerDetail.jsx:53 | the Tegola configuration link hard-codes the `staging` branch of ohm-deploy | any layer with a Tegola configuration, e.g. `x.toml`, in production: the link points to `blob/staging/...` while production's configuration names branch `main` | the link built by `config.links.github.getTegolaConfigUrl` (src/config.js:69-71), which follows the environment | medium, not executed | LayerDetail.TegolaHrefAsWrittenWrongInProduction | LayerDetail.TegolaHrefFollowsEnvironment |
