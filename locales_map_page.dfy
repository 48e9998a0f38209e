/** The logic of src/pages/LocalesMapPage.jsx beyond the shared locale list:
    the search box that filters the list and the map, the heading count,
    and the bounding box of a clicked locale's polygon. */
module LocalesMapPage {
  import opened Wrappers
  import opened Strings
  import opened Seqs
  import opened Locales

  // ---------------------------------------------------------------------
  // Search

  /** The case-insensitive test on `key_name` and `alias`. The query is
      lower-cased but not trimmed. */
  predicate QueryHits(query: string, l: Locale) {
    var q := ToLower(query);
    Includes(ToLower(l.keyName), q) || Includes(ToLower(l.alias), q)
  }

  /** The list filter: a query that trims to nothing keeps every locale. */
  predicate Matches(query: string, l: Locale) {
    IsBlank(query) || QueryHits(query, l)
  }

  /** `filteredLocales` */
  function FilteredLocales(locales: seq<Locale>, query: string): seq<Locale> {
    Filter(locales, l => Matches(query, l))
  }

  /** The number in the "Locales (n)" heading: the heading repeats the
      search test, without the blank-query shortcut, when the query is not
      blank. */
  function HeadingCount(locales: seq<Locale>, query: string): nat {
    if !IsBlank(query) then |Filter(locales, l => QueryHits(query, l))| else |locales|
  }

  /** An empty or whitespace-only query keeps the whole list. */
  lemma BlankQueryKeepsAll(locales: seq<Locale>, query: string)
    requires IsBlank(query)
    ensures FilteredLocales(locales, query) == locales
  {
    FilterAll(locales, l => Matches(query, l));
  }

  /** Otherwise a locale stays exactly when the lower-cased query occurs in
      its lower-cased `key_name` or `alias`, and the list keeps its order. */
  lemma FilteredLocalesSpec(locales: seq<Locale>, query: string)
    ensures forall l :: l in FilteredLocales(locales, query) <==>
      l in locales && (IsBlank(query)
        || Includes(ToLower(l.keyName), ToLower(query)) || Includes(ToLower(l.alias), ToLower(query)))
    ensures IsSubsequence(FilteredLocales(locales, query), locales)
  {
    FilterSpec(locales, l => Matches(query, l));
  }

  /** The heading counts the rows the list shows. */
  lemma HeadingCountsRows(locales: seq<Locale>, query: string)
    ensures HeadingCount(locales, query) == |FilteredLocales(locales, query)|
  {
    if IsBlank(query) {
      BlankQueryKeepsAll(locales, query);
    } else {
      FilterCongruent(locales, l => QueryHits(query, l), l => Matches(query, l));
    }
  }

  /** Lower-casing keeps whitespace whitespace and everything else not. */
  lemma LowerKeepsSpace(c: char)
    ensures IsSpace(LowerChar(c)) == IsSpace(c)
  {
  }

  /** The search ignores the case of the query. */
  lemma QueryCaseInsensitive(q1: string, q2: string, l: Locale)
    requires ToLower(q1) == ToLower(q2)
    ensures Matches(q1, l) == Matches(q2, l)
  {
    assert IsBlank(q1) == IsBlank(q2) by {
      forall i | 0 <= i < |q1| ensures IsSpace(q1[i]) == IsSpace(q2[i]) {
        LowerKeepsSpace(q1[i]);
        LowerKeepsSpace(q2[i]);
        assert ToLower(q1)[i] == ToLower(q2)[i];
      }
    }
  }

  /** The query is not trimmed before the substring test: padding a query
      that matches can make it miss. */
  lemma PaddedQueryMisses()
    ensures Matches("en", Locale("en", "en", 1, false, "en"))
    ensures !Matches(" en", Locale("en", "en", 1, false, "en"))
  {
    assert OccursAt("en", "en", 0);
    IncludesAt("en", "en", 0);
    assert ToLower("en") == "en";
    assert ToLower(" en") == " en";
    assert !IsBlank(" en") by { assert !IsSpace(" en"[1]); }
    AbsentChar("en", " en", ' ');
  }

  // ---------------------------------------------------------------------
  // The map's filtered layer

  predicate SameKey(f: Feature, l: Locale) {
    l.keyName == f.properties.keyName
  }

  /** `locale && filteredLocales.includes(locale)` for the feature's first
      locale by `key_name`. */
  predicate ShownOnMap(locales: seq<Locale>, query: string, f: Feature) {
    var loc := Find(locales, l => SameKey(f, l));
    loc.Some? && loc.value in FilteredLocales(locales, query)
  }

  /** `filteredFeatures`, the data of the `languages-filtered` source. */
  function FilteredFeatures(features: seq<Feature>, locales: seq<Locale>, query: string): seq<Feature> {
    Filter(features, f => ShownOnMap(locales, query, f))
  }

  /** With distinct `key_name`s, the map shows exactly the features whose
      own locale passes the search, in feature order. */
  lemma FilteredFeaturesSpec(features: seq<Feature>, query: string)
    requires forall i, j :: 0 <= i < j < |features| ==>
      features[i].properties.keyName != features[j].properties.keyName
    ensures forall f :: f in FilteredFeatures(features, LocaleList(features), query) <==>
      f in features && Matches(query, LocaleOf(f))
    ensures IsSubsequence(FilteredFeatures(features, LocaleList(features), query), features)
  {
    var locales := LocaleList(features);
    FilterSpec(features, f => ShownOnMap(locales, query, f));
    forall f | f in features
      ensures ShownOnMap(locales, query, f) == Matches(query, LocaleOf(f))
    {
      OwnLocaleFound(features, f);
      FilteredLocalesSpec(locales, query);
    }
  }

  /** The first locale with a listed feature's key is that feature's own. */
  lemma OwnLocaleFound(features: seq<Feature>, f: Feature)
    requires f in features
    requires forall i, j :: 0 <= i < j < |features| ==>
      features[i].properties.keyName != features[j].properties.keyName
    ensures Find(LocaleList(features), l => SameKey(f, l)) == Some(LocaleOf(f))
  {
    var locales := LocaleList(features);
    var i :| 0 <= i < |features| && features[i] == f;
    assert Extract(features)[i] == LocaleOf(f);
    assert LocaleOf(f) in multiset(Extract(features));
    LocaleListPermutation(features);
    assert LocaleOf(f) in locales;
    var found := Find(locales, l => SameKey(f, l));
    KeyIdentifiesLocale(features, found.value, LocaleOf(f));
  }

  // ---------------------------------------------------------------------
  // Bounding box

  datatype Box = Box(minLng: real, minLat: real, maxLng: real, maxLat: real)

  /** `coord && coord.length >= 2` */
  predicate Usable(c: seq<real>) {
    |c| >= 2
  }

  predicate Inside(b: Box, c: seq<real>)
    requires Usable(c)
  {
    b.minLng <= c[0] <= b.maxLng && b.minLat <= c[1] <= b.maxLat
  }

  function Min(a: real, b: real): real { if a <= b then a else b }
  function Max(a: real, b: real): real { if a >= b then a else b }

  /** The min/max loop over the outer ring of a polygon. It rejects an empty
      ring, as the page does, and a first point without two components,
      whose missing component would make the bounds not numbers. A
      successful box is the smallest holding every usable point. */
  method BoundingBox(ring: seq<seq<real>>) returns (r: Result<Box, string>)
    ensures r.Failure? <==> ring == [] || !Usable(ring[0])
    ensures r.Success? ==> r.value.minLng <= r.value.maxLng && r.value.minLat <= r.value.maxLat
    ensures r.Success? ==> forall c :: c in ring && Usable(c) ==> Inside(r.value, c)
    ensures r.Success? ==> exists c :: c in ring && Usable(c) && c[0] == r.value.minLng
    ensures r.Success? ==> exists c :: c in ring && Usable(c) && c[0] == r.value.maxLng
    ensures r.Success? ==> exists c :: c in ring && Usable(c) && c[1] == r.value.minLat
    ensures r.Success? ==> exists c :: c in ring && Usable(c) && c[1] == r.value.maxLat
  {
    if ring == [] {
      return Failure("Invalid coordinates");
    }
    if !Usable(ring[0]) {
      return Failure("Bounds are not numbers");
    }
    var minLng := ring[0][0];
    var maxLng := ring[0][0];
    var minLat := ring[0][1];
    var maxLat := ring[0][1];
    for i := 0 to |ring|
      invariant minLng <= maxLng && minLat <= maxLat
      invariant forall k :: 0 <= k < i && Usable(ring[k]) ==>
        minLng <= ring[k][0] <= maxLng && minLat <= ring[k][1] <= maxLat
      invariant exists k :: 0 <= k < |ring| && Usable(ring[k]) && ring[k][0] == minLng
      invariant exists k :: 0 <= k < |ring| && Usable(ring[k]) && ring[k][0] == maxLng
      invariant exists k :: 0 <= k < |ring| && Usable(ring[k]) && ring[k][1] == minLat
      invariant exists k :: 0 <= k < |ring| && Usable(ring[k]) && ring[k][1] == maxLat
    {
      var coord := ring[i];
      if Usable(coord) {
        minLng := Min(minLng, coord[0]);
        maxLng := Max(maxLng, coord[0]);
        minLat := Min(minLat, coord[1]);
        maxLat := Max(maxLat, coord[1]);
      }
    }
    r := Success(Box(minLng, minLat, maxLng, maxLat));
    forall c | c in ring && Usable(c) ensures Inside(r.value, c) {
      var k :| 0 <= k < |ring| && ring[k] == c;
    }
  }

  /** A click on a polygon locale: no fit for other geometries, the
      "Invalid coordinates" error for a polygon without rings, and otherwise
      the box of its outer ring: the smallest box holding its usable points. */
  method ClickBounds(f: Feature) returns (r: Option<Result<Box, string>>)
    ensures r.None? <==> !f.geometry.Polygon?
    ensures r.Some? ==> (r.value.Success? <==>
      f.geometry.rings != [] && f.geometry.rings[0] != [] && Usable(f.geometry.rings[0][0]))
    ensures r.Some? && r.value.Success? ==>
      forall c :: c in f.geometry.rings[0] && Usable(c) ==> Inside(r.value.value, c)
    ensures r.Some? && r.value.Success? ==>
      r.value.value.minLng <= r.value.value.maxLng && r.value.value.minLat <= r.value.value.maxLat
    ensures r.Some? && r.value.Success? ==>
      exists c :: c in f.geometry.rings[0] && Usable(c) && c[0] == r.value.value.minLng
    ensures r.Some? && r.value.Success? ==>
      exists c :: c in f.geometry.rings[0] && Usable(c) && c[0] == r.value.value.maxLng
    ensures r.Some? && r.value.Success? ==>
      exists c :: c in f.geometry.rings[0] && Usable(c) && c[1] == r.value.value.minLat
    ensures r.Some? && r.value.Success? ==>
      exists c :: c in f.geometry.rings[0] && Usable(c) && c[1] == r.value.value.maxLat
  {
    if !f.geometry.Polygon? {
      return None;
    }
    if f.geometry.rings == [] {
      return Some(Failure("Invalid coordinates"));
    }
    var box := BoundingBox(f.geometry.rings[0]);
    return Some(box);
  }
}
