/** The locale list shared by src/components/LocalesMap.jsx and
    src/pages/LocalesMapPage.jsx: one locale per GeoJSON feature of the
    languages file, sorted by feature count (largest first) and then by
    `key_name`, plus the lookup of a clicked locale's feature and the row
    highlight. */
module Locales {
  import opened Wrappers
  import opened Seqs

  // ---------------------------------------------------------------------
  // Data

  /** The `properties` of one feature of the languages GeoJSON. */
  datatype Properties = Properties(keyName: string, alias: string, count: int, isNew: bool)

  /** A feature's geometry: the ring coordinates of a polygon, any other
      geometry type, or none at all. */
  datatype FeatureGeometry =
    | Polygon(rings: seq<seq<seq<real>>>)
    | OtherGeometry
    | NoGeometry

  datatype Feature = Feature(properties: Properties, geometry: FeatureGeometry)

  /** `{ ...feature.properties, id: feature.properties.key_name }` */
  datatype Locale = Locale(keyName: string, alias: string, count: int, isNew: bool, id: string)

  function LocaleOf(f: Feature): Locale {
    var p := f.properties;
    Locale(p.keyName, p.alias, p.count, p.isNew, p.keyName)
  }

  /** `geojson.features.map(...)`, before sorting. */
  function Extract(features: seq<Feature>): (r: seq<Locale>)
    ensures |r| == |features|
  {
    seq(|features|, i requires 0 <= i < |features| => LocaleOf(features[i]))
  }

  // ---------------------------------------------------------------------
  // The order

  /** `localeCompare(a, b) <= 0`, taken as lexicographic order on code
      points. */
  predicate StrLe(a: string, b: string)
    decreases |a|
  {
    if a == [] then true
    else if b == [] then false
    else if a[0] != b[0] then a[0] < b[0]
    else StrLe(a[1..], b[1..])
  }

  /** The comparator `b.count - a.count`, or `a.key_name.localeCompare(b.key_name)`
      on equal counts, is at most zero: `a` may stay before `b`. */
  predicate Before(a: Locale, b: Locale) {
    a.count > b.count || (a.count == b.count && StrLe(a.keyName, b.keyName))
  }

  /** `a` is a prefix of `b`. */
  predicate PrefixOf(a: string, b: string) {
    |a| <= |b| && a == b[..|a|]
  }

  /** `a` and `b` first differ at a position where `a` has the smaller
      character. */
  predicate FirstDifferenceSmaller(a: string, b: string) {
    exists k :: 0 <= k < |a| && k < |b| && a[..k] == b[..k] && a[k] < b[k]
  }

  /** `StrLe` is the usual lexicographic order: a prefix comes first, and
      otherwise the first differing character decides. */
  lemma {:induction false} StrLeSpec(a: string, b: string)
    ensures StrLe(a, b) <==> PrefixOf(a, b) || FirstDifferenceSmaller(a, b)
    decreases |a|
  {
    if a != [] && b != [] && a[0] == b[0] {
      StrLeSpec(a[1..], b[1..]);
      PrefixCons(a, b);
      DifferenceCons(a, b);
    } else if a != [] && b != [] {
      DifferenceAtHead(a, b);
    }
  }

  lemma PrefixCons(a: string, b: string)
    requires a != [] && b != [] && a[0] == b[0]
    ensures PrefixOf(a, b) == PrefixOf(a[1..], b[1..])
  {
    if PrefixOf(a, b) {
      assert a[1..] == b[1..][..|a[1..]|];
    }
    if PrefixOf(a[1..], b[1..]) {
      assert a == [a[0]] + a[1..];
      assert b[..|a|] == [b[0]] + b[1..][..|a[1..]|];
    }
  }

  lemma DifferenceCons(a: string, b: string)
    requires a != [] && b != [] && a[0] == b[0]
    ensures FirstDifferenceSmaller(a, b) == FirstDifferenceSmaller(a[1..], b[1..])
  {
    if FirstDifferenceSmaller(a[1..], b[1..]) {
      var k :| 0 <= k < |a[1..]| && k < |b[1..]| && a[1..][..k] == b[1..][..k] && a[1..][k] < b[1..][k];
      assert a[..k + 1] == [a[0]] + a[1..][..k];
      assert b[..k + 1] == [b[0]] + b[1..][..k];
    }
    if FirstDifferenceSmaller(a, b) {
      var k :| 0 <= k < |a| && k < |b| && a[..k] == b[..k] && a[k] < b[k];
      assert k > 0;
      assert a[1..][..k - 1] == a[..k][1..];
      assert b[1..][..k - 1] == b[..k][1..];
      assert a[1..][k - 1] < b[1..][k - 1];
    }
  }

  /** Different first characters decide at once. */
  lemma DifferenceAtHead(a: string, b: string)
    requires a != [] && b != [] && a[0] != b[0]
    ensures !PrefixOf(a, b)
    ensures FirstDifferenceSmaller(a, b) == (a[0] < b[0])
  {
    assert a[..0] == b[..0];
    forall k | 0 < k <= |a| && k <= |b|
      ensures a[..k] != b[..k]
    {
      assert a[..k][0] == a[0] && b[..k][0] == b[0];
    }
    if |a| <= |b| {
      assert b[..|a|][0] == b[0];
    }
  }

  lemma {:induction false} StrLeTotal(a: string, b: string)
    ensures StrLe(a, b) || StrLe(b, a)
    decreases |a|
  {
    if a != [] && b != [] && a[0] == b[0] {
      StrLeTotal(a[1..], b[1..]);
    }
  }

  lemma {:induction false} StrLeTrans(a: string, b: string, c: string)
    requires StrLe(a, b) && StrLe(b, c)
    ensures StrLe(a, c)
    decreases |a|
  {
    if a != [] && b != [] && c != [] && a[0] == b[0] && b[0] == c[0] {
      StrLeTrans(a[1..], b[1..], c[1..]);
    }
  }

  lemma {:induction false} StrLeAntisymmetric(a: string, b: string)
    requires StrLe(a, b) && StrLe(b, a)
    ensures a == b
    decreases |a|
  {
    if a != [] {
      StrLeAntisymmetric(a[1..], b[1..]);
      assert a == [a[0]] + a[1..] && b == [b[0]] + b[1..];
    }
  }

  lemma {:induction false} StrLeRefl(a: string)
    ensures StrLe(a, a)
    decreases |a|
  {
    if a != [] { StrLeRefl(a[1..]); }
  }

  lemma BeforeRefl(a: Locale)
    ensures Before(a, a)
  {
    StrLeRefl(a.keyName);
  }

  /** Any two locales are ordered one way or the other. */
  lemma BeforeTotal(a: Locale, b: Locale)
    ensures Before(a, b) || Before(b, a)
  {
    StrLeTotal(a.keyName, b.keyName);
  }

  lemma BeforeTrans(a: Locale, b: Locale, c: Locale)
    requires Before(a, b) && Before(b, c)
    ensures Before(a, c)
  {
    if a.count == b.count && b.count == c.count {
      StrLeTrans(a.keyName, b.keyName, c.keyName);
    }
  }

  /** Two locales each allowed before the other agree on count and
      `key_name`. */
  lemma BeforeBothWays(a: Locale, b: Locale)
    requires Before(a, b) && Before(b, a)
    ensures a.count == b.count && a.keyName == b.keyName
  {
    StrLeAntisymmetric(a.keyName, b.keyName);
  }

  // ---------------------------------------------------------------------
  // The sort

  /** Every locale may stay before every later one. */
  predicate Sorted(s: seq<Locale>) {
    forall i, j :: 0 <= i < j < |s| ==> Before(s[i], s[j])
  }

  /** Puts `x` in front of the first element it may precede. */
  function Insert(x: Locale, t: seq<Locale>): (r: seq<Locale>)
    ensures multiset(r) == multiset(t) + multiset{x}
    decreases |t|
  {
    if t == [] then [x]
    else if Before(x, t[0]) then [x] + t
    else
      assert t == [t[0]] + t[1..];
      [t[0]] + Insert(x, t[1..])
  }

  /** `Array.prototype.sort` with the comparator above: a stable sort by
      `Before`, written as an insertion sort. */
  function Sort(s: seq<Locale>): (r: seq<Locale>)
    ensures multiset(r) == multiset(s)
    ensures |r| == |s|
    decreases |s|
  {
    if s == [] then []
    else
      assert s == [s[0]] + s[1..];
      Insert(s[0], Sort(s[1..]))
  }

  lemma {:induction false} InsertSorted(x: Locale, t: seq<Locale>)
    requires Sorted(t)
    ensures Sorted(Insert(x, t))
    decreases |t|
  {
    if t == [] {
    } else if Before(x, t[0]) {
      var r := [x] + t;
      forall i, j | 0 <= i < j < |r| ensures Before(r[i], r[j]) {
        if i == 0 {
          if j > 1 { BeforeTrans(x, t[0], t[j - 1]); }
        } else {
          assert r[i] == t[i - 1] && r[j] == t[j - 1];
        }
      }
    } else {
      BeforeTotal(x, t[0]);
      InsertSorted(x, t[1..]);
      var u := Insert(x, t[1..]);
      var r := [t[0]] + u;
      forall i, j | 0 <= i < j < |r| ensures Before(r[i], r[j]) {
        if i == 0 {
          assert r[j] in multiset(u);
          if r[j] != x {
            assert r[j] in multiset(t[1..]);
            var k :| 0 <= k < |t[1..]| && t[1..][k] == r[j];
            assert t[k + 1] == r[j];
          }
        } else {
          assert r[i] == u[i - 1] && r[j] == u[j - 1];
        }
      }
    }
  }

  lemma {:induction false} SortSorted(s: seq<Locale>)
    ensures Sorted(Sort(s))
    decreases |s|
  {
    if s != [] {
      SortSorted(s[1..]);
      InsertSorted(s[0], Sort(s[1..]));
    }
  }

  /** `l` carries the properties of feature `f`. */
  predicate OfFeature(f: Feature, l: Locale) {
    f.properties == Properties(l.keyName, l.alias, l.count, l.isNew)
  }

  /** The list both pages keep in state. */
  function LocaleList(features: seq<Feature>): seq<Locale> {
    Sort(Extract(features))
  }

  // ---------------------------------------------------------------------
  // What the list promises

  /** One locale per feature, none added and none dropped: the list is a
      rearrangement of the features' locales. */
  lemma LocaleListPermutation(features: seq<Feature>)
    ensures |LocaleList(features)| == |features|
    ensures multiset(LocaleList(features)) == multiset(Extract(features))
  {
  }

  /** Every entry carries its feature's properties, with `id` equal to
      `key_name`. */
  lemma LocaleListProvenance(features: seq<Feature>)
    ensures forall l :: l in LocaleList(features) ==>
      l.id == l.keyName && exists i :: 0 <= i < |features| && OfFeature(features[i], l)
  {
    var s := Extract(features);
    forall l | l in LocaleList(features)
      ensures l.id == l.keyName
      ensures exists i :: 0 <= i < |features| && OfFeature(features[i], l)
    {
      assert l in multiset(LocaleList(features));
      assert l in multiset(s);
      var i :| 0 <= i < |s| && s[i] == l;
      assert OfFeature(features[i], l);
    }
  }

  /** Counts never increase along the list, and equal counts are in
      `key_name` order. */
  lemma LocaleListOrder(features: seq<Feature>)
    ensures forall i, j :: 0 <= i < j < |LocaleList(features)| ==>
      LocaleList(features)[i].count >= LocaleList(features)[j].count
    ensures forall i, j ::
      (0 <= i < j < |LocaleList(features)| && LocaleList(features)[i].count == LocaleList(features)[j].count) ==>
      StrLe(LocaleList(features)[i].keyName, LocaleList(features)[j].keyName)
  {
    SortSorted(Extract(features));
  }

  /** A sorted rearrangement is determined up to locales tied on both count
      and `key_name`: when those are distinct, any sort by the comparator
      yields this very list. */
  lemma {:induction false} SortedUnique(a: seq<Locale>, b: seq<Locale>)
    requires Sorted(a) && Sorted(b) && multiset(a) == multiset(b)
    requires forall x, y :: x in a && y in a && x.count == y.count && x.keyName == y.keyName ==> x == y
    ensures a == b
    decreases |a|
  {
    assert |a| == |multiset(a)| == |b|;
    if a != [] {
      SortedHeadsAgree(a, b);
      SortedTail(a);
      SortedTail(b);
      SameTail(a, b);
      forall x, y | x in a[1..] && y in a[1..] && x.count == y.count && x.keyName == y.keyName
        ensures x == y
      {
        assert x in a && y in a;
      }
      SortedUnique(a[1..], b[1..]);
      assert a == [a[0]] + a[1..] && b == [b[0]] + b[1..];
    }
  }

  /** Two sorted rearrangements of each other start with the same locale. */
  lemma SortedHeadsAgree(a: seq<Locale>, b: seq<Locale>)
    requires a != [] && Sorted(a) && Sorted(b) && multiset(a) == multiset(b)
    requires forall x, y :: x in a && y in a && x.count == y.count && x.keyName == y.keyName ==> x == y
    ensures b != [] && a[0] == b[0]
  {
    assert a[0] in multiset(b);
    assert b[0] in multiset(a);
    var i :| 0 <= i < |b| && b[i] == a[0];
    var j :| 0 <= j < |a| && a[j] == b[0];
    if i > 0 { assert Before(b[0], b[i]); }
    if j > 0 { assert Before(a[0], a[j]); }
    BeforeRefl(a[0]);
    BeforeBothWays(a[0], b[0]);
  }

  lemma SortedTail(a: seq<Locale>)
    requires a != [] && Sorted(a)
    ensures Sorted(a[1..])
  {
    forall i, j | 0 <= i < j < |a[1..]| ensures Before(a[1..][i], a[1..][j]) {
      assert a[1..][i] == a[i + 1] && a[1..][j] == a[j + 1];
    }
  }

  lemma SameTail(a: seq<Locale>, b: seq<Locale>)
    requires a != [] && b != [] && a[0] == b[0] && multiset(a) == multiset(b)
    ensures multiset(a[1..]) == multiset(b[1..])
  {
    assert a == [a[0]] + a[1..] && b == [b[0]] + b[1..];
    assert multiset(a) == multiset{a[0]} + multiset(a[1..]);
    assert multiset(b) == multiset{b[0]} + multiset(b[1..]);
    assert multiset(a[1..]) == multiset(a) - multiset{a[0]};
    assert multiset(b[1..]) == multiset(b) - multiset{b[0]};
  }

  // ---------------------------------------------------------------------
  // Clicking a locale

  predicate HasKey(keyName: string, f: Feature) {
    f.properties.keyName == keyName
  }

  /** `features.find(f => f.properties.key_name === locale.key_name)` */
  function FindFeature(features: seq<Feature>, keyName: string): Option<Feature> {
    Find(features, f => HasKey(keyName, f))
  }

  /** The feature highlighted is the first with the clicked `key_name`, and
      there is one exactly when some feature has it. */
  lemma FindFeatureSpec(features: seq<Feature>, keyName: string)
    ensures FindFeature(features, keyName).Some? <==>
      exists i :: 0 <= i < |features| && features[i].properties.keyName == keyName
    ensures FindFeature(features, keyName).Some? ==>
      exists i :: 0 <= i < |features| && features[i] == FindFeature(features, keyName).value
        && features[i].properties.keyName == keyName
        && forall j :: 0 <= j < i ==> features[j].properties.keyName != keyName
  {
    FindFirst(features, f => HasKey(keyName, f));
  }

  /** Clicking any row of the list finds a feature with that `key_name`:
      the "Feature not found" branch needs a list built from other data. */
  lemma ListedLocaleHasFeature(features: seq<Feature>, l: Locale)
    requires l in LocaleList(features)
    ensures FindFeature(features, l.keyName).Some?
    ensures FindFeature(features, l.keyName).value.properties.keyName == l.keyName
  {
    LocaleListProvenance(features);
    var i :| 0 <= i < |features| && OfFeature(features[i], l);
    FindFeatureSpec(features, l.keyName);
  }

  /** `selectedLocale?.id === locale.id` */
  predicate Highlighted(selected: Option<Locale>, l: Locale) {
    selected.Some? && selected.value.id == l.id
  }

  /** With distinct `key_name`s, selecting a row highlights that row and no
      other. */
  lemma HighlightOneRow(features: seq<Feature>, k: nat)
    requires k < |LocaleList(features)|
    requires forall i, j :: 0 <= i < j < |features| ==>
      features[i].properties.keyName != features[j].properties.keyName
    ensures forall j :: 0 <= j < |LocaleList(features)| ==>
      (Highlighted(Some(LocaleList(features)[k]), LocaleList(features)[j]) <==> j == k)
  {
    var list := LocaleList(features);
    LocaleListProvenance(features);
    forall j | 0 <= j < |list| && j != k
      ensures list[j].id != list[k].id
    {
      assert list[j] in list && list[k] in list;
      DistinctRowsDistinctKeys(features, list, j, k);
    }
  }

  /** Two positions of the list hold locales of different features, so with
      distinct `key_name`s their keys differ. */
  lemma DistinctRowsDistinctKeys(features: seq<Feature>, list: seq<Locale>, j: nat, k: nat)
    requires list == LocaleList(features)
    requires j < |list| && k < |list| && j != k
    requires forall i, i' :: 0 <= i < i' < |features| ==>
      features[i].properties.keyName != features[i'].properties.keyName
    ensures list[j].keyName != list[k].keyName
  {
    LocaleListPermutation(features);
    KeyIdentifiesLocale(features, list[j], list[k]);
    assert list[j] in multiset(Extract(features));
    var a :| 0 <= a < |Extract(features)| && Extract(features)[a] == list[j];
    OnceInExtract(features, a);
    TwiceInList(list, j, k);
  }

  /** With distinct keys, two listed locales sharing a key are the same. */
  lemma KeyIdentifiesLocale(features: seq<Feature>, x: Locale, y: Locale)
    requires x in LocaleList(features) && y in LocaleList(features)
    requires forall i, i' :: 0 <= i < i' < |features| ==>
      features[i].properties.keyName != features[i'].properties.keyName
    ensures x.keyName == y.keyName ==> x == y
  {
    var s := Extract(features);
    LocaleListPermutation(features);
    assert x in multiset(s) && y in multiset(s);
    var a :| 0 <= a < |s| && s[a] == x;
    var b :| 0 <= b < |s| && s[b] == y;
    assert features[a].properties.keyName == x.keyName;
    assert features[b].properties.keyName == y.keyName;
  }

  /** With distinct keys, each locale occurs once among the extracted ones. */
  lemma OnceInExtract(features: seq<Feature>, a: nat)
    requires a < |features|
    requires forall i, i' :: 0 <= i < i' < |features| ==>
      features[i].properties.keyName != features[i'].properties.keyName
    ensures multiset(Extract(features))[Extract(features)[a]] == 1
  {
    ElsewhereDiffers(features, a);
    CountOnce(Extract(features), a);
  }

  /** With distinct keys, no other extracted locale equals the one at `a`. */
  lemma ElsewhereDiffers(features: seq<Feature>, a: nat)
    requires a < |features|
    requires forall i, i' :: 0 <= i < i' < |features| ==>
      features[i].properties.keyName != features[i'].properties.keyName
    ensures Extract(features)[a] !in Extract(features)[..a] + Extract(features)[a + 1..]
  {
    var s := Extract(features);
    var others := s[..a] + s[a + 1..];
    forall x | x in others ensures x != s[a] {
      var i :| 0 <= i < |others| && others[i] == x;
      if i < a { assert x == s[i]; } else { assert x == s[i + 1]; }
    }
  }

  /** Equal locales at two positions occur at least twice. */
  lemma TwiceInList(list: seq<Locale>, j: nat, k: nat)
    requires j < |list| && k < |list|
    ensures j != k && list[j] == list[k] ==> multiset(list)[list[j]] >= 2
  {
    if j < k && list[j] == list[k] {
      CountTwice(list, j, k);
    } else if k < j && list[j] == list[k] {
      CountTwice(list, k, j);
    }
  }
}
