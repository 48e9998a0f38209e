/** The geometry-type display helpers. The source writes them out three
    times, in src/components/LayerDetail.jsx, src/pages/LayersPage.jsx and
    src/components/Sidebar.jsx; the copies differ only in the class strings
    and in the placeholder for a missing type, so they are defined once here
    with those as the only variation. */
module Geometry {
  import opened Wrappers
  import opened Strings
  import Catalog

  /** `(g || 'unknown').toLowerCase().replace('multi', '')`: every
      classifier looks at this form. */
  function Normalise(g: string): string {
    ReplaceFirst(ToLower(if g == "" then "unknown" else g), "multi", "")
  }

  /** The display category a badge or icon is chosen by. */
  datatype Category = Point | Line | Polygon | Other

  /** The branch chain of `getGeometryBadgeClass`. */
  function BadgeCategory(g: string): Category {
    var n := Normalise(g);
    if n == "point" then Point
    else if n == "linestring" || n == "line" then Line
    else if n == "polygon" then Polygon
    else Other
  }

  /** The branch chain of `getGeometryIcon`: `None` is the `null` icon. */
  function IconCategory(g: string): Option<Category> {
    var n := Normalise(g);
    if n == "point" then Some(Point)
    else if n == "linestring" then Some(Line)
    else if n == "polygon" then Some(Polygon)
    else None
  }

  /** The badge classes of src/components/LayerDetail.jsx, by category. */
  function DetailClass(c: Category): string {
    match c
    case Point => "bg-orange-100 text-orange-800"
    case Line => "bg-purple-100 text-purple-800"
    case Polygon => "bg-blue-100 text-blue-800"
    case Other => "bg-gray-100 text-gray-800"
  }

  /** The badge classes shared by src/pages/LayersPage.jsx and
      src/components/Sidebar.jsx, by category. */
  function ListClass(c: Category): string {
    match c
    case Point => "bg-orange-100 text-orange-700 border-orange-300"
    case Line => "bg-purple-100 text-purple-700 border-purple-300"
    case Polygon => "bg-blue-100 text-blue-700 border-blue-300"
    case Other => "bg-gray-100 text-gray-700 border-gray-300"
  }

  /** `getGeometryBadgeClass` of src/components/LayerDetail.jsx. */
  function DetailBadgeClass(g: string): string {
    DetailClass(BadgeCategory(g))
  }

  /** `getGeometryBadgeClass` of the two list views. */
  function ListBadgeClass(g: string): string {
    ListClass(BadgeCategory(g))
  }

  /** `formatGeometryType`: the placeholder for a falsy type; otherwise the
      first case-sensitive `multi` removed and a remaining `line` (in any
      case) shown as `linestring`. */
  function Format(g: string, placeholder: string): string {
    if g == "" then placeholder
    else
      var f := ReplaceFirst(g, "multi", "");
      if ToLower(f) == "line" then "linestring" else f
  }

  /** The label of src/components/LayerDetail.jsx. */
  function DetailLabel(g: string): string {
    Format(g, "unknown")
  }

  /** The label of src/pages/LayersPage.jsx and src/components/Sidebar.jsx. */
  function ListLabel(g: string): string {
    Format(g, "?")
  }

  // ---------------------------------------------------------------------
  // Normalisation

  lemma {:induction false} NoUpperAfterLower(s: string)
    ensures forall i :: 0 <= i < |ToLower(s)| ==> !('A' <= ToLower(s)[i] <= 'Z')
  {
  }

  /** Removing a piece of a string without upper-case letters leaves none. */
  lemma RemovalKeepsLower(t: string, p: string)
    requires forall i :: 0 <= i < |t| ==> !('A' <= t[i] <= 'Z')
    ensures forall i :: 0 <= i < |ReplaceFirst(t, p, "")| ==> !('A' <= ReplaceFirst(t, p, "")[i] <= 'Z')
  {
    match IndexOf(t, p)
    case None =>
    case Some(i) =>
      var n := ReplaceFirst(t, p, "");
      assert n == t[..i] + t[i + |p|..];
      forall k | 0 <= k < |n| ensures !('A' <= n[k] <= 'Z') {
        if k < i {
          assert n[k] == t[k];
        } else {
          assert n[k] == t[k + |p|];
        }
      }
  }

  /** The normal form contains no upper-case letter. */
  lemma NormaliseIsLower(g: string)
    ensures forall i :: 0 <= i < |Normalise(g)| ==> !('A' <= Normalise(g)[i] <= 'Z')
  {
    var s := if g == "" then "unknown" else g;
    NoUpperAfterLower(s);
    RemovalKeepsLower(ToLower(s), "multi");
  }

  /** Case never matters to the classifiers. */
  lemma NormaliseIgnoresCase(a: string, b: string)
    requires ToLower(a) == ToLower(b)
    ensures Normalise(a) == Normalise(b)
    ensures BadgeCategory(a) == BadgeCategory(b) && IconCategory(a) == IconCategory(b)
  {
    assert |a| == |ToLower(a)| == |b|;
  }

  /** A leading `multi`, in any case, is what normalisation strips. */
  lemma NormaliseMultiPrefix(p: string, g: string)
    requires ToLower(p) == "multi"
    ensures Normalise(p + g) == ToLower(g)
  {
    ToLowerConcat(p, g);
    var t := ToLower(p + g);
    assert t == "multi" + ToLower(g);
    assert OccursAt(t, "multi", 0);
    assert t[5..] == ToLower(g);
  }

  /** A lower-case string without `multi` is its own normal form. */
  lemma NormalisePlain(g: string)
    requires g != "" && !Includes(g, "multi")
    requires forall c :: c in g ==> !('A' <= c <= 'Z')
    ensures Normalise(g) == g
  {
    assert forall i :: 0 <= i < |g| ==> g[i] in g;
    ToLowerFixed(g);
  }

  /** `multi` in front of a lower-case string is exactly what goes. */
  lemma NormaliseMultiLower(g: string)
    requires forall c :: c in g ==> !('A' <= c <= 'Z')
    ensures Normalise("multi" + g) == g
  {
    assert forall i :: 0 <= i < |g| ==> g[i] in g;
    ToLowerFixed(g);
    ToLowerFixed("multi");
    NormaliseMultiPrefix("multi", g);
  }

  // The normal forms of the spellings the source's comments and the
  // backend use, one step each.

  lemma NormalPoint() ensures Normalise("point") == "point" {
    AbsentChar("point", "multi", 'm');
    NormalisePlain("point");
  }

  lemma NormalLine() ensures Normalise("line") == "line" {
    AbsentChar("line", "multi", 'm');
    NormalisePlain("line");
  }

  lemma NormalLinestring() ensures Normalise("linestring") == "linestring" {
    AbsentChar("linestring", "multi", 'm');
    NormalisePlain("linestring");
  }

  lemma NormalPolygon() ensures Normalise("polygon") == "polygon" {
    AbsentChar("polygon", "multi", 'm');
    NormalisePlain("polygon");
  }

  lemma NormalUnknown() ensures Normalise("unknown") == "unknown" && Normalise("") == "unknown" {
    AbsentChar("unknown", "multi", 'm');
    NormalisePlain("unknown");
  }

  /** The spellings below, each taken apart as `multi` and the type it
      prefixes, which is how the `multi` lemmas see them. */
  lemma MultiSpellings()
    ensures "multi" + "line" == "multiline" && "multi" + "linestring" == "multilinestring"
    ensures "multi" + "polygon" == "multipolygon" && "multi" + "multipoint" == "multimultipoint"
    ensures "Multi" + "Polygon" == "MultiPolygon"
  {
  }

  lemma NormalMultiline() ensures Normalise("multiline") == "line" {
    MultiSpellings();
    NormaliseMultiLower("line");
  }

  lemma NormalMultilinestring() ensures Normalise("multilinestring") == "linestring" {
    MultiSpellings();
    NormaliseMultiLower("linestring");
  }

  lemma NormalMultipolygon() ensures Normalise("multipolygon") == "polygon" {
    MultiSpellings();
    NormaliseMultiLower("polygon");
  }

  /** Only the first `multi` goes. */
  lemma NormaliseStripsOnce()
    ensures Normalise("multimultipoint") == "multipoint"
  {
    MultiSpellings();
    NormaliseMultiLower("multipoint");
  }

  // ---------------------------------------------------------------------
  // Categories, badges and icons

  /** The icon follows the badge category, except that `line` has a
      purple badge and no icon. */
  lemma IconAgreesWithBadge(g: string)
    ensures IconCategory(g).Some? ==> IconCategory(g) == Some(BadgeCategory(g)) && BadgeCategory(g) != Other
    ensures IconCategory(g).None? <==> BadgeCategory(g) == Other || Normalise(g) == "line"
  {
  }

  lemma LineHasNoIcon()
    ensures BadgeCategory("line") == Line && IconCategory("line") == None
    ensures BadgeCategory("multiline") == Line && IconCategory("multiline") == None
  {
    NormalLine();
    NormalMultiline();
  }

  lemma LowerShapes()
    ensures ToLower("Point") == "point" && ToLower("LineString") == "linestring" && ToLower("Polygon") == "polygon"
  {
  }

  /** Lower-casing comes before stripping, so `MultiPoint` is a point, and
      the same for the other shapes. */
  lemma MultiShapes(p: string)
    requires ToLower(p) == "multi"
    ensures BadgeCategory(p + "Point") == Point && IconCategory(p + "Point") == Some(Point)
    ensures BadgeCategory(p + "LineString") == Line && IconCategory(p + "LineString") == Some(Line)
    ensures BadgeCategory(p + "Polygon") == Polygon && IconCategory(p + "Polygon") == Some(Polygon)
  {
    LowerShapes();
    NormaliseMultiPrefix(p, "Point");
    NormaliseMultiPrefix(p, "LineString");
    NormaliseMultiPrefix(p, "Polygon");
  }

  /** The detail palette gives the four categories four different classes. */
  lemma DetailClassesDistinct(a: Category, b: Category)
    ensures DetailClass(a) == DetailClass(b) <==> a == b
  {
  }

  /** So does the palette of the two list views. */
  lemma ListClassesDistinct(a: Category, b: Category)
    ensures ListClass(a) == ListClass(b) <==> a == b
  {
  }

  /** The four classes of each palette are different, so a badge's class
      tells its category. */
  lemma BadgeClassesDistinguish(a: string, b: string)
    ensures DetailBadgeClass(a) == DetailBadgeClass(b) <==> BadgeCategory(a) == BadgeCategory(b)
    ensures ListBadgeClass(a) == ListBadgeClass(b) <==> BadgeCategory(a) == BadgeCategory(b)
  {
    DetailClassesDistinct(BadgeCategory(a), BadgeCategory(b));
    ListClassesDistinct(BadgeCategory(a), BadgeCategory(b));
  }

  /** The grouping of the sidebar: the polygon pair is blue, the line trio
      purple, an empty or unknown type gray. */
  lemma SidebarPolygons()
    ensures ListBadgeClass("multipolygon") == ListBadgeClass("polygon") == "bg-blue-100 text-blue-700 border-blue-300"
  {
    NormalMultipolygon();
    NormalPolygon();
  }

  lemma SidebarLines()
    ensures ListBadgeClass("multilinestring") == ListBadgeClass("linestring") == ListBadgeClass("line")
      == "bg-purple-100 text-purple-700 border-purple-300"
  {
    NormalMultilinestring();
    NormalLinestring();
    NormalLine();
  }

  lemma SidebarUnknown()
    ensures ListBadgeClass("") == ListBadgeClass("unknown") == "bg-gray-100 text-gray-700 border-gray-300"
  {
    UnknownCategories();
  }

  /** The four values the catalog's name inference produces get the
      categories their names suggest. */
  lemma InferredCategories(name: string)
    ensures var g := Catalog.InferGeometry(name);
      && (g == "point" ==> BadgeCategory(g) == Point && IconCategory(g) == Some(Point))
      && (g == "linestring" ==> BadgeCategory(g) == Line && IconCategory(g) == Some(Line))
      && (g == "multipolygon" ==> BadgeCategory(g) == Polygon && IconCategory(g) == Some(Polygon))
      && (g == "unknown" ==> BadgeCategory(g) == Other && IconCategory(g) == None)
  {
    PointCategories();
    LinestringCategories();
    MultipolygonCategories();
    UnknownCategories();
  }

  lemma PointCategories()
    ensures BadgeCategory("point") == Point && IconCategory("point") == Some(Point)
  {
    NormalPoint();
  }

  lemma LinestringCategories()
    ensures BadgeCategory("linestring") == Line && IconCategory("linestring") == Some(Line)
  {
    NormalLinestring();
  }

  lemma MultipolygonCategories()
    ensures BadgeCategory("multipolygon") == Polygon && IconCategory("multipolygon") == Some(Polygon)
  {
    NormalMultipolygon();
  }

  lemma UnknownCategories()
    ensures BadgeCategory("unknown") == Other && IconCategory("unknown") == None
    ensures BadgeCategory("") == Other
  {
    NormalUnknown();
  }

  // ---------------------------------------------------------------------
  // Labels

  /** Any spelling of `line` is shown as `linestring`. */
  lemma FormatLine(g: string, placeholder: string)
    requires ToLower(g) == "line"
    ensures Format(g, placeholder) == "linestring"
  {
    assert |g| == 4;
    assert forall j :: 0 <= j <= |g| ==> !OccursAt(g, "multi", j);
    IncludesIff(g, "multi");
  }

  /** A lower-case `multi` in front is dropped, once. */
  lemma FormatLeadingMulti(g: string, placeholder: string)
    requires g != "" && !Includes(g, "multi")
    ensures Format("multi" + g, placeholder) == Format(g, placeholder)
  {
    assert OccursAt("multi" + g, "multi", 0);
    assert IndexOf("multi" + g, "multi") == Some(0);
    assert ("multi" + g)[5..] == g;
    assert ReplaceFirst("multi" + g, "multi", "") == g;
    RemoveFirstLength(g, "multi");
  }

  /** Removal is case-sensitive: a capitalised `Multi` stays in the label
      while the badge and icon still ignore it. */
  lemma FormatKeepsCapitalMulti(placeholder: string)
    ensures Format("MultiPolygon", placeholder) == "MultiPolygon"
    ensures BadgeCategory("MultiPolygon") == Polygon
  {
    AbsentChar("MultiPolygon", "multi", 'm');
    MultiShapes("Multi");
    MultiSpellings();
  }

  /** With a non-empty placeholder the label is empty only for `multi`. */
  lemma FormatEmptyIff(g: string, placeholder: string)
    requires placeholder != ""
    ensures Format(g, placeholder) == "" <==> g == "multi"
  {
    if g != "" {
      RemoveFirstLength(g, "multi");
      var f := ReplaceFirst(g, "multi", "");
      if f == "" && Includes(g, "multi") {
        var i := IndexOf(g, "multi").value;
        assert |g| == 5 && i == 0;
        assert g == g[0..5];
      }
      if g == "multi" {
        assert OccursAt(g, "multi", 0);
      }
    }
  }

  /** The two placeholders: `unknown` in the detail view, `?` in lists. */
  lemma Placeholders()
    ensures DetailLabel("") == "unknown" && ListLabel("") == "?"
    ensures forall g :: g != "" ==> DetailLabel(g) == ListLabel(g)
  {
  }
}
