/** The non-JSX logic of src/components/LayerDetail.jsx: the URL-in-text
    tokeniser of `renderTextWithLinks`, the `name_` partition of the field
    list and the GitHub link of the tegola configuration. The badge and
    label helpers of the same file are `Geometry.DetailBadgeClass` and
    `Geometry.DetailLabel`. */
module LayerDetail {
  import opened Wrappers
  import opened Strings
  import opened Seqs
  import Catalog
  import Config

  // ---------------------------------------------------------------------
  // The URL pattern /(https?:\/\/[^\s\)]+)/g

  /** A character of `[^\s\)]`. */
  predicate UrlChar(c: char) {
    !IsSpace(c) && c != ')'
  }

  /** The length of the maximal run of URL characters starting at `i`. */
  function RunLength(text: string, i: nat): (n: nat)
    requires i <= |text|
    ensures i + n <= |text|
    decreases |text| - i
  {
    if i < |text| && UrlChar(text[i]) then 1 + RunLength(text, i + 1) else 0
  }

  /** The run is made of URL characters and cannot be extended. */
  lemma {:induction false} RunLengthMaximal(text: string, i: nat)
    requires i <= |text|
    ensures forall k :: i <= k < i + RunLength(text, i) ==> UrlChar(text[k])
    ensures i + RunLength(text, i) == |text| || !UrlChar(text[i + RunLength(text, i)])
    decreases |text| - i
  {
    if i < |text| && UrlChar(text[i]) {
      RunLengthMaximal(text, i + 1);
    }
  }

  /** The length of the match the pattern makes at `p`, 0 for none. The
      optional `s` is greedy, so `https://` is tried before `http://`; the
      character class is greedy too, and needs at least one character. */
  function UrlLengthAt(text: string, p: nat): (n: nat)
    requires p <= |text|
    ensures p + n <= |text|
  {
    if OccursAt(text, "https://", p) && RunLength(text, p + 8) > 0 then 8 + RunLength(text, p + 8)
    else if OccursAt(text, "http://", p) && RunLength(text, p + 7) > 0 then 7 + RunLength(text, p + 7)
    else 0
  }

  /** `https://` and `http://` never start at the same position. */
  lemma SchemesExclusive(text: string, p: nat)
    ensures OccursAt(text, "https://", p) ==> !OccursAt(text, "http://", p)
  {
    if OccursAt(text, "https://", p) {
      assert text[p + 4] == "https://"[4] == 's';
      assert "http://"[4] == ':';
      assert text[p..p + 7][4] == text[p + 4];
    }
  }

  /** A match is `http://` or `https://` followed by one or more characters
      that are neither whitespace nor `)`, and it stops only at whitespace,
      `)` or the end of the text. */
  lemma UrlShape(text: string, p: nat)
    requires p <= |text| && UrlLengthAt(text, p) > 0
    ensures var n := UrlLengthAt(text, p);
      var pre := if OccursAt(text, "https://", p) then 8 else 7;
      && (OccursAt(text, "https://", p) || OccursAt(text, "http://", p))
      && pre < n
      && (forall k :: p + pre <= k < p + n ==> UrlChar(text[k]))
      && (p + n == |text| || !UrlChar(text[p + n]))
  {
    SchemesExclusive(text, p);
    if OccursAt(text, "https://", p) && RunLength(text, p + 8) > 0 {
      RunLengthMaximal(text, p + 8);
    } else {
      RunLengthMaximal(text, p + 7);
    }
  }

  /** The match length at every position `0..|text|`: the pattern as the
      loop below consults it. */
  function MatchTable(text: string): (t: seq<nat>)
    ensures |t| == |text| + 1
  {
    seq(|text| + 1, p requires 0 <= p <= |text| => UrlLengthAt(text, p))
  }

  lemma MatchTableAt(text: string, p: nat)
    requires p <= |text|
    ensures MatchTable(text)[p] == UrlLengthAt(text, p)
  {
  }

  /** A table of match lengths for `text`: no match runs past the end. */
  predicate IsTable(text: string, t: seq<nat>) {
    |t| == |text| + 1 && forall p :: 0 <= p < |t| ==> p + t[p] <= |text|
  }

  lemma MatchTableIsTable(text: string)
    ensures IsTable(text, MatchTable(text))
  {
  }

  /** `urlRegex.exec(text)` with `lastIndex == from`: the first position at
      or after `from` where a match starts. */
  function Exec(t: seq<nat>, from: nat): (r: Option<nat>)
    requires from < |t|
    ensures r.Some? ==> from <= r.value < |t| && t[r.value] > 0
    decreases |t| - from
  {
    if t[from] > 0 then Some(from)
    else if from == |t| - 1 then None
    else Exec(t, from + 1)
  }

  /** The match `Exec` finds is the leftmost one; `None` means there is none. */
  lemma {:induction false} ExecLeftmost(t: seq<nat>, from: nat)
    requires from < |t|
    ensures Exec(t, from).Some? ==> forall q :: from <= q < Exec(t, from).value ==> t[q] == 0
    ensures Exec(t, from).None? ==> forall q :: from <= q < |t| ==> t[q] == 0
    decreases |t| - from
  {
    if t[from] == 0 && from < |t| - 1 {
      ExecLeftmost(t, from + 1);
    }
  }

  // ---------------------------------------------------------------------
  // Segments

  /** One entry of `matches`: `{ type: 'text' | 'url', content }`. */
  datatype Segment = Text(content: string) | Url(content: string)

  /** What `renderTextWithLinks` returns: the text itself when `matches`
      stays empty, otherwise one element per segment. */
  datatype Rendering = PlainText(text: string) | Segments(segments: seq<Segment>)

  /** The segments the loop produces from position `from` on. */
  function Segs(text: string, t: seq<nat>, from: nat): seq<Segment>
    requires IsTable(text, t) && from <= |text|
    decreases |text| - from
  {
    match Exec(t, from)
    case None => if from < |text| then [Text(text[from..])] else []
    case Some(p) =>
      var e := p + t[p];
      (if from < p then [Text(text[from..p])] else []) + [Url(text[p..e])] + Segs(text, t, e)
  }

  /** What `renderTextWithLinks` gives for `text`. */
  function Rendered(text: string): Rendering {
    MatchTableIsTable(text);
    var segs := Segs(text, MatchTable(text), 0);
    if segs == [] then PlainText(text) else Segments(segs)
  }

  /** The segment contents put back together. */
  function Flatten(segs: seq<Segment>): string
    decreases |segs|
  {
    if segs == [] then "" else segs[0].content + Flatten(segs[1..])
  }

  lemma {:induction false} FlattenAppend(a: seq<Segment>, b: seq<Segment>)
    ensures Flatten(a + b) == Flatten(a) + Flatten(b)
    decreases |a|
  {
    if a != [] {
      TailOfAppend(a, b);
      FlattenAppend(a[1..], b);
    } else {
      assert a + b == b;
    }
  }

  /** The text before a match at `p`, when there is any. */
  function Before(text: string, from: nat, p: nat): seq<Segment>
    requires from <= p <= |text|
  {
    if from < p then [Text(text[from..p])] else []
  }

  /** One turn of the loop: the segments from `from` are the text up to the
      next match, the match, and the segments after it. */
  lemma SegsStep(text: string, t: seq<nat>, from: nat)
    requires IsTable(text, t) && from <= |text| && Exec(t, from).Some?
    ensures from < Exec(t, from).value + t[Exec(t, from).value] <= |text|
    ensures Segs(text, t, from) == Before(text, from, Exec(t, from).value)
      + [Url(text[Exec(t, from).value..Exec(t, from).value + t[Exec(t, from).value]])]
      + Segs(text, t, Exec(t, from).value + t[Exec(t, from).value])
  {
  }

  /** The loop's exit: with no further match only the trailing text is left. */
  lemma SegsDone(text: string, t: seq<nat>, from: nat)
    requires IsTable(text, t) && from <= |text| && Exec(t, from).None?
    ensures Segs(text, t, from) == if from < |text| then [Text(text[from..])] else []
  {
  }

  /** The segments so far, the next text and URL, then the rest: the loop's
      accumulated list and the function's head-first one name the same list. */
  lemma Regroup(a: seq<Segment>, b: seq<Segment>, c: seq<Segment>, d: seq<Segment>)
    ensures (a + b + c) + d == a + (b + c + d)
  {
  }

  /** The body of the loop for a match at `index`: the text before it, if
      any, then the URL, and `lastIndex` moves past the match. */
  method Step(text: string, t: seq<nat>, matches: seq<Segment>, lastIndex: nat, index: nat)
    returns (matches': seq<Segment>, next: nat)
    requires IsTable(text, t) && lastIndex <= |text| && Exec(t, lastIndex) == Some(index)
    ensures lastIndex < next <= |text|
    ensures matches' + Segs(text, t, next) == matches + Segs(text, t, lastIndex)
  {
    var len := t[index];
    SegsStep(text, t, lastIndex);
    matches' := matches;
    if index > lastIndex {
      matches' := matches' + [Text(text[lastIndex..index])];
    }
    matches' := matches' + [Url(text[index..index + len])];
    assert matches' == matches + Before(text, lastIndex, index) + [Url(text[index..index + len])];
    Regroup(matches, Before(text, lastIndex, index), [Url(text[index..index + len])],
            Segs(text, t, index + len));
    next := index + len;
  }

  /** The `while ((match = urlRegex.exec(text)) !== null)` loop and the
      trailing text, over a table of match lengths. */
  method Tokenise(text: string, t: seq<nat>) returns (matches: seq<Segment>)
    requires IsTable(text, t)
    ensures matches == Segs(text, t, 0)
  {
    matches := [];
    var lastIndex: nat := 0;
    var m := Exec(t, lastIndex);
    while m.Some?
      invariant lastIndex <= |text|
      invariant m == Exec(t, lastIndex)
      invariant matches + Segs(text, t, lastIndex) == Segs(text, t, 0)
      decreases |text| - lastIndex
    {
      matches, lastIndex := Step(text, t, matches, lastIndex, m.value);
      m := Exec(t, lastIndex);
    }
    SegsDone(text, t, lastIndex);
    if lastIndex < |text| {
      matches := matches + [Text(text[lastIndex..])];
    }
  }

  /** `renderTextWithLinks(text)`, with the `matches.length === 0` fallback. */
  method RenderTextWithLinks(text: string) returns (r: Rendering)
    ensures r == Rendered(text)
  {
    MatchTableIsTable(text);
    var matches := Tokenise(text, MatchTable(text));
    if |matches| == 0 {
      return PlainText(text);
    }
    return Segments(matches);
  }

  // ---------------------------------------------------------------------
  // What the segments are

  lemma SegsFront(text: string, from: nat, p: nat, e: nat)
    requires from <= p < e <= |text|
    ensures Flatten((if from < p then [Text(text[from..p])] else []) + [Url(text[p..e])]) == text[from..e]
  {
    var front := if from < p then [Text(text[from..p])] else [];
    FlattenAppend(front, [Url(text[p..e])]);
    assert Flatten([Url(text[p..e])]) == text[p..e] + Flatten([]);
    if from < p {
      assert Flatten(front) == text[from..p] + Flatten([]);
    }
    assert text[from..e] == text[from..p] + text[p..e];
  }

  /** Putting the segments back together gives the text exactly. */
  lemma {:induction false} SegsCover(text: string, t: seq<nat>, from: nat)
    requires IsTable(text, t) && from <= |text|
    ensures Flatten(Segs(text, t, from)) == text[from..]
    decreases |text| - from
  {
    match Exec(t, from)
    case None =>
      if from < |text| {
        assert Flatten([Text(text[from..])]) == text[from..] + Flatten([]);
      }
    case Some(p) =>
      var e := p + t[p];
      SegsStep(text, t, from);
      SegsCover(text, t, e);
      SegsFront(text, from, p, e);
      CoverJoin(text, from, e, Before(text, from, p) + [Url(text[p..e])], Segs(text, t, e));
  }

  lemma CoverJoin(text: string, from: nat, e: nat, front: seq<Segment>, rest: seq<Segment>)
    requires from <= e <= |text|
    requires Flatten(front) == text[from..e] && Flatten(rest) == text[e..]
    ensures Flatten(front + rest) == text[from..]
  {
    FlattenAppend(front, rest);
    assert text[from..] == text[from..e] + text[e..];
  }

  /** Segment `k` of the segments from `from` starts at this offset. */
  function OffsetOf(from: nat, segs: seq<Segment>, k: nat): nat
    requires k <= |segs|
  {
    from + |Flatten(segs[..k])|
  }

  /** Segment `s` sits in the text at offset `o`: a text segment is never
      empty and no match starts inside it; a URL segment is exactly the
      match that starts at `o`. */
  ghost predicate SegmentFits(text: string, t: seq<nat>, o: nat, s: Segment) {
    && o + |s.content| <= |text| < |t|
    && text[o..o + |s.content|] == s.content
    && (s.Text? ==> s.content != "" && forall q :: o <= q < o + |s.content| ==> t[q] == 0)
    && (s.Url? ==> t[o] == |s.content| > 0)
  }

  lemma {:induction false} FlattenPrefix(front: seq<Segment>, rest: seq<Segment>, k: nat)
    requires |front| <= k <= |front + rest|
    ensures Flatten((front + rest)[..k]) == Flatten(front) + Flatten(rest[..k - |front|])
  {
    assert (front + rest)[..k] == front + rest[..k - |front|];
    FlattenAppend(front, rest[..k - |front|]);
  }

  /** Every segment fits the text at its offset, and a text segment is
      always followed by a URL segment, so no two text segments are
      adjacent. */
  lemma {:induction false} SegsShape(text: string, t: seq<nat>, from: nat, k: nat)
    requires IsTable(text, t) && from <= |text| && k < |Segs(text, t, from)|
    ensures OffsetOf(from, Segs(text, t, from), k) <= |text|
    ensures SegmentFits(text, t, OffsetOf(from, Segs(text, t, from), k), Segs(text, t, from)[k])
    ensures Segs(text, t, from)[k].Text? && k + 1 < |Segs(text, t, from)| ==> Segs(text, t, from)[k + 1].Url?
    decreases |text| - from
  {
    match Exec(t, from)
    case None =>
      ShapeWhenDone(text, t, from);
    case Some(p) =>
      var e := p + t[p];
      SegsStep(text, t, from);
      var front := Before(text, from, p) + [Url(text[p..e])];
      if k >= |front| {
        SegsShape(text, t, e, k - |front|);
        SegsFront(text, from, p, e);
        ShapeShift(text, t, from, e, front, Segs(text, t, e), k);
      } else if k == |front| - 1 {
        ShapeOfMatch(text, t, from, p);
      } else {
        ShapeOfLead(text, t, from, p);
      }
  }

  /** A segment after the first match fits the text as it fits it in the
      segments from the match's end. */
  lemma ShapeShift(text: string, t: seq<nat>, from: nat, e: nat, front: seq<Segment>,
                   rest: seq<Segment>, k: nat)
    requires from <= e <= |text| && Flatten(front) == text[from..e]
    requires |front| <= k < |front + rest|
    requires OffsetOf(e, rest, k - |front|) <= |text|
    requires SegmentFits(text, t, OffsetOf(e, rest, k - |front|), rest[k - |front|])
    requires rest[k - |front|].Text? && k - |front| + 1 < |rest| ==> rest[k - |front| + 1].Url?
    ensures OffsetOf(from, front + rest, k) == OffsetOf(e, rest, k - |front|)
    ensures (front + rest)[k] == rest[k - |front|]
    ensures (front + rest)[k].Text? && k + 1 < |front + rest| ==> (front + rest)[k + 1].Url?
  {
    FlattenPrefix(front, rest, k);
  }

  /** With no further match the one segment left is the trailing text. */
  lemma ShapeWhenDone(text: string, t: seq<nat>, from: nat)
    requires IsTable(text, t) && from <= |text| && Exec(t, from).None?
    ensures var segs := Segs(text, t, from);
      segs != [] ==> |segs| == 1 && OffsetOf(from, segs, 0) == from && SegmentFits(text, t, from, segs[0])
  {
    SegsDone(text, t, from);
    ExecLeftmost(t, from);
    assert Segs(text, t, from)[..0] == [];
  }

  /** The URL segment of the next match sits at the match. */
  lemma ShapeOfMatch(text: string, t: seq<nat>, from: nat, p: nat)
    requires IsTable(text, t) && from <= |text| && Exec(t, from) == Some(p)
    ensures var segs := Segs(text, t, from); var k := |Before(text, from, p)|;
      k < |segs| && OffsetOf(from, segs, k) == p && SegmentFits(text, t, p, segs[k])
  {
    SegsStep(text, t, from);
    var segs := Segs(text, t, from);
    var pre := Before(text, from, p);
    assert segs[..|pre|] == pre;
    if from < p {
      assert Flatten(pre) == text[from..p] + Flatten([]);
    }
  }

  /** The text before the next match is a non-empty run without match
      starts, followed by the URL segment. */
  lemma ShapeOfLead(text: string, t: seq<nat>, from: nat, p: nat)
    requires IsTable(text, t) && from <= |text| && Exec(t, from) == Some(p) && from < p
    ensures var segs := Segs(text, t, from);
      1 < |segs| && OffsetOf(from, segs, 0) == from && SegmentFits(text, t, from, segs[0]) && segs[1].Url?
  {
    SegsStep(text, t, from);
    ExecLeftmost(t, from);
    var segs := Segs(text, t, from);
    assert segs[..0] == [];
    assert segs[0] == Text(text[from..p]);
  }

  /** No segments at all exactly for the empty text. */
  lemma {:induction false} NoSegmentsIffEmpty(text: string, t: seq<nat>)
    requires IsTable(text, t)
    ensures Segs(text, t, 0) == [] <==> text == ""
  {
    SegsCover(text, t, 0);
    if text == "" {
      assert Exec(t, 0).None?;
    }
  }

  /** Segment `k` of `segs` read against the text itself: it sits at its
      offset; a text segment is non-empty, holds no match start and is
      followed by a URL segment if anything; a URL segment is the maximal
      match at its offset. */
  ghost predicate SegmentOfText(text: string, segs: seq<Segment>, k: nat)
    requires k < |segs|
  {
    var o := OffsetOf(0, segs, k);
    && o + |segs[k].content| <= |text|
    && text[o..o + |segs[k].content|] == segs[k].content
    && (segs[k].Text? ==> segs[k].content != "" && forall q :: o <= q < o + |segs[k].content| ==> UrlLengthAt(text, q) == 0)
    && (segs[k].Text? && k + 1 < |segs| ==> segs[k + 1].Url?)
    && (segs[k].Url? ==> UrlLengthAt(text, o) == |segs[k].content| > 0)
  }

  lemma SegmentOfTextAt(text: string, k: nat)
    requires k < |Segs(text, MatchTable(text), 0)|
    ensures SegmentOfText(text, Segs(text, MatchTable(text), 0), k)
  {
    var t := MatchTable(text);
    SegsShape(text, t, 0, k);
    var segs := Segs(text, t, 0);
    var o := OffsetOf(0, segs, k);
    forall q | o <= q <= |text| ensures t[q] == UrlLengthAt(text, q) {
      MatchTableAt(text, q);
    }
  }

  /** What `renderTextWithLinks` promises about its output: the empty text
      comes back as it is; any other text comes back as segments that put
      back together give the text, with every segment as
      `SegmentOfText` describes. */
  lemma RenderedSpec(text: string)
    ensures Rendered(text).PlainText? <==> text == ""
    ensures Rendered(text).PlainText? ==> Rendered(text).text == text
    ensures Rendered(text).Segments? ==> Flatten(Rendered(text).segments) == text
    ensures Rendered(text).Segments? ==>
      forall k :: 0 <= k < |Rendered(text).segments| ==> SegmentOfText(text, Rendered(text).segments, k)
  {
    var t := MatchTable(text);
    MatchTableIsTable(text);
    NoSegmentsIffEmpty(text, t);
    SegsCover(text, t, 0);
    assert text[0..] == text;
    var segs := Segs(text, t, 0);
    assert Rendered(text) == if segs == [] then PlainText(text) else Segments(segs);
    forall k | 0 <= k < |segs| ensures SegmentOfText(text, segs, k) {
      SegmentOfTextAt(text, k);
    }
  }

  /** A text in which no match starts is a single text segment. */
  lemma NoUrlSingleText(text: string)
    requires text != "" && forall q :: 0 <= q <= |text| ==> UrlLengthAt(text, q) == 0
    ensures Rendered(text) == Segments([Text(text)])
  {
    var t := MatchTable(text);
    MatchTableIsTable(text);
    forall q | 0 <= q <= |text| ensures t[q] == 0 {
      MatchTableAt(text, q);
    }
    ExecLeftmost(t, 0);
    assert text[0..] == text;
  }

  // ---------------------------------------------------------------------
  // Fields

  predicate IsLocaleField(f: Catalog.Field) {
    StartsWith(f.name, "name_")
  }

  predicate IsPlainField(f: Catalog.Field) {
    !StartsWith(f.name, "name_")
  }

  /** `fieldsWithoutLocale` */
  function FieldsWithoutLocale(fields: Catalog.Fields): seq<Catalog.Field> {
    Filter(fields, IsPlainField)
  }

  /** `fieldsWithLocale` */
  function FieldsWithLocale(fields: Catalog.Fields): seq<Catalog.Field> {
    Filter(fields, IsLocaleField)
  }

  /** The two lists split the fields exactly: each keeps the order of the
      fields it takes, the locale list holds exactly the `name_` fields,
      and together they have as many entries as there are fields. */
  lemma FieldPartition(fields: Catalog.Fields)
    ensures forall f :: f in FieldsWithLocale(fields) <==> f in fields && StartsWith(f.name, "name_")
    ensures forall f :: f in FieldsWithoutLocale(fields) <==> f in fields && !StartsWith(f.name, "name_")
    ensures IsSubsequence(FieldsWithLocale(fields), fields) && IsSubsequence(FieldsWithoutLocale(fields), fields)
    ensures multiset(FieldsWithoutLocale(fields)) + multiset(FieldsWithLocale(fields)) == multiset(fields)
    ensures |FieldsWithoutLocale(fields)| + |FieldsWithLocale(fields)| == |fields|
  {
    FilterSpec(fields, IsLocaleField);
    FilterSpec(fields, IsPlainField);
    FilterPartition(fields, IsPlainField, IsLocaleField);
  }

  // ---------------------------------------------------------------------
  // The tegola configuration link

  /** The `href` as written: the `staging` branch is part of the literal. */
  function TegolaHrefAsWritten(tegolaConfig: string): string {
    "https://github.com/OpenHistoricalMap/ohm-deploy/blob/staging/images/tiler-server/" + tegolaConfig
  }

  /** The `href` built through the configuration of the running environment. */
  function TegolaHref(c: Config.EnvConfig, tegolaConfig: string): string {
    Config.TegolaConfigUrl(c, tegolaConfig)
  }

  /** The link prefix the staging configuration gives. */
  lemma StagingTegolaPrefix()
    ensures var g := Config.StagingConfig.github;
      g.base + "/blob/" + g.branch + "/" + g.tegolaConfigPath + "/"
      == "https://github.com/OpenHistoricalMap/ohm-deploy/blob/staging/images/tiler-server/"
  {
    var g := Config.StagingConfig.github;
    StagingPrefixHead();
    StagingBranchSlash();
    ToolPath();
    Regroup6(g.base, "/blob/", g.branch, "/", g.tegolaConfigPath, "/");
    StagingPrefixJoin();
  }

  /** The repository part of the staging link: its base and `/blob/`. */
  lemma StagingPrefixHead()
    ensures Config.StagingConfig.github.base + "/blob/" == "https://github.com/OpenHistoricalMap/ohm-deploy/blob/"
  {
  }

  /** The branch part of the staging link. */
  lemma StagingBranchSlash()
    ensures Config.StagingConfig.github.branch + "/" == "staging/"
  {
  }

  /** The path part of the staging link: the Tegola configuration directory. */
  lemma ToolPath()
    ensures Config.StagingConfig.github.tegolaConfigPath + "/" == "images/tiler-server/"
  {
  }

  /** The three parts put together spell the prefix of the hard-coded `href`. */
  lemma StagingPrefixJoin()
    ensures "https://github.com/OpenHistoricalMap/ohm-deploy/blob/" + "staging/" + "images/tiler-server/"
      == "https://github.com/OpenHistoricalMap/ohm-deploy/blob/staging/images/tiler-server/"
  {
  }

  /** `TegolaConfigUrl`'s six pieces, grouped as the three parts above. */
  lemma Regroup6(a: string, b: string, c: string, d: string, e: string, f: string)
    ensures a + b + c + d + e + f == (a + b) + (c + d) + (e + f)
  {
  }

  /** The literal agrees with the staging configuration on every path... */
  lemma TegolaHrefAsWrittenIsStaging(tegolaConfig: string)
    ensures TegolaHrefAsWritten(tegolaConfig) == Config.TegolaConfigUrl(Config.StagingConfig, tegolaConfig)
  {
    StagingTegolaPrefix();
  }

  /** ...and so names the wrong branch in production, on every path. */
  lemma TegolaHrefAsWrittenWrongInProduction(tegolaConfig: string)
    ensures TegolaHrefAsWritten(tegolaConfig) != Config.TegolaConfigUrl(Config.ProductionConfig, tegolaConfig)
  {
    var g := Config.ProductionConfig.github;
    var w := TegolaHrefAsWritten(tegolaConfig);
    var u := Config.TegolaConfigUrl(Config.ProductionConfig, tegolaConfig);
    var head := g.base + "/blob/";
    assert |head| == 53;
    assert u == head + (g.branch + "/" + g.tegolaConfigPath + "/" + tegolaConfig);
    assert u[53] == 'm';
    assert w[53] == 's';
  }

  /** Built from the configuration, the link names the environment's own
      branch and gives the path back. */
  lemma TegolaHrefFollowsEnvironment(env: string, tegolaConfig: string)
    ensures var c := Config.SelectConfig(env);
      && StartsWith(TegolaHref(c, tegolaConfig),
                    "https://github.com/OpenHistoricalMap/ohm-deploy/blob/" + (if env == "production" then "main" else "staging") + "/")
      && Config.ConfigPathOfTegolaUrl(c, TegolaHref(c, tegolaConfig)) == Some(tegolaConfig)
  {
    Config.TegolaConfigUrlRoundTrip(Config.SelectConfig(env), tegolaConfig);
  }
}
