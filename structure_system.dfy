/**
 * The self-contained helpers of the patched layout-analysis system: the
 * closed-rectangle intersection test, the filter of recognised text lines
 * by a layout region, the relabelling of every "table" region as "figure"
 * (which makes the table route unreachable), and the stripping of style
 * tokens from recognised text.
 */
module StructureSystem {
  import opened Options
  import opened Text

  /* ------------------------------------------------------------- rectangles */

  /** `(x_min, y_min, x_max, y_max)`. */
  datatype Rect = Rect(xMin: real, yMin: real, xMax: real, yMax: real)

  /** The rectangle spans its corners in the usual order. */
  predicate Proper(r: Rect)
  {
    r.xMin <= r.xMax && r.yMin <= r.yMax
  }

  /** The point (x, y) lies in the closed rectangle. */
  predicate InRect(r: Rect, x: real, y: real)
  {
    r.xMin <= x <= r.xMax && r.yMin <= y <= r.yMax
  }

  /** `_has_intersection`: false when the rectangles are apart along x, else false when apart along y, else true. */
  predicate HasIntersection(a: Rect, b: Rect)
  {
    if a.xMin > b.xMax || a.xMax < b.xMin then false
    else if a.yMin > b.yMax || a.yMax < b.yMin then false
    else true
  }

  /** Two proper closed rectangles intersect exactly when they share a point. */
  lemma IntersectionIsCommonPoint(a: Rect, b: Rect)
    requires Proper(a) && Proper(b)
    ensures HasIntersection(a, b) <==> exists x: real, y: real :: InRect(a, x, y) && InRect(b, x, y)
  {
    if HasIntersection(a, b) {
      var x := if a.xMin >= b.xMin then a.xMin else b.xMin;
      var y := if a.yMin >= b.yMin then a.yMin else b.yMin;
      assert InRect(a, x, y) && InRect(b, x, y);
    }
  }

  /** The test does not depend on the order of its arguments. */
  lemma IntersectionSymmetric(a: Rect, b: Rect)
    ensures HasIntersection(a, b) == HasIntersection(b, a)
  {
  }

  /** Rectangles that only touch along an edge intersect: the intervals are closed. */
  lemma TouchingEdgesIntersect(a: Rect, b: Rect)
    requires Proper(a) && Proper(b)
    requires a.xMax == b.xMin && a.yMin == b.yMin
    ensures HasIntersection(a, b)
  {
  }

  /* ------------------------------------------------------------- text filter */

  /** A corner of a detected text quadrilateral. */
  datatype Point = Point(x: real, y: real)

  /** `text_region`: the four corners, clockwise from the top left. */
  datatype Quad = Quad(p0: Point, p1: Point, p2: Point, p3: Point)

  /** One recognised text line: its text, confidence and region. */
  datatype TextLine = TextLine(text: string, confidence: real, region: Quad)

  /** The rectangle `_filter_text_res` tests: corner 0 and corner 2. */
  function RegionRect(q: Quad): Rect
  {
    Rect(q.p0.x, q.p0.y, q.p2.x, q.p2.y)
  }

  /** The text lines whose region intersects the layout box, in their order. */
  function Filtered(lines: seq<TextLine>, bbox: Rect): (r: seq<TextLine>)
    ensures |r| <= |lines|
    ensures forall l :: l in r <==> l in lines && HasIntersection(bbox, RegionRect(l.region))
  {
    if lines == [] then []
    else
      var init := lines[..|lines| - 1];
      var last := lines[|lines| - 1];
      assert lines == init + [last];
      Filtered(init, bbox) + (if HasIntersection(bbox, RegionRect(last.region)) then [last] else [])
  }

  /** Filtering distributes over concatenation, so the kept lines stay in their order. */
  lemma {:induction false} FilteredAppend(a: seq<TextLine>, b: seq<TextLine>, bbox: Rect)
    ensures Filtered(a + b, bbox) == Filtered(a, bbox) + Filtered(b, bbox)
    decreases |b|
  {
    if b == [] {
      assert a + b == a;
    } else {
      var b0 := b[..|b| - 1];
      assert (a + b)[..|a + b| - 1] == a + b0;
      assert (a + b)[|a + b| - 1] == b[|b| - 1];
      FilteredAppend(a, b0, bbox);
    }
  }

  /** `_filter_text_res`: keep each text line whose rectangle meets the layout box. */
  method FilterTextRes(textRes: seq<TextLine>, bbox: Rect) returns (res: seq<TextLine>)
    ensures res == Filtered(textRes, bbox)
  {
    res := [];
    for n := 0 to |textRes|
      invariant res == Filtered(textRes[..n], bbox)
    {
      var r := textRes[n];
      assert textRes[..n + 1][..n] == textRes[..n];
      if HasIntersection(bbox, RegionRect(r.region)) {
        res := res + [r];
      }
    }
    assert textRes[..|textRes|] == textRes;
  }

  /* ------------------------------------------------------------- layout regions */

  /** One layout region: its optional box, label and score. */
  datatype Region = Region(bbox: Option<Rect>, category: string, score: real)

  /** The relabelling of one region: a table becomes a figure. */
  function Relabeled(r: Region): (out: Region)
    ensures out.category != "table"
    ensures r.category != "table" ==> out == r
    ensures r.category == "table" ==> out == r.(category := "figure")
  {
    if r.category == "table" then r.(category := "figure") else r
  }

  /** The route the region loop takes for a label. */
  datatype Route = TableRoute | FormulaRoute | TextRoute

  /** The region dispatch: table, else equation with a formula model, else text. */
  function Dispatch(category: string, hasFormulaSystem: bool): (route: Route)
    ensures route == TableRoute <==> category == "table"
    ensures route == FormulaRoute <==> category == "equation" && hasFormulaSystem
  {
    if category == "table" then TableRoute
    else if category == "equation" && hasFormulaSystem then FormulaRoute
    else TextRoute
  }

  /** After relabelling, no region reaches the table route. */
  lemma TableRouteUnreachable(r: Region, hasFormulaSystem: bool)
    ensures Dispatch(Relabeled(r).category, hasFormulaSystem) != TableRoute
  {
  }

  /** The relabel loop, rewriting the regions in place. */
  method Relabel(layoutRes: array<Region>)
    modifies layoutRes
    ensures forall k :: 0 <= k < layoutRes.Length ==> layoutRes[k] == Relabeled(old(layoutRes[k]))
    ensures forall k :: 0 <= k < layoutRes.Length ==> layoutRes[k].category != "table"
  {
    for n := 0 to layoutRes.Length
      invariant forall k :: 0 <= k < n ==> layoutRes[k] == Relabeled(old(layoutRes[k]))
      invariant forall k :: n <= k < layoutRes.Length ==> layoutRes[k] == old(layoutRes[k])
    {
      if layoutRes[n].category == "table" {
        layoutRes[n] := layoutRes[n].(category := "figure");
      }
    }
  }

  /* ------------------------------------------------------------- style tokens */

  /** The style tokens `_predict_text` removes, in list order; `<strike>` is listed twice. */
  const StyleTokens: seq<string> := [
    "<strike>", "<strike>", "<sup>", "</sub>", "<b>", "</b>", "<sub>", "</sup>",
    "<overline>", "</overline>", "<underline>", "</underline>", "<i>", "</i>"
  ]

  /** Every token in a list is non-empty. */
  ghost predicate NonEmptyTokens(tokens: seq<string>)
  {
    forall k :: 0 <= k < |tokens| ==> tokens[k] != []
  }

  /** The text after removing every occurrence of each token in turn. */
  function Stripped(s: string, tokens: seq<string>): (r: string)
    requires NonEmptyTokens(tokens)
    ensures |r| <= |s|
    decreases |tokens|
  {
    if tokens == [] then s
    else
      var t := tokens[|tokens| - 1];
      RemoveAll(Stripped(s, tokens[..|tokens| - 1]), t)
  }

  /** A text holding none of the tokens is returned as it is. */
  lemma {:induction false} StrippedClean(s: string, tokens: seq<string>)
    requires NonEmptyTokens(tokens)
    requires forall k :: 0 <= k < |tokens| ==> !Contains(s, tokens[k])
    ensures Stripped(s, tokens) == s
    decreases |tokens|
  {
    if tokens != [] {
      StrippedClean(s, tokens[..|tokens| - 1]);
    }
  }

  /** Removing one more token extends the fold by one step. */
  lemma StrippedSnoc(s: string, tokens: seq<string>, k: nat)
    requires NonEmptyTokens(tokens) && k < |tokens|
    ensures NonEmptyTokens(tokens[..k]) && NonEmptyTokens(tokens[..k + 1])
    ensures Stripped(s, tokens[..k + 1]) == RemoveAll(Stripped(s, tokens[..k]), tokens[k])
  {
    assert tokens[..k + 1][..k] == tokens[..k];
  }

  /** The token loop: for each token in turn, remove its occurrences when it occurs. */
  method StripTokens(recStr: string, tokens: seq<string>) returns (r: string)
    requires NonEmptyTokens(tokens)
    ensures r == Stripped(recStr, tokens)
  {
    r := recStr;
    for k := 0 to |tokens|
      invariant NonEmptyTokens(tokens[..k])
      invariant r == Stripped(recStr, tokens[..k])
    {
      var token := tokens[k];
      StrippedSnoc(recStr, tokens, k);
      if Contains(r, token) {
        r := RemoveAll(r, token);
      }
    }
    assert tokens[..|tokens|] == tokens;
  }

  /** The style-token loop of `_predict_text` for one recognised text: it never lengthens the text. */
  method StripStyleTokens(recStr: string) returns (r: string)
    ensures r == Stripped(recStr, StyleTokens)
    ensures |r| <= |recStr|
  {
    assert NonEmptyTokens(StyleTokens);
    r := StripTokens(recStr, StyleTokens);
  }

  /**
   * The second `<strike>` pass is not a no-op: in `<str<strike>ike>` the
   * first pass removes the inner token and leaves a new `<strike>`, which
   * the second pass removes.
   */
  lemma DuplicateStrikeMatters(s: string, t: string)
    requires t == "<strike>" && s == "<str" + t + "ike>"
    ensures RemoveAll(s, t) == t
    ensures RemoveAll(RemoveAll(s, t), t) == []
  {
    NestedStrike(s, t);
    assert t[..|t|] == t && t[|t|..] == [];
    DropToken(t, t);
    RemoveShort([], t);
  }

  /** The first pass over the nested text. */
  lemma NestedStrike(s: string, t: string)
    requires t == "<strike>" && s == "<str" + t + "ike>"
    ensures RemoveAll(s, t) == t
  {
    var tail := s[4..];
    assert tail[..8] == t && tail[8..] == "ike>";
    DropToken(tail, t);
    RemoveShort("ike>", t);
    SkipThree(s, t, "ike>");
  }

  /** The first four characters of the nested text never start the token. */
  lemma SkipThree(s: string, t: string, rest: string)
    requires t == "<strike>" && s == "<str" + t + "ike>"
    requires RemoveAll(s[4..], t) == rest
    ensures RemoveAll(s, t) == "<str" + rest
  {
    assert s[3..][..8][1] != t[1] && s[3..][1..] == s[4..];
    KeepHead(s[3..], t);
    assert s[2..][..8][0] != t[0] && s[2..][1..] == s[3..];
    KeepHead(s[2..], t);
    assert s[1..][..8][0] != t[0] && s[1..][1..] == s[2..];
    KeepHead(s[1..], t);
    assert s[..8][4] != t[4];
    KeepHead(s, t);
    assert [s[0]] + ([s[1]] + ([s[2]] + ([s[3]] + rest))) == "<str" + rest;
  }

  /** A text shorter than the token keeps everything. */
  lemma RemoveShort(s: string, token: string)
    requires token != [] && |s| < |token|
    ensures RemoveAll(s, token) == s
  {
  }

  /** A text not starting with the token keeps its first character. */
  lemma KeepHead(s: string, token: string)
    requires token != [] && |s| >= |token| && s[..|token|] != token
    ensures RemoveAll(s, token) == [s[0]] + RemoveAll(s[1..], token)
  {
  }

  /** A text starting with the token loses it. */
  lemma DropToken(s: string, token: string)
    requires token != [] && |s| >= |token| && s[..|token|] == token
    ensures RemoveAll(s, token) == RemoveAll(s[|token|..], token)
  {
  }
}
