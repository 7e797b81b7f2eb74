/**
 * The row table of `postTemplateAction` (lines 171-185): every item of
 * `collect` becomes a `<tr>` of escaped `<td>` cells, the rows are wrapped
 * in a fixed `<tbody>` element, and the result replaces the `<to_replace>`
 * marker. An inverse parser for the generated markup shows that each item
 * and each value can be read back in order.
 */
module Rows {
  import opened Wrappers
  import opened Text

  /** One item of `collect`: its values in the item's own key order (the keys are not rendered). */
  type Row = seq<string>

  /** The characters `htmlspecialchars` never lets through unescaped, besides `&`. */
  predicate IsMarkup(c: char) {
    c == '<' || c == '>' || c == '"' || c == '\''
  }

  /** The entity `htmlspecialchars` writes for one character. */
  function Entity(c: char): string {
    if c == '&' then "&amp;"
    else if c == '<' then "&lt;"
    else if c == '>' then "&gt;"
    else if c == '"' then "&quot;"
    else if c == '\'' then "&#039;"
    else [c]
  }

  /**
   * `htmlspecialchars($s)` with the default flags of PHP 8.1 and later
   * (ENT_QUOTES, so `'` is escaped too), on valid UTF-8 text.
   */
  function Escape(s: string): (r: string)
    ensures forall i :: 0 <= i < |r| ==> !IsMarkup(r[i])
    decreases |s|
  {
    if s == [] then [] else Entity(s[0]) + Escape(s[1..])
  }

  /** Reads the five entities back; every other character stands for itself. */
  function Unescape(s: string): string
    decreases |s|
  {
    if s == [] then []
    else if StartsWith(s, "&amp;") then "&" + Unescape(s[5..])
    else if StartsWith(s, "&lt;") then "<" + Unescape(s[4..])
    else if StartsWith(s, "&gt;") then ">" + Unescape(s[4..])
    else if StartsWith(s, "&quot;") then "\"" + Unescape(s[6..])
    else if StartsWith(s, "&#039;") then "'" + Unescape(s[6..])
    else [s[0]] + Unescape(s[1..])
  }

  /** A text that differs from `p` at position `k` does not start with `p`. */
  lemma DiffersAt(h: string, p: string, k: nat)
    requires k < |h| && k < |p| && h[k] != p[k]
    ensures !StartsWith(h, p)
  {
    if |p| <= |h| {
      assert h[..|p|][k] == h[k];
    }
  }

  /** No entity is read at a position that does not hold `&`. */
  lemma NoEntityAt(h: string)
    requires h != [] && h[0] != '&'
    ensures Unescape(h) == [h[0]] + Unescape(h[1..])
  {
    DiffersAt(h, "&amp;", 0);
    DiffersAt(h, "&lt;", 0);
    DiffersAt(h, "&gt;", 0);
    DiffersAt(h, "&quot;", 0);
    DiffersAt(h, "&#039;", 0);
  }

  lemma UnescapeEntity(c: char, u: string)
    ensures Unescape(Entity(c) + u) == [c] + Unescape(u)
  {
    var e := Entity(c);
    var h := e + u;
    assert h[..|e|] == e;
    assert h[|e|..] == u;
    if c == '&' {
      assert StartsWith(h, "&amp;");
    } else if c == '<' {
      DiffersAt(h, "&amp;", 1);
      assert StartsWith(h, "&lt;");
    } else if c == '>' {
      DiffersAt(h, "&amp;", 1);
      DiffersAt(h, "&lt;", 1);
      assert StartsWith(h, "&gt;");
    } else if c == '"' {
      DiffersAt(h, "&amp;", 1);
      DiffersAt(h, "&lt;", 1);
      DiffersAt(h, "&gt;", 1);
      assert StartsWith(h, "&quot;");
    } else if c == '\'' {
      DiffersAt(h, "&amp;", 1);
      DiffersAt(h, "&lt;", 1);
      DiffersAt(h, "&gt;", 1);
      DiffersAt(h, "&quot;", 1);
      assert StartsWith(h, "&#039;");
    } else {
      NoEntityAt(h);
    }
  }

  /** Escaping loses nothing: the entities read back to the original value. */
  lemma {:induction false} UnescapeEscape(s: string)
    ensures Unescape(Escape(s)) == s
    decreases |s|
  {
    if s != [] {
      UnescapeEntity(s[0], Escape(s[1..]));
      UnescapeEscape(s[1..]);
    }
  }

  /** One value as an escaped table cell. */
  function CellHtml(v: string): string {
    "<td>" + Escape(v) + "</td>"
  }

  /** One `<td>` per value. */
  function CellsHtml(values: Row): string
    decreases |values|
  {
    if values == [] then [] else CellHtml(values[0]) + CellsHtml(values[1..])
  }

  /** One item as a table row. */
  function RowHtml(item: Row): string {
    "<tr>" + CellsHtml(item) + "</tr>"
  }

  /** The items' rows, in input order. */
  function RowsHtml(items: seq<Row>): string
    decreases |items|
  {
    if items == [] then [] else RowHtml(items[0]) + RowsHtml(items[1..])
  }

  /**
   * The fixed opening tag of line 181, written in short pieces: the
   * verifier reads the characters of a short literal but not those of the
   * whole 70-character one.
   */
  const TBodyOpen := "<tbody" + " style='" + "background-" + "color:" + "#ffffff;" + "color:#000;" + "text-" + "align:left;" + "'>"
  const TBodyClose := "</tbody>"

  /** The replacement for the marker: all rows inside the styled body. */
  function TBody(items: seq<Row>): string {
    TBodyOpen + RowsHtml(items) + TBodyClose
  }

  /** The row marker of line 184. */
  const Marker := "<to_replace>"

  lemma {:induction false} CellsAppend(values: Row, v: string)
    ensures CellsHtml(values + [v]) == CellsHtml(values) + CellHtml(v)
    decreases |values|
  {
    if values != [] {
      var w := values + [v];
      assert w[0] == values[0] && w[1..] == values[1..] + [v];
      CellsAppend(values[1..], v);
      ConcatAssoc(CellHtml(values[0]), CellsHtml(values[1..]), CellHtml(v));
    } else {
      assert [v][1..] == [];
    }
  }

  lemma {:induction false} RowsAppend(items: seq<Row>, item: Row)
    ensures RowsHtml(items + [item]) == RowsHtml(items) + RowHtml(item)
    decreases |items|
  {
    if items != [] {
      var w := items + [item];
      assert w[0] == items[0] && w[1..] == items[1..] + [item];
      RowsAppend(items[1..], item);
      ConcatAssoc(RowHtml(items[0]), RowsHtml(items[1..]), RowHtml(item));
    } else {
      assert [item][1..] == [];
    }
  }

  /**
   * Lines 172-181: the nested loops that build `$collectHtml` with `.=`,
   * then the `<tbody>` wrapper.
   */
  method BuildRows(items: seq<Row>) returns (html: string)
    ensures html == TBody(items)
    ensures items == [] ==> html == TBodyOpen + TBodyClose
  {
    html := "";
    for i := 0 to |items|
      invariant html == RowsHtml(items[..i])
    {
      var item := items[i];
      ghost var done := html;
      html := html + "<tr>";
      html := AppendCells(html, item);
      ConcatAssoc(done, "<tr>", CellsHtml(item));
      ConcatAssoc(done, "<tr>" + CellsHtml(item), "</tr>");
      html := html + "</tr>";
      RowsAppend(items[..i], item);
      assert items[..i + 1] == items[..i] + [item];
    }
    assert items[..|items|] == items;
    html := TBodyOpen + html + TBodyClose;
  }

  /** The inner loop of lines 175-177: one `<td>` cell per value, appended in the item's order. */
  method AppendCells(html: string, item: Row) returns (out: string)
    ensures out == html + CellsHtml(item)
  {
    out := html;
    for j := 0 to |item|
      invariant out == html + CellsHtml(item[..j])
    {
      CellsAppend(item[..j], item[j]);
      assert item[..j + 1] == item[..j] + [item[j]];
      ConcatAssoc(html, CellsHtml(item[..j]), CellHtml(item[j]));
      out := out + CellHtml(item[j]);
    }
    assert item[..|item|] == item;
  }

  /** The length of the text before the next `<`. */
  function TextRun(h: string): (n: nat)
    ensures n <= |h|
    ensures forall k :: 0 <= k < n ==> h[k] != '<'
    ensures n < |h| ==> h[n] == '<'
    decreases |h|
  {
    if h == [] || h[0] == '<' then 0 else 1 + TextRun(h[1..])
  }

  /** Reads `<td>text</td>`... up to and including `</tr>`; the cells come back unescaped. */
  function ParseCells(h: string): (r: Option<(seq<string>, string)>)
    ensures r.Some? ==> |r.value.1| < |h|
    decreases |h|
  {
    if StartsWith(h, "</tr>") then Some(([], h[5..]))
    else if StartsWith(h, "<td>") then
      var t := h[4..];
      var n := TextRun(t);
      if StartsWith(t[n..], "</td>") then
        match ParseCells(t[n + 5..])
        case Some((cells, rest)) => Some(([Unescape(t[..n])] + cells, rest))
        case None => None
      else None
    else None
  }

  /** Reads a sequence of `<tr>...</tr>` rows. */
  function ParseRows(h: string): Option<seq<Row>>
    decreases |h|
  {
    if h == [] then Some([])
    else if StartsWith(h, "<tr>") then
      match ParseCells(h[4..])
      case Some((cells, rest)) =>
        (match ParseRows(rest)
         case Some(more) => Some([cells] + more)
         case None => None)
      case None => None
    else None
  }

  /** One cell whose text holds no `<` is read as its unescaped text. */
  lemma ParseOneCell(e: string, more: string)
    requires forall k :: 0 <= k < |e| ==> e[k] != '<'
    ensures ParseCells(more).Some? ==>
      ParseCells("<td>" + e + "</td>" + more) == Some(([Unescape(e)] + ParseCells(more).value.0, ParseCells(more).value.1))
  {
    var h := "<td>" + e + "</td>" + more;
    DiffersAt(h, "</tr>", 1);
    assert StartsWith(h, "<td>");
    var t := h[4..];
    assert t == e + ("</td>" + more);
    var n := TextRun(t);
    assert t[|e|] == '<';
    assert n == |e|;
    assert t[..n] == e;
    assert t[n..] == "</td>" + more;
    assert StartsWith(t[n..], "</td>");
    assert t[n + 5..] == more;
  }

  lemma {:induction false} ParseCellsRoundTrip(values: Row, u: string)
    ensures ParseCells(CellsHtml(values) + "</tr>" + u) == Some((values, u))
    decreases |values|
  {
    if values == [] {
      var h := "</tr>" + u;
      assert CellsHtml(values) + "</tr>" + u == h;
      assert StartsWith(h, "</tr>");
      assert h[5..] == u;
    } else {
      var v, e := values[0], Escape(values[0]);
      var more := CellsHtml(values[1..]) + "</tr>" + u;
      calc {
        CellsHtml(values) + "</tr>" + u;
        (CellHtml(v) + CellsHtml(values[1..])) + "</tr>" + u;
        "<td>" + e + "</td>" + more;
      }
      ParseCellsRoundTrip(values[1..], u);
      ParseOneCell(e, more);
      UnescapeEscape(v);
      assert [v] + values[1..] == values;
    }
  }

  /** The generated rows read back as exactly the input items, in order, with their values in order. */
  lemma {:induction false} ParseRowsRoundTrip(items: seq<Row>)
    ensures ParseRows(RowsHtml(items)) == Some(items)
    decreases |items|
  {
    if items != [] {
      var h := RowsHtml(items);
      var rest := RowsHtml(items[1..]);
      var cells := CellsHtml(items[0]) + "</tr>" + rest;
      assert h == "<tr>" + cells;
      assert StartsWith(h, "<tr>");
      assert h[4..] == cells;
      ParseCellsRoundTrip(items[0], rest);
      assert ParseCells(h[4..]) == Some((items[0], rest));
      ParseRowsRoundTrip(items[1..]);
      assert [items[0]] + items[1..] == items;
    }
  }

  /**
   * A `<` at `j` opens a tag that cannot begin the marker: the next
   * character is `/`, or it is `t` followed by something other than `o`.
   */
  ghost predicate TagSafeAt(s: string, j: int)
    requires 0 <= j < |s|
  {
    s[j] == '<' ==> j + 2 < |s| && (s[j + 1] == '/' || (s[j + 1] == 't' && s[j + 2] != 'o'))
  }

  /** Every `<` in `s` opens a tag that cannot begin the marker. */
  ghost predicate TagsAvoidMarker(s: string) {
    forall j :: 0 <= j < |s| ==> TagSafeAt(s, j)
  }

  lemma TagsAvoidMarkerAppend(a: string, b: string)
    requires TagsAvoidMarker(a) && TagsAvoidMarker(b)
    ensures TagsAvoidMarker(a + b)
  {
    var s := a + b;
    forall j | 0 <= j < |s| ensures TagSafeAt(s, j) {
      if j < |a| {
        assert TagSafeAt(a, j);
        assert s[j] == a[j];
        if s[j] == '<' {
          assert s[j + 1] == a[j + 1] && s[j + 2] == a[j + 2];
        }
      } else {
        var k := j - |a|;
        assert TagSafeAt(b, k);
        assert s[j] == b[k];
        if s[j] == '<' {
          assert s[j + 1] == b[k + 1] && s[j + 2] == b[k + 2];
        }
      }
    }
  }

  lemma TagAvoidsMarker(s: string)
    requires |s| >= 3 && s[0] == '<' && (s[1] == '/' || (s[1] == 't' && s[2] != 'o'))
    requires '<' !in s[1..]
    ensures TagsAvoidMarker(s)
  {
    forall j | 0 <= j < |s| ensures TagSafeAt(s, j) {
      if j > 0 {
        assert s[1..][j - 1] == s[j];
      }
    }
  }

  lemma EscapedAvoidsMarker(v: string)
    ensures TagsAvoidMarker(Escape(v))
  {
    var e := Escape(v);
    forall j | 0 <= j < |e| ensures TagSafeAt(e, j) {
      assert !IsMarkup(e[j]);
    }
  }

  lemma {:induction false} RowsAvoidMarker(items: seq<Row>)
    ensures TagsAvoidMarker(RowsHtml(items))
    decreases |items|
  {
    if items != [] {
      TagAvoidsMarker("<tr>");
      TagAvoidsMarker("</tr>");
      TagAvoidsMarker("<td>");
      TagAvoidsMarker("</td>");
      CellsAvoidMarker(items[0]);
      TagsAvoidMarkerAppend("<tr>", CellsHtml(items[0]));
      TagsAvoidMarkerAppend("<tr>" + CellsHtml(items[0]), "</tr>");
      RowsAvoidMarker(items[1..]);
      TagsAvoidMarkerAppend(RowHtml(items[0]), RowsHtml(items[1..]));
    }
  }

  lemma {:induction false} CellsAvoidMarker(values: Row)
    ensures TagsAvoidMarker(CellsHtml(values))
    decreases |values|
  {
    if values != [] {
      TagAvoidsMarker("<td>");
      TagAvoidsMarker("</td>");
      EscapedAvoidsMarker(values[0]);
      TagsAvoidMarkerAppend("<td>", Escape(values[0]));
      TagsAvoidMarkerAppend("<td>" + Escape(values[0]), "</td>");
      CellsAvoidMarker(values[1..]);
      TagsAvoidMarkerAppend("<td>" + Escape(values[0]) + "</td>", CellsHtml(values[1..]));
    }
  }

  /** Text without any `<` opens no tag at all. */
  lemma PlainAvoidsMarker(s: string)
    requires forall i :: 0 <= i < |s| ==> s[i] != '<'
    ensures TagsAvoidMarker(s)
  {
  }

  lemma TBodyOpenAvoidsMarker()
    ensures TagsAvoidMarker(TBodyOpen) && TBodyOpen[0] == '<'
  {
    var a := "<tbody";
    TagAvoidsMarker(a);
    PlainAvoidsMarker(" style='");
    TagsAvoidMarkerAppend(a, " style='");
    a := a + " style='";
    PlainAvoidsMarker("background-");
    TagsAvoidMarkerAppend(a, "background-");
    a := a + "background-";
    PlainAvoidsMarker("color:");
    TagsAvoidMarkerAppend(a, "color:");
    a := a + "color:";
    PlainAvoidsMarker("#ffffff;");
    TagsAvoidMarkerAppend(a, "#ffffff;");
    a := a + "#ffffff;";
    PlainAvoidsMarker("color:#000;");
    TagsAvoidMarkerAppend(a, "color:#000;");
    a := a + "color:#000;";
    PlainAvoidsMarker("text-");
    TagsAvoidMarkerAppend(a, "text-");
    a := a + "text-";
    PlainAvoidsMarker("align:left;");
    TagsAvoidMarkerAppend(a, "align:left;");
    a := a + "align:left;";
    PlainAvoidsMarker("'>");
    TagsAvoidMarkerAppend(a, "'>");
    a := a + "'>";
    assert a == TBodyOpen;
  }

  lemma TBodyAvoidsMarker(items: seq<Row>)
    ensures TagsAvoidMarker(TBody(items)) && TBody(items)[0] == '<'
  {
    TBodyOpenAvoidsMarker();
    TagAvoidsMarker(TBodyClose);
    RowsAvoidMarker(items);
    TagsAvoidMarkerAppend(TBodyOpen, RowsHtml(items));
    TagsAvoidMarkerAppend(TBodyOpen + RowsHtml(items), TBodyClose);
  }

  /** No match of the marker can begin inside text whose tags avoid it. */
  lemma NoMarkerOverlap(rep: string)
    requires TagsAvoidMarker(rep)
    ensures forall j :: 0 <= j < |rep| ==> !Overlaps(rep[j..], Marker)
  {
    forall j | 0 <= j < |rep| ensures !Overlaps(rep[j..], Marker) {
      var r := rep[j..];
      assert TagSafeAt(rep, j);
      if rep[j] == '<' {
        assert r[1] == rep[j + 1] && r[2] == rep[j + 2];
      }
      assert r[0] == rep[j];
    }
  }

  /** The body element satisfies the conditions under which replace-all leaves no marker behind. */
  lemma TBodyConsumesMarker(items: seq<Row>)
    ensures Consumes(Marker, TBody(items))
  {
    TBodyAvoidsMarker(items);
    NoMarkerOverlap(TBody(items));
    assert '<' !in Marker[1..];
    forall j | 1 <= j < |Marker| ensures Marker[j] != Marker[0] {
      assert Marker[1..][j - 1] == Marker[j];
    }
  }

  /** After line 184 no `<to_replace>` marker is left in the text. */
  lemma MarkerFullyReplaced(text: string, items: seq<Row>)
    ensures !Occurs(ReplaceAll(text, Marker, TBody(items)), Marker)
  {
    TBodyConsumesMarker(items);
    ReplaceLeavesNoMatch(text, Marker, TBody(items));
  }
}
