/**
 * The actions of `EmailController`: `generateHtmlAction` (the request
 * guard in front of the renderer) and `postTemplateAction` (filling the
 * template from the posted data). `getTemplateStructureAction` is
 * `Placeholders.Structure`.
 */
module Controller {
  import opened Wrappers
  import opened Text
  import opened Cleanup
  import opened Rows
  import opened Payload
  import Placeholders

  /** The HTTP verb, as far as the controller tells verbs apart. */
  datatype Verb = Get | Post | OtherVerb

  const JsonType := "application/json"

  /** Lines 72-73: the fields every render request must carry, in the order they are checked. */
  const Required := ["customer", "order", "products", "summary"]

  /** The field passes the check at line 74: it is present and not PHP-empty. */
  predicate Passes(data: Payload, field: string) {
    !IsEmpty(Lookup(data, field))
  }

  /**
   * The position in `fields` of the first field from `from` on that fails
   * the check, or `|fields|` when all of them pass.
   */
  function FirstFailing(data: Payload, fields: seq<string>, from: nat): (i: nat)
    requires from <= |fields|
    ensures from <= i <= |fields|
    ensures forall j :: from <= j < i ==> Passes(data, fields[j])
    ensures i < |fields| ==> !Passes(data, fields[i])
    decreases |fields| - from
  {
    if from == |fields| || !Passes(data, fields[from]) then from
    else FirstFailing(data, fields, from + 1)
  }

  /**
   * `generateHtmlAction`. A GET gets the documentation; a POST is checked
   * for a JSON Content-Type, then for a body that decoded, then for the
   * four required fields in order, and only then rendered and cleaned;
   * any other verb is refused. `body` is None when `json_decode` reported
   * an error, and otherwise a decoded object, with each key once;
   * `render` stands for `EmailService::renderEmailTemplate` and
   * `decode` for `html_entity_decode`.
   */
  method Generate(verb: Verb, contentType: string, body: Option<Payload>,
                  render: Payload -> string, decode: string -> string) returns (r: Response)
    requires body.Some? ==> UniqueKeys(body.value)
    ensures verb == Get ==> r == Documentation
    ensures verb == OtherVerb ==> r == Error(MethodError)
    ensures verb == Post && !Occurs(contentType, JsonType) ==> r == Error(ContentTypeError)
    ensures verb == Post && Occurs(contentType, JsonType) && body.None? ==> r == Error(JsonError)
    ensures verb == Post && Occurs(contentType, JsonType) && body.Some? ==>
      var i := FirstFailing(body.value, Required, 0);
      if i < |Required| then r == Error(FieldError(Required[i]))
      else r == Html(Normalize(decode(render(body.value))))
  {
    if verb == Get {
      return Documentation;
    }
    if verb == Post {
      if Find(contentType, JsonType).None? {
        return Error(ContentTypeError);
      }
      if body.None? {
        return Error(JsonError);
      }
      var data := body.value;
      for i := 0 to |Required|
        invariant forall j :: 0 <= j < i ==> Passes(data, Required[j])
      {
        if IsEmpty(Lookup(data, Required[i])) {
          return Error(FieldError(Required[i]));
        }
      }
      var html := render(data);
      var clean := Clean(html, decode);
      return Html(clean);
    }
    return Error(MethodError);
  }

  /**
   * The renderer is reached exactly when all four required fields are
   * present and non-empty; otherwise the answer names the first one, in
   * the order customer, order, products, summary, that fails.
   */
  lemma RenderOnlyWhenComplete(data: Payload)
    ensures FirstFailing(data, Required, 0) == |Required| <==>
      forall f :: f in Required ==> Passes(data, f)
    ensures forall i :: 0 <= i < |Required| ==>
      (FirstFailing(data, Required, 0) == i <==>
        !Passes(data, Required[i]) && forall j :: 0 <= j < i ==> Passes(data, Required[j]))
  {
  }

  /** One `foreach` step of lines 163-168: a scalar fills `|key|`; an array is skipped. */
  function Step(text: string, e: Entry): string {
    match e.value
    case Scalar(v) => ReplaceAll(text, "|" + e.key + "|", v)
    case List(_) => text
  }

  /** All the steps, in payload order. */
  function Substitute(text: string, data: Payload): string
    decreases |data|
  {
    if data == [] then text else Substitute(Step(text, data[0]), data[1..])
  }

  /** The loop of lines 163-168, reassigning the template text once per key. */
  method SubstituteScalars(template: string, data: Payload) returns (text: string)
    ensures text == Substitute(template, data)
  {
    text := template;
    for i := 0 to |data|
      invariant Substitute(text, data[i..]) == Substitute(template, data)
    {
      assert data[i..][1..] == data[i + 1..];
      text := Step(text, data[i]);
    }
  }

  /** The entries whose values are scalars, in order. */
  function Scalars(data: Payload): (r: Payload)
    ensures forall i :: 0 <= i < |r| ==> r[i].value.Scalar? && r[i] in data
    ensures forall e :: e in data && e.value.Scalar? ==> e in r
    decreases |data|
  {
    if data == [] then []
    else if data[0].value.Scalar? then [data[0]] + Scalars(data[1..])
    else Scalars(data[1..])
  }

  /** Array-valued keys take no part: substituting only the scalar entries gives the same text. */
  lemma {:induction false} ListsAreSkipped(text: string, data: Payload)
    ensures Substitute(text, data) == Substitute(text, Scalars(data))
    decreases |data|
  {
    if data != [] {
      ListsAreSkipped(Step(text, data[0]), data[1..]);
      if data[0].value.Scalar? {
        assert ([data[0]] + Scalars(data[1..]))[1..] == Scalars(data[1..]);
      }
    }
  }

  /** A key whose placeholder does not occur leaves the text as it was. */
  lemma AbsentKeyUnchanged(text: string, key: string, v: Value)
    requires !Occurs(text, "|" + key + "|")
    ensures Step(text, Entry(key, v)) == text
  {
    if v.Scalar? {
      ReplaceAbsent(text, "|" + key + "|", v.text);
    }
  }

  /**
   * Filling `|a|` with a value that holds no `|a|` can still leave one:
   * `str_replace` consumes `|a|` at position 1 of `||a|a|`, and the pipe
   * before it and the `a|` after it join into a new one.
   */
  lemma ValueWithoutProbeCanLeaveOne()
    ensures !Occurs("", "|a|")
    ensures Step("||a|a|", Entry("a", Scalar(""))) == "|a|"
    ensures Occurs(Step("||a|a|", Entry("a", Scalar(""))), "|a|")
  {
    var s := "||a|a|";
    assert s[..3] != "|a|" by { assert s[..3][1] == '|'; }
    assert s[1..][..3] == "|a|";
    assert s[1..][3..] == "a|";
    assert ReplaceAll("a|", "|a|", "") == "a|";
    assert s[1..] == "|a|a|";
    assert OccursAt("|a|", "|a|", 0);
  }

  /**
   * Lines 162-185 without the cleanup: the scalar substitution, then, when
   * `collect` is set and is an array, every `<to_replace>` replaced by the
   * row table.
   */
  function Fill(template: string, data: Payload): string {
    var text := Substitute(template, data);
    var c := Lookup(data, "collect");
    if c.Some? && c.value.List? then ReplaceAll(text, Marker, TBody(c.value.rows)) else text
  }

  /** Without an array under `collect` the marker is left exactly as substitution left it. */
  lemma MarkerKeptWithoutCollect(template: string, data: Payload)
    requires forall rows :: Entry("collect", List(rows)) !in data
    ensures Fill(template, data) == Substitute(template, data)
  {
    var c := Lookup(data, "collect");
    if c.Some? {
      var i :| 0 <= i < |data| && data[i] == Entry("collect", c.value);
      assert data[i] in data;
    }
  }

  /**
   * With an array under `collect`, every `<to_replace>` becomes the table of
   * exactly those rows, and none survives, whatever the template holds.
   */
  lemma MarkerGoneWithCollect(template: string, data: Payload, i: nat)
    requires UniqueKeys(data) && i < |data|
    requires data[i].key == "collect" && data[i].value.List?
    ensures Fill(template, data) == ReplaceAll(Substitute(template, data), Marker, TBody(data[i].value.rows))
    ensures !Occurs(Fill(template, data), Marker)
  {
    LookupUnique(data, i);
    MarkerFullyReplaced(Substitute(template, data), data[i].value.rows);
  }

  /**
   * `postTemplateAction` on the template text. A body that did not decode,
   * and one that decoded to an empty array, get the error envelope; any
   * other gets the filled template, cleaned.
   */
  method Replay(template: string, body: Option<Payload>, decode: string -> string) returns (r: Response)
    requires body.Some? ==> UniqueKeys(body.value)
    ensures body.None? || body.value == [] ==> r == Failed(InvalidData)
    ensures body.Some? && body.value != [] ==> r == Success(Normalize(decode(Fill(template, body.value))))
    ensures r.Success? ==> IsClean(r.html)
  {
    if body.None? || body.value == [] {
      return Failed(InvalidData);
    }
    var data := body.value;
    var text := SubstituteScalars(template, data);
    var c := Lookup(data, "collect");
    if c.Some? && c.value.List? {
      var rows := BuildRows(c.value.rows);
      text := ReplaceAll(text, Marker, rows);
    }
    var clean := Clean(text, decode);
    return Success(clean);
  }

  /**
   * Filling a template from the very names its structure lists can still
   * leave a placeholder unfilled: in `|x|`, newline, `|b|x|` the scan finds
   * `x` and `b`, but `str_replace` then consumes the `|x|` that shares its
   * first pipe with the end of `|b|`, so `|b|` is no longer there.
   */
  lemma StructureNamesNotAllFilled()
    ensures Placeholders.Placeholders("|x|\n|b|x|") == ["x", "b"]
    ensures Substitute("|x|\n|b|x|", [Entry("x", Scalar("1")), Entry("b", Scalar("2"))]) == "1\n|b1"
  {
    ScanExample();
    var s, u := "|x|\n|b|x|", "1\n|b1";
    var data := [Entry("x", Scalar("1")), Entry("b", Scalar("2"))];
    var rest := data[1..];
    assert rest == [Entry("b", Scalar("2"))] && rest[1..] == [];
    assert Step(s, data[0]) == u by {
      assert "|" + "x" + "|" == "|x|";
      FillX();
    }
    assert Step(u, rest[0]) == u by {
      assert "|" + "b" + "|" == "|b|";
      FillB();
    }
    assert Substitute(u, rest) == Substitute(u, []);
  }

  lemma ScanExample()
    ensures Placeholders.Placeholders("|x|\n|b|x|") == ["x", "b"]
  {
    var s := "|x|\n|b|x|";
    assert s[1..2] == "x" && s[5..6] == "b";
    assert Placeholders.CloseFrom(s, 4, 5) == Some(6);
    assert Placeholders.ScanFrom(s, 7) == [];
    assert Placeholders.ScanFrom(s, 0) == [Placeholders.Span(0, 2), Placeholders.Span(4, 6)];
  }

  lemma FillX()
    ensures ReplaceAll("|x|\n|b|x|", "|x|", "1") == "1\n|b1"
  {
    var s := "|x|\n|b|x|";
    assert s[..3] == "|x|";
    var t := s[3..];
    assert t == "\n|b|x|";
    assert t[..3][0] == '\n';
    assert t[1..] == "|b|x|";
    assert t[1..][..3][1] == 'b';
    assert t[2..] == "b|x|";
    assert t[2..][..3][0] == 'b';
    assert t[3..] == "|x|";
    assert t[3..][..3] == "|x|";
    assert t[3..][3..] == [];
    assert ReplaceAll(t[3..], "|x|", "1") == "1";
    assert ReplaceAll(t[2..], "|x|", "1") == "b1";
    assert ReplaceAll(t[1..], "|x|", "1") == "|b1";
    assert ReplaceAll(t, "|x|", "1") == "\n|b1";
  }

  lemma FillB()
    ensures ReplaceAll("1\n|b1", "|b|", "2") == "1\n|b1"
  {
    var t := "1\n|b1";
    assert t[..3][0] == '1';
    assert t[1..] == "\n|b1";
    assert t[1..][..3][0] == '\n';
    assert t[2..] == "|b1";
    assert t[2..][..3][2] == '1';
    assert t[3..] == "b1";
    assert ReplaceAll(t[2..], "|b|", "2") == "|b1";
    assert ReplaceAll(t[1..], "|b|", "2") == "\n|b1";
  }
}
