/**
 * The structure introspection of `getTemplateStructureAction`: the
 * placeholder scan `preg_match_all('/\|(.*?)\|/', ...)` written out as a
 * left-to-right scanner, and the descriptor built from its matches and from
 * the header labels of the `collect` table.
 */
module Placeholders {
  import opened Wrappers

  /**
   * The pattern matches `s[p..q + 1]`: a pipe at `p`, the first pipe after
   * it at `q`, and no newline in between (`.` does not match a newline and
   * the lazy `.*?` stops at the first closing pipe).
   */
  ghost predicate MatchAt(s: string, p: int, q: int) {
    && 0 <= p < q < |s|
    && s[p] == '|' && s[q] == '|'
    && forall k :: p < k < q ==> s[k] != '|' && s[k] != '\n'
  }

  /**
   * Having seen only ordinary characters between the opening pipe at `p`
   * and `q`, look for the closing pipe; a newline or the end of the text
   * makes the attempt at `p` fail.
   */
  function CloseFrom(s: string, p: nat, q: nat): (r: Option<nat>)
    requires p < q <= |s| && s[p] == '|'
    requires forall k :: p < k < q ==> s[k] != '|' && s[k] != '\n'
    ensures r.Some? ==> MatchAt(s, p, r.value)
    ensures r.None? ==> forall j :: !MatchAt(s, p, j)
    decreases |s| - q
  {
    if q == |s| then None
    else if s[q] == '|' then Some(q)
    else if s[q] == '\n' then
      assert forall j :: q < j ==> !MatchAt(s, p, j);
      None
    else CloseFrom(s, p, q + 1)
  }

  /** The positions of one match: the opening and the closing pipe. */
  datatype Span = Span(open: nat, close: nat)

  /** All matches at or after `from`, found left to right without overlap. */
  function ScanFrom(s: string, from: nat): (r: seq<Span>)
    decreases |s| - from
    ensures forall i :: 0 <= i < |r| ==> from <= r[i].open && MatchAt(s, r[i].open, r[i].close)
    ensures forall i :: 0 <= i < |r| - 1 ==> r[i].close < r[i + 1].open
  {
    if from >= |s| then []
    else if s[from] == '|' then
      match CloseFrom(s, from, from + 1)
      case Some(q) => [Span(from, q)] + ScanFrom(s, q + 1)
      case None => ScanFrom(s, from + 1)
    else ScanFrom(s, from + 1)
  }

  /** Position `p` lies within one of the spans, pipes included. */
  ghost predicate Covered(r: seq<Span>, p: int) {
    exists i :: 0 <= i < |r| && r[i].open <= p <= r[i].close
  }

  lemma CoveredHead(sp: Span, tail: seq<Span>, p: int)
    requires sp.open <= p <= sp.close
    ensures Covered([sp] + tail, p)
  {
    assert ([sp] + tail)[0] == sp;
  }

  lemma CoveredTail(sp: Span, tail: seq<Span>, p: int)
    requires Covered(tail, p)
    ensures Covered([sp] + tail, p)
  {
    var i :| 0 <= i < |tail| && tail[i].open <= p <= tail[i].close;
    assert ([sp] + tail)[i + 1] == tail[i];
  }

  /** A match that starts at or after `from` starts at a position the scan consumed. */
  lemma {:induction false} ScanCoversMatch(s: string, from: nat, p: int, q: int)
    requires from <= p && MatchAt(s, p, q)
    ensures Covered(ScanFrom(s, from), p)
    decreases |s| - from
  {
    if s[from] != '|' {
      assert ScanFrom(s, from) == ScanFrom(s, from + 1);
      ScanCoversMatch(s, from + 1, p, q);
    } else {
      var m := CloseFrom(s, from, from + 1);
      if m.None? {
        assert p != from;
        assert ScanFrom(s, from) == ScanFrom(s, from + 1);
        ScanCoversMatch(s, from + 1, p, q);
      } else {
        var c := m.value;
        var tail := ScanFrom(s, c + 1);
        assert ScanFrom(s, from) == [Span(from, c)] + tail;
        if p <= c {
          CoveredHead(Span(from, c), tail, p);
        } else {
          ScanCoversMatch(s, c + 1, p, q);
          CoveredTail(Span(from, c), tail, p);
        }
      }
    }
  }

  /**
   * The scan misses nothing: no match of the pattern starts at a position
   * the scan did not consume, so the spans are exactly the leftmost
   * non-overlapping matches.
   */
  lemma ScanComplete(s: string)
    ensures forall p, q :: !Covered(ScanFrom(s, 0), p) ==> !MatchAt(s, p, q)
  {
    forall p, q | MatchAt(s, p, q) ensures Covered(ScanFrom(s, 0), p) {
      ScanCoversMatch(s, 0, p, q);
    }
  }

  /** `preg_match_all('/\|(.*?)\|/', $s, $matches)` and then `$matches[1]`: the captured names. */
  function Placeholders(s: string): (names: seq<string>)
    ensures forall i, k :: 0 <= i < |names| && 0 <= k < |names[i]| ==> names[i][k] != '|' && names[i][k] != '\n'
  {
    var spans := ScanFrom(s, 0);
    seq(|spans|, i requires 0 <= i < |spans| => s[spans[i].open + 1..spans[i].close])
  }

  /** Matches do not overlap: in `|a|b|c|` the middle pipe closes `a`, so `b` is not a name. */
  lemma ScanDoesNotOverlap()
    ensures Placeholders("|a|b|c|") == ["a", "c"]
  {
    var s := "|a|b|c|";
    assert CloseFrom(s, 0, 1) == Some(2);
    assert CloseFrom(s, 4, 5) == Some(6);
    assert ScanFrom(s, 7) == [];
    assert ScanFrom(s, 3) == ScanFrom(s, 4) == [Span(4, 6)];
    assert ScanFrom(s, 0) == [Span(0, 2), Span(4, 6)];
    assert s[1..2] == "a" && s[5..6] == "c";
  }

  /** Two adjacent pipes capture the empty name. */
  lemma AdjacentPipesCaptureEmpty()
    ensures Placeholders("||") == [""]
  {
    assert CloseFrom("||", 0, 1) == Some(1);
    assert ScanFrom("||", 2) == [];
    assert ScanFrom("||", 0) == [Span(0, 1)];
  }

  /** A newline ends an attempt: the pipe before it opens nothing and scanning resumes after it. */
  lemma NewlineStopsMatch()
    ensures Placeholders("|a\n|b|") == ["b"]
  {
    var s := "|a\n|b|";
    assert CloseFrom(s, 0, 2) == None;
    assert CloseFrom(s, 3, 4) == Some(5);
    assert ScanFrom(s, 6) == [];
    assert ScanFrom(s, 3) == [Span(3, 5)];
    assert ScanFrom(s, 0) == ScanFrom(s, 1) == ScanFrom(s, 2) == ScanFrom(s, 3);
    assert s[4..5] == "b";
  }

  /** No value appears twice. */
  ghost predicate NoDuplicates(xs: seq<string>) {
    forall i, j :: 0 <= i < j < |xs| ==> xs[i] != xs[j]
  }

  /** The index of the first occurrence of `x`. */
  function FirstIndex(xs: seq<string>, x: string): (i: nat)
    requires x in xs
    ensures i < |xs| && xs[i] == x
    ensures forall j :: 0 <= j < i ==> xs[j] != x
  {
    if xs[0] == x then 0 else 1 + FirstIndex(xs[1..], x)
  }

  /**
   * The distinct values of `xs` in first-occurrence order: the order in
   * which `$campos[$campo] = ...` creates keys, since assigning an existing
   * key of a PHP array keeps its position.
   */
  function Distinct(xs: seq<string>): seq<string>
    decreases |xs|
  {
    if xs == [] then []
    else
      var d := Distinct(xs[..|xs| - 1]);
      if xs[|xs| - 1] in d then d else d + [xs[|xs| - 1]]
  }

  lemma FirstIndexExtend(ys: seq<string>, l: string, x: string)
    requires x in ys + [l]
    ensures x in ys ==> FirstIndex(ys + [l], x) == FirstIndex(ys, x)
    ensures x !in ys ==> FirstIndex(ys + [l], x) == |ys|
  {
    var i := FirstIndex(ys + [l], x);
    if x in ys {
      var k := FirstIndex(ys, x);
      assert (ys + [l])[k] == x;
    }
  }

  /**
   * `Distinct` keeps exactly the values of `xs`, each once, ordered by
   * where each first occurs.
   */
  lemma {:induction false} DistinctFirstOccurrences(xs: seq<string>)
    ensures forall x :: x in Distinct(xs) <==> x in xs
    ensures NoDuplicates(Distinct(xs))
    ensures forall i, j :: 0 <= i < j < |Distinct(xs)| ==>
      FirstIndex(xs, Distinct(xs)[i]) < FirstIndex(xs, Distinct(xs)[j])
    decreases |xs|
  {
    if xs != [] {
      var ys, l := xs[..|xs| - 1], xs[|xs| - 1];
      assert xs == ys + [l];
      DistinctFirstOccurrences(ys);
      var d := Distinct(ys);
      forall i | 0 <= i < |d| ensures FirstIndex(xs, d[i]) == FirstIndex(ys, d[i]) {
        FirstIndexExtend(ys, l, d[i]);
      }
      if l !in d {
        FirstIndexExtend(ys, l, l);
        var e := d + [l];
        assert forall i :: 0 <= i < |d| ==> e[i] == d[i];
        forall i | 0 <= i < |d| ensures FirstIndex(xs, e[i]) < FirstIndex(xs, e[|d|]) {
          assert FirstIndex(ys, d[i]) < |ys|;
        }
      }
    }
  }

  /** The type a descriptor assigns to a key: the tag `"string"`, or the column labels of `collect`. */
  datatype FieldSpec = TypeTag(tag: string) | Columns(labels: seq<string>)

  /** A PHP ordered array: the keys in insertion order and the value of each. */
  datatype Descriptor = Descriptor(keys: seq<string>, fields: map<string, FieldSpec>)

  /** The descriptor's key for the row table. */
  const CollectKey := "collect"

  /**
   * Lines 129-137: one `"string"` entry per scanned name, then, when the
   * header list is not empty, the `collect` entry, which overwrites a
   * placeholder of that name in place or is appended.
   */
  method BuildDescriptor(names: seq<string>, headers: seq<string>) returns (d: Descriptor)
    ensures d.keys == Distinct(names) + (if headers != [] && CollectKey !in names then [CollectKey] else [])
    ensures forall k :: k in d.fields <==> k in d.keys
    ensures forall k :: k in d.fields ==>
      d.fields[k] == if k == CollectKey && headers != [] then Columns(headers) else TypeTag("string")
  {
    var keys: seq<string> := [];
    var fields: map<string, FieldSpec> := map[];
    for i := 0 to |names|
      invariant keys == Distinct(names[..i])
      invariant forall k :: k in fields <==> k in keys
      invariant forall k :: k in fields ==> fields[k] == TypeTag("string")
    {
      assert names[..i + 1][..i] == names[..i];
      var name := names[i];
      if name !in fields {
        keys := keys + [name];
      }
      fields := fields[name := TypeTag("string")];
    }
    assert names[..|names|] == names;
    DistinctFirstOccurrences(names);
    if headers != [] {
      if CollectKey !in fields {
        keys := keys + [CollectKey];
      }
      fields := fields[CollectKey := Columns(headers)];
    }
    d := Descriptor(keys, fields);
  }

  /**
   * `getTemplateStructureAction` on the template text. `collect` is what
   * the HTML parser found for `#collect`: None when there is no such
   * element, otherwise the inner text of its header cells in document
   * order (lines 110-122).
   */
  method Structure(template: string, collect: Option<seq<string>>) returns (d: Descriptor)
    ensures var headers := if collect.Some? then collect.value else [];
      && d.keys == Distinct(Placeholders(template)) +
                   (if headers != [] && CollectKey !in Placeholders(template) then [CollectKey] else [])
      && (forall k :: k in d.fields <==> k in Placeholders(template) || (k == CollectKey && headers != []))
      && NoDuplicates(d.keys)
      && (forall k :: k in d.fields <==> k in d.keys)
      && (headers != [] ==> d.fields[CollectKey] == Columns(headers))
      && (forall k :: k in d.fields && (k != CollectKey || headers == []) ==> d.fields[k] == TypeTag("string"))
  {
    var products: seq<string> := [];
    if collect.Some? {
      products := collect.value;
    }
    var names := Placeholders(template);
    d := BuildDescriptor(names, products);
    DistinctFirstOccurrences(names);
  }
}
