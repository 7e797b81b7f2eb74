/**
 * The output cleanup shared by the generate and replay actions: entity
 * decoding (kept abstract), removal of carriage returns, line feeds and
 * tabs, then every double quote turned into a single quote.
 */
module Cleanup {
  import opened Text

  /** The characters the strip step removes. */
  predicate IsControl(c: char) {
    c == '\r' || c == '\n' || c == '\t'
  }

  /**
   * `str_replace(["\r", "\n", "\t"], '', $s)`: each search string is
   * replaced in turn, which keeps exactly the non-control characters, in
   * their original order.
   */
  function StripControls(s: string): (r: string)
    ensures r == KeepPrintable(s)
  {
    RemoveCharIsWithout(s, '\r');
    RemoveCharIsWithout(Without(s, '\r'), '\n');
    RemoveCharIsWithout(Without(Without(s, '\r'), '\n'), '\t');
    ThreeFiltersAreOne(s);
    ReplaceAll(ReplaceAll(ReplaceAll(s, "\r", ""), "\n", ""), "\t", "")
  }

  /** `str_replace(['"'], "'", $s)`: the length is kept and exactly the double quotes change. */
  function SwapQuotes(s: string): (r: string)
    ensures |r| == |s|
    ensures forall i :: 0 <= i < |s| ==> r[i] == if s[i] == '"' then '\'' else s[i]
  {
    ReplaceCharPointwise(s, '"', '\'');
    ReplaceAll(s, "\"", "'")
  }

  /** Reference definition of the strip step: drop control characters, keep the rest in order. */
  function KeepPrintable(s: string): string
    decreases |s|
  {
    if s == [] then [] else (if IsControl(s[0]) then [] else [s[0]]) + KeepPrintable(s[1..])
  }

  /** Text the cleanup can produce: no control character and no double quote. */
  ghost predicate IsClean(s: string) {
    forall i :: 0 <= i < |s| ==> !IsControl(s[i]) && s[i] != '"'
  }

  lemma {:induction false} ThreeFiltersAreOne(s: string)
    ensures Without(Without(Without(s, '\r'), '\n'), '\t') == KeepPrintable(s)
    decreases |s|
  {
    if s != [] {
      var c, t := s[0], s[1..];
      var x := if c == '\r' then [] else [c];
      assert Without(s, '\r') == x + Without(t, '\r');
      WithoutAppend(x, Without(t, '\r'), '\n');
      var y := Without(x, '\n');
      WithoutAppend(y, Without(Without(t, '\r'), '\n'), '\t');
      ThreeFiltersAreOne(t);
    }
  }

  /** Every character of `KeepPrintable(s)` is a non-control character of `s`. */
  lemma {:induction false} KeepPrintableChars(s: string)
    ensures |KeepPrintable(s)| <= |s|
    ensures forall i :: 0 <= i < |KeepPrintable(s)| ==> !IsControl(KeepPrintable(s)[i])
    ensures forall c :: c in KeepPrintable(s) <==> c in s && !IsControl(c)
    decreases |s|
  {
    if s != [] {
      KeepPrintableChars(s[1..]);
    }
  }

  /** Strip, then swap quotes: steps two and three of the cleanup. */
  function Normalize(s: string): (r: string)
    ensures IsClean(r)
    ensures |r| <= |s|
  {
    KeepPrintableChars(s);
    SwapQuotes(StripControls(s))
  }

  /** Text that is already clean passes through both steps unchanged. */
  lemma NormalizeClean(s: string)
    requires IsClean(s)
    ensures Normalize(s) == s
  {
    CharAbsent(s, '\r');
    ReplaceAbsent(s, "\r", "");
    CharAbsent(s, '\n');
    ReplaceAbsent(s, "\n", "");
    CharAbsent(s, '\t');
    ReplaceAbsent(s, "\t", "");
    assert StripControls(s) == s;
  }

  /** Applying strip-then-quote a second time changes nothing. */
  lemma NormalizeIdempotent(s: string)
    ensures Normalize(Normalize(s)) == Normalize(s)
  {
    NormalizeClean(Normalize(s));
  }

  /**
   * The cleanup of lines 84-86 and 188-190, with `html_entity_decode`
   * passed in as `decode`.
   */
  method Clean(html: string, decode: string -> string) returns (clean: string)
    ensures clean == Normalize(decode(html))
    ensures IsClean(clean)
  {
    clean := decode(html);
    clean := StripControls(clean);
    clean := SwapQuotes(clean);
  }
}
