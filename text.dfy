/**
 * The PHP string primitives the controller relies on: `strpos` (as Find)
 * and `str_replace` with a single search string (as ReplaceAll), together
 * with `explode`/`implode` (Split/Join), which serve as an independent
 * reference definition of replace-all.
 */
module Text {
  import opened Wrappers

  /** `pat` occurs in `s` starting at index `i`. */
  ghost predicate OccursAt(s: string, pat: string, i: int) {
    0 <= i && i + |pat| <= |s| && s[i..i + |pat|] == pat
  }

  /** `pat` occurs somewhere in `s`. */
  ghost predicate Occurs(s: string, pat: string) {
    exists i :: OccursAt(s, pat, i)
  }

  /** `p` is a prefix of `s`. */
  predicate StartsWith(s: string, p: string) {
    |p| <= |s| && s[..|p|] == p
  }

  /** The leftmost index at or after `from` where `pat` occurs in `s`. */
  function FindFrom(s: string, pat: string, from: nat): (r: Option<nat>)
    decreases |s| - from
    ensures r.Some? ==> from <= r.value && OccursAt(s, pat, r.value)
    ensures forall j :: from <= j && (r.None? || j < r.value) ==> !OccursAt(s, pat, j)
  {
    if from + |pat| > |s| then None
    else if s[from..from + |pat|] == pat then Some(from)
    else FindFrom(s, pat, from + 1)
  }

  /** PHP `strpos($s, $pat)`: the leftmost occurrence, or None for `false`. */
  function Find(s: string, pat: string): (r: Option<nat>)
    ensures r.Some? <==> Occurs(s, pat)
    ensures r.Some? ==> OccursAt(s, pat, r.value) && forall j :: 0 <= j < r.value ==> !OccursAt(s, pat, j)
  {
    FindFrom(s, pat, 0)
  }

  /**
   * PHP `str_replace($pat, $rep, $s)`: scan left to right, replace each
   * occurrence of `pat` by `rep` and resume after it, so occurrences do not
   * overlap. An empty search string leaves the subject unchanged.
   */
  function ReplaceAll(s: string, pat: string, rep: string): (r: string)
    ensures pat == [] ==> r == s
    ensures |rep| == |pat| ==> |r| == |s|
    decreases |s|
  {
    if pat == [] || |s| < |pat| then s
    else if s[..|pat|] == pat then rep + ReplaceAll(s[|pat|..], pat, rep)
    else [s[0]] + ReplaceAll(s[1..], pat, rep)
  }

  /** PHP `explode($pat, $s)`: the pieces between left-to-right, non-overlapping occurrences. */
  function Split(s: string, pat: string): (parts: seq<string>)
    requires pat != []
    ensures |parts| >= 1
    decreases |s|
  {
    if |s| < |pat| then [s]
    else if s[..|pat|] == pat then [[]] + Split(s[|pat|..], pat)
    else
      var rest := Split(s[1..], pat);
      [[s[0]] + rest[0]] + rest[1..]
  }

  /** PHP `implode($sep, $parts)`. */
  function Join(parts: seq<string>, sep: string): string
    requires |parts| >= 1
    decreases |parts|
  {
    if |parts| == 1 then parts[0] else parts[0] + sep + Join(parts[1..], sep)
  }

  /** Concatenation is associative; stated once so that long chains of `.=` stay cheap to check. */
  lemma ConcatAssoc(a: string, b: string, c: string)
    ensures (a + b) + c == a + (b + c)
  {
  }

  lemma {:induction false} OccursInTail(c: char, t: string, pat: string, i: int)
    requires i > 0 && OccursAt([c] + t, pat, i)
    ensures OccursAt(t, pat, i - 1)
  {
    assert ([c] + t)[i..i + |pat|] == t[i - 1..i - 1 + |pat|];
  }

  lemma {:induction false} OccursInSuffix(s: string, k: nat, pat: string, i: int)
    requires k <= |s| && OccursAt(s[k..], pat, i)
    ensures OccursAt(s, pat, i + k)
  {
    assert s[k..][i..i + |pat|] == s[i + k..i + k + |pat|];
  }

  /** Text without any occurrence of the search string is returned unchanged. */
  lemma {:induction false} ReplaceAbsent(s: string, pat: string, rep: string)
    requires !Occurs(s, pat)
    ensures ReplaceAll(s, pat, rep) == s
    decreases |s|
  {
    if pat == [] || |s| < |pat| {
    } else {
      assert !OccursAt(s, pat, 0);
      if OccursAt(s[1..], pat, FindOr(s[1..], pat)) {
        OccursInSuffix(s, 1, pat, FindOr(s[1..], pat));
      }
      assert !Occurs(s[1..], pat);
      ReplaceAbsent(s[1..], pat, rep);
    }
  }

  /** The index `Find` reports, or 0 when there is none. */
  function FindOr(s: string, pat: string): nat {
    match Find(s, pat)
    case Some(i) => i
    case None => 0
  }

  /**
   * Replace-all works left to right: when the first occurrence of `pat` is
   * at `i`, the text before it is kept, that occurrence becomes `rep`, and
   * the scan resumes after it.
   */
  lemma {:induction false} LeftmostStep(s: string, pat: string, rep: string, i: nat)
    requires pat != [] && OccursAt(s, pat, i)
    requires forall j :: 0 <= j < i ==> !OccursAt(s, pat, j)
    ensures ReplaceAll(s, pat, rep) == s[..i] + rep + ReplaceAll(s[i + |pat|..], pat, rep)
    decreases i
  {
    if i > 0 {
      var t := s[1..];
      assert s[..|pat|] != pat by { assert !OccursAt(s, pat, 0); }
      assert ReplaceAll(s, pat, rep) == [s[0]] + ReplaceAll(t, pat, rep);
      assert OccursAt(t, pat, i - 1) by { assert t[i - 1..i - 1 + |pat|] == s[i..i + |pat|]; }
      forall j | 0 <= j < i - 1 ensures !OccursAt(t, pat, j) {
        if OccursAt(t, pat, j) {
          OccursInSuffix(s, 1, pat, j);
        }
      }
      LeftmostStep(t, pat, rep, i - 1);
      var u := ReplaceAll(s[i + |pat|..], pat, rep);
      assert t[i - 1 + |pat|..] == s[i + |pat|..];
      assert [s[0]] + t[..i - 1] == s[..i];
      ConcatAssoc([s[0]], t[..i - 1] + rep, u);
      ConcatAssoc([s[0]], t[..i - 1], rep);
    } else {
      assert s[..|pat|] == pat by { assert OccursAt(s, pat, 0); }
    }
  }

  /**
   * `str_replace` in terms of `strpos`: without an occurrence the text is
   * unchanged; otherwise the leftmost occurrence `strpos` reports is the one
   * replaced first, and the rest of the text after it is processed the same way.
   */
  lemma ReplaceAtFind(s: string, pat: string, rep: string)
    requires pat != []
    ensures Find(s, pat).None? ==> ReplaceAll(s, pat, rep) == s
    ensures Find(s, pat).Some? ==>
      var i := Find(s, pat).value;
      ReplaceAll(s, pat, rep) == s[..i] + rep + ReplaceAll(s[i + |pat|..], pat, rep)
  {
    var r := Find(s, pat);
    if r.None? {
      ReplaceAbsent(s, pat, rep);
    } else {
      LeftmostStep(s, pat, rep, r.value);
    }
  }

  /** The overlapping case: in `|a|a|` only the occurrence at 0 is replaced. */
  lemma OverlapReplacedOnce()
    ensures ReplaceAll("|a|a|", "|a|", "X") == "Xa|"
  {
    var s := "|a|a|";
    assert s[..3] == "|a|";
    assert s[3..] == "a|";
    assert ReplaceAll("a|", "|a|", "X") == "a|";
  }

  /** Replacing a string by itself changes nothing. */
  lemma {:induction false} ReplaceBySelf(s: string, pat: string)
    ensures ReplaceAll(s, pat, pat) == s
    decreases |s|
  {
    if pat == [] || |s| < |pat| {
    } else if s[..|pat|] == pat {
      ReplaceBySelf(s[|pat|..], pat);
      assert s == s[..|pat|] + s[|pat|..];
    } else {
      ReplaceBySelf(s[1..], pat);
      assert s == [s[0]] + s[1..];
    }
  }

  lemma {:induction false} JoinConsChar(c: char, parts: seq<string>, sep: string)
    requires |parts| >= 1
    ensures Join([[c] + parts[0]] + parts[1..], sep) == [c] + Join(parts, sep)
  {
    var q := [[c] + parts[0]] + parts[1..];
    if |parts| > 1 {
      assert q[1..] == parts[1..];
    }
  }

  /** Replace-all agrees with its reference definition: explode, then implode with the replacement. */
  lemma {:induction false} ReplaceIsJoinSplit(s: string, pat: string, rep: string)
    requires pat != []
    ensures ReplaceAll(s, pat, rep) == Join(Split(s, pat), rep)
    decreases |s|
  {
    if |s| < |pat| {
    } else if s[..|pat|] == pat {
      ReplaceIsJoinSplit(s[|pat|..], pat, rep);
      var parts := [[]] + Split(s[|pat|..], pat);
      assert parts[1..] == Split(s[|pat|..], pat);
    } else {
      ReplaceIsJoinSplit(s[1..], pat, rep);
      JoinConsChar(s[0], Split(s[1..], pat), rep);
    }
  }

  /** Splitting and joining back with the same separator restores the text. */
  lemma SplitJoinRoundTrip(s: string, pat: string)
    requires pat != []
    ensures Join(Split(s, pat), pat) == s
  {
    ReplaceIsJoinSplit(s, pat, pat);
    ReplaceBySelf(s, pat);
  }

  /** The first piece of a split is a prefix of the text. */
  lemma {:induction false} SplitHeadIsPrefix(s: string, pat: string)
    requires pat != []
    ensures StartsWith(s, Split(s, pat)[0])
    decreases |s|
  {
    if |s| < |pat| {
    } else if s[..|pat|] == pat {
    } else {
      SplitHeadIsPrefix(s[1..], pat);
    }
  }

  /**
   * No piece of a split contains the separator: every occurrence of `pat`
   * in `s` is one of the occurrences the scan consumed.
   */
  lemma {:induction false} SplitPiecesFree(s: string, pat: string)
    requires pat != []
    ensures forall k :: 0 <= k < |Split(s, pat)| ==> !Occurs(Split(s, pat)[k], pat)
    decreases |s|
  {
    var parts := Split(s, pat);
    if |s| < |pat| {
      forall i | OccursAt(s, pat, i) ensures false {}
    } else if s[..|pat|] == pat {
      SplitPiecesFree(s[|pat|..], pat);
      assert parts[1..] == Split(s[|pat|..], pat);
      forall k | 0 <= k < |parts| ensures !Occurs(parts[k], pat) {
        if k == 0 {
          forall i | OccursAt(parts[0], pat, i) ensures false {}
        } else {
          assert parts[k] == Split(s[|pat|..], pat)[k - 1];
        }
      }
    } else {
      var rest := Split(s[1..], pat);
      SplitPiecesFree(s[1..], pat);
      SplitHeadIsPrefix(s[1..], pat);
      forall k | 0 <= k < |parts| ensures !Occurs(parts[k], pat) {
        if k == 0 {
          forall i | OccursAt(parts[0], pat, i) ensures false {
            if i > 0 {
              OccursInTail(s[0], rest[0], pat, i);
            }
          }
        } else {
          assert parts[k] == rest[k];
        }
      }
    }
  }

  /** `a` and `p` agree on their common length: a match of `p` could begin where `a` begins. */
  predicate Overlaps(a: string, p: string) {
    StartsWith(a, p) || StartsWith(p, a)
  }

  /**
   * The conditions under which one replace-all pass leaves no occurrence
   * of `pat` behind: the first character of `pat` occurs in it only once,
   * the replacement starts with that character, and no match of `pat` can
   * begin anywhere inside the replacement.
   */
  predicate Consumes(pat: string, rep: string) {
    && pat != []
    && (forall j :: 1 <= j < |pat| ==> pat[j] != pat[0])
    && rep != [] && rep[0] == pat[0]
    && (forall j :: 0 <= j < |rep| ==> !Overlaps(rep[j..], pat))
  }

  lemma MatchedChar(x: string, pat: string, i: int, t: int)
    requires OccursAt(x, pat, i) && 0 <= t < |pat|
    ensures x[i + t] == pat[t]
  {
    assert x[i..i + |pat|][t] == pat[t];
  }

  lemma MatchInsideOverlaps(p: string, rep: string, j: string, pat: string, i: int)
    requires |p| <= i < |p| + |rep| && OccursAt(p + rep + j, pat, i)
    ensures Overlaps(rep[i - |p|..], pat)
  {
    var x, r := p + rep + j, rep[i - |p|..];
    if i + |pat| <= |p| + |rep| {
      assert r[..|pat|] == x[i..i + |pat|];
    } else {
      assert pat[..|r|] == x[i..i + |pat|][..|r|];
    }
  }

  lemma {:induction false} JoinLeavesNoMatch(parts: seq<string>, pat: string, rep: string)
    requires Consumes(pat, rep) && |parts| >= 1
    requires forall k :: 0 <= k < |parts| ==> !Occurs(parts[k], pat)
    ensures !Occurs(Join(parts, rep), pat)
    decreases |parts|
  {
    if |parts| > 1 {
      var p, tail := parts[0], parts[1..];
      assert forall k :: 0 <= k < |tail| ==> tail[k] == parts[k + 1];
      JoinLeavesNoMatch(tail, pat, rep);
      var j := Join(tail, rep);
      var x := p + rep + j;
      var a, b := |p|, |p| + |rep|;
      forall i | OccursAt(x, pat, i) ensures false {
        assert forall t :: 0 <= t < |pat| ==> x[i + t] == pat[t];
        if i + |pat| <= a {
          assert p[i..i + |pat|] == x[i..i + |pat|];
          assert OccursAt(p, pat, i);
        } else if i < a {
          // the match would cover rep[0] == pat[0] at an inner position of pat
          MatchedChar(x, pat, i, a - i);
        } else if i < b {
          // the match would begin inside rep, at rep[i - a..], which Consumes rules out
          MatchInsideOverlaps(p, rep, j, pat, i);
        } else {
          assert j[i - b..i - b + |pat|] == x[i..i + |pat|];
          assert OccursAt(j, pat, i - b);
        }
      }
    }
  }

  /** Under `Consumes`, a replace-all pass removes every occurrence of the search string. */
  lemma ReplaceLeavesNoMatch(s: string, pat: string, rep: string)
    requires Consumes(pat, rep)
    ensures !Occurs(ReplaceAll(s, pat, rep), pat)
  {
    ReplaceIsJoinSplit(s, pat, rep);
    SplitPiecesFree(s, pat);
    JoinLeavesNoMatch(Split(s, pat), pat, rep);
  }

  /** Drop every `c` from `s`, keeping the other characters in order. */
  function Without(s: string, c: char): string
    decreases |s|
  {
    if s == [] then [] else (if s[0] == c then [] else [s[0]]) + Without(s[1..], c)
  }

  lemma {:induction false} WithoutAppend(a: string, b: string, c: char)
    ensures Without(a + b, c) == Without(a, c) + Without(b, c)
    decreases |a|
  {
    if a != [] {
      assert (a + b)[1..] == a[1..] + b;
      WithoutAppend(a[1..], b, c);
    } else {
      assert a + b == b;
    }
  }

  /** A character that never appears does not occur as a one-character search string. */
  lemma CharAbsent(s: string, c: char)
    requires forall i :: 0 <= i < |s| ==> s[i] != c
    ensures !Occurs(s, [c])
  {
    forall i | OccursAt(s, [c], i) ensures false {
      MatchedChar(s, [c], i, 0);
    }
  }

  /** `str_replace` of one character by nothing is the filter `Without`. */
  lemma {:induction false} RemoveCharIsWithout(s: string, c: char)
    ensures ReplaceAll(s, [c], []) == Without(s, c)
    decreases |s|
  {
    if s != [] {
      assert s[..1] == [s[0]];
      RemoveCharIsWithout(s[1..], c);
    }
  }

  /** `str_replace` of one character by another rewrites each position on its own. */
  lemma {:induction false} ReplaceCharPointwise(s: string, c: char, d: char)
    ensures |ReplaceAll(s, [c], [d])| == |s|
    ensures forall i :: 0 <= i < |s| ==> ReplaceAll(s, [c], [d])[i] == if s[i] == c then d else s[i]
    decreases |s|
  {
    if s != [] {
      assert s[..1] == [s[0]];
      ReplaceCharPointwise(s[1..], c, d);
    }
  }
}
