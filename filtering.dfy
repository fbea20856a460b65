/** `filter_text` in lab1/part_a.py: every pattern of a sequence, in
    order, has all its matches deleted (`pattern.sub('', text)`).

    A substitution by the empty string deletes exactly the characters that
    the pattern's matches cover, whatever the pattern is. So a pattern is
    modelled by what it covers: for a text, one flag per character, set
    when some match covers that character. */
module Filtering {

  /** For each character of a text, whether a match of the pattern covers it. */
  type Pattern = string -> seq<bool>

  /** The characters of `s` whose flag in `covered` is not set (a character
      beyond the end of `covered` is kept). */
  function Keep(s: string, covered: seq<bool>): (r: string)
    ensures |r| <= |s|
    ensures multiset(r) <= multiset(s)
    decreases |s|
  {
    if s == [] then []
    else
      var rest := Keep(s[1..], if covered == [] then [] else covered[1..]);
      assert s == [s[0]] + s[1..];
      if covered != [] && covered[0] then rest else [s[0]] + rest
  }

  /** No character is covered. */
  predicate NoneCovered(covered: seq<bool>) {
    forall i :: 0 <= i < |covered| ==> !covered[i]
  }

  /** `pattern.sub('', text)`: a subsequence of the text. */
  function Sub(pattern: Pattern, text: string): (r: string)
    ensures IsSubsequence(r, text)
    ensures |r| <= |text|
  {
    KeepIsSubsequence(text, pattern(text));
    Keep(text, pattern(text))
  }

  /** The result of the loop of `filter_text` after it has applied
      `patterns`: the last pattern applied to the result of the others. */
  function FilterAll(text: string, patterns: seq<Pattern>): (r: string)
    ensures |r| <= |text|
    ensures multiset(r) <= multiset(text)
    decreases |patterns|
  {
    if patterns == [] then text
    else Sub(patterns[|patterns| - 1], FilterAll(text, patterns[..|patterns| - 1]))
  }

  /** `a` is `b` with some characters deleted. */
  predicate IsSubsequence(a: string, b: string)
    decreases |b|
  {
    if a == [] then true
    else if b == [] then false
    else (a[0] == b[0] && IsSubsequence(a[1..], b[1..])) || IsSubsequence(a, b[1..])
  }

  /** `filter_text(src, patterns=patterns)`. */
  method FilterText(src: string, patterns: seq<Pattern>) returns (filtered: string)
    ensures filtered == FilterAll(src, patterns)
    ensures IsSubsequence(filtered, src)
  {
    filtered := src;
    SubsequenceReflexive(src);
    for i := 0 to |patterns|
      invariant filtered == FilterAll(src, patterns[..i])
      invariant IsSubsequence(filtered, src)
    {
      assert patterns[..i + 1][..i] == patterns[..i];
      KeepIsSubsequence(filtered, patterns[i](filtered));
      SubsequenceTransitive(Sub(patterns[i], filtered), filtered, src);
      filtered := Sub(patterns[i], filtered);
    }
    assert patterns[..|patterns|] == patterns;
  }

  // ---------------------------------------------------------------------
  // Lemmas

  /** Filtering by no pattern leaves the text as it is, and filtering by a
      non-empty sequence of patterns is deleting the first pattern's
      matches and then filtering the result by the remaining patterns. */
  lemma {:induction false} FilterAllIsLeftFold(text: string, patterns: seq<Pattern>)
    ensures FilterAll(text, []) == text
    ensures patterns != [] ==> FilterAll(text, patterns) == FilterAll(Sub(patterns[0], text), patterns[1..])
    decreases |patterns|
  {
    if |patterns| > 1 {
      var init := patterns[..|patterns| - 1];
      FilterAllIsLeftFold(text, init);
      assert init[1..] == patterns[1..][..|patterns[1..]| - 1];
      assert init[0] == patterns[0];
    } else if |patterns| == 1 {
      assert patterns[..0] == [];
      assert patterns[1..] == [];
    }
  }

  lemma {:induction false} SubsequenceReflexive(s: string)
    ensures IsSubsequence(s, s)
    decreases |s|
  {
    if s != [] {
      SubsequenceReflexive(s[1..]);
    }
  }

  /** A subsequence of a tail is a subsequence of the whole. */
  lemma SubsequenceOfTail(a: string, b: string)
    requires b != [] && IsSubsequence(a, b[1..])
    ensures IsSubsequence(a, b)
  {
  }

  lemma {:induction false} SubsequenceTransitive(a: string, b: string, c: string)
    requires IsSubsequence(a, b) && IsSubsequence(b, c)
    ensures IsSubsequence(a, c)
    decreases |c|
  {
    if a != [] {
      if IsSubsequence(b, c[1..]) {
        SubsequenceTransitive(a, b, c[1..]);
      } else if IsSubsequence(a, b[1..]) {
        SubsequenceTransitive(a, b[1..], c[1..]);
      } else {
        SubsequenceTransitive(a[1..], b[1..], c[1..]);
      }
    }
  }

  /** A subsequence is no longer than the sequence. */
  lemma {:induction false} SubsequenceLength(a: string, b: string)
    requires IsSubsequence(a, b)
    ensures |a| <= |b|
    decreases |b|
  {
    if a != [] {
      if IsSubsequence(a, b[1..]) {
        SubsequenceLength(a, b[1..]);
      } else {
        SubsequenceLength(a[1..], b[1..]);
      }
    }
  }

  /** Deleting covered characters leaves a subsequence. */
  lemma {:induction false} KeepIsSubsequence(s: string, covered: seq<bool>)
    ensures IsSubsequence(Keep(s, covered), s)
    decreases |s|
  {
    if s != [] {
      var tail := if covered == [] then [] else covered[1..];
      KeepIsSubsequence(s[1..], tail);
      if covered != [] && covered[0] {
        SubsequenceOfTail(Keep(s[1..], tail), s);
      } else {
        assert Keep(s, covered) == [s[0]] + Keep(s[1..], tail);
      }
    }
  }

  /** Deleting where nothing is covered changes nothing. */
  lemma {:induction false} KeepNoneCovered(s: string, covered: seq<bool>)
    requires NoneCovered(covered)
    ensures Keep(s, covered) == s
    decreases |s|
  {
    if s != [] {
      var tail := if covered == [] then [] else covered[1..];
      assert NoneCovered(tail) by {
        assert forall i :: 0 <= i < |tail| ==> tail[i] == covered[i + 1];
      }
      KeepNoneCovered(s[1..], tail);
      assert s == [s[0]] + s[1..];
    }
  }

  /** Deleting is done piece by piece. */
  lemma {:induction false} KeepAppend(a: string, b: string, ca: seq<bool>, cb: seq<bool>)
    requires |ca| == |a|
    ensures Keep(a + b, ca + cb) == Keep(a, ca) + Keep(b, cb)
    decreases |a|
  {
    if a == [] {
      assert a + b == b && ca + cb == cb;
    } else {
      assert (a + b)[1..] == a[1..] + b;
      assert (ca + cb)[1..] == ca[1..] + cb;
      KeepAppend(a[1..], b, ca[1..], cb);
    }
  }

  /** Filtering by any patterns leaves a subsequence of the text: the text
      never grows, and no character is added. */
  lemma {:induction false} FilterAllShrinks(text: string, patterns: seq<Pattern>)
    ensures IsSubsequence(FilterAll(text, patterns), text)
    ensures |FilterAll(text, patterns)| <= |text|
    ensures multiset(FilterAll(text, patterns)) <= multiset(text)
    decreases |patterns|
  {
    if patterns == [] {
      SubsequenceReflexive(text);
    } else {
      var before := FilterAll(text, patterns[..|patterns| - 1]);
      FilterAllShrinks(text, patterns[..|patterns| - 1]);
      KeepIsSubsequence(before, patterns[|patterns| - 1](before));
      SubsequenceTransitive(FilterAll(text, patterns), before, text);
    }
    SubsequenceLength(FilterAll(text, patterns), text);
  }
}
