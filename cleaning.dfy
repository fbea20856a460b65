/** The cleaning stage's per-line pipeline (`start` in lab1/part_a.py):
    each line is lower-cased and filtered by the four patterns in order,
    then split on whitespace, each word is lemmatized, and the words are
    joined again with single spaces.

    The lemmatizer is a parameter. So is the URL pattern: all the model
    knows of it is that it is anchored at the start of the text and begins
    with `http:` or `https:`, which is enough to show that it deletes
    nothing once the class rule has run. */
module Cleaning {
  import opened Text
  import opened Filtering
  import opened Rules

  /** `c.lower()` for an ASCII character: never an upper-case letter, a
      letter exactly when `c` is one, and in `[a-zA-Z0-9 ]` exactly when `c`
      is, so then in `[a-z0-9 ]`. */
  function LowerChar(c: char): (r: char)
    ensures !IsAsciiUpper(r)
    ensures IsAsciiLetter(r) <==> IsAsciiLetter(c)
    ensures IsAlnumSpace(r) <==> IsAlnumSpace(c)
    ensures IsAlnumSpace(r) ==> IsLowerAlnumSpace(r)
  {
    if IsAsciiUpper(c) then (c as int + 32) as char else c
  }

  predicate IsNotAsciiUpper(c: char) {
    !IsAsciiUpper(c)
  }

  /** `s.lower()`. */
  function LowerStr(s: string): (r: string)
    ensures |r| == |s|
  {
    seq(|s|, i requires 0 <= i < |s| => LowerChar(s[i]))
  }

  /** `s.split()`: every field is a non-empty run without whitespace. */
  function Split(s: string): (fields: seq<string>)
    ensures forall i :: 0 <= i < |fields| ==> IsRun(fields[i], IsNonSpace)
  {
    Runs(s, IsNonSpace)
  }

  /** Applies `f` to every word. */
  function MapWords(f: string -> string, ws: seq<string>): seq<string> {
    seq(|ws|, i requires 0 <= i < |ws| => f(ws[i]))
  }

  /** `^https?:`: the text starts with a URL scheme. */
  predicate HasScheme(t: string) {
    (|t| >= 5 && t[..5] == "http:") || (|t| >= 6 && t[..6] == "https:")
  }

  /** What the model knows of the URL pattern of lab1/part_a.py:32-34: it is
      anchored at the start and begins with `https?:`, so it has no match in
      a text that does not start with a scheme. */
  ghost predicate AnchoredAtScheme(url: Pattern) {
    forall t :: !HasScheme(t) ==> NoneCovered(url(t))
  }

  /** The lemmatizer turns a word into a word: non-empty, without
      whitespace. */
  ghost predicate KeepsWords(lemmatize: string -> string) {
    forall w :: IsRun(w, IsNonSpace) ==> IsRun(lemmatize(w), IsNonSpace)
  }

  /** The patterns of `start`, in order. */
  function Patterns(url: Pattern): seq<Pattern> {
    [NonAlnumMatches, SingleLetterMatches, FullyNumericMatches, url]
  }

  /** `filter_text(line.lower(), patterns=patterns)`: what is left of the
      lower-cased line, never longer than the line. */
  function FilterLine(line: string, url: Pattern): (r: string)
    ensures IsSubsequence(r, LowerStr(line))
    ensures |r| <= |line|
  {
    FilterAllShrinks(LowerStr(line), Patterns(url));
    FilterAll(LowerStr(line), Patterns(url))
  }

  /** `' '.join([lemmatize_text(word) for word in line.split()])`. */
  function CleanLine(filtered: string, lemmatize: string -> string): string {
    JoinSpace(MapWords(lemmatize, Split(filtered)))
  }

  /** The lines `start` writes out: one for each line of the corpus. */
  function Start(lines: seq<string>, lemmatize: string -> string, url: Pattern): (out: seq<string>)
    ensures |out| == |lines|
  {
    seq(|lines|, i requires 0 <= i < |lines| => CleanLine(FilterLine(lines[i], url), lemmatize))
  }

  // ---------------------------------------------------------------------
  // Lemmas

  /** After `lower()` no character is an upper-case ASCII letter, and
      lower-casing again changes nothing. */
  lemma LowerStrIsLower(s: string)
    ensures AllIn(LowerStr(s), IsNotAsciiUpper)
    ensures LowerStr(LowerStr(s)) == LowerStr(s)
  {
  }

  /** Lower-casing a text without upper-case letters changes nothing. */
  lemma LowerStrOfLower(s: string)
    requires AllIn(s, IsNotAsciiUpper)
    ensures LowerStr(s) == s
  {
  }

  /** The filter is the four patterns applied one after the other. */
  lemma FilterLineSteps(line: string, url: Pattern)
    ensures FilterLine(line, url) ==
      Sub(url, Sub(FullyNumericMatches, Sub(SingleLetterMatches, Sub(NonAlnumMatches, LowerStr(line)))))
  {
    var t := LowerStr(line);
    var p3: seq<Pattern> := [NonAlnumMatches, SingleLetterMatches, FullyNumericMatches];
    var p2: seq<Pattern> := [NonAlnumMatches, SingleLetterMatches];
    var p1: seq<Pattern> := [NonAlnumMatches];
    assert Patterns(url)[..3] == p3 && p3[..2] == p2 && p2[..1] == p1 && p1[..0] == [];
    assert FilterAll(t, p1) == Sub(NonAlnumMatches, t);
    assert FilterAll(t, p2) == Sub(SingleLetterMatches, FilterAll(t, p1));
    assert FilterAll(t, p3) == Sub(FullyNumericMatches, FilterAll(t, p2));
    assert FilterAll(t, Patterns(url)) == Sub(url, FilterAll(t, p3));
  }

  /** The URL pattern deletes nothing from a text over `[a-z0-9 ]`: such a
      text has no `:` and so does not start with a scheme. */
  lemma UrlInert(url: Pattern, t: string)
    requires AnchoredAtScheme(url)
    requires AllIn(t, IsLowerAlnumSpace)
    ensures Sub(url, t) == t
  {
    assert !HasScheme(t) by {
      if |t| >= 5 {
        assert t[..5][4] == t[4] != ':';
      }
      if |t| >= 6 {
        assert t[..6][5] == t[5] != ':';
      }
    }
    KeepNoneCovered(t, url(t));
  }

  /** What the class rule leaves of a lower-cased line is over `[a-z0-9 ]`. */
  lemma ClassRuleOfLower(line: string)
    ensures AllIn(Sub(NonAlnumMatches, LowerStr(line)), IsLowerAlnumSpace)
  {
    var lowered := LowerStr(line);
    var a := Sub(NonAlnumMatches, lowered);
    NonAlnumRule(lowered);
    LowerStrIsLower(line);
    KeepInClass(lowered, NonAlnumMatches(lowered), IsNotAsciiUpper);
    assert forall i :: 0 <= i < |a| ==> IsAlnumSpace(a[i]) && IsNotAsciiUpper(a[i]);
  }

  /** A filtered line is over `[a-z0-9 ]`; its fields are the fields left by
      the class rule, without the single letters and then without the
      all-digit words, in order; so no field is a single letter or made of
      digits only. The URL pattern deletes nothing. */
  lemma FilterLineRules(line: string, url: Pattern)
    requires AnchoredAtScheme(url)
    ensures var a := Sub(NonAlnumMatches, LowerStr(line));
      var f := FilterLine(line, url);
      && f == Sub(FullyNumericMatches, Sub(SingleLetterMatches, a))
      && AllIn(f, IsLowerAlnumSpace)
      && Split(f) == FilterWords(FilterWords(Split(a), IsSingleLetter), IsAllDigits)
      && (forall i :: 0 <= i < |Split(f)| ==> !IsSingleLetter(Split(f)[i]) && !IsAllDigits(Split(f)[i]))
  {
    var a := Sub(NonAlnumMatches, LowerStr(line));
    var b := Sub(SingleLetterMatches, a);
    var c := Sub(FullyNumericMatches, b);
    FilterLineSteps(line, url);
    ClassRuleOfLower(line);
    NonAlnumRule(LowerStr(line));
    SingleLetterRule(a);
    FullyNumericRule(b);
    KeepInClass(a, SingleLetterMatches(a), IsLowerAlnumSpace);
    KeepInClass(b, FullyNumericMatches(b), IsLowerAlnumSpace);
    UrlInert(url, c);
  }

  /** Filtering a line that was already filtered changes nothing. */
  lemma FilterLineIdempotent(line: string, url: Pattern)
    requires AnchoredAtScheme(url)
    ensures FilterLine(FilterLine(line, url), url) == FilterLine(line, url)
  {
    var f := FilterLine(line, url);
    FilterLineRules(line, url);
    FilterLineSteps(f, url);
    assert AllIn(f, IsNotAsciiUpper);
    LowerStrOfLower(f);
    NonAlnumRule(f);
    FieldsAreWordRuns(f);
    DeleteWordsNothing(f, IsSingleLetter);
    DeleteWordsNothing(f, IsAllDigits);
    UrlInert(url, f);
  }

  /** When the lemmatizer turns words into words, an output line has no
      leading, trailing or doubled spaces, it is empty exactly when the
      filtered line has no words, and splitting it gives the lemmatized
      words, one for each word of the filtered line. */
  lemma CleanLineWords(filtered: string, lemmatize: string -> string)
    requires KeepsWords(lemmatize)
    ensures var out := CleanLine(filtered, lemmatize);
      && NoStraySpaces(out)
      && (out == [] <==> Split(filtered) == [])
      && Split(out) == MapWords(lemmatize, Split(filtered))
      && |Split(out)| == |Split(filtered)|
  {
    var ws := MapWords(lemmatize, Split(filtered));
    assert forall i :: 0 <= i < |ws| ==> IsRun(ws[i], IsNonSpace);
    JoinSpaceClean(ws);
    RunsOfJoinOfRuns(ws, IsNonSpace);
  }

  /** The lines `start` writes, when the URL pattern is anchored at a scheme
      and the lemmatizer turns words into words: one per corpus line, each
      without stray spaces, each made of the lemmas of that line's filtered
      fields, none of which was a single letter or made of digits only. */
  lemma StartOutput(lines: seq<string>, lemmatize: string -> string, url: Pattern)
    requires AnchoredAtScheme(url)
    requires KeepsWords(lemmatize)
    ensures var out := Start(lines, lemmatize, url);
      && |out| == |lines|
      && forall i :: 0 <= i < |lines| ==>
           var fields := Split(FilterLine(lines[i], url));
           && NoStraySpaces(out[i])
           && Split(out[i]) == MapWords(lemmatize, fields)
           && (forall j :: 0 <= j < |fields| ==> !IsSingleLetter(fields[j]) && !IsAllDigits(fields[j]))
  {
    var out := Start(lines, lemmatize, url);
    forall i | 0 <= i < |lines|
      ensures var fields := Split(FilterLine(lines[i], url));
        && NoStraySpaces(out[i])
        && Split(out[i]) == MapWords(lemmatize, fields)
        && (forall j :: 0 <= j < |fields| ==> !IsSingleLetter(fields[j]) && !IsAllDigits(fields[j]))
    {
      FilterLineRules(lines[i], url);
      CleanLineWords(FilterLine(lines[i], url), lemmatize);
    }
  }
}
