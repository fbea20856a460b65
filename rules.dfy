/** The three cleaning patterns of lab1/part_a.py written as what they
    cover:

    - `[^a-zA-Z0-9 ]` covers every character outside `[a-zA-Z0-9 ]`;
    - `\b[a-zA-Z]\b` covers a letter with a word boundary on both sides,
      that is a maximal run of `\w` characters that is one letter long;
    - `\b\d+\b` covers a run of digits with a word boundary on both sides;
      since digits are `\w` characters the run cannot stop inside a longer
      `\w` run, so it covers exactly the maximal `\w` runs made only of
      digits. */
module Rules {
  import opened Text
  import opened Filtering

  /** `[^a-zA-Z0-9 ]`. */
  function NonAlnumMatches(text: string): (covered: seq<bool>)
    ensures |covered| == |text|
  {
    seq(|text|, i requires 0 <= i < |text| => !IsAlnumSpace(text[i]))
  }

  /** A one-letter word. */
  predicate IsSingleLetter(w: string) {
    |w| == 1 && IsAsciiLetter(w[0])
  }

  /** A word of digits only. */
  predicate IsAllDigits(w: string) {
    AllIn(w, IsAsciiDigit)
  }

  /** `k` flags, all equal to `b`. */
  function Flags(b: bool, k: nat): (r: seq<bool>)
    ensures |r| == k
  {
    seq(k, _ => b)
  }

  /** Covers every maximal run of `\w` characters for which `drop` holds: a
      regex whose matches are whole words. */
  function WordMatches(text: string, drop: string -> bool): (covered: seq<bool>)
    ensures |covered| == |text|
    decreases |text|
  {
    if text == [] then []
    else if !IsWordChar(text[0]) then [false] + WordMatches(text[1..], drop)
    else
      var k := RunLength(text, IsWordChar);
      Flags(drop(text[..k]), k) + WordMatches(text[k..], drop)
  }

  /** `\b[a-zA-Z]\b`. */
  function SingleLetterMatches(text: string): (covered: seq<bool>)
    ensures |covered| == |text|
  {
    WordMatches(text, IsSingleLetter)
  }

  /** `\b\d+\b`. */
  function FullyNumericMatches(text: string): (covered: seq<bool>)
    ensures |covered| == |text|
  {
    WordMatches(text, IsAllDigits)
  }

  /** The characters of `s` in `keep`, in order: a reference definition of
      deleting by class. */
  function SelectChars(s: string, keep: char -> bool): string {
    if s == [] then [] else (if keep(s[0]) then [s[0]] else []) + SelectChars(s[1..], keep)
  }

  /** The words of `ws` for which `drop` does not hold, in order. */
  function FilterWords(ws: seq<string>, drop: string -> bool): (r: seq<string>)
    ensures forall i :: 0 <= i < |r| ==> !drop(r[i]) && r[i] in ws
  {
    if ws == [] then []
    else (if drop(ws[0]) then [] else [ws[0]]) + FilterWords(ws[1..], drop)
  }

  // ---------------------------------------------------------------------
  // The class rule

  /** Deleting what `[^a-zA-Z0-9 ]` matches selects the characters of
      `[a-zA-Z0-9 ]`. */
  lemma {:induction false} NonAlnumSelects(text: string)
    ensures Sub(NonAlnumMatches, text) == SelectChars(text, IsAlnumSpace)
    decreases |text|
  {
    if text != [] {
      assert NonAlnumMatches(text)[1..] == NonAlnumMatches(text[1..]);
      NonAlnumSelects(text[1..]);
    }
  }

  lemma {:induction false} SelectCharsInClass(s: string, keep: char -> bool)
    ensures AllIn(SelectChars(s, keep), keep)
    decreases |s|
  {
    if s != [] {
      SelectCharsInClass(s[1..], keep);
    }
  }

  lemma {:induction false} SelectCharsOfClass(s: string, keep: char -> bool)
    requires AllIn(s, keep)
    ensures SelectChars(s, keep) == s
    decreases |s|
  {
    if s != [] {
      assert AllIn(s[1..], keep) by {
        assert forall i :: 0 <= i < |s[1..]| ==> s[1..][i] == s[i + 1];
      }
      SelectCharsOfClass(s[1..], keep);
      assert s == [s[0]] + s[1..];
    }
  }

  /** After the class rule every character is in `[a-zA-Z0-9 ]`, every
      such character is kept, and a second application changes nothing. */
  lemma NonAlnumRule(text: string)
    ensures AllIn(Sub(NonAlnumMatches, text), IsAlnumSpace)
    ensures AllIn(text, IsAlnumSpace) ==> Sub(NonAlnumMatches, text) == text
    ensures Sub(NonAlnumMatches, Sub(NonAlnumMatches, text)) == Sub(NonAlnumMatches, text)
  {
    var once := Sub(NonAlnumMatches, text);
    NonAlnumSelects(text);
    SelectCharsInClass(text, IsAlnumSpace);
    NonAlnumSelects(once);
    SelectCharsOfClass(once, IsAlnumSpace);
    if AllIn(text, IsAlnumSpace) {
      SelectCharsOfClass(text, IsAlnumSpace);
    }
  }

  // ---------------------------------------------------------------------
  // The word rules

  lemma {:induction false} KeepCoveredAll(w: string, b: bool)
    ensures Keep(w, Flags(b, |w|)) == if b then [] else w
    decreases |w|
  {
    if w != [] {
      assert Flags(b, |w|)[1..] == Flags(b, |w| - 1);
      KeepCoveredAll(w[1..], b);
      assert w == [w[0]] + w[1..];
    }
  }

  /** Deleting whole words passes over a character that is not a word
      character. */
  lemma DeleteWordsSkip(text: string, drop: string -> bool)
    requires text != [] && !IsWordChar(text[0])
    ensures Keep(text, WordMatches(text, drop)) == [text[0]] + Keep(text[1..], WordMatches(text[1..], drop))
  {
  }

  /** Deleting whole words removes or keeps a maximal word run as a whole. */
  lemma DeleteWordsWord(text: string, drop: string -> bool, k: nat)
    requires text != [] && IsWordChar(text[0])
    requires k == RunLength(text, IsWordChar)
    ensures Keep(text, WordMatches(text, drop)) ==
              (if drop(text[..k]) then [] else text[..k]) + Keep(text[k..], WordMatches(text[k..], drop))
  {
    var w := text[..k];
    var tail := text[k..];
    assert text == w + tail;
    assert WordMatches(text, drop) == Flags(drop(w), k) + WordMatches(tail, drop);
    KeepAppend(w, tail, Flags(drop(w), k), WordMatches(tail, drop));
    KeepCoveredAll(w, drop(w));
  }

  /** Deleting whole words from a text that starts at a word boundary gives
      a text that starts at a word boundary. */
  lemma DeleteWordsHead(text: string, drop: string -> bool)
    requires text == [] || !IsWordChar(text[0])
    ensures var r := Keep(text, WordMatches(text, drop)); r == [] || !IsWordChar(r[0])
  {
    if text != [] {
      DeleteWordsSkip(text, drop);
    }
  }

  /** Deleting whole words, one step past a character that is not a word
      character. */
  lemma DeleteWordsRunsSkip(text: string, drop: string -> bool)
    requires text != [] && !IsWordChar(text[0])
    requires Runs(Keep(text[1..], WordMatches(text[1..], drop)), IsWordChar) == FilterWords(Runs(text[1..], IsWordChar), drop)
    ensures Runs(Keep(text, WordMatches(text, drop)), IsWordChar) == FilterWords(Runs(text, IsWordChar), drop)
  {
    DeleteWordsSkip(text, drop);
    var rest := Keep(text[1..], WordMatches(text[1..], drop));
    RunsSkip([text[0]], rest, IsWordChar);
  }

  /** Filtering a list that starts with `w`. */
  lemma FilterWordsCons(w: string, ws: seq<string>, drop: string -> bool)
    ensures FilterWords([w] + ws, drop) == (if drop(w) then [] else [w]) + FilterWords(ws, drop)
  {
    assert ([w] + ws)[1..] == ws;
  }

  /** Deleting whole words, one step past a maximal word run. */
  lemma DeleteWordsRunsWord(text: string, drop: string -> bool)
    requires text != [] && IsWordChar(text[0])
    requires var k := RunLength(text, IsWordChar);
      Runs(Keep(text[k..], WordMatches(text[k..], drop)), IsWordChar) == FilterWords(Runs(text[k..], IsWordChar), drop)
    ensures Runs(Keep(text, WordMatches(text, drop)), IsWordChar) == FilterWords(Runs(text, IsWordChar), drop)
  {
    var k := RunLength(text, IsWordChar);
    var w := text[..k];
    var tail := text[k..];
    var rest := Keep(tail, WordMatches(tail, drop));
    var runs := Runs(tail, IsWordChar);
    var after := Keep(text, WordMatches(text, drop));
    assert Runs(text, IsWordChar) == [w] + runs;
    FilterWordsCons(w, runs, drop);
    DeleteWordsWord(text, drop, k);
    if drop(w) {
      assert after == rest;
    } else {
      assert after == w + rest;
      DeleteWordsHead(tail, drop);
      RunsPrefix(w, rest, IsWordChar);
    }
  }

  /** The word runs left after deleting whole words are the word runs of
      the text for which `drop` does not hold, in order: the deleted words
      vanish and no two remaining words are joined. */
  lemma {:induction false} DeleteWordsRuns(text: string, drop: string -> bool)
    ensures Runs(Keep(text, WordMatches(text, drop)), IsWordChar) == FilterWords(Runs(text, IsWordChar), drop)
    decreases |text|
  {
    if text != [] {
      if !IsWordChar(text[0]) {
        DeleteWordsRuns(text[1..], drop);
        DeleteWordsRunsSkip(text, drop);
      } else {
        var k := RunLength(text, IsWordChar);
        DeleteWordsRuns(text[k..], drop);
        DeleteWordsRunsWord(text, drop);
      }
    }
  }

  /** When no word is to be deleted, no character is covered. */
  lemma {:induction false} WordMatchesNothing(text: string, drop: string -> bool)
    requires forall i :: 0 <= i < |Runs(text, IsWordChar)| ==> !drop(Runs(text, IsWordChar)[i])
    ensures NoneCovered(WordMatches(text, drop))
    decreases |text|
  {
    if text != [] {
      var all := Runs(text, IsWordChar);
      if !IsWordChar(text[0]) {
        assert Runs(text[1..], IsWordChar) == all;
        WordMatchesNothing(text[1..], drop);
      } else {
        var k := RunLength(text, IsWordChar);
        var runs := Runs(text[k..], IsWordChar);
        assert all == [text[..k]] + runs;
        assert all[0] == text[..k];
        assert forall i :: 0 <= i < |runs| ==> runs[i] == all[i + 1];
        WordMatchesNothing(text[k..], drop);
      }
    }
  }

  /** Deleting whole words changes nothing when no word is to be deleted. */
  lemma DeleteWordsNothing(text: string, drop: string -> bool)
    requires forall i :: 0 <= i < |Runs(text, IsWordChar)| ==> !drop(Runs(text, IsWordChar)[i])
    ensures Keep(text, WordMatches(text, drop)) == text
  {
    WordMatchesNothing(text, drop);
    KeepNoneCovered(text, WordMatches(text, drop));
  }

  /** Deleting whole words a second time changes nothing. */
  lemma DeleteWordsIdempotent(text: string, drop: string -> bool)
    ensures var once := Keep(text, WordMatches(text, drop));
      Keep(once, WordMatches(once, drop)) == once
  {
    var once := Keep(text, WordMatches(text, drop));
    DeleteWordsRuns(text, drop);
    DeleteWordsNothing(once, drop);
  }

  /** On a text over `[a-zA-Z0-9 ]` the word runs are the space-separated
      fields. */
  lemma FieldsAreWordRuns(text: string)
    requires AllIn(text, IsAlnumSpace)
    ensures Runs(text, IsNonSpace) == Runs(text, IsWordChar)
  {
    RunsCongruent(text, IsNonSpace, IsWordChar);
  }

  /** Deleting keeps a text over a class over that class. */
  lemma KeepInClass(s: string, covered: seq<bool>, inClass: char -> bool)
    requires AllIn(s, inClass)
    ensures AllIn(Keep(s, covered), inClass)
  {
    var r := Keep(s, covered);
    forall i | 0 <= i < |r|
      ensures inClass(r[i])
    {
      assert r[i] in multiset(r);
    }
  }

  /** A rule that deletes whole words, on a text over `[a-zA-Z0-9 ]`: the
      fields `str.split()` finds afterwards are the fields before for which
      `drop` does not hold, in order; and a second application changes
      nothing. */
  lemma WordRule(text: string, drop: string -> bool)
    requires AllIn(text, IsAlnumSpace)
    ensures var after := Keep(text, WordMatches(text, drop));
      && AllIn(after, IsAlnumSpace)
      && Runs(after, IsNonSpace) == FilterWords(Runs(text, IsNonSpace), drop)
      && Keep(after, WordMatches(after, drop)) == after
  {
    var after := Keep(text, WordMatches(text, drop));
    KeepInClass(text, WordMatches(text, drop), IsAlnumSpace);
    FieldsAreWordRuns(text);
    FieldsAreWordRuns(after);
    DeleteWordsRuns(text, drop);
    DeleteWordsIdempotent(text, drop);
  }

  /** `\b[a-zA-Z]\b` on a text over `[a-zA-Z0-9 ]`: afterwards no field is a
      single letter, every other field (such as `1a` or `ab`) is kept in
      order, and a second application changes nothing. */
  lemma SingleLetterRule(text: string)
    requires AllIn(text, IsAlnumSpace)
    ensures var after := Sub(SingleLetterMatches, text);
      && AllIn(after, IsAlnumSpace)
      && Runs(after, IsNonSpace) == FilterWords(Runs(text, IsNonSpace), IsSingleLetter)
      && (forall i :: 0 <= i < |Runs(after, IsNonSpace)| ==> !IsSingleLetter(Runs(after, IsNonSpace)[i]))
      && Sub(SingleLetterMatches, after) == after
  {
    WordRule(text, IsSingleLetter);
  }

  /** `\b\d+\b` on a text over `[a-zA-Z0-9 ]`: afterwards no field is made of
      digits only, every other field (such as `abc123`) is kept in order,
      and a second application changes nothing. */
  lemma FullyNumericRule(text: string)
    requires AllIn(text, IsAlnumSpace)
    ensures var after := Sub(FullyNumericMatches, text);
      && AllIn(after, IsAlnumSpace)
      && Runs(after, IsNonSpace) == FilterWords(Runs(text, IsNonSpace), IsAllDigits)
      && (forall i :: 0 <= i < |Runs(after, IsNonSpace)| ==> !IsAllDigits(Runs(after, IsNonSpace)[i]))
      && Sub(FullyNumericMatches, after) == after
  {
    WordRule(text, IsAllDigits);
  }
}
