/** Character classes, maximal runs of characters and space-joining: the
    string vocabulary shared by the cleaning stage and the counting stage.

    Python's `\w`, `\d`, `str.lower()` and `str.isspace()` are Unicode-aware;
    here they are their ASCII restrictions. */
module Text {

  predicate IsAsciiLetter(c: char) {
    ('a' <= c <= 'z') || ('A' <= c <= 'Z')
  }

  predicate IsAsciiUpper(c: char) {
    'A' <= c <= 'Z'
  }

  predicate IsAsciiDigit(c: char) {
    '0' <= c <= '9'
  }

  /** The regex class `\w`: letters, digits and underscore. */
  predicate IsWordChar(c: char) {
    IsAsciiLetter(c) || IsAsciiDigit(c) || c == '_'
  }

  /** The class `[a-zA-Z0-9 ]`. */
  predicate IsAlnumSpace(c: char) {
    IsAsciiLetter(c) || IsAsciiDigit(c) || c == ' '
  }

  /** The class `[a-z0-9 ]`. */
  predicate IsLowerAlnumSpace(c: char) {
    ('a' <= c <= 'z') || IsAsciiDigit(c) || c == ' '
  }

  /** What `str.split()` treats as whitespace (its ASCII part). */
  predicate IsSpace(c: char) {
    c == ' ' || (9 <= c as int <= 13) || (28 <= c as int <= 31)
  }

  predicate IsNonSpace(c: char) {
    !IsSpace(c)
  }

  /** Every character of `s` is in the class `inClass`. */
  predicate AllIn(s: string, inClass: char -> bool) {
    forall i :: 0 <= i < |s| ==> inClass(s[i])
  }

  /** No character of `s` is in the class `inClass`. */
  predicate NoneIn(s: string, inClass: char -> bool) {
    forall i :: 0 <= i < |s| ==> !inClass(s[i])
  }

  /** A run: a non-empty string made only of `inRun` characters. */
  predicate IsRun(w: string, inRun: char -> bool) {
    w != [] && AllIn(w, inRun)
  }

  /** The length of the longest prefix of `s` made of `inRun` characters. */
  function RunLength(s: string, inRun: char -> bool): (k: nat)
    ensures k <= |s|
    ensures forall i :: 0 <= i < k ==> inRun(s[i])
    ensures k < |s| ==> !inRun(s[k])
  {
    if s == [] || !inRun(s[0]) then 0 else 1 + RunLength(s[1..], inRun)
  }

  /** The maximal runs of `inRun` characters in `s`, left to right: what
      `re.findall` returns for a pattern `C+` when `inRun` is the class `C`,
      and what `str.split()` returns when `inRun` is "not whitespace". */
  function Runs(s: string, inRun: char -> bool): (rs: seq<string>)
    ensures forall i :: 0 <= i < |rs| ==> IsRun(rs[i], inRun)
    decreases |s|
  {
    if s == [] then []
    else if !inRun(s[0]) then Runs(s[1..], inRun)
    else
      var k := RunLength(s, inRun);
      [s[..k]] + Runs(s[k..], inRun)
  }

  /** `' '.join(ws)`. */
  function JoinSpace(ws: seq<string>): (r: string)
    ensures ws == [] ==> r == []
    ensures ws != [] ==> |r| == |Flatten(ws)| + |ws| - 1
  {
    if ws == [] then []
    else if |ws| == 1 then ws[0]
    else ws[0] + " " + JoinSpace(ws[1..])
  }

  /** The concatenation of a sequence of sequences. */
  function Flatten<T>(xss: seq<seq<T>>): seq<T> {
    if xss == [] then [] else xss[0] + Flatten(xss[1..])
  }

  /** No leading, no trailing and no two adjacent spaces. */
  predicate NoStraySpaces(s: string) {
    && (s != [] ==> s[0] != ' ' && s[|s| - 1] != ' ')
    && forall i :: 0 <= i < |s| - 1 && s[i] == ' ' ==> s[i + 1] != ' '
  }

  // ---------------------------------------------------------------------
  // A reference description of Runs: a string is its separators woven
  // between its runs.

  /** `seps[0] + toks[0] + seps[1] + toks[1] + ... + toks[n-1] + seps[n]`. */
  function Weave(seps: seq<string>, toks: seq<string>): string
    requires |seps| == |toks| + 1
    decreases toks
  {
    if toks == [] then seps[0]
    else seps[0] + toks[0] + Weave(seps[1..], toks[1..])
  }

  /** `toks` are runs, `seps` hold no run character, and every separator
      between two runs is non-empty, so that no two runs touch. */
  predicate IsSeparation(seps: seq<string>, toks: seq<string>, inRun: char -> bool) {
    && |seps| == |toks| + 1
    && (forall i :: 0 <= i < |seps| ==> NoneIn(seps[i], inRun))
    && (forall i :: 0 < i < |toks| ==> seps[i] != [])
    && (forall i :: 0 <= i < |toks| ==> IsRun(toks[i], inRun))
  }

  // ---------------------------------------------------------------------
  // Lemmas about Runs

  /** A string with no run character has no runs. */
  lemma {:induction false} RunsOfNone(s: string, inRun: char -> bool)
    requires NoneIn(s, inRun)
    ensures Runs(s, inRun) == []
    decreases |s|
  {
    if s != [] {
      RunsOfNone(s[1..], inRun);
    }
  }

  /** Runs are empty exactly when there is no run character. */
  lemma {:induction false} RunsEmptyIff(s: string, inRun: char -> bool)
    ensures Runs(s, inRun) == [] <==> NoneIn(s, inRun)
    decreases |s|
  {
    if NoneIn(s, inRun) {
      RunsOfNone(s, inRun);
    } else if s != [] && !inRun(s[0]) {
      RunsEmptyIff(s[1..], inRun);
      assert !NoneIn(s[1..], inRun) by {
        var i :| 0 <= i < |s| && inRun(s[i]);
        assert s[1..][i - 1] == s[i];
      }
    }
  }

  /** Leading characters that are not run characters do not change the runs. */
  lemma {:induction false} RunsSkip(a: string, t: string, inRun: char -> bool)
    requires NoneIn(a, inRun)
    ensures Runs(a + t, inRun) == Runs(t, inRun)
    decreases |a|
  {
    if a == [] {
      assert a + t == t;
    } else {
      assert (a + t)[0] == a[0] && !inRun(a[0]);
      assert (a + t)[1..] == a[1..] + t;
      assert NoneIn(a[1..], inRun) by {
        forall i | 0 <= i < |a[1..]| ensures !inRun(a[1..][i]) {
          assert a[1..][i] == a[i + 1];
        }
      }
      RunsSkip(a[1..], t, inRun);
    }
  }

  /** A run prefix is measured to its end. */
  lemma {:induction false} RunLengthOfRun(w: string, inRun: char -> bool)
    requires AllIn(w, inRun)
    ensures RunLength(w, inRun) == |w|
    decreases |w|
  {
    if w != [] {
      assert AllIn(w[1..], inRun) by {
        forall i | 0 <= i < |w[1..]| ensures inRun(w[1..][i]) {
          assert w[1..][i] == w[i + 1];
        }
      }
      RunLengthOfRun(w[1..], inRun);
    }
  }

  /** Appending a string that begins with a non-run character does not
      lengthen the leading run. */
  lemma {:induction false} RunLengthAppend(a: string, b: string, inRun: char -> bool)
    requires b == [] || !inRun(b[0])
    ensures RunLength(a + b, inRun) == RunLength(a, inRun)
    decreases |a|
  {
    if a == [] {
      assert a + b == b;
    } else {
      assert (a + b)[0] == a[0];
      assert (a + b)[1..] == a[1..] + b;
      RunLengthAppend(a[1..], b, inRun);
    }
  }

  /** A run followed by the end of the string or by a non-run character is
      the first run. */
  lemma RunsPrefix(w: string, t: string, inRun: char -> bool)
    requires IsRun(w, inRun)
    requires t == [] || !inRun(t[0])
    ensures Runs(w + t, inRun) == [w] + Runs(t, inRun)
  {
    var s := w + t;
    RunLengthAppend(w, t, inRun);
    RunLengthOfRun(w, inRun);
    assert s[0] == w[0];
    assert s[..|w|] == w && s[|w|..] == t;
  }

  /** Runs do not cross a boundary whose right side begins with a non-run
      character. */
  lemma {:induction false} RunsAppend(a: string, b: string, inRun: char -> bool)
    requires b == [] || !inRun(b[0])
    ensures Runs(a + b, inRun) == Runs(a, inRun) + Runs(b, inRun)
    decreases |a|
  {
    if a == [] {
      assert a + b == b;
    } else if !inRun(a[0]) {
      assert (a + b)[0] == a[0];
      assert (a + b)[1..] == a[1..] + b;
      RunsAppend(a[1..], b, inRun);
    } else {
      var k := RunLength(a, inRun);
      var s := a + b;
      assert s[0] == a[0];
      RunLengthAppend(a, b, inRun);
      assert s[..k] == a[..k];
      assert s[k..] == a[k..] + b;
      RunsAppend(a[k..], b, inRun);
    }
  }

  /** Two classes that agree on a string measure the same leading run. */
  lemma {:induction false} RunLengthCongruent(s: string, p: char -> bool, q: char -> bool)
    requires forall i :: 0 <= i < |s| ==> p(s[i]) == q(s[i])
    ensures RunLength(s, p) == RunLength(s, q)
    decreases |s|
  {
    if s != [] {
      assert forall i :: 0 <= i < |s[1..]| ==> s[1..][i] == s[i + 1];
      RunLengthCongruent(s[1..], p, q);
    }
  }

  /** Two classes that agree on every character of `s` give the same runs. */
  lemma {:induction false} RunsCongruent(s: string, p: char -> bool, q: char -> bool)
    requires forall i :: 0 <= i < |s| ==> p(s[i]) == q(s[i])
    ensures Runs(s, p) == Runs(s, q)
    decreases |s|
  {
    if s != [] {
      if !p(s[0]) {
        assert forall i :: 0 <= i < |s[1..]| ==> s[1..][i] == s[i + 1];
        RunsCongruent(s[1..], p, q);
      } else {
        var k := RunLength(s, p);
        RunLengthCongruent(s, p, q);
        assert forall i :: 0 <= i < |s[k..]| ==> s[k..][i] == s[i + k];
        RunsCongruent(s[k..], p, q);
      }
    }
  }

  /** Runs of a `' '`-join of lines are the runs of each line in turn,
      because a space never belongs to a run. */
  lemma {:induction false} RunsOfJoin(lines: seq<string>, inRun: char -> bool)
    requires !inRun(' ')
    ensures Runs(JoinSpace(lines), inRun) == Flatten(seq(|lines|, i requires 0 <= i < |lines| => Runs(lines[i], inRun)))
    decreases |lines|
  {
    var each := seq(|lines|, i requires 0 <= i < |lines| => Runs(lines[i], inRun));
    if lines == [] {
    } else if |lines| == 1 {
      assert Flatten(each[1..]) == [];
      assert Flatten(each) == Runs(lines[0], inRun) + Flatten(each[1..]);
    } else {
      var rest := JoinSpace(lines[1..]);
      assert lines[0] + " " + rest == lines[0] + (" " + rest);
      RunsAppend(lines[0], " " + rest, inRun);
      RunsSkip(" ", rest, inRun);
      RunsOfJoin(lines[1..], inRun);
      assert each[1..] == seq(|lines[1..]|, i requires 0 <= i < |lines[1..]| => Runs(lines[1..][i], inRun));
    }
  }

  /** Joining runs with single spaces and splitting again gives the runs
      back: the join is the unique string those runs came from. */
  lemma {:induction false} RunsOfJoinOfRuns(ws: seq<string>, inRun: char -> bool)
    requires !inRun(' ')
    requires forall i :: 0 <= i < |ws| ==> IsRun(ws[i], inRun)
    ensures Runs(JoinSpace(ws), inRun) == ws
    decreases |ws|
  {
    if |ws| == 1 {
      RunsPrefix(ws[0], [], inRun);
      assert ws[0] + [] == ws[0];
    } else if |ws| > 1 {
      var rest := JoinSpace(ws[1..]);
      assert ws[0] + " " + rest == ws[0] + (" " + rest);
      RunsPrefix(ws[0], " " + rest, inRun);
      RunsSkip(" ", rest, inRun);
      RunsOfJoinOfRuns(ws[1..], inRun);
    }
  }

  /** A `' '`-join of space-free non-empty words has no leading, trailing or
      doubled space, and is empty only when there are no words. */
  lemma {:induction false} JoinSpaceClean(ws: seq<string>)
    requires forall i :: 0 <= i < |ws| ==> IsRun(ws[i], IsNonSpace)
    ensures NoStraySpaces(JoinSpace(ws))
    ensures JoinSpace(ws) == [] <==> ws == []
    decreases |ws|
  {
    if |ws| > 1 {
      var w := ws[0];
      var rest := JoinSpace(ws[1..]);
      JoinSpaceClean(ws[1..]);
      var s := JoinSpace(ws);
      assert s == w + " " + rest;
      assert IsNonSpace(w[0]) && IsNonSpace(w[|w| - 1]);
      forall i | 0 <= i < |s| - 1
        ensures s[i] == ' ' ==> s[i + 1] != ' '
      {
        if i < |w| {
          assert s[i] == w[i] && IsNonSpace(w[i]);
        } else if i == |w| {
          assert s[i + 1] == rest[0];
        } else {
          assert s[i] == rest[i - |w| - 1] && s[i + 1] == rest[i - |w|];
        }
      }
    } else if |ws| == 1 {
      var w := ws[0];
      assert IsNonSpace(w[0]) && IsNonSpace(w[|w| - 1]);
      forall i | 0 <= i < |w| - 1
        ensures w[i] == ' ' ==> w[i + 1] != ' '
      {
        assert IsNonSpace(w[i]);
      }
    }
  }

  /** Weaving runs with valid separators and taking the runs gives the runs
      back: the separation determines the runs. */
  lemma {:induction false} RunsOfWeave(seps: seq<string>, toks: seq<string>, inRun: char -> bool)
    requires IsSeparation(seps, toks, inRun)
    ensures Runs(Weave(seps, toks), inRun) == toks
    decreases toks
  {
    if toks == [] {
      RunsOfNone(seps[0], inRun);
    } else {
      var rest := Weave(seps[1..], toks[1..]);
      assert IsSeparation(seps[1..], toks[1..], inRun) by {
        forall i | 0 < i < |toks[1..]|
          ensures seps[1..][i] != []
        {
          assert seps[1..][i] == seps[i + 1];
        }
        forall i | 0 <= i < |seps[1..]|
          ensures NoneIn(seps[1..][i], inRun)
        {
          assert seps[1..][i] == seps[i + 1];
        }
      }
      if toks[1..] != [] {
        assert rest == seps[1] + toks[1..][0] + Weave(seps[2..], toks[2..]) by {
          assert seps[1..][0] == seps[1];
          assert seps[1..][1..] == seps[2..];
          assert toks[1..][1..] == toks[2..];
        }
        assert seps[1] != [] && !inRun(seps[1][0]);
        assert rest[0] == seps[1][0];
      } else {
        assert rest == seps[1];
      }
      assert Weave(seps, toks) == seps[0] + (toks[0] + rest);
      RunsSkip(seps[0], toks[0] + rest, inRun);
      RunsPrefix(toks[0], rest, inRun);
      RunsOfWeave(seps[1..], toks[1..], inRun);
    }
  }

  /** The first character of a weave with at least one run. */
  lemma WeaveHead(seps: seq<string>, toks: seq<string>, inRun: char -> bool)
    requires IsSeparation(seps, toks, inRun) && toks != []
    ensures Weave(seps, toks) != []
    ensures Weave(seps, toks)[0] == if seps[0] != [] then seps[0][0] else toks[0][0]
  {
    assert Weave(seps, toks) == seps[0] + toks[0] + Weave(seps[1..], toks[1..]);
  }

  /** Every string is its runs woven with valid separators. */
  lemma {:induction false} WeaveOfRuns(s: string, inRun: char -> bool) returns (seps: seq<string>)
    ensures IsSeparation(seps, Runs(s, inRun), inRun)
    ensures Weave(seps, Runs(s, inRun)) == s
    decreases |s|
  {
    var toks := Runs(s, inRun);
    if s == [] {
      seps := [[]];
    } else if !inRun(s[0]) {
      var seps' := WeaveOfRuns(s[1..], inRun);
      seps := [[s[0]] + seps'[0]] + seps'[1..];
      WeaveWiden(s[0], seps', toks, inRun);
      assert s == [s[0]] + s[1..];
    } else {
      var k := RunLength(s, inRun);
      var rest := s[k..];
      var toks' := Runs(rest, inRun);
      assert toks == [s[..k]] + toks';
      var seps' := WeaveOfRuns(rest, inRun);
      seps := [[]] + seps';
      if toks' != [] {
        assert rest != [] && !inRun(rest[0]);
        WeaveHead(seps', toks', inRun);
        assert inRun(toks'[0][0]);
      }
      WeaveAddRun(s[..k], seps', toks', inRun);
      assert s == s[..k] + rest;
    }
  }

  /** A non-run character can be added in front of the first separator. */
  lemma WeaveWiden(c: char, seps: seq<string>, toks: seq<string>, inRun: char -> bool)
    requires IsSeparation(seps, toks, inRun) && !inRun(c)
    ensures IsSeparation([[c] + seps[0]] + seps[1..], toks, inRun)
    ensures Weave([[c] + seps[0]] + seps[1..], toks) == [c] + Weave(seps, toks)
  {
    var seps' := [[c] + seps[0]] + seps[1..];
    assert NoneIn(seps'[0], inRun) by {
      forall i | 0 <= i < |seps'[0]|
        ensures !inRun(seps'[0][i])
      {
        if i > 0 {
          assert seps'[0][i] == seps[0][i - 1];
        }
      }
    }
    assert forall i :: 0 < i < |seps'| ==> seps'[i] == seps[i];
    assert seps'[1..] == seps[1..];
  }

  /** A run can be added in front of a separation, behind an empty
      separator, when the old first separator is non-empty. */
  lemma WeaveAddRun(w: string, seps: seq<string>, toks: seq<string>, inRun: char -> bool)
    requires IsRun(w, inRun) && IsSeparation(seps, toks, inRun)
    requires toks != [] ==> seps[0] != []
    ensures IsSeparation([[]] + seps, [w] + toks, inRun)
    ensures Weave([[]] + seps, [w] + toks) == w + Weave(seps, toks)
  {
    var seps' := [[]] + seps;
    var toks' := [w] + toks;
    assert forall i :: 0 < i < |seps'| ==> seps'[i] == seps[i - 1];
    assert forall i :: 0 < i < |toks'| ==> toks'[i] == toks[i - 1];
    assert seps'[1..] == seps && toks'[1..] == toks;
  }

  /** Runs(s) is exactly the sequence of runs that `s` can be woven from. */
  lemma RunsCharacterization(s: string, toks: seq<string>, inRun: char -> bool)
    ensures Runs(s, inRun) == toks <==>
            exists seps :: IsSeparation(seps, toks, inRun) && Weave(seps, toks) == s
  {
    if Runs(s, inRun) == toks {
      var seps := WeaveOfRuns(s, inRun);
      assert IsSeparation(seps, toks, inRun) && Weave(seps, toks) == s;
    }
    if exists seps :: IsSeparation(seps, toks, inRun) && Weave(seps, toks) == s {
      var seps :| IsSeparation(seps, toks, inRun) && Weave(seps, toks) == s;
      RunsOfWeave(seps, toks, inRun);
    }
  }
}
