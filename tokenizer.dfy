/** The tokenizer of the counting stage (`tokenize_of` in lab1/part_b.py):
    the word tokens of a text are the maximal runs of `\w` characters, as
    `re.findall(r'\w+', text)` returns them. */
module Tokenizer {
  import opened Text

  /** `re.findall(r'\w+', text)`. */
  function Tokenize(text: string): (tokens: seq<string>)
    ensures forall i :: 0 <= i < |tokens| ==> IsRun(tokens[i], IsWordChar)
  {
    Runs(text, IsWordChar)
  }

  /** `tokenize_of`: the number of tokens together with the tokens. */
  function TokenizeOf(text: string): (r: (nat, seq<string>))
    ensures r.0 == |r.1|
    ensures forall i :: 0 <= i < |r.1| ==> r.1[i] != [] && AllIn(r.1[i], IsWordChar)
  {
    var tokens := Tokenize(text);
    (|tokens|, tokens)
  }

  /** A text yields no token exactly when it has no word character. */
  lemma TokenizeEmptyIff(text: string)
    ensures Tokenize(text) == [] <==> NoneIn(text, IsWordChar)
  {
    RunsEmptyIff(text, IsWordChar);
  }

  /** The tokens are, in order, the word runs the text is made of: `tokens`
      is the result exactly when the text is `tokens` interleaved with
      separators that hold no word character, every inner one non-empty. */
  lemma TokenizeCharacterization(text: string, tokens: seq<string>)
    ensures Tokenize(text) == tokens <==>
            exists seps :: IsSeparation(seps, tokens, IsWordChar) && Weave(seps, tokens) == text
  {
    RunsCharacterization(text, tokens, IsWordChar);
  }

  /** Tokenizing lines joined by single spaces is tokenizing each line and
      concatenating the results. */
  lemma TokenizeJoin(lines: seq<string>)
    ensures Tokenize(JoinSpace(lines)) == Flatten(seq(|lines|, i requires 0 <= i < |lines| => Tokenize(lines[i])))
  {
    RunsOfJoin(lines, IsWordChar);
    assert seq(|lines|, i requires 0 <= i < |lines| => Tokenize(lines[i]))
        == seq(|lines|, i requires 0 <= i < |lines| => Runs(lines[i], IsWordChar));
  }
}
