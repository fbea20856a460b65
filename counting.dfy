/** The counting stage's entry point (`start` in lab1/part_b.py): the
    cleaned lines are joined into one long line with single spaces, the
    line is tokenized, N and V are computed, and the 25 most common entries
    of the vocabulary are ranked. The ranking is over single tokens: the
    Counter is the unigram vocabulary. */
module Counting {
  import opened Text
  import opened Tokenizer
  import opened Vocabulary
  import opened Ranking

  /** How many entries the ranking lists. */
  const TOP: nat := 25

  /** The values the stage reports. */
  datatype Report = Report(tokenCount: nat, vocabularySize: nat, vocabulary: Counter, top: seq<(string, nat)>)

  /** `start`, with the lines of the cleaned corpus given: V is the size of
      the vocabulary, at most N and 0 exactly when N is, and the ranking
      lists min(25, V) entries, each a key with its count. */
  function Start(lines: seq<string>): (r: Report)
    ensures r.vocabularySize == |r.vocabulary.keys|
    ensures r.vocabularySize <= r.tokenCount
    ensures r.vocabularySize == 0 <==> r.tokenCount == 0
    ensures |r.top| == Min(TOP, r.vocabularySize)
    ensures forall i :: 0 <= i < |r.top| ==> r.top[i].0 in r.vocabulary.keys && r.top[i].1 == r.vocabulary.Get(r.top[i].0)
  {
    var veryLongSingleLine := JoinSpace(lines);
    var (totalNumOfTokens, tokens) := TokenizeOf(veryLongSingleLine);
    var (totalVocabSize, totalVocab) := VocabularySizeOf(tokens);
    Report(totalNumOfTokens, totalVocabSize, totalVocab, MostCommon(totalVocab, TOP))
  }

  /** The tokens of the corpus: every line's tokens, line after line. */
  function CorpusTokens(lines: seq<string>): seq<string> {
    Flatten(seq(|lines|, i requires 0 <= i < |lines| => Tokenize(lines[i])))
  }

  /** The stage counts the tokens of all lines together. */
  lemma StartCountsCorpus(lines: seq<string>)
    ensures var tokens := CorpusTokens(lines);
      Start(lines) == Report(|tokens|, |CounterOf(tokens).keys|, CounterOf(tokens), MostCommon(CounterOf(tokens), TOP))
  {
    TokenizeJoin(lines);
  }

  /** What the stage reports for a corpus: N is the number of tokens of all
      lines together, V the number of distinct ones, at most N and 0 exactly
      for a corpus without tokens; the vocabulary counts every token by its
      occurrences. */
  lemma StartSizes(lines: seq<string>)
    ensures var r := Start(lines);
      var tokens := CorpusTokens(lines);
      && r.tokenCount == |tokens|
      && r.vocabularySize == |set t | t in tokens|
      && r.vocabularySize <= r.tokenCount
      && (r.vocabularySize == 0 <==> r.tokenCount == 0)
      && (forall t :: t in tokens <==> t in r.vocabulary.count)
      && (forall t :: r.vocabulary.Get(t) == multiset(tokens)[t])
  {
    var tokens := CorpusTokens(lines);
    StartCountsCorpus(lines);
    CounterOfCounts(tokens);
    VocabularySize(tokens);
  }

  /** The top entries of a token list's vocabulary: as many as the distinct
      tokens allow up to 25, each a token with its number of occurrences,
      counts that never rise, and every token left out counted at most as
      often as the last entry. */
  lemma TopOf(tokens: seq<string>)
    ensures var top := MostCommon(CounterOf(tokens), TOP);
      && |top| == Min(TOP, |set t | t in tokens|)
      && (forall i :: 0 <= i < |top| ==> top[i].0 in tokens && top[i].1 == multiset(tokens)[top[i].0] >= 1)
      && (forall i, j :: 0 <= i < j < |top| ==> top[i].1 >= top[j].1)
      && (forall t :: t in tokens && t !in Names(top) && top != [] ==> multiset(tokens)[t] <= top[|top| - 1].1)
  {
    MostCommonLength(tokens, TOP);
    MostCommonEntries(tokens, TOP);
    MostCommonOrdered(tokens, TOP);
    MostCommonOmitted(tokens, TOP);
  }

  /** The ranking the stage reports: as many entries as V allows up to 25,
      each a corpus token with its number of occurrences, counts that never
      rise, and every token left out counted at most as often as the last
      entry. */
  lemma StartTop(lines: seq<string>)
    ensures var r := Start(lines);
      var tokens := CorpusTokens(lines);
      && |r.top| == Min(TOP, r.vocabularySize)
      && (forall i :: 0 <= i < |r.top| ==> r.top[i].0 in tokens && r.top[i].1 == multiset(tokens)[r.top[i].0] >= 1)
      && (forall i, j :: 0 <= i < j < |r.top| ==> r.top[i].1 >= r.top[j].1)
      && (forall t :: t in tokens && t !in Names(r.top) && r.top != [] ==>
            multiset(tokens)[t] <= r.top[|r.top| - 1].1)
  {
    var tokens := CorpusTokens(lines);
    StartCountsCorpus(lines);
    var r := Start(lines);
    assert r.top == MostCommon(CounterOf(tokens), TOP);
    TopOf(tokens);
  }
}
